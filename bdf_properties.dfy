/** `get_font_properties`: the scan of a BDF font's STARTPROPERTIES ... ENDPROPERTIES
    block into a dictionary from property name to its first value word.
    The three Python files hold the same text of this function
    (u8gettext/console_scripts.py, scripts/u8gettext-gen-data.py and
    scripts/u8glib-po-to-c-font.py); it is modelled once, over the lines that
    successive `readline()` calls return. Past the last line `readline()`
    returns "" forever. */
module BdfProperties {
  import opened Common
  import opened Text

  const StartMarker: string := "STARTPROPERTIES"
  const EndMarker: string := "ENDPROPERTIES"

  /** What the function returns or raises. */
  datatype Outcome =
    | Properties(props: map<string, string>)  // the dictionary it returns
    | NoProperties                            // it returns None
    | Raised(error: Error)                    // it raises, or never returns

  predicate IsStart(line: string) { Contains(line, StartMarker) }
  predicate IsEnd(line: string) { Contains(line, EndMarker) }

  /** The index of the first line containing ENDPROPERTIES, or `|lines|`. */
  function FirstEnd(lines: seq<string>): (e: nat)
    ensures e <= |lines|
    ensures e < |lines| ==> IsEnd(lines[e])
    ensures forall j :: 0 <= j < e ==> !IsEnd(lines[j])
  {
    if lines == [] || IsEnd(lines[0]) then 0 else 1 + FirstEnd(lines[1..])
  }

  /** The index of the last line containing STARTPROPERTIES, or -1. */
  function LastStart(lines: seq<string>): (s: int)
    ensures -1 <= s < |lines|
    ensures s >= 0 ==> IsStart(lines[s])
    ensures forall j :: s < j < |lines| ==> !IsStart(lines[j])
  {
    if lines == [] then -1
    else if IsStart(lines[|lines| - 1]) then |lines| - 1
    else LastStart(lines[..|lines| - 1])
  }

  /** No line after a STARTPROPERTIES line is short, except STARTPROPERTIES lines
      themselves (a short line there makes `line_parties[0]` or `[1]` raise). */
  predicate Healthy(lines: seq<string>)
  {
    if lines == [] then true
    else
      var init := lines[..|lines| - 1];
      var last := lines[|lines| - 1];
      Healthy(init) && (LastStart(init) < 0 || IsStart(last) || |Split(last)| >= 2)
  }

  /** The dictionary the assignments `properties[w[0]] = w[1]` build, line by line. */
  function Assignments(lines: seq<string>): map<string, string>
  {
    if lines == [] then map[]
    else
      var m := Assignments(lines[..|lines| - 1]);
      var w := Split(lines[|lines| - 1]);
      if |w| >= 2 then m[w[0] := w[1]] else m
  }

  /** The outcome described from the whole input at once: only the lines before the
      first ENDPROPERTIES are read; with no STARTPROPERTIES among them the result is
      None, or the loop never ends when ENDPROPERTIES is missing too; otherwise the
      lines after the last STARTPROPERTIES fill the dictionary, unless a short line
      or the end of the input comes first. */
  function PropertiesOf(lines: seq<string>): Outcome
  {
    var e := FirstEnd(lines);
    var region := lines[..e];
    var s := LastStart(region);
    if s < 0 then (if e < |lines| then NoProperties else Raised(NeverTerminates))
    else if !Healthy(region) || e == |lines| then Raised(IndexError)
    else Properties(Assignments(region[s + 1..]))
  }

  lemma {:induction false} HealthyPrefix(lines: seq<string>, k: nat)
    requires k <= |lines| && Healthy(lines)
    ensures Healthy(lines[..k])
    decreases |lines|
  {
    if k < |lines| {
      assert lines[..|lines| - 1][..k] == lines[..k];
      HealthyPrefix(lines[..|lines| - 1], k);
    } else {
      assert lines[..k] == lines;
    }
  }

  lemma {:induction false} LastStartGrows(lines: seq<string>, k: nat)
    requires k <= |lines|
    ensures LastStart(lines[..k]) <= LastStart(lines)
  {
    var s := LastStart(lines[..k]);
    if s >= 0 {
      assert lines[..k][s] == lines[s];
    }
  }

  /** The dictionary state after the first `i` lines: None before any
      STARTPROPERTIES, else the assignments since the last one. */
  function StateAfter(lines: seq<string>, i: nat): Option<map<string, string>>
    requires i <= |lines|
  {
    var s := LastStart(lines[..i]);
    if s < 0 then None else Some(Assignments(lines[..i][s + 1..]))
  }

  lemma StepStart(lines: seq<string>, i: nat)
    requires i < |lines| && IsStart(lines[i]) && Healthy(lines[..i])
    ensures Healthy(lines[..i + 1]) && StateAfter(lines, i + 1) == Some(map[])
  {
    assert lines[..i + 1][..i] == lines[..i];
  }

  lemma StepBeforeStart(lines: seq<string>, i: nat)
    requires i < |lines| && !IsStart(lines[i]) && Healthy(lines[..i]) && StateAfter(lines, i).None?
    ensures Healthy(lines[..i + 1]) && StateAfter(lines, i + 1).None?
  {
    assert lines[..i + 1][..i] == lines[..i];
  }

  lemma StepAssign(lines: seq<string>, i: nat)
    requires i < |lines| && !IsStart(lines[i]) && Healthy(lines[..i]) && StateAfter(lines, i).Some?
    requires |Split(lines[i])| >= 2
    ensures Healthy(lines[..i + 1])
    ensures StateAfter(lines, i + 1) ==
            Some(StateAfter(lines, i).value[Split(lines[i])[0] := Split(lines[i])[1]])
  {
    var before := lines[..i];
    assert lines[..i + 1][..i] == before;
    var s := LastStart(before);
    assert LastStart(lines[..i + 1]) == s;
    var block := lines[..i + 1][s + 1..];
    assert block[..|block| - 1] == before[s + 1..];
  }

  lemma StepShortLine(lines: seq<string>, i: nat)
    requires i < |lines| && !IsStart(lines[i]) && Healthy(lines[..i]) && StateAfter(lines, i).Some?
    requires forall j :: 0 <= j <= i ==> !IsEnd(lines[j])
    requires |Split(lines[i])| < 2
    ensures PropertiesOf(lines) == Raised(IndexError)
  {
    assert lines[..i + 1][..i] == lines[..i];
    assert !Healthy(lines[..i + 1]);
    var e := FirstEnd(lines);
    assert lines[..e][..i + 1] == lines[..i + 1];
    if Healthy(lines[..e]) {
      HealthyPrefix(lines[..e], i + 1);
    }
    LastStartGrows(lines[..e], i);
    assert lines[..e][..i] == lines[..i];
  }

  lemma AtEnd(lines: seq<string>, i: nat)
    requires i < |lines| && IsEnd(lines[i]) && forall j :: 0 <= j < i ==> !IsEnd(lines[j])
    requires Healthy(lines[..i])
    ensures PropertiesOf(lines) ==
            match StateAfter(lines, i) case None => NoProperties case Some(m) => Properties(m)
  {
    assert FirstEnd(lines) == i;
  }

  lemma AtEndOfInput(lines: seq<string>)
    requires forall j :: 0 <= j < |lines| ==> !IsEnd(lines[j])
    requires Healthy(lines)
    ensures PropertiesOf(lines) ==
            if StateAfter(lines, |lines|).None? then Raised(NeverTerminates) else Raised(IndexError)
  {
    assert FirstEnd(lines) == |lines|;
    assert lines[..|lines|] == lines;
  }

  /** The loop of `get_font_properties`, reading one line per iteration. */
  method GetFontProperties(lines: seq<string>) returns (r: Outcome)
    ensures r == PropertiesOf(lines)
  {
    var properties: Option<map<string, string>> := None;
    var i := 0;
    while true
      invariant 0 <= i <= |lines|
      invariant forall j :: 0 <= j < i ==> !IsEnd(lines[j])
      invariant Healthy(lines[..i])
      invariant properties == StateAfter(lines, i)
      decreases |lines| - i
    {
      var line := if i < |lines| then lines[i] else "";
      if IsEnd(line) {
        AtEnd(lines, i);
        if properties.None? {
          return NoProperties;
        }
        return Properties(properties.value);
      }
      if i == |lines| {
        assert lines[..i] == lines;
        AtEndOfInput(lines);
      }
      if IsStart(line) {
        StepStart(lines, i);
        properties := Some(map[]);
      } else if properties.None? {
        if i == |lines| {
          return Raised(NeverTerminates);
        }
        StepBeforeStart(lines, i);
      } else {
        var lineParties := Split(line);
        if |lineParties| < 2 {
          if i < |lines| {
            StepShortLine(lines, i);
          }
          return Raised(IndexError);
        }
        StepAssign(lines, i);
        properties := Some(properties.value[lineParties[0] := lineParties[1]]);
      }
      i := i + 1;
    }
  }

  // ------------------------------------------------ what the outcome means

  /** Every key of the dictionary is the first word of some long-enough line. */
  lemma {:induction false} AssignmentsKeys(lines: seq<string>, k: string)
    ensures k in Assignments(lines) <==>
            exists j :: 0 <= j < |lines| && |Split(lines[j])| >= 2 && Split(lines[j])[0] == k
  {
    if lines != [] {
      var init := lines[..|lines| - 1];
      AssignmentsKeys(init, k);
      if k in Assignments(lines) && k !in Assignments(init) {
        assert |Split(lines[|lines| - 1])| >= 2 && Split(lines[|lines| - 1])[0] == k;
      }
      if exists j :: 0 <= j < |init| && |Split(init[j])| >= 2 && Split(init[j])[0] == k {
        var j :| 0 <= j < |init| && |Split(init[j])| >= 2 && Split(init[j])[0] == k;
        assert lines[j] == init[j];
      }
      if exists j :: 0 <= j < |lines| && |Split(lines[j])| >= 2 && Split(lines[j])[0] == k {
        var j :| 0 <= j < |lines| && |Split(lines[j])| >= 2 && Split(lines[j])[0] == k;
        if j < |init| { assert init[j] == lines[j]; }
      }
    }
  }

  /** Later keys overwrite earlier ones: a key's value is the second word of the
      last line that names it. */
  lemma {:induction false} AssignmentsLastWins(lines: seq<string>, j: nat)
    requires j < |lines| && |Split(lines[j])| >= 2
    requires forall j' :: j < j' < |lines| && |Split(lines[j'])| >= 2 ==> Split(lines[j'])[0] != Split(lines[j])[0]
    ensures Split(lines[j])[0] in Assignments(lines)
    ensures Assignments(lines)[Split(lines[j])[0]] == Split(lines[j])[1]
  {
    var init := lines[..|lines| - 1];
    if j < |lines| - 1 {
      assert init[j] == lines[j];
      forall j' | j < j' < |init| && |Split(init[j'])| >= 2
        ensures Split(init[j'])[0] != Split(init[j])[0]
      {
        assert init[j'] == lines[j'];
      }
      AssignmentsLastWins(init, j);
    }
  }

  /** Lines before STARTPROPERTIES are ignored; the block's lines up to the first
      ENDPROPERTIES become the dictionary. */
  lemma PropertiesOfBlock(lines: seq<string>, s: nat, e: nat)
    requires s < e < |lines|
    requires IsEnd(lines[e]) && forall j :: 0 <= j < e ==> !IsEnd(lines[j])
    requires IsStart(lines[s]) && forall j :: 0 <= j < e && j != s ==> !IsStart(lines[j])
    requires forall j :: s < j < e ==> |Split(lines[j])| >= 2
    ensures PropertiesOf(lines) == Properties(Assignments(lines[s + 1..e]))
  {
    var region := lines[..e];
    assert FirstEnd(lines) == e;
    assert LastStart(region) == s;
    assert region[s + 1..] == lines[s + 1..e];
    RegionHealthy(region, s);
  }

  lemma {:induction false} RegionHealthy(region: seq<string>, s: nat)
    requires s < |region|
    requires forall j :: 0 <= j < |region| && j != s ==> !IsStart(region[j])
    requires forall j :: s < j < |region| ==> |Split(region[j])| >= 2
    ensures Healthy(region)
    decreases |region|
  {
    var init := region[..|region| - 1];
    if |region| - 1 > s {
      RegionHealthy(init, s);
    } else {
      NoStartHealthy(init);
    }
  }

  lemma {:induction false} NoStartHealthy(lines: seq<string>)
    requires forall j :: 0 <= j < |lines| ==> !IsStart(lines[j])
    ensures Healthy(lines) && LastStart(lines) == -1
    decreases |lines|
  {
    if lines != [] {
      NoStartHealthy(lines[..|lines| - 1]);
    }
  }

  /** ENDPROPERTIES before any STARTPROPERTIES gives None; with neither marker the
      loop never ends. */
  lemma PropertiesWithoutStart(lines: seq<string>)
    requires forall j :: 0 <= j < FirstEnd(lines) ==> !IsStart(lines[j])
    ensures FirstEnd(lines) < |lines| ==> PropertiesOf(lines) == NoProperties
    ensures FirstEnd(lines) == |lines| ==> PropertiesOf(lines) == Raised(NeverTerminates)
  {
    NoStartHealthy(lines[..FirstEnd(lines)]);
  }

  /** A line of fewer than two words inside the block raises. */
  lemma PropertiesShortLine(lines: seq<string>, s: nat, j: nat)
    requires s < j < FirstEnd(lines)
    requires IsStart(lines[s]) && !IsStart(lines[j]) && |Split(lines[j])| < 2
    ensures PropertiesOf(lines) == Raised(IndexError)
  {
    var e := FirstEnd(lines);
    var region := lines[..e];
    assert region[..j + 1][..j] == region[..j];
    assert region[..j][s] == lines[s];
    assert LastStart(region[..j]) >= 0;
    assert !Healthy(region[..j + 1]);
    if Healthy(region) {
      HealthyPrefix(region, j + 1);
    }
    LastStartGrows(region, j);
  }
}
