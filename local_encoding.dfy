/** The local encoding: the generator gives every collected character a small
    number (its u8glib encoding) by walking the characters in some order and
    counting from 1, because u8glib reserves 0 to end a string. The current
    generator walks them in ascending code point order (`keys.sort()`); the old
    one in the dictionary's own key order. */
module LocalEncoding {

  predicate IsCodePoint(v: int) { 0 <= v < 0xD800 || 0xE000 <= v < 0x110000 }

  predicate StrictlyIncreasing(xs: seq<char>)
  {
    forall i, j :: 0 <= i < j < |xs| ==> xs[i] < xs[j]
  }

  predicate Distinct(xs: seq<char>)
  {
    forall i, j :: 0 <= i < j < |xs| ==> xs[i] != xs[j]
  }

  /** `order` lists every member of `s` exactly once. */
  predicate Enumerates(order: seq<char>, s: set<char>)
  {
    Distinct(order) && forall c :: c in order <==> c in s
  }

  function Below(s: set<char>, n: int): set<char>
  {
    set c | c in s && c as int < n
  }

  // --------------------------------------------------------- ascending order

  /** The members of `s` below code point `n`, in ascending order. */
  function SortedBelow(s: set<char>, n: nat): seq<char>
    requires n <= 0x110000
  {
    if n == 0 then []
    else SortedBelow(s, n - 1) + (if IsCodePoint(n - 1) && (n - 1) as char in s then [(n - 1) as char] else [])
  }

  /** `sorted(s)` for a set of characters: ascending code point order. */
  function SortedChars(s: set<char>): seq<char>
  {
    SortedBelow(s, 0x110000)
  }

  /** The listing below `n` is ascending, stays below `n`, and lists exactly
      the members below `n`. */
  predicate ListsBelow(s: set<char>, n: nat, xs: seq<char>)
  {
    StrictlyIncreasing(xs) &&
    (forall i :: 0 <= i < |xs| ==> xs[i] as int < n) &&
    (forall c :: c in xs <==> c in Below(s, n)) &&
    |xs| == |Below(s, n)|
  }

  lemma {:induction false} SortedBelowProps(s: set<char>, n: nat)
    requires n <= 0x110000
    ensures StrictlyIncreasing(SortedBelow(s, n))
    ensures forall i :: 0 <= i < |SortedBelow(s, n)| ==> SortedBelow(s, n)[i] as int < n
    ensures forall c :: c in SortedBelow(s, n) <==> c in Below(s, n)
    ensures |SortedBelow(s, n)| == |Below(s, n)|
  {
    SortedBelowLists(s, n);
  }

  lemma {:induction false} SortedBelowLists(s: set<char>, n: nat)
    requires n <= 0x110000
    ensures ListsBelow(s, n, SortedBelow(s, n))
  {
    if n > 0 {
      SortedBelowLists(s, n - 1);
      SortedBelowStep(s, n);
    } else {
      assert Below(s, n) == {};
    }
  }

  /** One step of the listing: code point `n - 1` is appended when it is a member. */
  lemma SortedBelowStep(s: set<char>, n: nat)
    requires 0 < n <= 0x110000 && ListsBelow(s, n - 1, SortedBelow(s, n - 1))
    ensures ListsBelow(s, n, SortedBelow(s, n))
  {
    var prev := SortedBelow(s, n - 1);
    if IsCodePoint(n - 1) && (n - 1) as char in s {
      var c := (n - 1) as char;
      assert Below(s, n) == Below(s, n - 1) + {c};
      assert SortedBelow(s, n) == prev + [c];
      SortedAppend(prev, Below(s, n - 1), c);
    } else {
      assert Below(s, n) == Below(s, n - 1);
      assert SortedBelow(s, n) == prev;
    }
  }

  /** Appending a character above all of an ascending listing of a set lists
      the set with that character added. */
  lemma SortedAppend(prev: seq<char>, below: set<char>, c: char)
    requires StrictlyIncreasing(prev) && forall i :: 0 <= i < |prev| ==> prev[i] < c
    requires (forall x :: x in prev <==> x in below) && |prev| == |below| && c !in below
    ensures StrictlyIncreasing(prev + [c])
    ensures forall i :: 0 <= i < |prev + [c]| ==> (prev + [c])[i] as int < c as int + 1
    ensures (forall x :: x in prev + [c] <==> x in below + {c}) && |prev + [c]| == |below + {c}|
  {
  }

  /** `sorted` yields each member of the set once, in strictly ascending order. */
  lemma SortedCharsProps(s: set<char>)
    ensures StrictlyIncreasing(SortedChars(s))
    ensures forall c :: c in SortedChars(s) <==> c in s
    ensures |SortedChars(s)| == |s|
  {
    SortedBelowProps(s, 0x110000);
    assert Below(s, 0x110000) == s;
  }

  lemma StrictlyIncreasingDistinct(xs: seq<char>)
    requires StrictlyIncreasing(xs)
    ensures Distinct(xs)
  {
  }

  lemma SortedEnumerates(s: set<char>)
    ensures Enumerates(SortedChars(s), s)
  {
    SortedCharsProps(s);
  }

  function Elements(xs: seq<char>): set<char>
  {
    set x | x in xs
  }

  lemma {:induction false} DistinctCard(xs: seq<char>)
    requires Distinct(xs)
    ensures |Elements(xs)| == |xs|
  {
    if xs != [] {
      var init := xs[..|xs| - 1];
      DistinctCard(init);
      assert Elements(xs) == Elements(init) + {xs[|xs| - 1]};
      assert xs[|xs| - 1] !in Elements(init);
    }
  }

  /** In an ascending listing of `s`, exactly `k` members of `s` precede the
      `k`-th entry. */
  lemma Rank(s: set<char>, xs: seq<char>, k: nat)
    requires StrictlyIncreasing(xs) && (forall c :: c in xs <==> c in s)
    requires k < |xs|
    ensures |Below(s, xs[k] as int)| == k
  {
    var prefix := xs[..k];
    assert Below(s, xs[k] as int) == Elements(prefix) by {
      forall c | c in Below(s, xs[k] as int)
        ensures c in Elements(prefix)
      {
        var j :| 0 <= j < |xs| && xs[j] == c;
        assert j < k;
        assert prefix[j] == c;
      }
    }
    DistinctCard(prefix);
  }

  // -------------------------------------------------------- index assignment

  /** The map the loop `u8g_encoding += 1; characters[c] = u8g_encoding` leaves
      behind after walking `keys`: the `k`-th key gets `k + 1`. */
  function IndexMap(keys: seq<char>): map<char, nat>
  {
    if keys == [] then map[] else IndexMap(keys[..|keys| - 1])[keys[|keys| - 1] := |keys|]
  }

  /** For distinct keys the indices are a bijection from the keys onto 1..n. */
  lemma {:induction false} IndexMapProps(keys: seq<char>)
    requires Distinct(keys)
    ensures forall c :: c in IndexMap(keys) <==> c in keys
    ensures forall k :: 0 <= k < |keys| ==> IndexMap(keys)[keys[k]] == k + 1
  {
    if keys != [] {
      var init := keys[..|keys| - 1];
      IndexMapProps(init);
      forall k | 0 <= k < |keys| - 1
        ensures IndexMap(keys)[keys[k]] == k + 1
      {
        assert init[k] == keys[k];
      }
    }
  }

  /** The indices `1..n`. */
  function Span(n: nat): set<int>
  {
    if n == 0 then {} else Span(n - 1) + {n}
  }

  lemma {:induction false} SpanMembers(n: nat, v: int)
    ensures v in Span(n) <==> 1 <= v <= n
  {
    if n > 0 {
      SpanMembers(n - 1, v);
    }
  }

  /** Every index lies in `[1, n + 1)`, index 0 is never handed out, and every
      index of `1..n` belongs to exactly one key. */
  lemma IndexRange(keys: seq<char>)
    requires Distinct(keys)
    ensures forall c :: c in IndexMap(keys) ==> 1 <= IndexMap(keys)[c] < |keys| + 1
    ensures forall c, d :: c in IndexMap(keys) && d in IndexMap(keys) && c != d ==> IndexMap(keys)[c] != IndexMap(keys)[d]
    ensures IndexMap(keys).Values == Span(|keys|)
  {
    IndexMapProps(keys);
    forall v | v in Span(|keys|)
      ensures v in IndexMap(keys).Values
    {
      SpanMembers(|keys|, v);
      assert IndexMap(keys)[keys[v - 1]] == v;
    }
    forall v | v in IndexMap(keys).Values
      ensures v in Span(|keys|)
    {
      var c :| c in IndexMap(keys) && IndexMap(keys)[c] == v;
      var k :| 0 <= k < |keys| && keys[k] == c;
      SpanMembers(|keys|, v);
    }
    forall c | c in IndexMap(keys)
      ensures exists k :: 0 <= k < |keys| && keys[k] == c && IndexMap(keys)[c] == k + 1
    {
      var k :| 0 <= k < |keys| && keys[k] == c;
    }
  }

  /** In ascending order, the index of a collected character is one more than
      the number of collected characters smaller than it. */
  lemma SortedIndex(s: set<char>, c: char)
    requires c in s
    ensures c in IndexMap(SortedChars(s))
    ensures IndexMap(SortedChars(s))[c] == 1 + |Below(s, c as int)|
    ensures 1 <= IndexMap(SortedChars(s))[c] < |s| + 1
  {
    var keys := SortedChars(s);
    SortedCharsProps(s);
    IndexMapProps(keys);
    var k :| 0 <= k < |keys| && keys[k] == c;
    Rank(s, keys, k);
  }
}
