/** Shared vocabulary of the generator: bytes, the failures the Python code raises
    as exceptions, and the Result/Option wrappers that carry them. */
module Common {

  /** A Python `bytes` element. */
  type Byte = x: int | 0 <= x < 256

  /** The exceptions the generator can raise on bad input, one per cause. */
  datatype Error =
    | IndexError            // `line_parties[0]`/`[1]` on a short line, `glyphs[0]` on an empty font
    | NeverTerminates       // `readline()` keeps returning "" and the loop never ends
    | PropertiesAbsent      // subscripting `None` when no properties block was found
    | MissingProperty(name: string)  // KeyError on the properties dict
    | BadInteger(text: string)       // ValueError from `int(text)`
    | MissingGlyph(codePoint: int)   // KeyError from the font lookup
    | BadHex(text: string)           // ValueError from `int(text, 16)`
    | ChrRange(value: int)           // `chr(value)` beyond U+10FFFF: ValueError, or OverflowError past a C int
    | ByteOverflow(value: int)       // a value above 0xFF cannot become one byte
    | PackRange                      // `struct.error`: a field does not fit its format
    | PackArity                      // `struct.error`: wrong number of values for the format

  datatype Option<+T> = None | Some(value: T)

  datatype Result<+T> = Ok(value: T) | Err(error: Error)

  /** `b''.join(parts)`: the parts one after the other. */
  function Flatten<T>(parts: seq<seq<T>>): seq<T>
  {
    if parts == [] then [] else Flatten(parts[..|parts| - 1]) + parts[|parts| - 1]
  }

  /** Appending a part to the list appends its elements to the flattening. */
  lemma FlattenAppend<T>(parts: seq<seq<T>>, p: seq<T>)
    ensures Flatten(parts + [p]) == Flatten(parts) + p
  {
    assert (parts + [p])[..|parts|] == parts;
  }
}
