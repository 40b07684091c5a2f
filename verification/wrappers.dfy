/** The one option type that the other modules share. */
module Wrappers {
  datatype Option<+T> = None | Some(value: T)
  {
    function GetOr(default: T): T {
      if Some? then value else default
    }
  }
}

/** Python's strings: sequences of code points, surrogates included. */
module PythonText {
  type Point = c: int | 0 <= c < 0x110000 witness 0

  type Str = seq<Point>

  /** The code points of a literal. */
  function Points(s: string): (points: Str)
    ensures |points| == |s|
  {
    seq(|s|, i requires 0 <= i < |s| => s[i] as int)
  }

  predicate Surrogate(c: int) {
    0xD800 <= c <= 0xDFFF
  }

  /** The code points that `str.strip` removes. */
  predicate SpacePoint(c: int) {
    || 9 <= c <= 13 || 28 <= c <= 32 || c == 0x85 || c == 0xA0 || c == 0x1680 || 0x2000 <= c <= 0x200A
    || c == 0x2028 || c == 0x2029 || c == 0x202F || c == 0x205F || c == 0x3000
  }

  /** `not s.strip()` */
  predicate Blank(s: seq<int>) {
    forall c | c in s :: SpacePoint(c)
  }

  predicate LowerHexPoint(c: int) {
    0x30 <= c <= 0x39 || 0x61 <= c <= 0x66
  }
}
