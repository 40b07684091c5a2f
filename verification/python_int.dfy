/** Python's `int(text, 16)`, which reads more than hexadecimal digits: spaces around the number, a
    sign, a prefix `0x`, single underscores between digits, and the decimal digits of any script. */
module PythonInt {
  import opened Wrappers
  import opened PythonText

  /** The zeros of the decimal digits other than ASCII's, in Unicode 15. */
  predicate DecimalZero(c: int) {
    || c == 0x660 || c == 0x6F0 || c == 0x7C0 || c == 0x966 || c == 0x9E6 || c == 0xA66 || c == 0xAE6
    || c == 0xB66 || c == 0xBE6 || c == 0xC66 || c == 0xCE6 || c == 0xD66 || c == 0xDE6 || c == 0xE50
    || c == 0xED0 || c == 0xF20 || c == 0x1040 || c == 0x1090 || c == 0x17E0 || c == 0x1810 || c == 0x1946
    || c == 0x19D0 || c == 0x1A80 || c == 0x1A90 || c == 0x1B50 || c == 0x1BB0 || c == 0x1C40 || c == 0x1C50
    || c == 0xA620 || c == 0xA8D0 || c == 0xA900 || c == 0xA9D0 || c == 0xA9F0 || c == 0xAA50 || c == 0xABF0
    || c == 0xFF10 || c == 0x104A0 || c == 0x10D30 || c == 0x11066 || c == 0x110F0 || c == 0x11136
    || c == 0x111D0 || c == 0x112F0 || c == 0x11450 || c == 0x114D0 || c == 0x11650 || c == 0x116C0
    || c == 0x11730 || c == 0x118E0 || c == 0x11950 || c == 0x11C50 || c == 0x11D50 || c == 0x11DA0
    || c == 0x11F50 || c == 0x16A60 || c == 0x16AC0 || c == 0x16B50 || c == 0x1D7CE || c == 0x1D7D8
    || c == 0x1D7E2 || c == 0x1D7EC || c == 0x1D7F6 || c == 0x1E140 || c == 0x1E2F0 || c == 0x1E4F0
    || c == 0x1E950 || c == 0x1FBF0
  }

  /** The decimal digit of another script, if it is one with at least this value. */
  function DecimalDigit(c: int, least: nat): (digit: Option<nat>)
    ensures digit.Some? ==> digit.value < 10
    decreases 10 - least
  {
    if least >= 10 then None
    else if DecimalZero(c - least) then Some(least)
    else DecimalDigit(c, least + 1)
  }

  function HexDigit(c: int): (digit: Option<nat>)
    ensures digit.Some? ==> digit.value < 16
  {
    if 0x30 <= c <= 0x39 then Some(c - 0x30)
    else if 0x41 <= c <= 0x46 then Some(c - 0x41 + 10)
    else if 0x61 <= c <= 0x66 then Some(c - 0x61 + 10)
    else None
  }

  /** A digit of `int(text, 16)`: a hexadecimal one of ASCII, or any decimal one of Unicode. */
  function IntDigit(c: int): (digit: Option<nat>)
    ensures digit.Some? ==> digit.value < 16
  {
    if c < 0x80 then HexDigit(c) else DecimalDigit(c, 0)
  }

  /** The spaces that `int` skips; four of ASCII's separators are not among them. */
  predicate IntSpace(c: int) {
    SpacePoint(c) && !(28 <= c <= 31)
  }

  const UNDERSCORE := 0x5F

  function IntStrip(s: seq<int>): (body: seq<int>)
    ensures |body| <= |s|
  {
    if s == [] then []
    else if IntSpace(s[0]) then IntStrip(s[1..])
    else if IntSpace(s[|s| - 1]) then IntStrip(s[..|s| - 1])
    else s
  }

  function Power16(n: nat): (p: nat)
    ensures p >= 1
  {
    if n == 0 then 1 else 16 * Power16(n - 1)
  }

  /** Digits with at most one underscore between two of them. */
  function IntDigits(s: seq<int>): (n: Option<nat>)
    ensures n.Some? ==> n.value < Power16(|s|)
    decreases |s|
  {
    if s == [] then None
    else
      var last := IntDigit(s[|s| - 1]);
      if last.None? then None
      else if |s| == 1 then last
      else if s[|s| - 2] == UNDERSCORE then
        var before := IntDigits(s[..|s| - 2]);
        if before.None? then None else Some(before.value * 16 + last.value)
      else
        var before := IntDigits(s[..|s| - 1]);
        if before.None? then None else Some(before.value * 16 + last.value)
  }

  /** The digits after a prefix `0x`, which one underscore may follow. */
  function WithoutBase(s: seq<int>): (digits: seq<int>)
    ensures |digits| <= |s|
  {
    if |s| < 2 || IntDigit(s[0]) != Some(0) || (s[1] != 0x58 && s[1] != 0x78) then s
    else if |s| > 2 && s[2] == UNDERSCORE then s[3..]
    else s[2..]
  }

  lemma {:induction false} Power16Grows(a: nat, b: nat)
    requires a <= b
    ensures Power16(a) <= Power16(b)
  {
    if a < b {
      Power16Grows(a, b - 1);
    }
  }

  /** `int(s, 16)`; None is the `ValueError` it raises. */
  function Int16(s: seq<int>): (n: Option<int>)
    ensures n.Some? ==> -(Power16(|s|) as int) < n.value < Power16(|s|)
  {
    var body := IntStrip(s);
    var signed := body != [] && (body[0] == 0x2B || body[0] == 0x2D);
    var digits := WithoutBase(if signed then body[1..] else body);
    var magnitude := IntDigits(digits);
    Power16Grows(|digits|, |s|);
    if magnitude.None? then None
    else if signed && body[0] == 0x2D then Some(-(magnitude.value as int))
    else Some(magnitude.value as int)
  }

  // ---- Hexadecimal digits

  predicate AreHex(s: seq<int>) {
    forall c | c in s :: HexDigit(c).Some?
  }

  /** The number that hexadecimal digits write. */
  function Positional(s: seq<int>): nat
    requires AreHex(s)
  {
    if s == [] then 0
    else
      assert s[|s| - 1] in s;
      Positional(s[..|s| - 1]) * 16 + HexDigit(s[|s| - 1]).value
  }

  lemma {:induction false} HexDigitsAreRead(s: seq<int>)
    requires AreHex(s) && s != []
    ensures IntDigits(s) == Some(Positional(s))
  {
    var last := |s| - 1;
    assert s[last] in s;
    if last > 0 {
      assert s[last - 1] in s;
      HexDigitsAreRead(s[..last]);
    } else {
      assert s[..last] == [];
    }
  }

  /** Where all are hexadecimal digits, the number is the one they write. */
  lemma HexIsRead(s: seq<int>)
    requires AreHex(s) && s != []
    ensures Int16(s) == Some(Positional(s) as int)
  {
    assert s[0] in s && s[|s| - 1] in s && (|s| > 1 ==> s[1] in s);
    assert IntStrip(s) == s && WithoutBase(s) == s;
    HexDigitsAreRead(s);
  }
}
