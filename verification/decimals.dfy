/** Python's `format(n, "0wd")`: decimal digits, filled up with zeros to the width. */
module Decimals {
  import opened PythonText
  import opened Refs

  const ZERO: Point := 0x30
  const DASH: Point := 0x2D

  predicate IsDigit(c: Point) {
    0x30 <= c <= 0x39
  }

  function Digit(n: nat): (c: Point)
    requires n < 10
    ensures IsDigit(c)
  {
    ZERO + n
  }

  function Padded(n: nat, width: nat): (s: Str)
    ensures s != [] && forall c | c in s :: IsDigit(c)
    decreases n, width
  {
    if n < 10 && width <= 1 then [Digit(n)]
    else Padded(n / 10, if width > 0 then width - 1 else 0) + [Digit(n % 10)]
  }

  function Value(s: Str): nat
    requires forall c | c in s :: IsDigit(c)
  {
    if s == [] then 0
    else
      var last := s[|s| - 1];
      assert last in s && IsDigit(last);
      Value(s[..|s| - 1]) * 10 + last - ZERO
  }

  lemma {:induction false} PaddedIsReadBack(n: nat, width: nat)
    ensures Value(Padded(n, width)) == n
    decreases n, width
  {
    var s := Padded(n, width);
    if n < 10 && width <= 1 {
      assert s[..0] == [];
    } else {
      PaddedIsReadBack(n / 10, if width > 0 then width - 1 else 0);
      assert s[..|s| - 1] == Padded(n / 10, if width > 0 then width - 1 else 0);
    }
  }

  function Power10(width: nat): (p: nat)
    ensures p >= 1
  {
    if width == 0 then 1 else 10 * Power10(width - 1)
  }

  /** The width is kept exactly by the numbers below its power of ten. */
  lemma {:induction false} PaddedLength(n: nat, width: nat)
    requires width >= 1
    ensures if n < Power10(width) then |Padded(n, width)| == width else |Padded(n, width)| > width
    decreases width
  {
    if width > 1 {
      PaddedLength(n / 10, width - 1);
    } else if n >= 10 {
      assert Padded(n, width) == Padded(n / 10, 0) + [Digit(n % 10)];
    }
  }

  /** Texts of one length are ordered like their numbers. */
  lemma {:induction false} PaddedIsMonotone(a: nat, b: nat, width: nat)
    requires a < b && |Padded(a, width)| == |Padded(b, width)|
    ensures Before(Padded(a, width), Padded(b, width))
    decreases b, width
  {
    var w := if width > 0 then width - 1 else 0;
    var high, low := Padded(a / 10, w), Padded(b / 10, w);
    if a < 10 && width <= 1 {
    } else if a / 10 < b / 10 {
      PaddedIsMonotone(a / 10, b / 10, w);
      BeforeWithTails(high, low, [Digit(a % 10)], [Digit(b % 10)]);
    } else {
      BeforeAfterPrefix(high, [Digit(a % 10)], [Digit(b % 10)]);
    }
  }

  // ---- The directory of an attempt

  /** `f"{route}-{generation:02d}"` */
  function AttemptName(route: Str, generation: nat): Str {
    route + [DASH] + Padded(generation, 2)
  }

  lemma LastDash(route: Str, generation: nat)
    ensures var name := AttemptName(route, generation);
      |route| < |name| && name[|route|] == DASH && forall i | |route| < i < |name| :: IsDigit(name[i])
  {
    var name, digits := AttemptName(route, generation), Padded(generation, 2);
    forall i | |route| < i < |name| ensures IsDigit(name[i]) {
      assert name[i] == digits[i - |route| - 1];
    }
  }

  /** Attempts of different routes or generations never share a directory, whatever the routes are
      called: the last dash of a name is the one before the generation. */
  lemma AttemptNamesAreDistinct(route: Str, generation: nat, other: Str, otherGeneration: nat)
    requires AttemptName(route, generation) == AttemptName(other, otherGeneration)
    ensures route == other && generation == otherGeneration
  {
    var name := AttemptName(route, generation);
    LastDash(route, generation);
    LastDash(other, otherGeneration);
    assert |route| == |other|;
    assert route == name[..|route|] == other;
    assert Padded(generation, 2) == name[|route| + 1..] == Padded(otherGeneration, 2);
    PaddedIsReadBack(generation, 2);
    PaddedIsReadBack(otherGeneration, 2);
  }
}
