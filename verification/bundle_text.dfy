/** The compact JSON text of a projected value, as `json.dumps` writes it without spaces and without
    escaping what is not ASCII; the byte budget is about its length. */
module BundleText {
  import opened Wrappers
  import opened PythonText
  import opened Decimals
  import opened BundleValues
  import opened BundleBudget

  // ----- The text -----------------------------------------------------------------------

  const QUOTE: Point := 0x22
  const BACKSLASH: Point := 0x5C

  function LowerHex(n: nat): Point
    requires n < 16
  {
    if n < 10 then 0x30 + n else 0x61 + (n - 10)
  }

  /** One character inside a JSON string. */
  function Escape(c: Point): Str {
    if c == 0x22 || c == 0x5C then [BACKSLASH, c]
    else if c == 8 then [BACKSLASH, 0x62]
    else if c == 9 then [BACKSLASH, 0x74]
    else if c == 10 then [BACKSLASH, 0x6E]
    else if c == 12 then [BACKSLASH, 0x66]
    else if c == 13 then [BACKSLASH, 0x72]
    else if c < 0x20 then [BACKSLASH, 0x75, 0x30, 0x30, LowerHex(c / 16), LowerHex(c % 16)]
    else [c]
  }

  function Escaped(s: Str): Str {
    if s == [] then [] else Escaped(s[..|s| - 1]) + Escape(s[|s| - 1])
  }

  function IntegerText(n: int): Str {
    if n < 0 then [DASH] + Padded(-n, 1) else Padded(n, 1)
  }

  function JsonText(v: Value): Str
    decreases v
  {
    match v
    case Null => Points("null")
    case Boolean(b) => if b then Points("true") else Points("false")
    case Integer(n) => IntegerText(n)
    case Float(_, repr) => Points(repr)
    case Text(s) => [QUOTE] + Escaped(s) + [QUOTE]
    case List(items) => [0x5B] + JsonItems(items) + [0x5D]
    case Tuple(items) => [0x5B] + JsonItems(items) + [0x5D]
    case Dict(entries) => [0x7B] + JsonEntries(entries) + [0x7D]
    case _ => []
  }

  function JsonItems(items: seq<Value>): Str
    decreases items
  {
    if items == [] then []
    else JsonItems(items[..|items| - 1]) + (if |items| > 1 then [0x2C] else []) + JsonText(items[|items| - 1])
  }

  function JsonPair(e: Entry): Str
    decreases e
  {
    JsonText(e.key) + [0x3A] + JsonText(e.item)
  }

  function JsonEntries(entries: seq<Entry>): Str
    decreases entries
  {
    if entries == [] then []
    else
      JsonEntries(entries[..|entries| - 1]) + (if |entries| > 1 then [0x2C] else []) + JsonPair(entries[|entries| - 1])
  }

  predicate Ascii(s: Str) {
    forall i | 0 <= i < |s| :: s[i] < 0x80
  }

  /** A projected value without surrogates; a number is written in ASCII. */
  predicate Printable(v: Value)
    decreases v
  {
    match v
    case Null => true
    case Boolean(_) => true
    case Integer(_) => true
    case Float(_, repr) => Ascii(Points(repr))
    case Text(s) => forall c | c in s :: !Surrogate(c)
    case List(items) => forall i | 0 <= i < |items| :: Printable(items[i])
    case Tuple(items) => forall i | 0 <= i < |items| :: Printable(items[i])
    case Dict(entries) => forall i | 0 <= i < |entries| :: Printable(entries[i].key) && Printable(entries[i].item)
    case _ => false
  }

  // ----- Its length ---------------------------------------------------------------------

  /** The text has this many bytes in UTF-8. */
  predicate HasBytes(s: Str, n: nat) {
    Utf8Length(s) == Some(n)
  }

  lemma {:induction false} BytesOfBoth(a: Str, b: Str, m: nat, n: nat)
    requires HasBytes(a, m) && HasBytes(b, n)
    ensures HasBytes(a + b, m + n)
    decreases |b|
  {
    if b == [] {
      assert a + b == a;
    } else {
      var last := |b| - 1;
      BytesOfBoth(a, b[..last], m, Utf8Length(b[..last]).value);
      assert (a + b)[..|a + b| - 1] == a + b[..last];
    }
  }

  lemma {:induction false} AsciiBytes(s: Str)
    requires Ascii(s)
    ensures HasBytes(s, |s|)
  {
    if s != [] {
      AsciiBytes(s[..|s| - 1]);
    }
  }

  lemma EscapeBytes(c: Point)
    requires !Surrogate(c)
    ensures HasBytes(Escape(c), EscapedBytes(c))
  {
    if c >= 0x20 && c != 0x22 && c != 0x5C {
      assert [c][..0] == [];
    } else {
      AsciiBytes(Escape(c));
    }
  }

  lemma {:induction false} EscapedText(s: Str)
    requires forall c | c in s :: !Surrogate(c)
    ensures HasBytes(Escaped(s), TextLength(s) - 2)
  {
    hide Escape, EscapedBytes, HasBytes;
    if s == [] {
      AsciiBytes([]);
    } else {
      var last := |s| - 1;
      EscapedText(s[..last]);
      EscapeBytes(s[last]);
      BytesOfBoth(Escaped(s[..last]), Escape(s[last]), TextLength(s[..last]) - 2, EscapedBytes(s[last]));
    }
  }

  lemma {:induction false} DigitsOf(n: nat)
    ensures |Padded(n, 1)| == DigitCount(n)
  {
    if n >= 10 {
      DigitsOf(n / 10);
      NoWidth(n / 10);
    }
  }

  lemma NoWidth(n: nat)
    ensures Padded(n, 0) == Padded(n, 1)
  {
  }

  lemma IntegerBytes(n: int)
    ensures HasBytes(IntegerText(n), IntegerLength(n))
  {
    DigitsOf(if n < 0 then -n else n);
    DigitsAreAscii(if n < 0 then -n else n);
    AsciiBytes(IntegerText(n));
  }

  lemma DigitsAreAscii(n: nat)
    ensures Ascii(Padded(n, 1))
  {
    var digits := Padded(n, 1);
    forall i | 0 <= i < |digits| ensures digits[i] < 0x80 {
      assert digits[i] in digits;
      assert IsDigit(digits[i]);
    }
  }

  lemma WordBytes(word: string)
    requires forall i | 0 <= i < |word| :: word[i] as int < 0x80
    ensures HasBytes(Points(word), |word|)
  {
    AsciiBytes(Points(word));
  }

  /** A text between two ASCII characters. */
  lemma Bracketed(open: Point, body: Str, close: Point, n: nat)
    requires HasBytes(body, n) && open < 0x80 && close < 0x80
    ensures HasBytes([open] + body + [close], n + 2)
  {
    hide HasBytes;
    AsciiBytes([open]);
    AsciiBytes([close]);
    BytesOfBoth([open], body, 1, n);
    BytesOfBoth([open] + body, [close], n + 1, 1);
  }

  lemma Separated(before: Str, more: bool, next: Str, m: nat, n: nat)
    requires HasBytes(before, m) && HasBytes(next, n)
    ensures HasBytes(before + (if more then [0x2C] else []) + next, m + (if more then 1 else 0) + n)
  {
    hide HasBytes;
    var comma := if more then [0x2C] else [];
    AsciiBytes(comma);
    BytesOfBoth(before, comma, m, |comma|);
    BytesOfBoth(before + comma, next, m + |comma|, n);
  }

  /** The length that the budget counts is that of the text in UTF-8. */
  lemma {:induction false} LengthIsOfTheText(v: Value)
    requires Printable(v)
    ensures HasBytes(JsonText(v), Length(v))
    decreases v
  {
    hide HasBytes, TextLength, IntegerLength, IntegerText, Escaped, Points, ItemsLength, EntriesLength, JsonItems,
      JsonEntries;
    match v
    case Null =>
      WordBytes("null");
    case Boolean(b) =>
      WordBytes("true");
      WordBytes("false");
    case Integer(n) =>
      IntegerBytes(n);
    case Float(_, repr) =>
      AsciiBytes(Points(repr));
      SameNumber(repr);
    case Text(s) =>
      EscapedText(s);
      Bracketed(QUOTE, Escaped(s), QUOTE, TextLength(s) - 2);
    case List(items) =>
      ItemsLengthIsOfTheText(items);
      Bracketed(0x5B, JsonItems(items), 0x5D, ItemsLength(items));
    case Tuple(items) =>
      ItemsLengthIsOfTheText(items);
      Bracketed(0x5B, JsonItems(items), 0x5D, ItemsLength(items));
    case Dict(entries) =>
      EntriesLengthIsOfTheText(entries);
      Bracketed(0x7B, JsonEntries(entries), 0x7D, EntriesLength(entries));
  }

  lemma SameNumber(s: string)
    ensures |Points(s)| == |s|
  {
  }

  lemma {:induction false} ItemsLengthIsOfTheText(items: seq<Value>)
    requires forall i | 0 <= i < |items| :: Printable(items[i])
    ensures HasBytes(JsonItems(items), ItemsLength(items))
    decreases items
  {
    hide HasBytes, Printable, Length, JsonText;
    if items == [] {
      AsciiBytes([]);
    } else {
      var last := |items| - 1;
      ItemsLengthIsOfTheText(items[..last]);
      LengthIsOfTheText(items[last]);
      Separated(JsonItems(items[..last]), |items| > 1, JsonText(items[last]), ItemsLength(items[..last]),
                Length(items[last]));
    }
  }

  lemma {:induction false} EntriesLengthIsOfTheText(entries: seq<Entry>)
    requires forall i | 0 <= i < |entries| :: Printable(entries[i].key) && Printable(entries[i].item)
    ensures HasBytes(JsonEntries(entries), EntriesLength(entries))
    decreases entries
  {
    hide HasBytes, Printable, PairLength, JsonPair;
    if entries == [] {
      AsciiBytes([]);
    } else {
      var last := |entries| - 1;
      EntriesLengthIsOfTheText(entries[..last]);
      PairLengthIsOfTheText(entries[last]);
      Separated(JsonEntries(entries[..last]), |entries| > 1, JsonPair(entries[last]), EntriesLength(entries[..last]),
                PairLength(entries[last]));
    }
  }

  lemma {:induction false} PairLengthIsOfTheText(e: Entry)
    requires Printable(e.key) && Printable(e.item)
    ensures HasBytes(JsonPair(e), PairLength(e))
    decreases e
  {
    hide HasBytes, Printable, Length, JsonText;
    LengthIsOfTheText(e.key);
    LengthIsOfTheText(e.item);
    AsciiBytes([0x3A]);
    BytesOfBoth(JsonText(e.key), [0x3A], Length(e.key), 1);
    BytesOfBoth(JsonText(e.key) + [0x3A], JsonText(e.item), Length(e.key) + 1, Length(e.item));
  }

  /** A projection is accepted exactly if its shape and its nodes are, and the canonical text of what it
      prints fits the bytes. */
  lemma AcceptedByItsText(schema: Schema, v: Value, maxBytes: int)
    requires Printable(Plain(v))
    ensures Accepted(schema, v, maxBytes) <==>
      && 1 <= maxBytes <= 8 * 1024 * 1024 && Shape(schema, v, false, false) && Nodes(v) <= 65536
      && exists bytes: nat :: HasBytes(JsonText(Plain(v)), bytes) && bytes <= maxBytes
  {
    hide Shape, JsonText, Printable, Nodes, Length, Plain;
    LengthIsOfTheText(Plain(v));
  }
}
