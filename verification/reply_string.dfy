/** The JSON string-prefix decoder of the reply preview.

    Python strings are sequences of code points (surrogates included), so the model works on
    `seq<CodePoint>`.  `StringPrefix` is the cursor loop of the source; `Decoded` is the
    function it computes; the grammar of string pieces below is written independently of
    both and is what the results are stated against.  The pieces of JSON proper are those
    whose escapes have four hexadecimal digits; `int` reads more. */
module ReplyString {
  import opened Wrappers
  import opened PythonInt
  import opened PythonText

  type CodePoint = int

  type Text = seq<CodePoint>

  const REPLY_MAX_LENGTH: nat := 12000

  const QUOTE: CodePoint := 0x22
  const BACKSLASH: CodePoint := 0x5C
  const LETTER_U: CodePoint := 0x75

  predicate HighSurrogate(c: int) {
    0xD800 <= c <= 0xDBFF
  }

  predicate LowSurrogate(c: int) {
    0xDC00 <= c <= 0xDFFF
  }

  /** The two-character escapes of section 7 of RFC 8259. */
  function ShortEscape(c: CodePoint): (decoded: Option<CodePoint>)
    ensures decoded.Some? ==> !Surrogate(decoded.value) && c != LETTER_U
  {
    if c == QUOTE || c == BACKSLASH || c == 0x2F then Some(c)
    else if c == 0x62 then Some(0x08)
    else if c == 0x66 then Some(0x0C)
    else if c == 0x6E then Some(0x0A)
    else if c == 0x72 then Some(0x0D)
    else if c == 0x74 then Some(0x09)
    else None
  }

  /** What `int` reads in the four characters after \u. */
  function HexNumber(digits: Text): (number: Option<int>)
    requires |digits| == 4
    ensures number.Some? ==> -0x10000 < number.value < 0x10000
  {
    assert Power16(2) == 0x100;
    Int16(digits)
  }

  // ----- The grammar of JSON string contents --------------------------------------------

  /** One encoded character: as itself, by a short escape, by one \u unit, or by a pair. */
  datatype Piece =
    | Raw(c: CodePoint)
    | Short(escape: CodePoint)
    | Unit(digits: Text)
    | Pair(high: Text, low: Text)
  {
    predicate Valid() {
      match this
      case Raw(c) => c >= 0x20 && c != QUOTE && c != BACKSLASH && !Surrogate(c)
      case Short(e) => ShortEscape(e).Some?
      case Unit(d) => |d| == 4 && HexNumber(d).Some? && HexNumber(d).value >= 0 && !Surrogate(HexNumber(d).value)
      case Pair(h, l) =>
        && |h| == 4 && HexNumber(h).Some? && HighSurrogate(HexNumber(h).value)
        && |l| == 4 && HexNumber(l).Some? && LowSurrogate(HexNumber(l).value)
    }

    function Encoding(): Text {
      match this
      case Raw(c) => [c]
      case Short(e) => [BACKSLASH, e]
      case Unit(d) => [BACKSLASH, LETTER_U] + d
      case Pair(h, l) => [BACKSLASH, LETTER_U] + h + [BACKSLASH, LETTER_U] + l
    }

    /** The piece is one of JSON: its units have four hexadecimal digits. */
    predicate Proper() {
      match this
      case Unit(d) => AreHex(d)
      case Pair(h, l) => AreHex(h) && AreHex(l)
      case _ => true
    }

    /** The character a piece stands for; pairs follow section 2.2 of RFC 2781. */
    function Meaning(): (c: CodePoint)
      requires Valid()
      ensures !Surrogate(c)
    {
      match this
      case Raw(c) => c
      case Short(e) => ShortEscape(e).value
      case Unit(d) => HexNumber(d).value
      case Pair(h, l) =>
        0x10000 + (HexNumber(h).value - 0xD800) * 0x400 + (HexNumber(l).value - 0xDC00)
    }
  }

  predicate AllValid(ps: seq<Piece>) {
    forall p | p in ps :: p.Valid()
  }

  function Encoded(ps: seq<Piece>): Text {
    if ps == [] then [] else ps[0].Encoding() + Encoded(ps[1..])
  }

  function Meanings(ps: seq<Piece>): (text: Text)
    requires AllValid(ps)
    ensures |text| == |ps|
    ensures forall i | 0 <= i < |ps| :: text[i] == ps[i].Meaning()
  {
    if ps == [] then [] else [ps[0].Meaning()] + Meanings(ps[1..])
  }

  // ----- The decoder --------------------------------------------------------------------

  /** The escape \u stands at `cursor`, with four characters after it. */
  predicate UnitStands(source: Text, cursor: nat) {
    cursor + 6 <= |source| && source[cursor] == BACKSLASH && source[cursor + 1] == LETTER_U
  }

  /** The unit or pair that is complete at an escape. */
  function NextUnit(source: Text, cursor: nat): (piece: Option<Piece>)
    requires UnitStands(source, cursor)
    ensures piece.Some? ==> piece.value.Valid() && cursor + |piece.value.Encoding()| <= |source|
  {
    var digits := source[cursor + 2..cursor + 6];
    var point := HexNumber(digits);
    if point.None? || point.value < 0 || LowSurrogate(point.value) then None
    else if !HighSurrogate(point.value) then Some(Unit(digits))
    else if cursor + 12 > |source| || source[cursor + 6..cursor + 8] != [BACKSLASH, LETTER_U] then None
    else
      var lowDigits := source[cursor + 8..cursor + 12];
      var low := HexNumber(lowDigits);
      if low.None? || !LowSurrogate(low.value) then None else Some(Pair(digits, lowDigits))
  }

  /** The piece that is complete at `cursor`, as the branches of the source find it. */
  function NextPiece(source: Text, cursor: nat): (piece: Option<Piece>)
    ensures piece.Some? ==> piece.value.Valid() && cursor + |piece.value.Encoding()| <= |source|
  {
    if cursor >= |source| || source[cursor] == QUOTE then None
    else if source[cursor] != BACKSLASH then
      if source[cursor] < 32 || Surrogate(source[cursor]) then None else Some(Raw(source[cursor]))
    else if cursor + 1 >= |source| then None
    else if ShortEscape(source[cursor + 1]).Some? then Some(Short(source[cursor + 1]))
    else if !UnitStands(source, cursor) then None
    else NextUnit(source, cursor)
  }

  /** The piece really stands there. */
  lemma PieceStands(source: Text, cursor: nat)
    ensures match NextPiece(source, cursor)
      case None => true
      case Some(piece) => source[cursor..cursor + |piece.Encoding()|] == piece.Encoding()
  {
    hide HexNumber, NextUnit;
    if cursor < |source| && UnitStands(source, cursor) && NextPiece(source, cursor) == NextUnit(source, cursor) {
      UnitReallyStands(source, cursor);
    }
  }

  lemma UnitReallyStands(source: Text, cursor: nat)
    requires UnitStands(source, cursor)
    ensures match NextUnit(source, cursor)
      case None => true
      case Some(piece) => source[cursor..cursor + |piece.Encoding()|] == piece.Encoding()
  {
    hide HexNumber;
    var digits := source[cursor + 2..cursor + 6];
    assert source[cursor..cursor + 6] == [BACKSLASH, LETTER_U] + digits;
    if cursor + 12 <= |source| && source[cursor + 6..cursor + 8] == [BACKSLASH, LETTER_U] {
      assert source[cursor..cursor + 12]
          == source[cursor..cursor + 6] + source[cursor + 6..cursor + 8] + source[cursor + 8..cursor + 12];
    }
  }

  /** At most `room` characters decoded from the pieces that are complete from `cursor` on. */
  function Decoded(source: Text, cursor: nat, room: nat): (text: Text)
    ensures |text| <= room
    decreases room
  {
    if room == 0 || NextPiece(source, cursor).None? then []
    else
      var piece := NextPiece(source, cursor).value;
      [piece.Meaning()] + Decoded(source, cursor + |piece.Encoding()|, room - 1)
  }

  /** An escape that `int` reads as a negative number, which `chr` refuses. */
  predicate NegativeUnit(source: Text, cursor: nat) {
    && UnitStands(source, cursor)
    && var point := HexNumber(source[cursor + 2..cursor + 6]);
       point.Some? && point.value < 0
  }

  /** Decoding from `cursor` on runs into such an escape before the cap. */
  predicate Breaks(source: Text, cursor: nat, room: nat)
    decreases room
  {
    room > 0 &&
    match NextPiece(source, cursor)
    case None => NegativeUnit(source, cursor)
    case Some(piece) => Breaks(source, cursor + |piece.Encoding()|, room - 1)
  }

  /** What `_string_prefix` returns. */
  function Prefix(source: Text, start: nat): (text: Text)
    ensures |text| <= REPLY_MAX_LENGTH
  {
    if start >= |source| || source[start] != QUOTE then []
    else Decoded(source, start + 1, REPLY_MAX_LENGTH)
  }

  /** `_string_prefix` raises a `ValueError`. */
  predicate PrefixRaises(source: Text, start: nat) {
    start < |source| && source[start] == QUOTE && Breaks(source, start + 1, REPLY_MAX_LENGTH)
  }

  /** The \u branch of the loop: one unit, or a high unit and the low unit that must follow. */
  method UnicodeEscape(source: Text, cursor: nat) returns (point: Option<int>, next: nat)
    requires UnitStands(source, cursor)
    ensures NegativeUnit(source, cursor) <==> point.Some? && point.value < 0
    ensures match NextPiece(source, cursor)
      case None => point.None? || point.value < 0
      case Some(piece) => point == Some(piece.Meaning()) && next == cursor + |piece.Encoding()|
  {
    hide HexNumber;
    point := HexNumber(source[cursor + 2..cursor + 6]);
    next := cursor + 6;
    if point.None? {
      return;
    }
    if HighSurrogate(point.value) {
      if next + 6 > |source| || source[next..next + 2] != [BACKSLASH, LETTER_U] {
        return None, next;
      }
      var low := HexNumber(source[next + 2..next + 6]);
      if low.None? || !LowSurrogate(low.value) {
        return None, next;
      }
      point := Some(0x10000 + (point.value - 0xD800) * 0x400 + low.value - 0xDC00);
      next := next + 6;
    } else if LowSurrogate(point.value) {
      point := None;
    }
  }

  /** Without a backslash the piece at a place is the character itself, if it may stand there. */
  lemma RawPiece(source: Text, cursor: nat)
    requires cursor < |source| && source[cursor] != BACKSLASH
    ensures var c := source[cursor];
      NextPiece(source, cursor) == if c == QUOTE || c < 32 || Surrogate(c) then None else Some(Raw(c))
    ensures !NegativeUnit(source, cursor)
  {
    hide ShortEscape, NextUnit;
  }

  lemma EscapedPiece(source: Text, cursor: nat)
    requires cursor < |source| && source[cursor] == BACKSLASH && !UnitStands(source, cursor)
    ensures NextPiece(source, cursor)
      == if cursor + 1 < |source| && ShortEscape(source[cursor + 1]).Some? then Some(Short(source[cursor + 1]))
         else None
  {
    hide ShortEscape, NextUnit;
  }

  /** A negative unit is no piece. */
  lemma NegativeIsNoPiece(source: Text, cursor: nat)
    ensures NegativeUnit(source, cursor) ==> UnitStands(source, cursor) && NextPiece(source, cursor).None?
  {
    hide HexNumber;
  }

  lemma ShortIsNoUnit(source: Text, cursor: nat)
    requires cursor + 1 < |source| && ShortEscape(source[cursor + 1]).Some?
    ensures ShortEscape(source[cursor + 1]).value >= 0 && !UnitStands(source, cursor)
  {
  }

  /** The branches after a backslash. */
  method Escape(source: Text, cursor: nat) returns (point: Option<int>, next: nat)
    requires cursor < |source| && source[cursor] == BACKSLASH
    ensures NegativeUnit(source, cursor) <==> point.Some? && point.value < 0
    ensures match NextPiece(source, cursor)
      case None => point.None? || point.value < 0
      case Some(piece) => point == Some(piece.Meaning()) && cursor < next == cursor + |piece.Encoding()|
  {
    hide ShortEscape, NextPiece, NegativeUnit, Piece.Valid;
    if !UnitStands(source, cursor) {
      EscapedPiece(source, cursor);
    }
    NegativeIsNoPiece(source, cursor);
    point, next := None, cursor;
    if cursor + 1 >= |source| {
      return;
    }
    var escaped := source[cursor + 1];
    if ShortEscape(escaped).Some? {
      ShortIsNoUnit(source, cursor);
      return ShortEscape(escaped), cursor + 2;
    }
    if escaped != LETTER_U || cursor + 6 > |source| {
      return;
    }
    point, next := UnicodeEscape(source, cursor);
  }

  lemma NoPieceMore(source: Text, cursor: nat, room: nat)
    requires NextPiece(source, cursor).None?
    ensures Decoded(source, cursor, room) == []
  {
    hide NextPiece;
  }

  /** The state of the decoding loop: what is decoded from `cursor` on completes the output. */
  ghost predicate OnTheWay(source: Text, start: nat, cursor: nat, output: Text) {
    && |output| <= REPLY_MAX_LENGTH
    && output + Decoded(source, cursor, REPLY_MAX_LENGTH - |output|) == Prefix(source, start)
    && Breaks(source, cursor, REPLY_MAX_LENGTH - |output|) == PrefixRaises(source, start)
  }

  lemma FirstPiece(source: Text, cursor: nat, room: nat)
    requires room > 0 && NextPiece(source, cursor).Some?
    ensures var piece := NextPiece(source, cursor).value;
      var next := cursor + |piece.Encoding()|;
      && Decoded(source, cursor, room) == [piece.Meaning()] + Decoded(source, next, room - 1)
      && Breaks(source, cursor, room) == Breaks(source, next, room - 1)
  {
    hide NextPiece, Piece.Valid, Piece.Meaning, Piece.Encoding, NegativeUnit;
  }

  /** One turn: the next piece moves to the output. */
  lemma ReadNext(source: Text, start: nat, cursor: nat, output: Text)
    requires OnTheWay(source, start, cursor, output) && |output| < REPLY_MAX_LENGTH
    requires NextPiece(source, cursor).Some?
    ensures var piece := NextPiece(source, cursor).value;
      OnTheWay(source, start, cursor + |piece.Encoding()|, output + [piece.Meaning()])
  {
    hide Decoded, Breaks, NextPiece, Prefix, PrefixRaises, Piece.Valid, Piece.Meaning, Piece.Encoding;
    var piece, room := NextPiece(source, cursor).value, REPLY_MAX_LENGTH - |output|;
    FirstPiece(source, cursor, room);
    var rest := Decoded(source, cursor + |piece.Encoding()|, room - 1);
    assert output + ([piece.Meaning()] + rest) == output + [piece.Meaning()] + rest;
  }

  lemma ReadRaw(source: Text, start: nat, cursor: nat, output: Text)
    requires OnTheWay(source, start, cursor, output) && |output| < REPLY_MAX_LENGTH && cursor < |source|
    requires NextPiece(source, cursor) == Some(Raw(source[cursor]))
    ensures OnTheWay(source, start, cursor + 1, output + [source[cursor]])
  {
    hide OnTheWay, NextPiece;
    ReadNext(source, start, cursor, output);
  }

  lemma ReadNothing(source: Text, start: nat, cursor: nat, output: Text)
    requires OnTheWay(source, start, cursor, output)
    requires |output| == REPLY_MAX_LENGTH || NextPiece(source, cursor).None?
    ensures output == Prefix(source, start)
    ensures PrefixRaises(source, start) <==> |output| < REPLY_MAX_LENGTH && NegativeUnit(source, cursor)
  {
    hide NextPiece, Prefix, PrefixRaises, NegativeUnit;
    assert output + [] == output;
  }

  lemma NothingToRead(source: Text, start: nat)
    requires start >= |source| || source[start] != QUOTE
    ensures Prefix(source, start) == [] && !PrefixRaises(source, start)
  {
    hide Decoded, Breaks;
  }

  lemma ReadFromTheQuote(source: Text, start: nat)
    requires start < |source| && source[start] == QUOTE
    ensures OnTheWay(source, start, start + 1, [])
  {
    hide Decoded, Breaks;
    assert [] + Decoded(source, start + 1, REPLY_MAX_LENGTH) == Decoded(source, start + 1, REPLY_MAX_LENGTH);
  }

  method StringPrefix(source: Text, start: nat) returns (output: Text, raised: bool)
    ensures raised == PrefixRaises(source, start)
    ensures !raised ==> output == Prefix(source, start)
  {
    hide OnTheWay, Prefix, PrefixRaises, NextPiece, NegativeUnit, Piece.Valid, Piece.Encoding, Piece.Meaning,
      UnitStands;
    output, raised := [], false;
    if start >= |source| || source[start] != QUOTE {
      NothingToRead(source, start);
      return;
    }
    var cursor := start + 1;
    ReadFromTheQuote(source, start);
    while cursor < |source| && |output| < REPLY_MAX_LENGTH
      invariant cursor <= |source| && |output| <= REPLY_MAX_LENGTH
      invariant OnTheWay(source, start, cursor, output)
      decreases |source| - cursor
    {
      var c := source[cursor];
      if c == QUOTE {
        RawPiece(source, cursor);
        break;
      }
      if c != BACKSLASH {
        RawPiece(source, cursor);
        if c < 32 || Surrogate(c) {
          break;
        }
        ReadRaw(source, start, cursor, output);
        output := output + [c];
        cursor := cursor + 1;
        continue;
      }
      var point, next := Escape(source, cursor);
      if point.None? {
        break;
      }
      if point.value < 0 {
        NegativeIsNoPiece(source, cursor);
        ReadNothing(source, start, cursor, output);
        return output, true;
      }
      ReadNext(source, start, cursor, output);
      output := output + [point.value];
      cursor := next;
    }
    NegativeIsNoPiece(source, cursor);
    if cursor >= |source| {
      NothingAtTheEnd(source, cursor);
    }
    ReadNothing(source, start, cursor, output);
  }

  lemma NothingAtTheEnd(source: Text, cursor: nat)
    requires cursor >= |source|
    ensures NextPiece(source, cursor).None? && !NegativeUnit(source, cursor)
  {
  }

  // ----- Results ------------------------------------------------------------------------

  /** The grammar is prefix-free: the piece that starts at a place is the only one there. */
  lemma NextPieceIsTheOnlyPiece(source: Text, cursor: nat, p: Piece)
    requires p.Valid() && cursor + |p.Encoding()| <= |source|
    requires source[cursor..cursor + |p.Encoding()|] == p.Encoding()
    ensures NextPiece(source, cursor) == Some(p)
  {
    hide HexNumber, ShortEscape;
    var e := p.Encoding();
    forall i | 0 <= i < |e| ensures source[cursor + i] == e[i] {
      assert source[cursor..cursor + |e|][i] == e[i];
    }
    assert source[cursor] == e[0];
    if p.Raw? {
    } else if p.Short? {
      assert source[cursor + 1] == e[1];
    } else if p.Unit? {
      UnitIsRead(source, cursor, p.digits);
    } else {
      PairIsRead(source, cursor, p.high, p.low);
    }
  }

  lemma UnitIsRead(source: Text, cursor: nat, digits: Text)
    requires Unit(digits).Valid() && cursor + 6 <= |source|
    requires source[cursor..cursor + 6] == Unit(digits).Encoding()
    ensures NextPiece(source, cursor) == Some(Unit(digits))
  {
    hide HexNumber;
    var e := Unit(digits).Encoding();
    assert source[cursor] == e[0] && source[cursor + 1] == e[1] by {
      assert source[cursor..cursor + 6][0] == e[0] && source[cursor..cursor + 6][1] == e[1];
    }
    assert source[cursor + 2..cursor + 6] == source[cursor..cursor + 6][2..] == e[2..] == digits;
  }

  lemma PairIsRead(source: Text, cursor: nat, high: Text, low: Text)
    requires Pair(high, low).Valid() && cursor + 12 <= |source|
    requires source[cursor..cursor + 12] == Pair(high, low).Encoding()
    ensures NextPiece(source, cursor) == Some(Pair(high, low))
  {
    hide HexNumber;
    var e := Pair(high, low).Encoding();
    var window := source[cursor..cursor + 12];
    assert source[cursor] == window[0] && source[cursor + 1] == window[1];
    var tail := [BACKSLASH, LETTER_U] + low;
    assert window == [BACKSLASH, LETTER_U] + (high + tail);
    assert window[2..] == high + tail;
    assert window[6..] == tail;
    assert source[cursor + 2..cursor + 6] == window[2..][..4] == high;
    assert source[cursor + 6..cursor + 8] == window[6..][..2] == [BACKSLASH, LETTER_U];
    assert source[cursor + 8..cursor + 12] == window[6..][2..] == low;
  }

  /** Completeness: the meaning of every sequence of pieces that the text holds from `cursor`
      on, and that fits the cap, is decoded. */
  lemma {:induction false} EveryPieceIsDecoded(source: Text, cursor: nat, ps: seq<Piece>, room: nat)
    requires AllValid(ps) && cursor <= |source|
    requires Encoded(ps) <= source[cursor..]
    ensures Meanings(ps)[..if |ps| <= room then |ps| else room] <= Decoded(source, cursor, room)
    decreases |ps|
  {
    hide NextPiece, HexNumber, ShortEscape, Piece.Valid, Piece.Encoding, Piece.Meaning;
    if ps != [] && room > 0 {
      var e := ps[0].Encoding();
      assert source[cursor..][..|e|] == e == source[cursor..cursor + |e|] by {
        assert Encoded(ps)[..|e|] == e;
      }
      NextPieceIsTheOnlyPiece(source, cursor, ps[0]);
      assert Encoded(ps[1..]) <= source[cursor + |e|..] by {
        assert Encoded(ps)[|e|..] == Encoded(ps[1..]);
        assert source[cursor..][|e|..] == source[cursor + |e|..];
      }
      EveryPieceIsDecoded(source, cursor + |e|, ps[1..], room - 1);
    }
  }

  /** The pieces read so far. */
  function ReadPieces(source: Text, cursor: nat, room: nat): (ps: seq<Piece>)
    ensures AllValid(ps) && |ps| <= room
    decreases room
  {
    if room == 0 || NextPiece(source, cursor).None? then []
    else
      var piece := NextPiece(source, cursor).value;
      [piece] + ReadPieces(source, cursor + |piece.Encoding()|, room - 1)
  }

  /** Soundness: the output is the meaning of pieces that really stand in the text, and
      reading stopped only at the cap or where no complete piece stands. */
  lemma {:induction false} OutputIsTheLongestParse(source: Text, cursor: nat, room: nat)
    requires cursor <= |source|
    ensures var ps := ReadPieces(source, cursor, room);
      && Decoded(source, cursor, room) == Meanings(ps)
      && Encoded(ps) <= source[cursor..]
      && (|ps| < room ==> forall p: Piece | p.Valid() :: !(p.Encoding() <= source[cursor + |Encoded(ps)|..]))
    decreases room
  {
    hide NextPiece, HexNumber, ShortEscape, Piece.Valid, Piece.Encoding, Piece.Meaning;
    if room == 0 {
    } else if NextPiece(source, cursor).None? {
      NoPieceStands(source, cursor);
    } else {
      var piece := NextPiece(source, cursor).value;
      var next := cursor + |piece.Encoding()|;
      PieceStands(source, cursor);
      OutputIsTheLongestParse(source, next, room - 1);
      var ps := ReadPieces(source, cursor, room);
      assert ps[0] == piece && ps[1..] == ReadPieces(source, next, room - 1);
      hide Decoded, ReadPieces, Meanings, Encoded, AllValid;
      FirstPiece(source, cursor, room);
      OneMorePiece(ps);
      assert source[cursor..] == piece.Encoding() + source[next..];
    }
  }

  lemma OneMorePiece(ps: seq<Piece>)
    requires ps != [] && AllValid(ps)
    ensures AllValid(ps[1..]) && ps[0].Valid()
    ensures Encoded(ps) == ps[0].Encoding() + Encoded(ps[1..])
    ensures Meanings(ps) == [ps[0].Meaning()] + Meanings(ps[1..])
  {
    hide Piece.Valid, Piece.Encoding, Piece.Meaning;
  }

  lemma NoPieceStands(source: Text, cursor: nat)
    requires cursor <= |source| && NextPiece(source, cursor).None?
    ensures forall p: Piece | p.Valid() :: !(p.Encoding() <= source[cursor..])
  {
    hide NextPiece, Piece.Valid, Piece.Encoding;
    forall p: Piece | p.Valid() && p.Encoding() <= source[cursor..] ensures false {
      assert source[cursor..cursor + |p.Encoding()|] == p.Encoding();
      NextPieceIsTheOnlyPiece(source, cursor, p);
    }
  }

  /** Decoding inverts every encoding of a closed JSON string, up to the cap. */
  lemma PrefixInvertsEncoding(ps: seq<Piece>, rest: Text)
    requires AllValid(ps)
    ensures Prefix([QUOTE] + Encoded(ps) + [QUOTE] + rest, 0)
         == Meanings(ps)[..if |ps| <= REPLY_MAX_LENGTH then |ps| else REPLY_MAX_LENGTH]
  {
    hide NextPiece, Decoded, Encoded, Meanings, AllValid;
    var source := [QUOTE] + Encoded(ps) + [QUOTE] + rest;
    AfterTheQuote(source, Encoded(ps), rest);
    ClosedStringIsDecoded(source, 1, ps, REPLY_MAX_LENGTH);
  }

  lemma AfterTheQuote(source: Text, content: Text, rest: Text)
    requires source == [QUOTE] + content + [QUOTE] + rest
    ensures source != [] && source[0] == QUOTE && content + [QUOTE] <= source[1..]
  {
    assert source == [QUOTE] + (content + [QUOTE] + rest);
  }

  lemma ClosedStringIsDecoded(source: Text, cursor: nat, ps: seq<Piece>, room: nat)
    requires AllValid(ps) && cursor <= |source|
    requires Encoded(ps) + [QUOTE] <= source[cursor..]
    ensures Decoded(source, cursor, room) == Meanings(ps)[..if |ps| <= room then |ps| else room]
  {
    hide NextPiece, Decoded, Encoded, Meanings, AllValid;
    assert Encoded(ps) <= Encoded(ps) + [QUOTE];
    EveryPieceIsDecoded(source, cursor, ps, room);
    if |ps| < room {
      DecodingStopsAtTheQuote(source, cursor, ps, room);
    }
  }

  lemma NoPieceAtQuote(source: Text, cursor: nat)
    requires cursor < |source| && source[cursor] == QUOTE
    ensures NextPiece(source, cursor).None?
  {
    hide HexNumber, ShortEscape;
  }

  lemma {:induction false} DecodingStopsAtTheQuote(source: Text, cursor: nat, ps: seq<Piece>, room: nat)
    requires AllValid(ps) && cursor <= |source| && |ps| < room
    requires Encoded(ps) + [QUOTE] <= source[cursor..]
    ensures |Decoded(source, cursor, room)| == |ps|
    decreases |ps|
  {
    hide NextPiece, Piece.Valid, Piece.Encoding, Piece.Meaning;
    if ps == [] {
      assert source[cursor..][0] == QUOTE;
      NoPieceAtQuote(source, cursor);
    } else {
      var e := ps[0].Encoding();
      assert Encoded(ps) + [QUOTE] == e + (Encoded(ps[1..]) + [QUOTE]);
      assert source[cursor..][..|e|] == e == source[cursor..cursor + |e|];
      NextPieceIsTheOnlyPiece(source, cursor, ps[0]);
      assert source[cursor..][|e|..] == source[cursor + |e|..];
      DecodingStopsAtTheQuote(source, cursor + |e|, ps[1..], room - 1);
    }
  }

  lemma {:induction false} BreaksInLonger(partial: Text, whole: Text, cursor: nat, room: nat)
    requires partial <= whole && Breaks(partial, cursor, room)
    ensures Breaks(whole, cursor, room)
    decreases room
  {
    hide NextPiece, HexNumber, Piece.Valid, Piece.Encoding;
    var piece := NextPiece(partial, cursor);
    if piece.Some? {
      PieceStands(partial, cursor);
      var e := piece.value.Encoding();
      assert whole[cursor..cursor + |e|] == partial[cursor..cursor + |e|];
      NextPieceIsTheOnlyPiece(whole, cursor, piece.value);
      BreaksInLonger(partial, whole, cursor + |e|, room - 1);
    } else {
      assert whole[cursor + 2..cursor + 6] == partial[cursor + 2..cursor + 6];
      NegativeIsNoPiece(whole, cursor);
    }
  }

  /** A truncated source decodes to a prefix of what the longer source decodes to, and raises only if
      the longer one does. */
  lemma PrefixIsMonotone(partial: Text, whole: Text, start: nat)
    requires partial <= whole
    ensures Prefix(partial, start) <= Prefix(whole, start)
    ensures PrefixRaises(partial, start) ==> PrefixRaises(whole, start)
  {
    hide NextPiece, Decoded, Encoded, ReadPieces, Breaks;
    if start < |partial| && partial[start] == QUOTE {
      var ps := ReadPieces(partial, start + 1, REPLY_MAX_LENGTH);
      OutputIsTheLongestParse(partial, start + 1, REPLY_MAX_LENGTH);
      assert Encoded(ps) <= whole[start + 1..];
      EveryPieceIsDecoded(whole, start + 1, ps, REPLY_MAX_LENGTH);
      assert Meanings(ps)[..|ps|] == Meanings(ps);
      if PrefixRaises(partial, start) {
        BreaksInLonger(partial, whole, start + 1, REPLY_MAX_LENGTH);
      }
    }
  }

  /** No surrogate code point ever reaches the preview. */
  lemma PrefixHasNoSurrogates(source: Text, start: nat)
    ensures forall c | c in Prefix(source, start) :: !Surrogate(c)
  {
    hide NextPiece, Decoded, Encoded, ReadPieces;
    if start < |source| && source[start] == QUOTE {
      OutputIsTheLongestParse(source, start + 1, REPLY_MAX_LENGTH);
    }
  }

  // ----- Escapes that only Python reads -------------------------------------------------

  /** Proper units and pairs are pieces with the meaning that section 7 of RFC 8259 gives them. */
  lemma ProperUnitsMeanTheirNumber(digits: Text, low: Text)
    requires |digits| == 4 && AreHex(digits) && |low| == 4 && AreHex(low)
    ensures !Surrogate(Positional(digits)) ==> Unit(digits).Valid() && Unit(digits).Meaning() == Positional(digits)
    ensures HighSurrogate(Positional(digits)) && LowSurrogate(Positional(low)) ==>
      && Pair(digits, low).Valid()
      && Pair(digits, low).Meaning() == 0x10000 + (Positional(digits) - 0xD800) * 0x400 + (Positional(low) - 0xDC00)
  {
    hide Int16, Positional, AreHex;
    HexIsRead(digits);
    HexIsRead(low);
  }

  /** What a decoder of JSON proper reads: it stops at the first escape without four digits. */
  function ProperPieces(source: Text, cursor: nat, room: nat): (ps: seq<Piece>)
    ensures AllValid(ps) && |ps| <= room
    decreases room
  {
    if room == 0 || NextPiece(source, cursor).None? || !NextPiece(source, cursor).value.Proper() then []
    else
      var piece := NextPiece(source, cursor).value;
      [piece] + ProperPieces(source, cursor + |piece.Encoding()|, room - 1)
  }

  /** An escape that JSON has not and `int` reads. */
  predicate LenientEscape(source: Text, cursor: nat) {
    NegativeUnit(source, cursor) || (NextPiece(source, cursor).Some? && !NextPiece(source, cursor).value.Proper())
  }

  /** Reading JSON proper runs into such an escape before the cap. */
  predicate MeetsLenientEscape(source: Text, cursor: nat, room: nat) {
    var ps := ProperPieces(source, cursor, room);
    |ps| < room && LenientEscape(source, cursor + |Encoded(ps)|)
  }

  lemma {:induction false} LenientEscapeIsMet(source: Text, cursor: nat, room: nat)
    ensures var ps := ProperPieces(source, cursor, room);
      MeetsLenientEscape(source, cursor, room)
      <==> Breaks(source, cursor, room) || Decoded(source, cursor, room) != Meanings(ps)
    ensures Meanings(ProperPieces(source, cursor, room)) <= Decoded(source, cursor, room)
    decreases room
  {
    hide NextPiece, NegativeUnit, Piece.Valid, Piece.Encoding, Piece.Meaning, Piece.Proper;
    NegativeIsNoPiece(source, cursor);
    if room > 0 && NextPiece(source, cursor).Some? && NextPiece(source, cursor).value.Proper() {
      var piece := NextPiece(source, cursor).value;
      var next := cursor + |piece.Encoding()|;
      var rest := ProperPieces(source, next, room - 1);
      LenientEscapeIsMet(source, next, room - 1);
      FirstPiece(source, cursor, room);
      var ps := ProperPieces(source, cursor, room);
      assert ps[0] == piece && ps[1..] == rest;
      assert Encoded(ps) == piece.Encoding() + Encoded(rest);
    }
  }

  /** The decoder answers as one of JSON proper would, exactly for the strings in which that one does
      not stop at an escape that `int` reads nevertheless. */
  lemma OnlyJsonIsDecoded(source: Text, start: nat)
    requires start < |source| && source[start] == QUOTE
    ensures var ps := ProperPieces(source, start + 1, REPLY_MAX_LENGTH);
      !PrefixRaises(source, start) && Prefix(source, start) == Meanings(ps)
      <==> !MeetsLenientEscape(source, start + 1, REPLY_MAX_LENGTH)
  {
    hide Breaks, Decoded, ProperPieces, MeetsLenientEscape;
    LenientEscapeIsMet(source, start + 1, REPLY_MAX_LENGTH);
  }

  /** `"\u 41 "` is read as `"A"`. */
  lemma SpacesInAnEscapeAreRead()
    ensures Prefix([QUOTE, BACKSLASH, LETTER_U, 0x20, 0x34, 0x31, 0x20], 0) == [0x41]
  {
    var source, digits := [QUOTE, BACKSLASH, LETTER_U, 0x20, 0x34, 0x31, 0x20], [0x20, 0x34, 0x31, 0x20];
    SpacesAreSkipped();
    assert source[3..7] == digits;
    hide Decoded, HexNumber;
    assert NextPiece(source, 1) == Some(Unit(digits));
    FirstPiece(source, 1, REPLY_MAX_LENGTH);
    NoPieceMore(source, 7, REPLY_MAX_LENGTH - 1);
  }

  lemma SpacesAreSkipped()
    ensures HexNumber([0x20, 0x34, 0x31, 0x20]) == Some(0x41)
  {
    assert [0x20, 0x34, 0x31, 0x20][1..] == [0x34, 0x31, 0x20] && [0x34, 0x31, 0x20][..2] == [0x34, 0x31];
    HexDigitsAreRead([0x34, 0x31]);
    assert [0x34, 0x31][..1] == [0x34] && [0x34][..0] == [];
  }

  /** `"\u-041"` ends in a `ValueError`. */
  lemma NegativeEscapeRaises()
    ensures PrefixRaises([QUOTE, BACKSLASH, LETTER_U, 0x2D, 0x30, 0x34, 0x31], 0)
  {
    var source, digits := [QUOTE, BACKSLASH, LETTER_U, 0x2D, 0x30, 0x34, 0x31], [0x2D, 0x30, 0x34, 0x31];
    SignsAreRead();
    assert source[3..7] == digits;
    hide HexNumber;
    assert NegativeUnit(source, 1);
    NegativeIsNoPiece(source, 1);
  }

  lemma SignsAreRead()
    ensures HexNumber([0x2D, 0x30, 0x34, 0x31]) == Some(-0x41)
  {
    assert [0x2D, 0x30, 0x34, 0x31][1..] == [0x30, 0x34, 0x31];
    HexDigitsAreRead([0x30, 0x34, 0x31]);
    assert [0x30, 0x34, 0x31][..2] == [0x30, 0x34] && [0x30, 0x34][..1] == [0x30] && [0x30][..0] == [];
    assert Positional([0x30]) == 0 && Positional([0x30, 0x34]) == 4;
  }
}
