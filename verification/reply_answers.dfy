/** Where the answer inside an item text stands: the Markdown fence around it, and the first top-level
    property named `reply`. */
module ReplyAnswers {
  import opened Wrappers
  import opened PythonText
  import opened ReplyString
  import opened ReplyPreview

  // ----- White space --------------------------------------------------------------------

  predicate AllSpaces(text: Text) {
    forall c | c in text :: SpacePoint(c)
  }

  /** Nothing but spaces stands between the places, and none after. */
  predicate SpacesBetween(source: Text, from: nat, to: nat) {
    && from <= to <= |source| && AllSpaces(source[from..to])
    && (to < |source| ==> !SpacePoint(source[to]))
  }

  lemma {:induction false} SkipsAllSpaces(source: Text, from: nat, to: nat)
    requires from <= |source|
    ensures SkipSpaces(source, from) == to <==> SpacesBetween(source, from, to)
    decreases |source| - from
  {
    if from < |source| && SpacePoint(source[from]) {
      SkipsAllSpaces(source, from + 1, to);
      if from < to <= |source| {
        assert source[from..to] == [source[from]] + source[from + 1..to];
      }
      if to == from {
        assert !SpacesBetween(source, from, to);
      }
    } else if from < to <= |source| {
      assert source[from] in source[from..to];
    }
  }

  lemma StripsSpaces(spaces: Text, rest: Text)
    requires AllSpaces(spaces) && (rest != [] ==> !SpacePoint(rest[0]))
    ensures LeftStrip(spaces + rest) == rest
  {
    var source := spaces + rest;
    assert source[0..|spaces|] == spaces;
    SkipsAllSpaces(source, 0, |spaces|);
    assert source[|spaces|..] == rest;
  }

  lemma {:induction false} StripsSpacesAfter(text: Text, spaces: Text)
    requires AllSpaces(spaces) && (text != [] ==> !SpacePoint(text[|text| - 1]))
    ensures RightStrip(text + spaces) == text
    decreases |spaces|
  {
    if spaces == [] {
      assert text + spaces == text;
    } else {
      var last := |spaces| - 1;
      assert spaces[last] in spaces;
      assert (text + spaces)[..|text| + last] == text + spaces[..last];
      StripsSpacesAfter(text, spaces[..last]);
    }
  }

  lemma {:induction false} FirstNewlineIsIt(line: Text, rest: Text)
    requires NEWLINE !in line
    ensures FirstNewline(line + [NEWLINE] + rest) == |line| && FirstNewline(line) == |line|
  {
    if line != [] {
      assert line[0] in line;
      FirstNewlineIsIt(line[1..], rest);
      assert (line + [NEWLINE] + rest)[1..] == line[1..] + [NEWLINE] + rest;
    }
  }

  // ----- The fence ----------------------------------------------------------------------

  /** The letters `json` in either case. */
  predicate SaysJson(name: Text) {
    |name| == 4 && name[0] in {0x4A, 0x6A} && name[1] in {0x53, 0x73} && name[2] in {0x4F, 0x6F}
    && name[3] in {0x4E, 0x6E}
  }

  predicate EndsPlain(text: Text) {
    text != [] ==> !SpacePoint(text[|text| - 1])
  }

  predicate StartsPlain(text: Text) {
    text != [] ==> !SpacePoint(text[0])
  }

  /** The first line of a fenced text: the fence, a name and trailing spaces. */
  predicate IsFenceLine(line: Text, name: Text, trail: Text) {
    && line == [0x60, 0x60, 0x60] + name + trail
    && EndsPlain(name) && AllSpaces(trail) && NEWLINE !in name && NEWLINE !in trail
  }

  lemma FenceLineStripped(line: Text, name: Text, trail: Text)
    requires IsFenceLine(line, name, trail)
    ensures LeftStrip(line) == line && RightStrip(line) == FENCE + name && NEWLINE !in line
    ensures FENCE <= line && StartsPlain(line)
  {
    hide SpacePoint, LeftStrip, RightStrip;
    BacktickIsPlain();
    var opening, none: Text := FENCE + name, [];
    assert line == opening + trail && opening[0] == 0x60 && EndsPlain(opening);
    assert none + line == line;
    StripsSpaces(none, line);
    StripsSpacesAfter(opening, trail);
    assert NEWLINE !in opening;
  }

  lemma BacktickIsPlain()
    ensures !SpacePoint(0x60)
  {
  }

  lemma JsonFence(name: Text)
    ensures Lower(FENCE + name) == JSON_FENCE <==> SaysJson(name)
    ensures FENCE + name == FENCE <==> name == []
  {
    var opening := FENCE + name;
    if SaysJson(name) {
      assert |Lower(opening)| == 7;
    } else if |name| == 4 {
      assert Lower(opening)[3] == JSON_FENCE[3] ==> name[0] == opening[3] && name[0] in {0x4A, 0x6A};
      assert Lower(opening)[4] == JSON_FENCE[4] ==> name[1] == opening[4] && name[1] in {0x53, 0x73};
      assert Lower(opening)[5] == JSON_FENCE[5] ==> name[2] == opening[5] && name[2] in {0x4F, 0x6F};
      assert Lower(opening)[6] == JSON_FENCE[6] ==> name[3] == opening[6] && name[3] in {0x4E, 0x6E};
    } else {
      assert |Lower(opening)| != 7;
    }
  }

  /** A text whose first word is no fence is taken from that word on. */
  lemma PlainTextIsTaken(spaces: Text, source: Text)
    requires AllSpaces(spaces) && StartsPlain(source) && !([0x60, 0x60, 0x60] <= source)
    ensures Unfenced(spaces + source) == source
  {
    StripsSpaces(spaces, source);
  }

  /** Of a fenced text the body counts, if the fence says `json` or says nothing before a structure;
      otherwise it is taken with its fence. */
  lemma FenceIsTaken(spaces: Text, line: Text, name: Text, trail: Text, gap: Text, body: Text)
    requires AllSpaces(spaces) && IsFenceLine(line, name, trail) && AllSpaces(gap) && StartsPlain(body)
    ensures var source := line + [NEWLINE] + (gap + body);
      Unfenced(spaces + source)
      == if SaysJson(name) || (name == [] && StartsStructure(body)) then body else source
  {
    hide LeftStrip, RightStrip, Lower, SaysJson;
    var source := line + [NEWLINE] + (gap + body);
    FenceLineStripped(line, name, trail);
    StripsSpaces(spaces, source);
    FirstNewlineIsIt(line, gap + body);
    assert source[..|line|] == line && source[|line| + 1..] == gap + body;
    StripsSpaces(gap, body);
    JsonFence(name);
  }

  /** A fence that says `json` and is not yet complete counts as an object without a reply. */
  lemma OpenFenceIsTaken(spaces: Text, line: Text, name: Text, trail: Text)
    requires AllSpaces(spaces) && IsFenceLine(line, name, trail)
    ensures Unfenced(spaces + line) == if SaysJson(name) then [OPEN_BRACE] else line
  {
    hide LeftStrip, RightStrip, Lower, SaysJson;
    FenceLineStripped(line, name, trail);
    StripsSpaces(spaces, line);
    FirstNewlineIsIt(line, []);
    assert line[..|line|] == line;
    var none: Text := [];
    assert none + none == none;
    StripsSpaces(none, none);
    JsonFence(name);
  }

  // ----- The first property named reply -------------------------------------------------

  /** The property at this place has this name, and its value starts at `value`. */
  ghost predicate NamedAt(source: Text, at: nat, decode: Decoder, name: Text, value: nat) {
    && at < |source|
    && var key := decode(source, SkipSpaces(source, at));
    && key.Some? && key.value.0 == StringToken(name)
    && var colon := SkipSpaces(source, key.value.1);
    && colon < |source| && source[colon] == COLON && value == SkipSpaces(source, colon + 1)
  }

  /** The value that starts here ends before a comma, and the next property stands after it. */
  ghost predicate NextAfter(source: Text, value: nat, decode: Decoder, next: nat) {
    && var token := decode(source, value);
    && token.Some?
    && var comma := SkipSpaces(source, token.value.1);
    && comma < |source| && source[comma] == COMMA && next == comma + 1
  }

  /** A property of another name from one place to the next. */
  ghost predicate PassesOther(source: Text, at: nat, decode: Decoder, next: nat) {
    exists name, value :: name != REPLY_KEY && NamedAt(source, at, decode, name, value)
                          && NextAfter(source, value, decode, next)
  }

  /** The places of successive properties, all but the last of another name. */
  ghost predicate Properties(source: Text, decode: Decoder, places: seq<nat>) {
    places != [] && forall i | 0 <= i < |places| - 1 :: PassesOther(source, places[i], decode, places[i + 1])
  }

  lemma {:induction false} FoundIsNamed(source: Text, at: nat, decode: Decoder) returns (places: seq<nat>)
    requires at <= |source| && ReplyStart(source, at, decode).Some?
    ensures Properties(source, decode, places) && places[0] == at
    ensures NamedAt(source, places[|places| - 1], decode, REPLY_KEY, ReplyStart(source, at, decode).value)
    decreases |source| - at
  {
    hide SkipSpaces;
    var key := decode(source, SkipSpaces(source, at));
    var colon := SkipSpaces(source, key.value.1);
    var start := SkipSpaces(source, colon + 1);
    if key.value.0.text == REPLY_KEY {
      places := [at];
    } else {
      var next := SkipSpaces(source, decode(source, start).value.1) + 1;
      assert PassesOther(source, at, decode, next) by {
        assert NamedAt(source, at, decode, key.value.0.text, start);
      }
      var rest := FoundIsNamed(source, next, decode);
      places := [at] + rest;
    }
  }

  lemma {:induction false} NamedIsFound(source: Text, decode: Decoder, places: seq<nat>, start: nat)
    requires Properties(source, decode, places)
    requires NamedAt(source, places[|places| - 1], decode, REPLY_KEY, start)
    ensures places[0] <= |source| && ReplyStart(source, places[0], decode) == Some(start)
    decreases |places|
  {
    hide SkipSpaces;
    if |places| > 1 {
      var rest := places[1..];
      forall i | 0 <= i < |rest| - 1 ensures PassesOther(source, rest[i], decode, rest[i + 1]) {
        assert PassesOther(source, places[i + 1], decode, places[i + 2]);
      }
      NamedIsFound(source, decode, rest, start);
      assert PassesOther(source, places[0], decode, places[1]);
    }
  }

  /** The reply starts where the first top-level property of that name has its value, if there is one. */
  lemma ReplyIsTheFirstNamed(source: Text, decode: Decoder, start: nat)
    requires source != []
    ensures ReplyStart(source, 1, decode) == Some(start)
       <==> exists places :: Properties(source, decode, places) && places[0] == 1
              && NamedAt(source, places[|places| - 1], decode, REPLY_KEY, start)
  {
    hide PassesOther, NamedAt;
    if ReplyStart(source, 1, decode) == Some(start) {
      var places := FoundIsNamed(source, 1, decode);
    }
    forall places: seq<nat> | Properties(source, decode, places) && places[0] == 1
                              && NamedAt(source, places[|places| - 1], decode, REPLY_KEY, start)
      ensures ReplyStart(source, 1, decode) == Some(start)
    {
      NamedIsFound(source, decode, places, start);
    }
  }

  // ----- The answer ---------------------------------------------------------------------

  /** The value of the first top-level property named `reply` starts here. */
  ghost predicate ReplyStandsAt(source: Text, decode: Decoder, start: nat) {
    exists places :: Properties(source, decode, places) && places[0] == 1
      && NamedAt(source, places[|places| - 1], decode, REPLY_KEY, start)
  }

  /** A text is structured exactly if, without its fence, it starts an object or a list; its answer is
      then the first reply of the object, decoded as far as it stands, and else the text itself, cut at
      12000 characters. */
  lemma AnswerIsTheReply(text: Text, decode: Decoder)
    ensures var source, answer := Unfenced(text), AnswerOf(text, decode);
      && (answer.structured <==> source != [] && source[0] in {0x7B, 0x5B})
      && (!answer.structured ==> answer.text == if |text| <= 12000 then text else text[..12000])
      && (answer.structured && source[0] == 0x5B ==> answer.text == [])
      && (answer.structured && source[0] == 0x7B ==>
            && (forall start | ReplyStandsAt(source, decode, start) :: answer.text == Prefix(source, start))
            && ((forall start: nat :: !ReplyStandsAt(source, decode, start)) ==> answer.text == []))
    ensures AnswerRaises(text, decode) <==>
      && StartsWithBrace(Unfenced(text))
      && exists start: nat ::
           ReplyStandsAt(Unfenced(text), decode, start) && PrefixRaises(Unfenced(text), start)
  {
    hide Unfenced, Prefix, PrefixRaises, Properties, NamedAt;
    var source := Unfenced(text);
    if source != [] {
      forall start: nat ensures ReplyStart(source, 1, decode) == Some(start) <==> ReplyStandsAt(source, decode, start) {
        ReplyIsTheFirstNamed(source, decode, start);
      }
    }
  }
}
