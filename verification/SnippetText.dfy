/** What a snippet is in terms of code points and bytes: UTF-8 as section 3 of RFC 3629
    defines it, the white space of Unicode by number, and the snippet of a text given
    as words and gaps. */
module SnippetText {
  import opened Snippet
  import opened SnippetProofs

  /* ----- characters by code point ----- */

  /** A code point that UTF-8 encodes: none of the surrogates. */
  predicate Scalar(cp: int) {
    0 <= cp < 0xD800 || 0xE000 <= cp <= 0x10FFFF
  }

  function Utf8(cp: int): Bytes
    requires Scalar(cp)
  {
    if cp < 0x80 then [cp]
    else if cp < 0x800 then [0xC0 + cp / 64, 0x80 + cp % 64]
    else if cp < 0x10000 then [0xE0 + cp / 4096, 0x80 + cp / 64 % 64, 0x80 + cp % 64]
    else [0xF0 + cp / 262144, 0x80 + cp / 4096 % 64, 0x80 + cp / 64 % 64, 0x80 + cp % 64]
  }

  lemma EncodedTwo(cp: int)
    requires 0x80 <= cp < 0x800
    ensures Whole(Utf8(cp))
  {}

  lemma EncodedThree(cp: int)
    requires Scalar(cp) && 0x800 <= cp < 0x10000
    ensures Whole(Utf8(cp))
  {
    assert cp / 4096 == 0 ==> cp / 64 % 64 >= 0x20;
    assert cp / 4096 == 13 ==> cp / 64 % 64 < 0x20;
  }

  lemma EncodedFour(cp: int)
    requires 0x10000 <= cp <= 0x10FFFF
    ensures Whole(Utf8(cp))
  {
    assert cp / 262144 == 0 ==> cp / 4096 % 64 >= 0x10;
    assert cp / 262144 == 4 ==> cp / 4096 % 64 < 0x10;
  }

  lemma EncodedIsWhole(cp: int)
    requires Scalar(cp)
    ensures Whole(Utf8(cp))
  {
    if 0x80 <= cp < 0x800 { EncodedTwo(cp); }
    if 0x800 <= cp < 0x10000 { EncodedThree(cp); }
    if 0x10000 <= cp { EncodedFour(cp); }
  }

  /** `high`: the bits of the lead byte; each further byte adds six. */
  function Add(high: int, b: int): int {
    high * 64 + (b - 0x80)
  }

  function CodePoint(u: Bytes): int
    requires 1 <= |u| <= 4
  {
    var lead: int := u[0];
    if |u| == 1 then lead
    else if |u| == 2 then Add(lead - 0xC0, u[1])
    else if |u| == 3 then Add(Add(lead - 0xE0, u[1]), u[2])
    else Add(Add(Add(lead - 0xF0, u[1]), u[2]), u[3])
  }

  lemma SixBits(high: int, b: int)
    requires 0x80 <= b <= 0xBF
    ensures Add(high, b) / 64 == high && Add(high, b) % 64 == b - 0x80
  {}

  lemma TwoBytes(u: Bytes)
    requires Whole(u) && |u| == 2
    ensures Scalar(CodePoint(u)) && Utf8(CodePoint(u)) == u
  {
    var lead: int := u[0];
    SixBits(lead - 0xC0, u[1]);
  }

  lemma ThreeBytes(u: Bytes)
    requires Whole(u) && |u| == 3
    ensures Scalar(CodePoint(u)) && Utf8(CodePoint(u)) == u
  {
    var lead: int := u[0];
    var high := Add(lead - 0xE0, u[1]);
    SixBits(lead - 0xE0, u[1]);
    SixBits(high, u[2]);
    assert CodePoint(u) / 4096 == high / 64;
  }

  lemma FourBytes(u: Bytes)
    requires Whole(u) && |u| == 4
    ensures Scalar(CodePoint(u)) && Utf8(CodePoint(u)) == u
  {
    var lead: int := u[0];
    var high := Add(lead - 0xF0, u[1]);
    var mid := Add(high, u[2]);
    SixBits(lead - 0xF0, u[1]);
    SixBits(high, u[2]);
    SixBits(mid, u[3]);
    assert CodePoint(u) / 4096 == mid / 64 && CodePoint(u) / 262144 == mid / 4096 == high / 64;
  }

  lemma WholeIsEncoded(u: Bytes)
    requires Whole(u)
    ensures 1 <= |u| <= 4 && Scalar(CodePoint(u)) && Utf8(CodePoint(u)) == u
  {
    if |u| == 2 { TwoBytes(u); }
    if |u| == 3 { ThreeBytes(u); }
    if |u| == 4 { FourBytes(u); }
  }

  /** The byte tables of the decoder accept exactly the encodings of code points. */
  lemma WholeExactly(u: Bytes)
    ensures Whole(u) <==> exists cp :: Scalar(cp) && u == Utf8(cp)
  {
    if Whole(u) { WholeIsEncoded(u); }
    if cp :| Scalar(cp) && u == Utf8(cp) { EncodedIsWhole(cp); }
  }

  /** Decoding takes a character where one stands. */
  lemma CharacterFirst(cp: int, rest: Bytes)
    requires Scalar(cp)
    ensures Units(Utf8(cp) + rest) == [Utf8(cp)] + Units(rest)
  {
    EncodedIsWhole(cp);
    WholeFirst(Utf8(cp), rest);
  }

  lemma WholeFirst(u: Bytes, rest: Bytes)
    requires Whole(u)
    ensures Units(u + rest) == [u] + Units(rest)
  {
    var s := u + rest;
    assert s[0] == u[0] && (|u| > 1 ==> s[1] == u[1]) && (|u| > 2 ==> s[2] == u[2]) && (|u| > 3 ==> s[3] == u[3]);
    UnitsCons(u, rest);
  }

  lemma FirstCharacter(s: Bytes) returns (cp: int)
    requires s != [] && (s[0] < 0x80 || WellFormed(s))
    ensures Scalar(cp) && Utf8(cp) <= s
  {
    if s[0] < 0x80 {
      cp := s[0];
      assert Utf8(cp) == s[..1];
    } else {
      var u := s[..Width(s)];
      WholeIsEncoded(u);
      cp := CodePoint(u);
    }
  }

  /** Where no character stands it takes one byte. */
  lemma NoCharacterFirst(s: Bytes)
    requires s != [] && forall cp | Scalar(cp) :: !(Utf8(cp) <= s)
    ensures s[0] >= 0x80 && Units(s) == [s[..1]] + Units(s[1..])
  {
    if s[0] < 0x80 || WellFormed(s) { var cp := FirstCharacter(s); }
  }

  /* ----- white space by number ----- */

  predicate SpacePoint(cp: int) {
    || 0x09 <= cp <= 0x0D || cp == 0x20 || cp == 0x85 || cp == 0xA0 || cp == 0x1680
    || 0x2000 <= cp <= 0x200A || cp == 0x2028 || cp == 0x2029 || cp == 0x202F || cp == 0x205F || cp == 0x3000
  }

  /** White space is what Unicode numbers so, and nothing else. */
  lemma SpaceExactly(cp: int)
    requires Scalar(cp)
    ensures Space(Utf8(cp)) <==> SpacePoint(cp)
  {}

  lemma SpaceIsWhole(u: Bytes)
    requires Space(u)
    ensures Whole(u)
  {}

  lemma {:induction false} ByteInUnit(units: seq<Bytes>, i: nat)
    requires i < |Flatten(units)|
    ensures exists u :: u in units && Flatten(units)[i] in u
  {
    if i < |units[0]| {
      assert units[0] in units && units[0][i] == Flatten(units)[i];
    } else {
      ByteInUnit(units[1..], i - |units[0]|);
      var u :| u in units[1..] && Flatten(units[1..])[i - |units[0]|] in u;
      assert u in units;
    }
  }

  lemma LongUnitBytes(u: Bytes, b: Byte)
    requires Whole(u) && |u| > 1 && b in u
    ensures b >= 0x80
  {}

  /** The snippet stays on one line, byte by byte and character by character: no tab,
      line feed or other control white space, and no white space of Unicode but the
      plain blank. */
  lemma SnippetHasNoBreaks(body: Bytes)
    ensures forall b :: b in BodySnippet(body) ==> !(0x09 <= b <= 0x0D)
    ensures forall u, cp | u in Units(BodySnippet(body)) && Scalar(cp) && u == Utf8(cp) :: SpacePoint(cp) ==> cp == 0x20
  {
    SnippetIsOneLine(body);
    var s, units := BodySnippet(body), Units(BodySnippet(body));
    FlattenUnits(s);
    forall i: nat | i < |s| ensures !(0x09 <= s[i] <= 0x0D) {
      ByteInUnit(units, i);
      var u :| u in units && s[i] in u;
      OnlyBlanks(u, s[i]);
    }
    forall u, cp | u in units && Scalar(cp) && u == Utf8(cp) ensures SpacePoint(cp) ==> cp == 0x20 {
      SpaceExactly(cp);
      assert SpacePoint(cp) ==> u == BLANK;
    }
  }

  lemma OnlyBlanks(u: Bytes, b: Byte)
    requires Whole(u) && (Space(u) ==> u == BLANK) && b in u
    ensures !(0x09 <= b <= 0x0D)
  {
    if |u| > 1 { LongUnitBytes(u, b); }
  }

  /* ----- words and gaps ----- */

  /** A gap of white space, and the word behind it. */
  datatype Piece = Piece(gap: seq<Bytes>, word: seq<Bytes>)

  predicate IsGap(units: seq<Bytes>) {
    forall u :: u in units ==> Space(u)
  }

  predicate IsWord(units: seq<Bytes>) {
    units != [] && forall u :: u in units ==> !Space(u)
  }

  /** Words apart from each other: only before the first one the gap may be empty. */
  predicate Apart(pieces: seq<Piece>) {
    && (forall p :: p in pieces ==> IsGap(p.gap) && IsWord(p.word))
    && forall k :: 0 < k < |pieces| ==> pieces[k].gap != []
  }

  function Written(pieces: seq<Piece>, end: seq<Bytes>): seq<Bytes> {
    if pieces == [] then end else pieces[0].gap + pieces[0].word + Written(pieces[1..], end)
  }

  /** The words in order, one 0x20 between any two, invalid bytes mended. */
  function Words(pieces: seq<Piece>): seq<Bytes> {
    if pieces == [] then []
    else Repair(pieces[0].word, false) + (if |pieces| == 1 then [] else [[0x20]]) + Words(pieces[1..])
  }

  lemma FeedSplit(st: Pass, a: seq<Bytes>, b: seq<Bytes>)
    ensures FeedAll(st, a + b) == FeedAll(FeedAll(st, a), b)
    decreases |a|
  {
    if a == [] { assert a + b == b; } else {
      assert (a + b)[1..] == a[1..] + b;
      FeedSplit(Feed(st, a[0]), a[1..], b);
    }
  }

  lemma {:induction false} FeedGap(st: Pass, gap: seq<Bytes>)
    requires IsGap(gap)
    ensures FeedAll(st, gap) == if gap == [] then st else Pass(st.out, st.out != [], false)
    decreases |gap|
  {
    if gap != [] {
      assert gap[0] in gap && forall u :: u in gap[1..] ==> u in gap;
      FeedGap(Feed(st, gap[0]), gap[1..]);
    }
  }

  lemma {:induction false} FeedRest(st: Pass, rest: seq<Bytes>)
    requires !st.gap && forall u :: u in rest ==> !Space(u)
    ensures FeedAll(st, rest) == Pass(st.out + Repair(rest, st.bad), false, EndsBad(rest, st.bad))
    decreases |rest|
  {
    if rest != [] {
      var u, more := rest[0], rest[1..];
      assert u in rest && forall x :: x in more ==> x in rest;
      FeedRest(Feed(st, u), more);
      var shown := if !Bad(u) then [u] else if st.bad then [] else [QUESTION];
      assert Feed(st, u) == Pass(st.out + shown, false, Bad(u));
      assert st.out + shown + Repair(more, Bad(u)) == st.out + (shown + Repair(more, Bad(u)));
    } else {
      assert st.out + [] == st.out;
    }
  }

  lemma FeedWord(st: Pass, word: seq<Bytes>)
    requires IsWord(word) && !st.bad
    ensures FeedAll(st, word) ==
            Pass(st.out + (if st.gap then [[0x20]] else []) + Repair(word, false), false, EndsBad(word, false))
  {
    var u, more := word[0], word[1..];
    assert u in word && forall x :: x in more ==> x in word;
    FeedRest(Feed(st, u), more);
    var lead, shown := if st.gap then [BLANK] else [], if Bad(u) then [QUESTION] else [u];
    assert Feed(st, u) == Pass(st.out + lead + shown, false, Bad(u));
    assert st.out + lead + shown + Repair(more, Bad(u)) == st.out + lead + (shown + Repair(more, Bad(u)));
  }

  /** A gap and a word, coming after other words or at the very start. */
  lemma FeedPiece(st: Pass, p: Piece)
    requires IsGap(p.gap) && IsWord(p.word) && !st.gap && (p.gap == [] ==> st == START)
    ensures FeedAll(st, p.gap + p.word) ==
            Pass(st.out + (if st.out == [] then [] else [[0x20]]) + Repair(p.word, false), false, EndsBad(p.word, false))
  {
    FeedSplit(st, p.gap, p.word);
    FeedGap(st, p.gap);
    FeedWord(FeedAll(st, p.gap), p.word);
  }

  /** The pass over words and gaps writes the words, a blank between any two. */
  lemma {:induction false} FeedPieces(st: Pass, pieces: seq<Piece>, end: seq<Bytes>)
    requires Apart(pieces) && IsGap(end) && !st.gap
    requires pieces != [] && pieces[0].gap == [] ==> st == START
    ensures FeedAll(st, Written(pieces, end)).out ==
            st.out + (if st.out == [] || pieces == [] then [] else [[0x20]]) + Words(pieces)
    decreases |pieces|
  {
    if pieces == [] {
      FeedGap(st, end);
    } else {
      var p, rest := pieces[0], pieces[1..];
      assert p in pieces;
      ApartRest(pieces);
      FeedSplit(st, p.gap + p.word, Written(rest, end));
      FeedPiece(st, p);
      RepairKeepsSome(p.word);
      FeedPieces(FeedAll(st, p.gap + p.word), rest, end);
      var lead, more := if st.out == [] then [] else [[0x20]], if rest == [] then [] else [[0x20]];
      Regrouped(st.out, lead, Repair(p.word, false), more, Words(rest));
    }
  }

  lemma ApartRest(pieces: seq<Piece>)
    requires pieces != [] && Apart(pieces)
    ensures Apart(pieces[1..]) && (pieces[1..] != [] ==> pieces[1..][0].gap != [])
  {
    var rest := pieces[1..];
    assert forall q :: q in rest ==> q in pieces;
    assert forall k :: 0 <= k < |rest| ==> rest[k] == pieces[k + 1];
  }

  lemma Regrouped(a: seq<Bytes>, b: seq<Bytes>, c: seq<Bytes>, d: seq<Bytes>, e: seq<Bytes>)
    ensures a + b + c + d + e == a + b + (c + d + e)
  {}

  lemma RepairKeepsSome(word: seq<Bytes>)
    requires word != []
    ensures Repair(word, false) != []
  {}

  /** The snippet of any body, read as words and gaps: the words with one blank between
      any two; beyond 200 characters the first 200 and an ellipsis; "absent" if there
      is no word. */
  lemma SnippetOfWords(body: Bytes, pieces: seq<Piece>, end: seq<Bytes>)
    requires Units(body) == Written(pieces, end) && Apart(pieces) && IsGap(end)
    ensures var words := Words(pieces);
            BodySnippet(body) ==
              if pieces == [] then [0x61, 0x62, 0x73, 0x65, 0x6E, 0x74]
              else if |words| <= 200 then Flatten(words)
              else Flatten(words[..200]) + [0xE2, 0x80, 0xA6]
  {
    FeedPieces(START, pieces, end);
    var words := Words(pieces);
    assert [] + [] + words == words;
    assert Squeeze(Units(body)) == words;
    SnippetDecodes(body);
    CollapsedUnits(body);
    AbsentShape();
    if pieces != [] { RepairKeepsSome(pieces[0].word); }
    if |words| > BODY_LIMIT { CutDecodes(words); }
  }

  lemma {:induction false} RepairAppend(a: seq<Bytes>, b: seq<Bytes>, inBad: bool)
    ensures Repair(a + b, inBad) == Repair(a, inBad) + Repair(b, EndsBad(a, inBad))
    decreases |a|
  {
    if a == [] {
      assert a + b == b;
    } else {
      assert (a + b)[1..] == a[1..] + b;
      RepairAppend(a[1..], b, Bad(a[0]));
    }
  }

  lemma {:induction false} RepairBad(run: seq<Bytes>, inBad: bool)
    requires run != [] && forall u :: u in run ==> Bad(u)
    ensures Repair(run, inBad) == if inBad then [] else [[0x3F]]
    decreases |run|
  {
    assert run[0] in run && forall u :: u in run[1..] ==> u in run;
    if |run| > 1 { RepairBad(run[1..], true); }
  }

  /** A run of invalid bytes inside a word becomes one question mark; the rest stays. */
  lemma RepairRun(a: seq<Bytes>, run: seq<Bytes>, b: seq<Bytes>)
    requires run != [] && (forall u :: u in run ==> Bad(u))
    requires (a != [] ==> !Bad(a[|a| - 1])) && (b != [] ==> !Bad(b[0]))
    ensures Repair(a + run + b, false) == Repair(a, false) + [[0x3F]] + Repair(b, false)
  {
    assert run[|run| - 1] in run;
    RepairAppend(a + run, b, false);
    RepairAppend(a, run, false);
    RepairBad(run, false);
    assert (a + run)[|a + run| - 1] == run[|run| - 1];
  }

  /* ----- well-formed text ----- */

  predicate Characters(units: seq<Bytes>) {
    forall u :: u in units ==> Whole(u)
  }

  /** The words as they are, one 0x20 between any two. */
  function PlainWords(pieces: seq<Piece>): seq<Bytes> {
    if pieces == [] then []
    else pieces[0].word + (if |pieces| == 1 then [] else [[0x20]]) + PlainWords(pieces[1..])
  }

  lemma {:induction false} WrittenCharacters(pieces: seq<Piece>, end: seq<Bytes>)
    requires (forall p :: p in pieces ==> Characters(p.gap) && Characters(p.word)) && Characters(end)
    ensures Characters(Written(pieces, end))
    ensures Words(pieces) == PlainWords(pieces)
    decreases |pieces|
  {
    if pieces != [] {
      assert pieces[0] in pieces && forall q :: q in pieces[1..] ==> q in pieces;
      WrittenCharacters(pieces[1..], end);
      forall u | u in pieces[0].word ensures !Bad(u) { WholeNotBad(u); }
      RepairNothing(pieces[0].word, false);
    }
  }

  lemma WholeNotBad(u: Bytes)
    requires Whole(u)
    ensures !Bad(u)
  {}

  /** The snippet of a well-formed text of words and white space, for example printable
      ASCII with tabs and line ends between: the words in order, one 0x20 between. */
  lemma SnippetOfText(pieces: seq<Piece>, end: seq<Bytes>)
    requires pieces != [] && Apart(pieces) && IsGap(end) && forall p :: p in pieces ==> Characters(p.word)
    requires |PlainWords(pieces)| <= 200
    ensures BodySnippet(Flatten(Written(pieces, end))) == Flatten(PlainWords(pieces))
  {
    forall p, u | p in pieces && u in p.gap ensures Whole(u) { SpaceIsWhole(u); }
    forall u | u in end ensures Whole(u) { SpaceIsWhole(u); }
    WrittenCharacters(pieces, end);
    WholeIsStable(Written(pieces, end));
    SnippetOfWords(Flatten(Written(pieces, end)), pieces, end);
  }

  /** For example two characters with a line feed, or any other white space, between. */
  lemma GapIsBlank(a: Bytes, gap: int, b: Bytes)
    requires Whole(a) && !Space(a) && Whole(b) && !Space(b) && Scalar(gap) && SpacePoint(gap)
    ensures BodySnippet(a + Utf8(gap) + b) == a + [0x20] + b
  {
    SpaceExactly(gap);
    var p, q := Piece([], [a]), Piece([Utf8(gap)], [b]);
    var pieces := [p, q];
    TwoPieces(a, Utf8(gap), b);
    FlattenThree(a, Utf8(gap), b);
    FlattenThree(a, [0x20], b);
    SnippetOfText(pieces, []);
  }

  lemma TwoPieces(a: Bytes, g: Bytes, b: Bytes)
    ensures var pieces := [Piece([], [a]), Piece([g], [b])];
            Written(pieces, []) == [a, g, b] && PlainWords(pieces) == [a, [0x20], b]
  {
    var p, q := Piece([], [a]), Piece([g], [b]);
    assert [p, q][1..] == [q] && [q][1..] == [];
    assert Written([q], []) == [g] + [b] + Written([], []);
    assert Written([p, q], []) == [] + [a] + Written([q], []);
    assert PlainWords([q]) == [b] + [] + PlainWords([]);
    assert PlainWords([p, q]) == [a] + [[0x20]] + PlainWords([q]);
  }

  lemma FlattenThree(a: Bytes, b: Bytes, c: Bytes)
    ensures Flatten([a, b, c]) == a + b + c
  {
    assert [a, b, c][1..] == [b, c] && [b, c][1..] == [c] && [c][1..] == [];
    assert Flatten([b, c]) == b + Flatten([c]);
  }
}
