/** The log line shows the snippet of the first 4096 bytes. When is that the snippet
    of the whole body? The cut may fall inside a character. */
module PeekCut {
  import opened Snippet
  import opened SnippetProofs

  /** Decoding steps of the body that lie wholly within its first `n` bytes. */
  function Fit(body: Bytes, n: nat): nat
    ensures Fit(body, n) <= |Units(body)|
    decreases |body|
  {
    if body == [] || n < Width(body) then 0 else 1 + Fit(body[Width(body)..], n - Width(body))
  }

  /** The cut falls inside a character of the body. */
  predicate CutsCharacter(body: Bytes, n: nat)
    decreases |body|
  {
    && body != [] && n > 0
    && if n < Width(body) then true else CutsCharacter(body[Width(body)..], n - Width(body))
  }

  lemma FirstUnit(body: Bytes, n: nat)
    requires body != [] && Width(body) <= n <= |body|
    ensures var w := Width(body);
            Units(body[..n]) == [body[..w]] + Units(body[w..][..n - w])
  {
    var w, head := Width(body), body[..n];
    assert body == head + body[n..];
    WidthOfPrefix(head, body[n..]);
    assert head[..w] == body[..w] && head[w..] == body[w..][..n - w];
  }

  /** The cut falls inside the first character. */
  lemma UnitsOfCut(body: Bytes, n: nat)
    requires body != [] && 0 < n < Width(body)
    ensures Units(body)[..Fit(body, n)] == [] && CutsCharacter(body, n)
    ensures Units(body[..n]) != [] && forall u :: u in Units(body[..n]) ==> Bad(u)
    ensures !Bad(Units(body)[0])
  {
    CutIsBad(body, n);
    assert |body[..n]| == n > 0;
    UnitShape(body[..n]);
    assert Units(body)[0] == body[..Width(body)];
  }

  /** The first character fits; `tail` is what the rest of the prefix adds. */
  lemma UnitsPastFirst(body: Bytes, n: nat, k: nat, tail: seq<Bytes>)
    requires body != [] && Width(body) <= n <= |body|
    requires var w := Width(body);
             k <= |Units(body[w..])| && Units(body[w..][..n - w]) == Units(body[w..])[..k] + tail
    ensures Units(body[..n]) == Units(body)[..1 + k] + tail
  {
    FirstUnit(body, n);
    PrependToTake(body[..Width(body)], Units(body[Width(body)..]), k, tail);
  }

  lemma PrependToTake(u: Bytes, rest: seq<Bytes>, k: nat, tail: seq<Bytes>)
    requires k <= |rest|
    ensures [u] + (rest[..k] + tail) == ([u] + rest)[..1 + k] + tail
  {}

  /** The first `n` bytes decode to the steps that fit and then, if a character is
      cut, one to three invalid bytes. */
  lemma {:induction false} UnitsOfPrefix(body: Bytes, n: nat) returns (tail: seq<Bytes>)
    requires n <= |body|
    ensures Units(body[..n]) == Units(body)[..Fit(body, n)] + tail
    ensures forall u :: u in tail ==> Bad(u)
    ensures tail != [] <==> CutsCharacter(body, n)
    ensures CutsCharacter(body, n) ==> Fit(body, n) < |Units(body)| && !Bad(Units(body)[Fit(body, n)])
    decreases |body|
  {
    if n == 0 {
      tail := [];
      assert body[..0] == [] && Units(body)[..Fit(body, 0)] == [];
    } else if n < Width(body) {
      tail := Units(body[..n]);
      UnitsOfCut(body, n);
    } else {
      var w := Width(body);
      tail := UnitsOfPrefix(body[w..], n - w);
      UnitsPastFirst(body, n, Fit(body[w..], n - w), tail);
    }
  }

  /** A character cut short decodes to invalid bytes only. */
  lemma CutIsBad(s: Bytes, n: nat)
    requires s != [] && 0 < n < Width(s)
    ensures forall u :: u in Units(s[..n]) ==> Bad(u)
  {
    var c := s[..n];
    assert c[0] == s[0] && c[0] >= 0x80;
    if n > 1 {
      assert c[1..][0] == s[1] && Cont(s[1]);
      assert Units(c) == [c[..1]] + Units(c[1..]);
      assert forall b :: b in c[1..] ==> b == s[1] || b == s[2];
      SinglesAreUnits(c[1..]);
    } else {
      assert Width(c) == 1 && c[..1] == c && c[1..] == [];
      assert Units(c) == [c] + Units([]);
    }
  }

  /* ----- the pass only ever adds to its output ----- */

  lemma {:induction false} FeedAllSplits(st: Pass, a: seq<Bytes>, b: seq<Bytes>)
    ensures FeedAll(st, a + b) == FeedAll(FeedAll(st, a), b)
    decreases |a|
  {
    if a == [] { assert a + b == b; } else {
      assert (a + b)[1..] == a[1..] + b;
      FeedAllSplits(Feed(st, a[0]), a[1..], b);
    }
  }

  function Lead(st: Pass): seq<Bytes> {
    if st.gap then [BLANK] else []
  }

  /** White space adds nothing; anything else, coming after no invalid byte, adds the
      blank that is due and one character, and then more. */
  lemma {:induction false} FeedAllGrows(st: Pass, units: seq<Bytes>)
    requires st.gap ==> st.out != [] && !st.bad
    ensures st.out <= FeedAll(st, units).out
    ensures (forall u :: u in units ==> Space(u)) ==> FeedAll(st, units).out == st.out
    ensures FeedAll(st, units).out == st.out || st.out + Lead(st) <= FeedAll(st, units).out
            || (units != [] && Space(units[0]))
    ensures units != [] && !Bad(units[0]) && (exists u :: u in units && !Space(u)) ==>
              |FeedAll(st, units).out| >= |st.out| + |Lead(st)| + 1
    decreases |units|
  {
    if units != [] {
      FeedAllGrows(Feed(st, units[0]), units[1..]);
      if Space(units[0]) {
        SpaceThenMore(Feed(st, units[0]), units[1..]);
        assert forall u :: u in units <==> u == units[0] || u in units[1..];
      }
    }
  }

  /** After white space the next thing written comes with its own blank. */
  lemma {:induction false} SpaceThenMore(st: Pass, units: seq<Bytes>)
    requires !st.bad && (st.gap <==> st.out != [])
    ensures (exists u :: u in units && !Space(u)) ==> |FeedAll(st, units).out| >= |st.out| + |Lead(st)| + 1
    ensures FeedAll(st, units).out == st.out || st.out + Lead(st) <= FeedAll(st, units).out
    decreases |units|
  {
    if units != [] {
      if Space(units[0]) {
        SpaceThenMore(Feed(st, units[0]), units[1..]);
      } else {
        FeedAllGrows(Feed(st, units[0]), units[1..]);
      }
    }
  }

  /** A run of invalid bytes adds at most the blank that is due and one '?'. */
  lemma {:induction false} BadRunAddsOne(st: Pass, units: seq<Bytes>)
    requires forall u :: u in units ==> Bad(u)
    ensures FeedAll(st, units).out == st.out || FeedAll(st, units).out == st.out + Lead(st) + [QUESTION]
    decreases |units|
  {
    if units != [] {
      assert units[0] in units;
      assert !Space(units[0]);
      BadAfterBad(Feed(st, units[0]), units[1..]);
    }
  }

  lemma {:induction false} BadAfterBad(st: Pass, units: seq<Bytes>)
    requires st.bad && forall u :: u in units ==> Bad(u)
    ensures FeedAll(st, units).out == st.out
    decreases |units|
  {
    if units != [] {
      assert units[0] in units;
      assert !Space(units[0]);
      BadAfterBad(st, units[1..]);
    }
  }

  /* ----- peek against body ----- */

  /** The pass after the decoding steps that fit within the peek. */
  function Kept(body: Bytes, n: nat): Pass {
    FeedAll(START, Units(body)[..Fit(body, n)])
  }

  function Beyond(body: Bytes, n: nat): seq<Bytes> {
    Units(body)[Fit(body, n)..]
  }

  lemma {:induction false} GapNeedsOutput(st: Pass, units: seq<Bytes>)
    requires st.gap ==> st.out != [] && !st.bad
    ensures var r := FeedAll(st, units); r.gap ==> r.out != [] && !r.bad
    decreases |units|
  {
    if units != [] { GapNeedsOutput(Feed(st, units[0]), units[1..]); }
  }

  /** Both passes go on from the same point: the peek over a run of invalid bytes, the
      body over what is beyond. */
  lemma CommonStart(body: Bytes, n: nat) returns (tail: seq<Bytes>)
    requires n <= |body|
    ensures Squeeze(Units(body[..n])) == FeedAll(Kept(body, n), tail).out
    ensures Squeeze(Units(body)) == FeedAll(Kept(body, n), Beyond(body, n)).out
    ensures (forall u :: u in tail ==> Bad(u)) && (tail != [] <==> CutsCharacter(body, n))
    ensures CutsCharacter(body, n) ==> Beyond(body, n) != [] && !Bad(Beyond(body, n)[0])
    ensures Kept(body, n).gap ==> Kept(body, n).out != [] && !Kept(body, n).bad
  {
    tail := UnitsOfPrefix(body, n);
    var fit := Units(body)[..Fit(body, n)];
    FeedAllSplits(START, fit, tail);
    FeedAllSplits(START, fit, Beyond(body, n));
    assert fit + Beyond(body, n) == Units(body);
    GapNeedsOutput(START, fit);
  }

  /** The peek cuts a white-space character, nothing but white space follows, and the
      complete characters of the peek collapse to no more than the limit. */
  predicate CutInTrailingSpace(body: Bytes, n: nat) {
    && CutsCharacter(body, n)
    && (forall u :: u in Beyond(body, n) ==> Space(u))
    && |Kept(body, n).out| <= BODY_LIMIT
  }

  /** When the peek collapses to more than 200 characters, the whole body does too,
      and with the same first 200, but for one case. */
  lemma LongPeek(body: Bytes, n: nat)
    requires n <= |body| && |Squeeze(Units(body[..n]))| > BODY_LIMIT
    ensures var p, b := Squeeze(Units(body[..n])), Squeeze(Units(body));
            if CutInTrailingSpace(body, n) then |b| <= BODY_LIMIT
            else |b| > BODY_LIMIT && p[..BODY_LIMIT] == b[..BODY_LIMIT]
  {
    var tail := CommonStart(body, n);
    var st, beyond := Kept(body, n), Beyond(body, n);
    var p, b := FeedAll(st, tail).out, FeedAll(st, beyond).out;
    FeedAllGrows(st, beyond);
    BadRunAddsOne(st, tail);
    if |st.out| >= BODY_LIMIT {
      assert p[..BODY_LIMIT] == st.out[..BODY_LIMIT] == b[..BODY_LIMIT] || |b| < BODY_LIMIT;
    } else {
      assert p == st.out + [BLANK] + [QUESTION];
      if exists u :: u in beyond && !Space(u) {
        if Space(beyond[0]) { SpaceThenMore(Feed(st, beyond[0]), beyond[1..]); }
        assert st.out + [BLANK] <= b;
        assert p[..BODY_LIMIT] == st.out + [BLANK] == b[..BODY_LIMIT];
      }
    }
  }

  /** The line shows the snippet of the whole body whenever the peek collapses to more
      than 200 characters, even if it cuts a character in half, except exactly when
      the cut falls inside trailing white space that the limit depends on. */
  lemma PeekShowsBody(body: Bytes, n: nat)
    requires n <= |body| && |Squeeze(Units(body[..n]))| > BODY_LIMIT
    ensures BodySnippet(body[..n]) == BodySnippet(body) <==> !CutInTrailingSpace(body, n)
  {
    LongPeek(body, n);
    SnippetDecodes(body);
    SnippetDecodes(body[..n]);
    if CutInTrailingSpace(body, n) {
      AbsentShape();
      assert |SnippetUnits(body[..n])| == BODY_LIMIT + 1;
      assert |SnippetUnits(body)| <= BODY_LIMIT;
    }
  }

  /* ----- the exception happens ----- */

  function Repeat(u: Bytes, n: nat): Bytes {
    if n == 0 then [] else u + Repeat(u, n - 1)
  }

  function Times(u: Bytes, n: nat): seq<Bytes> {
    if n == 0 then [] else [u] + Times(u, n - 1)
  }

  lemma Regroup<T>(a: seq<T>, b: seq<T>, c: seq<T>)
    ensures a + b + c == a + (b + c)
  {}

  lemma AsciiStep(u: Bytes, rest: Bytes)
    requires |u| == 1 && u[0] < 0x80
    ensures Units(u + rest) == [u] + Units(rest)
  {
    UnitsCons(u, rest);
  }

  lemma {:induction false} RepeatUnits(u: Bytes, n: nat, rest: Bytes)
    requires |u| == 1 && u[0] < 0x80
    ensures Units(Repeat(u, n) + rest) == Times(u, n) + Units(rest)
    ensures |Repeat(u, n)| == |Times(u, n)| == n
  {
    if n == 0 {
      assert Repeat(u, n) + rest == rest;
    } else {
      RepeatUnits(u, n - 1, rest);
      Regroup(u, Repeat(u, n - 1), rest);
      AsciiStep(u, Repeat(u, n - 1) + rest);
      Regroup([u], Times(u, n - 1), Units(rest));
    }
  }

  lemma {:induction false} FeedBlanks(n: nat)
    ensures FeedAll(START, Times(BLANK, n)) == START
  {
    if n > 0 {
      assert Times(BLANK, n)[1..] == Times(BLANK, n - 1);
      FeedBlanks(n - 1);
    }
  }

  lemma {:induction false} FeedLetters(u: Bytes, n: nat, st: Pass)
    requires |u| == 1 && 0x21 <= u[0] < 0x80 && !st.gap && !st.bad
    ensures FeedAll(st, Times(u, n)) == Pass(st.out + Times(u, n), false, false)
  {
    if n > 0 {
      assert Times(u, n)[1..] == Times(u, n - 1);
      FeedLetters(u, n - 1, Feed(st, u));
      assert st.out + [u] + Times(u, n - 1) == st.out + Times(u, n);
    } else {
      assert st.out + Times(u, n) == st.out;
    }
  }

  const LETTER: Bytes := [0x61]
  const WIDE_SPACE: Bytes := [0xE3, 0x80, 0x80]   // U+3000

  /** 3895 blanks, 200 letters and a three-byte space: the 4096-byte peek ends inside
      the space, so the line shows an ellipsis although nothing was left out. */
  lemma PeekCanMislead()
    ensures var body := Repeat(BLANK, 3895) + (Repeat(LETTER, 200) + WIDE_SPACE);
            && |body| == 4098
            && |Squeeze(Units(body[..4096]))| > BODY_LIMIT
            && |Squeeze(Units(body))| == BODY_LIMIT
            && BodySnippet(body[..4096]) != BodySnippet(body)
  {
    var body := Repeat(BLANK, 3895) + (Repeat(LETTER, 200) + WIDE_SPACE);
    var cut := [0xE3];
    CollapseOf(WIDE_SPACE);
    CollapseOf(cut);
    CutInSpace(Repeat(BLANK, 3895), Repeat(LETTER, 200));
    OneLetterMore(body, body[..4096]);
  }

  lemma CutInSpace(a: Bytes, b: Bytes)
    requires |a| == 3895 && |b| == 200
    ensures (a + (b + WIDE_SPACE))[..4096] == a + (b + [0xE3])
  {}

  /** Collapsed texts of 200 and of 201 characters have different snippets. */
  lemma OneLetterMore(a: Bytes, b: Bytes)
    requires |Squeeze(Units(a))| == BODY_LIMIT && |Squeeze(Units(b))| == BODY_LIMIT + 1
    ensures BodySnippet(a) != BodySnippet(b)
  {
    SnippetDecodes(a);
    SnippetDecodes(b);
    assert |SnippetUnits(a)| != |SnippetUnits(b)|;
  }

  lemma CollapseOf(end: Bytes)
    requires end == WIDE_SPACE || end == [0xE3]
    ensures |Repeat(BLANK, 3895) + (Repeat(LETTER, 200) + end)| == 4095 + |end|
    ensures Squeeze(Units(Repeat(BLANK, 3895) + (Repeat(LETTER, 200) + end))) ==
            Times(LETTER, 200) + if end == WIDE_SPACE then [] else [QUESTION]
    ensures |Times(LETTER, 200)| == 200 && |Repeat(LETTER, 200)| == 200 && |Repeat(BLANK, 3895)| == 3895
  {
    RepeatUnits(LETTER, 200, end);
    RepeatUnits(BLANK, 3895, Repeat(LETTER, 200) + end);
    FeedBlanks(3895);
    FeedLetters(LETTER, 200, START);
    var letters := Times(LETTER, 200);
    FeedAllSplits(START, Times(BLANK, 3895), letters + Units(end));
    FeedAllSplits(START, letters, Units(end));
    assert [] + letters == letters;
    assert Width(end) == |end| && end[..|end|] == end && end[|end|..] == [];
    assert Units(end) == [end] + Units([]);
    assert FeedAll(Pass(letters, false, false), [end]) == Feed(Pass(letters, false, false), end);
    assert letters + [] == letters;
  }
}
