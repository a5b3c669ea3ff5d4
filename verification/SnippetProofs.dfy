/** What the snippet says about the body, and when a snippet of the peek is the
    snippet of the whole body. */
module SnippetProofs {
  import opened Snippet

  /* ----- decoding a concatenation ----- */

  /** The text `Flatten(units)` decodes back into `units`. */
  predicate Stable(units: seq<Bytes>) {
    Units(Flatten(units)) == units
  }

  lemma {:induction false} FlattenUnits(s: Bytes)
    ensures Flatten(Units(s)) == s
  {
    if s != [] {
      FlattenUnits(s[Width(s)..]);
      assert s == s[..Width(s)] + s[Width(s)..];
    }
  }

  lemma {:induction false} FlattenAppend(a: seq<Bytes>, b: seq<Bytes>)
    ensures Flatten(a + b) == Flatten(a) + Flatten(b)
  {
    if a == [] {
      assert a + b == b;
    } else {
      assert (a + b)[1..] == a[1..] + b;
      FlattenAppend(a[1..], b);
    }
  }

  /** The first decoding step does not depend on what follows, as long as it fits and
      the text is not continued by a continuation byte. */
  lemma WidthOfPrefix(s: Bytes, t: Bytes)
    requires s != []
    requires Width(s + t) <= |s| || t == [] || t[0] < 0x80
    ensures Width(s + t) == Width(s)
  {
    assert (s + t)[0] == s[0];
    assert |s| > 1 ==> (s + t)[1] == s[1];
    assert |s| > 2 ==> (s + t)[2] == s[2];
    assert |s| > 3 ==> (s + t)[3] == s[3];
    if t != [] { assert (s + t)[|s|] == t[0]; }
  }

  /** The first unit of a stable list is the first decoding step; the rest is stable. */
  lemma StableHead(a: seq<Bytes>)
    requires a != [] && Stable(a)
    ensures a[0] != [] && Width(Flatten(a)) == |a[0]| && Stable(a[1..])
  {
    var s := Flatten(a);
    assert s != [] && Units(s)[0] == s[..Width(s)] == a[0];
    assert s[Width(s)..] == Flatten(a[1..]);
    assert a[1..] == Units(s)[1..] == Units(s[Width(s)..]);
  }

  lemma UnitsCons(u: Bytes, t: Bytes)
    requires u != [] && Width(u + t) == |u|
    ensures Units(u + t) == [u] + Units(t)
  {
    assert (u + t)[..|u|] == u && (u + t)[|u|..] == t;
  }

  /** A cut text decodes to no more than it did. */
  lemma {:induction false} StablePrefix(a: seq<Bytes>, b: seq<Bytes>)
    requires Stable(a + b)
    ensures Stable(a)
  {
    if a != [] {
      var s, t := Flatten(a), Flatten(b);
      FlattenAppend(a, b);
      StableHead(a + b);
      assert (a + b)[0] == a[0] && (a + b)[1..] == a[1..] + b;
      WidthOfPrefix(s, t);
      UnitsCons(a[0], Flatten(a[1..]));
      StablePrefix(a[1..], b);
    }
  }

  /** Texts that meet at an ASCII byte decode independently. */
  lemma {:induction false} StableAppend(a: seq<Bytes>, b: seq<Bytes>)
    requires Stable(a) && Stable(b)
    requires b == [] || (b[0] != [] && b[0][0] < 0x80)
    ensures Stable(a + b)
  {
    if a == [] {
      assert a + b == b;
    } else {
      StableHead(a);
      StableAppend(a[1..], b);
      assert Flatten(a) == a[0] + Flatten(a[1..]);
      WidthBeforeAscii(a[0], a[1..], b);
      StableCons(a[0], a[1..] + b);
      assert a + b == [a[0]] + (a[1..] + b);
    }
  }

  lemma WidthBeforeAscii(u: Bytes, a: seq<Bytes>, b: seq<Bytes>)
    requires u != [] && Width(u + Flatten(a)) == |u|
    requires b == [] || (b[0] != [] && b[0][0] < 0x80)
    ensures Width(u + Flatten(a + b)) == |u|
  {
    FlattenAppend(a, b);
    assert b != [] ==> Flatten(b)[0] == b[0][0];
    WidthUpTo(u, Flatten(a), Flatten(b));
  }

  lemma WidthUpTo(u: Bytes, s: Bytes, t: Bytes)
    requires u != [] && Width(u + s) == |u| && (t == [] || t[0] < 0x80)
    ensures Width(u + (s + t)) == |u|
  {
    assert u + (s + t) == u + s + t;
    WidthOfPrefix(u + s, t);
  }

  lemma StableCons(u: Bytes, rest: seq<Bytes>)
    requires u != [] && Width(u + Flatten(rest)) == |u| && Stable(rest)
    ensures Stable([u] + rest)
  {
    assert ([u] + rest)[1..] == rest;
    UnitsCons(u, Flatten(rest));
  }

  /** A character: one ASCII byte or one well-formed sequence. */
  predicate Whole(u: Bytes) {
    (|u| == 1 && u[0] < 0x80) || (WellFormed(u) && |u| == Wants(u[0]))
  }

  lemma {:induction false} UnitShape(s: Bytes)
    ensures forall u :: u in Units(s) ==> Whole(u) || Bad(u)
    ensures s != [] ==> Units(s) != []
  {
    if s != [] {
      UnitShape(s[Width(s)..]);
    }
  }

  lemma {:induction false} WholeIsStable(units: seq<Bytes>)
    requires forall u :: u in units ==> Whole(u)
    ensures Stable(units)
  {
    if units != [] {
      WholeIsStable(units[1..]);
      var u, t := units[0], Flatten(units[1..]);
      assert u in units && u != [];
      assert (u + t)[0] == u[0] && (|u| > 1 ==> (u + t)[1] == u[1]);
      assert Width(u + t) == |u|;
      assert (u + t)[..|u|] == u && (u + t)[|u|..] == t;
    }
  }

  /* ----- fields and join, unit by unit ----- */

  function FieldUnits(units: seq<Bytes>, field: seq<Bytes>): seq<seq<Bytes>>
    decreases |units|
  {
    if units == [] then if field == [] then [] else [field]
    else if Space(units[0]) then (if field == [] then [] else [field]) + FieldUnits(units[1..], [])
    else FieldUnits(units[1..], field + [units[0]])
  }

  function JoinUnits(fields: seq<seq<Bytes>>): seq<Bytes> {
    if fields == [] then []
    else if |fields| == 1 then fields[0]
    else fields[0] + [BLANK] + JoinUnits(fields[1..])
  }

  function FlattenEach(fields: seq<seq<Bytes>>): seq<Bytes> {
    if fields == [] then [] else [Flatten(fields[0])] + FlattenEach(fields[1..])
  }

  lemma {:induction false} FlattenEachAppend(a: seq<seq<Bytes>>, b: seq<seq<Bytes>>)
    ensures FlattenEach(a + b) == FlattenEach(a) + FlattenEach(b)
  {
    if a == [] { assert a + b == b; } else {
      assert (a + b)[1..] == a[1..] + b;
      FlattenEachAppend(a[1..], b);
    }
  }

  predicate NoEmpty(units: seq<Bytes>) {
    forall u :: u in units ==> u != []
  }

  lemma {:induction false} FieldsAreUnits(units: seq<Bytes>, field: seq<Bytes>)
    requires NoEmpty(units) && NoEmpty(field)
    ensures Fields(units, Flatten(field)) == FlattenEach(FieldUnits(units, field))
    decreases |units|
  {
    assert field == [] <==> Flatten(field) == [] by {
      if field != [] { assert field[0] in field; }
    }
    assert field != [] ==> FlattenEach([field]) == [Flatten(field)];
    if units != [] {
      assert units[0] in units;
      assert forall u :: u in units[1..] ==> u in units;
      if Space(units[0]) {
        FieldsAreUnits(units[1..], []);
        FlattenEachAppend(if field == [] then [] else [field], FieldUnits(units[1..], []));
      } else {
        FlattenAppend(field, [units[0]]);
        assert Flatten([units[0]]) == units[0];
        FieldsAreUnits(units[1..], field + [units[0]]);
      }
    }
  }

  lemma {:induction false} JoinIsUnits(fields: seq<seq<Bytes>>)
    ensures JoinBlank(FlattenEach(fields)) == Flatten(JoinUnits(fields))
  {
    if |fields| == 1 {
      assert FlattenEach(fields) == [Flatten(fields[0])];
    } else if |fields| > 1 {
      JoinIsUnits(fields[1..]);
      FlattenAppend(fields[0] + [BLANK], JoinUnits(fields[1..]));
      FlattenAppend(fields[0], [BLANK]);
      assert Flatten([BLANK]) == BLANK;
    }
  }

  lemma {:induction false} FieldsStable(units: seq<Bytes>, field: seq<Bytes>)
    requires Stable(field + units)
    ensures forall f :: f in FieldUnits(units, field) ==> f != [] && Stable(f)
    decreases |units|
  {
    StablePrefix(field, units);
    if units != [] {
      if Space(units[0]) {
        StableDrop(field, units);
        assert [] + units[1..] == units[1..];
        FieldsStable(units[1..], []);
      } else {
        assert field + [units[0]] + units[1..] == field + units;
        FieldsStable(units[1..], field + [units[0]]);
      }
    }
  }

  lemma {:induction false} StableDrop(a: seq<Bytes>, b: seq<Bytes>)
    requires Stable(a + b) && b != []
    ensures Stable(b[1..])
    decreases |a|
  {
    StableHead(a + b);
    if a == [] {
      assert a + b == b;
    } else {
      assert (a + b)[1..] == a[1..] + b;
      StableDrop(a[1..], b);
    }
  }

  lemma {:induction false} JoinStable(fields: seq<seq<Bytes>>)
    requires forall f :: f in fields ==> Stable(f)
    ensures Stable(JoinUnits(fields))
  {
    if |fields| > 1 {
      JoinStable(fields[1..]);
      var rest := JoinUnits(fields[1..]);
      BlankFirst(rest);
      StableAppend(fields[0], [BLANK] + rest);
      assert fields[0] + [BLANK] + rest == fields[0] + ([BLANK] + rest);
    }
  }

  lemma BlankFirst(rest: seq<Bytes>)
    requires Stable(rest)
    ensures Stable([BLANK] + rest)
  {
    var s := BLANK + Flatten(rest);
    assert ([BLANK] + rest)[1..] == rest;
    assert Width(s) == 1 && s[..1] == BLANK && s[1..] == Flatten(rest);
  }

  /* ----- the same as one left-to-right pass ----- */

  /** Output so far; a blank is due before the next character; the last thing
      written stands for invalid bytes. */
  datatype Pass = Pass(out: seq<Bytes>, gap: bool, bad: bool)

  const START := Pass([], false, false)

  function Feed(st: Pass, u: Bytes): Pass {
    var lead := if st.gap then [BLANK] else [];
    if Space(u) then Pass(st.out, st.out != [], false)
    else if !Bad(u) then Pass(st.out + lead + [u], false, false)
    else if st.bad then st
    else Pass(st.out + lead + [QUESTION], false, true)
  }

  function FeedAll(st: Pass, units: seq<Bytes>): Pass
    decreases |units|
  {
    if units == [] then st else FeedAll(Feed(st, units[0]), units[1..])
  }

  /** The collapsed body: what the snippet is cut from. */
  function Squeeze(units: seq<Bytes>): seq<Bytes> {
    FeedAll(START, units).out
  }

  function EndsBad(units: seq<Bytes>, otherwise: bool): bool {
    if units == [] then otherwise else Bad(units[|units| - 1])
  }

  lemma {:induction false} RepairSnoc(x: seq<Bytes>, u: Bytes, inBad: bool)
    ensures Repair(x + [u], inBad) == Repair(x, inBad) +
              if !Bad(u) then [u] else if EndsBad(x, inBad) then [] else [QUESTION]
  {
    if x != [] {
      assert (x + [u])[1..] == x[1..] + [u];
      RepairSnoc(x[1..], u, Bad(x[0]));
    } else {
      assert x + [u] == [u];
    }
  }

  lemma {:induction false} JoinSnoc(done: seq<seq<Bytes>>, f: seq<Bytes>)
    ensures JoinUnits(done + [f]) == if done == [] then f else JoinUnits(done) + [BLANK] + f
  {
    if |done| == 1 {
      assert done + [f] == [done[0], f] && [done[0], f][1..] == [f];
    } else if |done| > 1 {
      assert (done + [f])[1..] == done[1..] + [f];
      JoinSnoc(done[1..], f);
    }
  }

  function WithField(done: seq<seq<Bytes>>, field: seq<Bytes>): seq<seq<Bytes>> {
    if field == [] then done else done + [field]
  }

  /** The pass stands where splitting and joining stand. */
  predicate PassAgrees(st: Pass, done: seq<seq<Bytes>>, field: seq<Bytes>) {
    && st.out == Repair(JoinUnits(WithField(done, field)), false)
    && st.gap == (field == [] && done != [])
    && st.bad == (field != [] && Bad(field[|field| - 1]))
    && forall f :: f in done ==> f != []
  }

  lemma FeedAgrees(st: Pass, done: seq<seq<Bytes>>, field: seq<Bytes>, u: Bytes)
    requires PassAgrees(st, done, field)
    ensures if Space(u) then PassAgrees(Feed(st, u), WithField(done, field), [])
            else PassAgrees(Feed(st, u), done, field + [u])
  {
    if Space(u) {
      RepairNonEmpty(WithField(done, field));
    } else {
      assert WithField(done, field + [u]) == done + [field + [u]];
      FeedCharacter(st, done, field, u);
    }
  }

  lemma FeedCharacter(st: Pass, done: seq<seq<Bytes>>, field: seq<Bytes>, u: Bytes)
    requires PassAgrees(st, done, field) && !Space(u)
    ensures Feed(st, u).out == Repair(JoinUnits(done + [field + [u]]), false)
    ensures !Feed(st, u).gap && Feed(st, u).bad == Bad(u)
  {
    JoinWithOneMore(done, field, u);
    var x := JoinUnits(WithField(done, field));
    if st.gap {
      RepairSnoc(x, BLANK, false);
      RepairSnoc(x + [BLANK], u, false);
    } else {
      assert x + [] + [u] == x + [u];
      RepairSnoc(x, u, false);
      if field != [] { LastOfJoin(done, field); }
    }
  }

  /** Adding a unit to the open field adds it, after the blank due, to the joined list. */
  lemma JoinWithOneMore(done: seq<seq<Bytes>>, field: seq<Bytes>, u: Bytes)
    ensures JoinUnits(done + [field + [u]]) ==
              JoinUnits(WithField(done, field)) + (if field == [] && done != [] then [BLANK] else []) + [u]
  {
    JoinSnoc(done, field + [u]);
    JoinSnoc(done, field);
    assert field == [] ==> field + [u] == [u];
  }

  lemma LastOfJoin(done: seq<seq<Bytes>>, field: seq<Bytes>)
    requires field != []
    ensures var x := JoinUnits(done + [field]); x != [] && x[|x| - 1] == field[|field| - 1]
  {
    JoinSnoc(done, field);
  }

  lemma RepairNonEmpty(fields: seq<seq<Bytes>>)
    requires forall f :: f in fields ==> f != []
    ensures Repair(JoinUnits(fields), false) != [] <==> fields != []
  {
    if fields != [] {
      assert fields[0] in fields;
      assert JoinUnits(fields) != [];
    }
  }

  lemma {:induction false} PassIsRepairedJoin(units: seq<Bytes>, st: Pass, done: seq<seq<Bytes>>, field: seq<Bytes>)
    requires PassAgrees(st, done, field)
    ensures FeedAll(st, units).out == Repair(JoinUnits(done + FieldUnits(units, field)), false)
    decreases |units|
  {
    if units == [] {
      assert WithField(done, field) == done + FieldUnits(units, field);
    } else {
      FeedAgrees(st, done, field, units[0]);
      if Space(units[0]) {
        var rest := FieldUnits(units[1..], []);
        PassIsRepairedJoin(units[1..], Feed(st, units[0]), WithField(done, field), []);
        assert FieldUnits(units, field) == (if field == [] then [] else [field]) + rest;
        assert WithField(done, field) + rest == done + FieldUnits(units, field);
      } else {
        PassIsRepairedJoin(units[1..], Feed(st, units[0]), done, field + [units[0]]);
      }
    }
  }

  /* ----- the snippet read back ----- */

  lemma {:induction false} RepairWhole(units: seq<Bytes>, inBad: bool)
    requires forall u :: u in units ==> Whole(u) || Bad(u)
    ensures forall u :: u in Repair(units, inBad) ==> Whole(u)
    decreases |units|
  {
    if units != [] {
      assert units[0] in units;
      assert forall u :: u in units[1..] ==> u in units;
      RepairWhole(units[1..], Bad(units[0]));
      assert Whole(QUESTION);
    }
  }

  lemma {:induction false} RepairNothing(units: seq<Bytes>, inBad: bool)
    requires forall u :: u in units ==> !Bad(u)
    ensures Repair(units, inBad) == units
    decreases |units|
  {
    if units != [] {
      assert units[0] in units;
      RepairNothing(units[1..], false);
    }
  }

  /** Fields, join and repair, run on bytes, decode to the one-pass result. */
  lemma CollapsedUnits(body: Bytes)
    ensures var s := JoinBlank(Fields(Units(body), []));
            var v := if ValidText(s) then s else ToValidText(s);
            && Units(v) == Squeeze(Units(body))
            && (s == [] <==> Squeeze(Units(body)) == [])
            && (forall u :: u in Squeeze(Units(body)) ==> Whole(u))
            && v == Flatten(Squeeze(Units(body)))
  {
    var units := Units(body);
    var fields := FieldUnits(units, []);
    UnitShape(body);
    assert Flatten([]) == [];
    FieldsAreUnits(units, []);
    JoinIsUnits(fields);
    FlattenUnits(body);
    assert [] + units == units;
    FieldsStable(units, []);
    JoinStable(fields);
    var s := JoinBlank(Fields(units, []));
    assert Units(s) == JoinUnits(fields);
    PassIsRepairedJoin(units, START, [], []);
    assert [] + fields == fields;
    UnitShape(s);
    RepairWhole(Units(s), false);
    if ValidText(s) { RepairNothing(Units(s), false); }
    WholeIsStable(Repair(Units(s), false));
    FlattenUnits(s);
    assert Squeeze(units) == Repair(Units(s), false);
  }

  /** The characters shown of a collapsed body. */
  function Shown(out: seq<Bytes>): seq<Bytes> {
    if out == [] then Singles(ABSENT)
    else if |out| <= BODY_LIMIT then out
    else out[..BODY_LIMIT] + [ELLIPSIS]
  }

  /** The characters of the snippet. */
  function SnippetUnits(body: Bytes): seq<Bytes> {
    Shown(Squeeze(Units(body)))
  }

  function Singles(s: Bytes): seq<Bytes> {
    if s == [] then [] else [s[..1]] + Singles(s[1..])
  }

  /** Bytes that lead no longer form are one unit each. */
  lemma {:induction false} SinglesAreUnits(s: Bytes)
    requires forall b :: b in s ==> Wants(b) == 1
    ensures Units(s) == Singles(s) && |Singles(s)| == |s|
    ensures forall u :: u in Singles(s) ==> |u| == 1 && u[0] in s
  {
    if s != [] {
      assert forall b :: b in s[1..] ==> b in s;
      SinglesAreUnits(s[1..]);
    }
  }

  lemma LettersShape(s: Bytes)
    requires forall i :: 0 <= i < |s| ==> 0x61 <= s[i] < 0x80
    ensures Units(s) == Singles(s) && Flatten(Singles(s)) == s && |Singles(s)| == |s|
    ensures forall u :: u in Singles(s) ==> Whole(u) && !Space(u)
  {
    SinglesAreUnits(s);
    FlattenUnits(s);
    forall u | u in Singles(s) ensures Whole(u) && !Space(u) {
      assert |u| == 1 && 0x61 <= u[0] < 0x80;
    }
  }

  lemma AbsentShape()
    ensures Units(ABSENT) == Singles(ABSENT) && Flatten(Singles(ABSENT)) == ABSENT
    ensures |Singles(ABSENT)| == 6
    ensures forall u :: u in Singles(ABSENT) ==> Whole(u) && !Space(u)
  {
    LettersShape(ABSENT);
  }

  lemma SnippetDecodes(body: Bytes)
    ensures BodySnippet(body) == Flatten(SnippetUnits(body))
    ensures Units(BodySnippet(body)) == SnippetUnits(body)
  {
    CollapsedUnits(body);
    AbsentShape();
    var out := Squeeze(Units(body));
    if |out| > BODY_LIMIT { CutDecodes(out); }
  }

  lemma CutDecodes(out: seq<Bytes>)
    requires |out| > BODY_LIMIT && forall u :: u in out ==> Whole(u)
    ensures var cut := out[..BODY_LIMIT] + [ELLIPSIS];
            Flatten(cut) == Flatten(out[..BODY_LIMIT]) + ELLIPSIS && Units(Flatten(cut)) == cut
  {
    FlattenAppend(out[..BODY_LIMIT], [ELLIPSIS]);
    assert Flatten([ELLIPSIS]) == ELLIPSIS;
    WholeIsStable(out[..BODY_LIMIT] + [ELLIPSIS]);
  }

  /** Blanks are single, and nothing else in the list is white space. */
  predicate SingleBlanks(units: seq<Bytes>) {
    && (forall u :: u in units && Space(u) ==> u == BLANK)
    && (forall i :: 0 < i < |units| ==> !(units[i] == BLANK && units[i - 1] == BLANK))
  }

  lemma {:induction false} SqueezeBlanks(units: seq<Bytes>, st: Pass)
    requires SingleBlanks(st.out) && (st.out != [] ==> st.out[|st.out| - 1] != BLANK) && (st.gap ==> st.out != [])
    ensures SingleBlanks(FeedAll(st, units).out)
    decreases |units|
  {
    if units != [] {
      SqueezeBlanks(units[1..], Feed(st, units[0]));
    }
  }

  lemma CutKeepsBlanks(out: seq<Bytes>, n: nat)
    requires SingleBlanks(out) && n <= |out|
    ensures SingleBlanks(out[..n] + [ELLIPSIS])
  {
    var cut := out[..n] + [ELLIPSIS];
    forall u | u in cut && Space(u) ensures u == BLANK {
      assert u != ELLIPSIS;
      assert u in out;
    }
  }

  lemma ShownShape(out: seq<Bytes>)
    requires SingleBlanks(out) && forall u :: u in out ==> Whole(u)
    ensures SingleBlanks(Shown(out)) && 0 < |Shown(out)| <= BODY_LIMIT + 1
    ensures forall u :: u in Shown(out) ==> Whole(u)
  {
    if out == [] {
      AbsentShape();
      assert forall i :: 0 <= i < 6 ==> Singles(ABSENT)[i] in Singles(ABSENT);
      assert Space(BLANK);
    } else if |out| > BODY_LIMIT {
      CutKeepsBlanks(out, BODY_LIMIT);
    }
  }

  /** The snippet is one line: its only white space is single blanks, it has at most
      201 characters, and every one of them is well-formed. */
  lemma SnippetIsOneLine(body: Bytes)
    ensures var units := Units(BodySnippet(body));
            && SingleBlanks(units)
            && 0 < |units| <= BODY_LIMIT + 1
            && forall u :: u in units ==> Whole(u)
  {
    SnippetDecodes(body);
    CollapsedUnits(body);
    SqueezeBlanks(Units(body), START);
    ShownShape(Squeeze(Units(body)));
  }
}
