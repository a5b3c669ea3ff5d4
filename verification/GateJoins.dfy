/** The gates of one scan write one after another into one buffer (pkg/scanner.go).
    Where do the markers of the buffer come from, and when does the order of the
    gates matter? */
module GateJoins {
  import opened Wrappers
  import opened Markers
  import opened Scanner
  import opened TaskId

  /* ----- where an output stands in the buffer ----- */

  /** Where output `k` starts. */
  function Start(outs: seq<string>, k: nat): nat
    requires k <= |outs|
  {
    |Flat(outs[..k])|
  }

  function After(outs: seq<string>, k: nat): string
    requires k < |outs|
  {
    Flat(outs[k + 1..])
  }

  lemma {:induction false} FlatAppend(a: seq<string>, b: seq<string>)
    ensures Flat(a + b) == Flat(a) + Flat(b)
  {
    if b == [] {
      assert a + b == a;
    } else {
      assert (a + b)[..|a + b| - 1] == a + b[..|b| - 1];
      FlatAppend(a, b[..|b| - 1]);
    }
  }

  lemma FlatAround(outs: seq<string>, k: nat)
    requires k < |outs|
    ensures Flat(outs) == Flat(outs[..k]) + outs[k] + After(outs, k)
    ensures Start(outs, k + 1) == Start(outs, k) + |outs[k]|
    ensures Flat(outs[..k + 1]) == Flat(outs[..k]) + outs[k]
  {
    assert outs[..k + 1][..k] == outs[..k];
    assert outs == outs[..k + 1] + outs[k + 1..];
    FlatAppend(outs[..k + 1], outs[k + 1..]);
  }

  lemma {:induction false} StartsAscend(outs: seq<string>, k: nat, l: nat)
    requires k <= l <= |outs|
    ensures Start(outs, k) <= Start(outs, l) <= |Flat(outs)|
    decreases l - k
  {
    if k < l {
      FlatAround(outs, k);
      StartsAscend(outs, k + 1, l);
    } else {
      assert outs == outs[..k] + outs[k..];
      FlatAppend(outs[..k], outs[k..]);
    }
  }

  /** The output that a position of the first `n` outputs belongs to. */
  lemma {:induction false} Locate(outs: seq<string>, n: nat, i: nat) returns (k: nat)
    requires n <= |outs| && i < Start(outs, n)
    ensures k < n && Start(outs, k) <= i < Start(outs, k + 1)
    decreases n
  {
    FlatAround(outs, n - 1);
    if Start(outs, n - 1) <= i { k := n - 1; } else { k := Locate(outs, n - 1, i); }
  }

  lemma SlicesOfGate(outs: seq<string>, k: nat, x: nat, y: nat)
    requires k < |outs| && x <= y <= |outs[k]|
    ensures var s := Start(outs, k);
            s + y <= |Flat(outs)| && Flat(outs)[s + x..s + y] == outs[k][x..y]
  {
    FlatAround(outs, k);
  }

  /* ----- joins ----- */

  /** Some output starts strictly between the two positions. */
  predicate Across(outs: seq<string>, i: nat, j: nat) {
    exists k: nat | k <= |outs| :: i < Start(outs, k) < j
  }

  /** A maximal marker of the buffer that runs across a join of outputs. */
  predicate Crossing(outs: seq<string>, f: Family, i: nat, j: nat) {
    Across(outs, i, j) && Occurrence(f, Flat(outs), i, j)
  }

  /** No marker runs across any join. */
  ghost predicate CleanJoins(outs: seq<string>) {
    forall f: Family, i: nat, j: nat :: !Crossing(outs, f, i, j)
  }

  /** The marker stands within output `k`, and is maximal there. */
  predicate InGate(outs: seq<string>, k: nat, f: Family, i: nat, j: nat) {
    k < |outs| &&
    var s := Start(outs, k);
    s <= i <= j && Occurrence(f, outs[k], i - s, j - s)
  }

  ghost predicate InSomeGate(outs: seq<string>, f: Family, i: nat, j: nat) {
    exists k: nat :: InGate(outs, k, f, i, j)
  }

  predicate StartsWithDigit(s: string) {
    s != "" && IsDigit(s[0])
  }

  /** Position `y` ends output `k`, and what follows in the buffer is a digit. */
  predicate Continued(outs: seq<string>, k: nat, y: nat)
    requires k < |outs|
  {
    y == |outs[k]| && StartsWithDigit(After(outs, k))
  }

  lemma OccurrenceInside(f: Family, t: string, a: string, g: string, b: string, x: nat, y: nat)
    requires t == a + g + b && x <= y <= |g|
    ensures Occurrence(f, t, |a| + x, |a| + y) <==> Occurrence(f, g, x, y) && !(y == |g| && StartsWithDigit(b))
  {
    assert t[|a| + x..|a| + y] == g[x..y];
    if y < |g| { assert t[|a| + y] == g[y]; }
  }

  lemma GateOccurrence(outs: seq<string>, k: nat, f: Family, x: nat, y: nat)
    requires k < |outs| && x <= y <= |outs[k]|
    ensures var s := Start(outs, k);
            Occurrence(f, Flat(outs), s + x, s + y) <==> Occurrence(f, outs[k], x, y) && !Continued(outs, k, y)
  {
    FlatAround(outs, k);
    OccurrenceInside(f, Flat(outs), Flat(outs[..k]), outs[k], After(outs, k), x, y);
  }

  lemma GrowsOver(f: Family, a: string, g: string, b: string, x: nat) returns (j: nat)
    requires Occurrence(f, g, x, |g|) && StartsWithDigit(b)
    ensures |a| + |g| < j && Occurrence(f, a + g + b, |a| + x, j)
  {
    var t := a + g + b;
    assert t[|a| + x..|a| + |g|] == g[x..];
    assert g[x..] == g[x..|g|];
    j := MarkerGrows(f, t, |a| + x, |a| + |g|);
  }

  /** A marker continued at a join grows across it. */
  lemma ContinuedCrosses(outs: seq<string>, k: nat, f: Family, x: nat) returns (j: nat)
    requires k < |outs| && Occurrence(f, outs[k], x, |outs[k]|) && Continued(outs, k, |outs[k]|)
    ensures Crossing(outs, f, Start(outs, k) + x, j)
  {
    FlatAround(outs, k);
    OccurrenceNotEmpty(f, outs[k], x, |outs[k]|);
    j := GrowsOver(f, Flat(outs[..k]), outs[k], After(outs, k), x);
    assert Start(outs, k) + x < Start(outs, k + 1) < j;
  }

  /** What lies across no join lies within one output. */
  lemma WithinOne(outs: seq<string>, i: nat, j: nat) returns (k: nat)
    requires i < j <= |Flat(outs)| && !Across(outs, i, j)
    ensures k < |outs| && Start(outs, k) <= i && j <= Start(outs, k) + |outs[k]|
  {
    assert outs[..|outs|] == outs;
    k := Locate(outs, |outs|, i);
    FlatAround(outs, k);
  }

  lemma WithinCrossesNone(outs: seq<string>, k: nat, i: nat, j: nat)
    requires k < |outs| && Start(outs, k) <= i && j <= Start(outs, k) + |outs[k]|
    ensures !Across(outs, i, j)
  {
    FlatAround(outs, k);
    forall l: nat | l <= |outs| ensures !(i < Start(outs, l) < j) {
      if l <= k { StartsAscend(outs, l, k); } else { StartsAscend(outs, k + 1, l); }
    }
  }

  /** A marker that crosses no join is one of an output, and not continued there. */
  lemma WithinOneGate(outs: seq<string>, f: Family, i: nat, j: nat) returns (k: nat)
    requires Occurrence(f, Flat(outs), i, j) && !Across(outs, i, j)
    ensures InGate(outs, k, f, i, j) && !Continued(outs, k, j - Start(outs, k))
  {
    OccurrenceNotEmpty(f, Flat(outs), i, j);
    k := WithinOne(outs, i, j);
    GateOccurrence(outs, k, f, i - Start(outs, k), j - Start(outs, k));
  }

  /** The markers of the buffer are, place by place, those of the single outputs. */
  ghost predicate ByGate(outs: seq<string>) {
    forall f: Family, i: nat, j: nat :: Occurrence(f, Flat(outs), i, j) <==> InSomeGate(outs, f, i, j)
  }

  /** Exactly when no marker runs across a join, the search in the buffer finds, place
      by place, what a search in each output finds. */
  lemma ByGateExactly(outs: seq<string>)
    ensures ByGate(outs) <==> CleanJoins(outs)
  {
    forall f: Family, i: nat, j: nat
      ensures CleanJoins(outs) ==> (Occurrence(f, Flat(outs), i, j) <==> InSomeGate(outs, f, i, j))
      ensures ByGate(outs) ==> !Crossing(outs, f, i, j)
    {
      if InSomeGate(outs, f, i, j) {
        var k: nat :| InGate(outs, k, f, i, j);
        GateIsPlace(outs, k, f, i, j);
      } else if Occurrence(f, Flat(outs), i, j) {
        PlaceIsGate(outs, f, i, j);
      }
    }
  }

  lemma GateIsPlace(outs: seq<string>, k: nat, f: Family, i: nat, j: nat)
    requires InGate(outs, k, f, i, j)
    ensures !Across(outs, i, j)
    ensures CleanJoins(outs) ==> Occurrence(f, Flat(outs), i, j)
  {
    WithinCrossesNone(outs, k, i, j);
    if CleanJoins(outs) {
      CleanGateOccurrence(outs, k, f, i - Start(outs, k), j - Start(outs, k));
    }
  }

  lemma CleanGateOccurrence(outs: seq<string>, k: nat, f: Family, x: nat, y: nat)
    requires CleanJoins(outs) && k < |outs| && Occurrence(f, outs[k], x, y)
    ensures !Continued(outs, k, y)
    ensures Occurrence(f, Flat(outs), Start(outs, k) + x, Start(outs, k) + y)
  {
    if Continued(outs, k, y) {
      var j := ContinuedCrosses(outs, k, f, x);
    }
    GateOccurrence(outs, k, f, x, y);
  }

  lemma PlaceIsGate(outs: seq<string>, f: Family, i: nat, j: nat)
    requires Occurrence(f, Flat(outs), i, j)
    ensures Crossing(outs, f, i, j) || InSomeGate(outs, f, i, j)
  {
    if !Across(outs, i, j) {
      var k := WithinOneGate(outs, f, i, j);
    }
  }

  /* ----- what the joins make and what they spoil ----- */

  ghost predicate SomeContains(outs: seq<string>, m: string) {
    exists k :: 0 <= k < |outs| && Contains(outs[k], m)
  }

  predicate FusedAt(outs: seq<string>, f: Family, i: nat, j: nat, m: string) {
    Across(outs, i, j) && Reads(f, Flat(outs), i, j, m)
  }

  /** `m` is read across a join. */
  ghost predicate Fused(outs: seq<string>, m: string) {
    exists f: Family, i: nat, j: nat :: FusedAt(outs, f, i, j, m)
  }

  predicate StandsAt(outs: seq<string>, k: nat, f: Family, x: nat, y: nat, m: string) {
    k < |outs| && Reads(f, outs[k], x, y, m) && !Continued(outs, k, y)
  }

  /** `m` is read in an output, and the join behind it does not continue it. */
  ghost predicate Stands(outs: seq<string>, m: string) {
    exists k: nat, f: Family, x: nat, y: nat :: StandsAt(outs, k, f, x, y, m)
  }

  /** The joins make a marker that no gate printed. */
  ghost predicate Made(outs: seq<string>, m: string) {
    Fused(outs, m) && !SomeContains(outs, m)
  }

  /** Wherever a gate printed the marker, a join continues it into a longer one. */
  ghost predicate Spoiled(outs: seq<string>, m: string) {
    SomeContains(outs, m) && !Fused(outs, m) && !Stands(outs, m)
  }

  ghost predicate ReadSomewhere(text: string, m: string) {
    exists f: Family, i: nat, j: nat :: Reads(f, text, i, j, m)
  }

  lemma ContainsIsRead(text: string, m: string)
    ensures Contains(text, m) <==> ReadSomewhere(text, m)
  {}

  lemma SameReading(outs: seq<string>, k: nat, f: Family, i: nat, j: nat)
    requires InGate(outs, k, f, i, j)
    ensures var s := Start(outs, k); j <= |Flat(outs)| && Flat(outs)[i..j] == outs[k][i - s..j - s]
  {
    SlicesOfGate(outs, k, i - Start(outs, k), j - Start(outs, k));
  }

  lemma ReadIsFusedOrStands(outs: seq<string>, f: Family, i: nat, j: nat, m: string)
    requires Reads(f, Flat(outs), i, j, m)
    ensures Fused(outs, m) || Stands(outs, m)
  {
    if Across(outs, i, j) {
      assert FusedAt(outs, f, i, j, m);
    } else {
      var k := WithinOneGate(outs, f, i, j);
      SameReading(outs, k, f, i, j);
      assert StandsAt(outs, k, f, i - Start(outs, k), j - Start(outs, k), m);
    }
  }

  lemma StandsIsRead(outs: seq<string>, k: nat, f: Family, x: nat, y: nat, m: string)
    requires StandsAt(outs, k, f, x, y, m)
    ensures Reads(f, Flat(outs), Start(outs, k) + x, Start(outs, k) + y, m)
  {
    GateOccurrence(outs, k, f, x, y);
    SlicesOfGate(outs, k, x, y);
  }

  lemma FusedOrStands(outs: seq<string>, m: string)
    ensures ReadSomewhere(Flat(outs), m) <==> Fused(outs, m) || Stands(outs, m)
  {
    if ReadSomewhere(Flat(outs), m) {
      var f, i: nat, j: nat :| Reads(f, Flat(outs), i, j, m);
      ReadIsFusedOrStands(outs, f, i, j, m);
    } else if Stands(outs, m) {
      var k: nat, f, x: nat, y: nat :| StandsAt(outs, k, f, x, y, m);
      StandsIsRead(outs, k, f, x, y, m);
    }
  }

  lemma StandsIsPrinted(outs: seq<string>, m: string)
    requires Stands(outs, m)
    ensures SomeContains(outs, m)
  {
    var k: nat, f, x: nat, y: nat :| StandsAt(outs, k, f, x, y, m);
    ContainsIsRead(outs[k], m);
  }

  /** Exactly which markers the buffer shows: those some gate printed, less the ones
      the joins spoil, and the ones the joins make. */
  lemma MarkersOfJoins(outs: seq<string>, m: string)
    ensures Contains(Flat(outs), m) <==> Made(outs, m) || (SomeContains(outs, m) && !Spoiled(outs, m))
  {
    ContainsIsRead(Flat(outs), m);
    FusedOrStands(outs, m);
    if Stands(outs, m) { StandsIsPrinted(outs, m); }
  }

  /** Clean joins make nothing and spoil nothing. */
  lemma CleanJoinsNeutral(outs: seq<string>, m: string)
    requires CleanJoins(outs)
    ensures !Made(outs, m) && !Spoiled(outs, m)
    ensures Contains(Flat(outs), m) <==> SomeContains(outs, m)
  {
    assert !Fused(outs, m) by {
      forall f: Family, i: nat, j: nat ensures !FusedAt(outs, f, i, j, m) {
        assert !Crossing(outs, f, i, j);
      }
    }
    if SomeContains(outs, m) {
      var k :| 0 <= k < |outs| && Contains(outs[k], m);
      ContainsIsRead(outs[k], m);
      var f, x: nat, y: nat :| Reads(f, outs[k], x, y, m);
      CleanGateOccurrence(outs, k, f, x, y);
      assert StandsAt(outs, k, f, x, y, m);
    }
    MarkersOfJoins(outs, m);
  }

  /* ----- outputs that can stand before anything ----- */

  /** `s` could be the beginning of a marker, or a whole one. */
  predicate Unfinished(f: Family, s: string) {
    var p := |Prefix(f)|;
    if |s| <= p then s == Prefix(f)[..|s|]
    else
      && PrefixAt(f, s, 0)
      && var a := DigitsEnd(s, p);
         a == |s| || (p < a && s[a] == '-' && DigitsEnd(s, a + 1) == |s|)
  }

  /** No end of the output could be the beginning of a marker. */
  predicate Closed(out: string) {
    forall f: Family, i: nat | i < |out| :: !Unfinished(f, out[i..])
  }

  lemma FinishPrefix(f: Family, s: string)
    requires |s| <= |Prefix(f)| && Unfinished(f, s)
    ensures IsMarkerOf(f, s + (Prefix(f)[|s|..] + "1-1"))
  {
    var p, u := |Prefix(f)|, Prefix(f) + "1-1";
    assert s + (Prefix(f)[|s|..] + "1-1") == u;
    assert u[..p] == Prefix(f) && u[p..] == "1-1";
    assert Spells(f, u, 0, p + 1, p + 3);
  }

  lemma FinishDigits(f: Family, s: string, t: string)
    requires |s| > |Prefix(f)| && Unfinished(f, s)
    requires t == if DigitsEnd(s, |Prefix(f)|) == |s| then "-1" else "1"
    ensures IsMarkerOf(f, s + t)
  {
    var p, u := |Prefix(f)|, s + t;
    assert u[..p] == s[..p];
    assert u[|s|..] == t && forall x :: 0 <= x < |s| ==> u[x] == s[x];
    assert Spells(f, u, 0, DigitsEnd(s, p), |u|);
  }

  /** Whatever could begin a marker does begin one. */
  lemma Finish(f: Family, s: string) returns (t: string)
    requires Unfinished(f, s)
    ensures IsMarkerOf(f, s + t)
  {
    if |s| <= |Prefix(f)| {
      t := Prefix(f)[|s|..] + "1-1";
      FinishPrefix(f, s);
    } else {
      t := if DigitsEnd(s, |Prefix(f)|) == |s| then "-1" else "1";
      FinishDigits(f, s, t);
    }
  }

  lemma BeginsUnfinished(f: Family, s: string, t: string)
    requires IsMarkerOf(f, s + t)
    ensures Unfinished(f, s)
  {
    var p, u := |Prefix(f)|, s + t;
    var k: nat :| k < |u| && Spells(f, u, 0, k, |u|);
    assert s == u[..|s|];
    if |s| <= p {
      assert u[..p][..|s|] == u[..|s|];
    } else {
      assert s[..p] == u[..p];
      if k < |s| {
        assert !IsDigit(s[k]);
        DigitsEndIs(s, p, k);
        DigitsEndIs(s, k + 1, |s|);
      } else {
        DigitsEndIs(s, p, |s|);
      }
    }
  }

  lemma MarkerLengthens(f: Family, s: string, digits: string)
    requires IsMarkerOf(f, s) && forall x :: 0 <= x < |digits| ==> IsDigit(digits[x])
    ensures IsMarkerOf(f, s + digits)
  {
    var k: nat :| k < |s| && Spells(f, s, 0, k, |s|);
    var u := s + digits;
    assert u[..|Prefix(f)|] == s[..|Prefix(f)|];
    assert Spells(f, u, 0, k, |u|);
  }

  /** `s` could begin a marker, so it begins one of any length. */
  lemma FinishLong(f: Family, s: string, n: nat) returns (b: string)
    requires Unfinished(f, s)
    ensures |b| > n && IsMarkerOf(f, s + b)
  {
    var t := Finish(f, s);
    var zeros := seq(n + 1, _ => '0');
    b := t + zeros;
    MarkerLengthens(f, s + t, zeros);
    assert s + b == s + t + zeros;
  }

  /** An output that is not closed can fuse: some next output makes a marker that
      neither holds, and that the other order does not show. */
  lemma OpenOutputFuses(a: string) returns (b: string, m: string)
    requires !Closed(a)
    ensures Contains(a + b, m) && !Contains(a, m) && !Contains(b, m) && !Contains(b + a, m)
  {
    var f: Family, i: nat :| i < |a| && Unfinished(f, a[i..]);
    b := FinishLong(f, a[i..], |a|);
    m := a[i..] + b;
    FusesOneWay(f, a, i, b);
  }

  lemma LongMarkerAbsent(f: Family, a: string, i: nat, b: string)
    requires i < |a| < |b| && IsMarkerOf(f, a[i..] + b)
    ensures !Contains(a, a[i..] + b) && !Contains(b, a[i..] + b)
  {
    TooShort(a, a[i..] + b);
    TooShort(b, a[i..] + b);
  }

  lemma FusesOneWay(f: Family, a: string, i: nat, b: string)
    requires i < |a| < |b| && IsMarkerOf(f, a[i..] + b)
    ensures var m := a[i..] + b; Contains(a + b, m) && !Contains(a, m) && !Contains(b, m) && !Contains(b + a, m)
  {
    var m := a[i..] + b;
    ReadAtEnd(f, a[..i], m);
    assert a[..i] + m == a + b;
    LongMarkerAbsent(f, a, i, b);
    NotTheOtherWay(f, a, b, m, |a| - i);
  }

  lemma ReadAtEnd(f: Family, a: string, m: string)
    requires IsMarkerOf(f, m)
    ensures Contains(a + m, m)
  {
    var t := a + m;
    assert t[|a|..|t|] == m;
    assert Reads(f, t, |a|, |t|, m);
  }

  /** A marker longer than `a`, whose text from `n` on is `b`, is not read in `b + a`. */
  lemma NotTheOtherWay(f: Family, a: string, b: string, m: string, n: nat)
    requires IsMarkerOf(f, m) && |a| < |m| && 0 < n < |m| && m[n..] == b
    ensures !Contains(b + a, m)
  {
    var t := b + a;
    forall g: Family, i: nat, j: nat | Occurrence(g, t, i, j) ensures t[i..j] != m {
      HeadOnlyAtStart(f, m, 0);
      OccurrenceNotEmpty(g, t, i, j);
      if i < |b| {
        HeadOnlyAtStart(f, m, n + i);
        assert t[i..j][0] == b[i] == m[n + i];
      }
    }
  }

  lemma TooShort(text: string, m: string)
    requires |text| <= |m| && text != m
    ensures !Contains(text, m)
  {
    forall f: Family, i: nat, j: nat | Occurrence(f, text, i, j) ensures text[i..j] != m {
      assert j - i == |text| ==> text[i..j] == text;
    }
  }

  /** What lies across a join begins in an output and ends behind it. */
  lemma CrossedGate(outs: seq<string>, i: nat, j: nat) returns (k: nat)
    requires Across(outs, i, j) && j <= |Flat(outs)|
    ensures k < |outs| - 1 && Start(outs, k) <= i < Start(outs, k) + |outs[k]| < j
  {
    var n: nat :| n <= |outs| && i < Start(outs, n) < j;
    k := Locate(outs, n, i);
    StartsAscend(outs, k + 1, n);
    FlatAround(outs, k);
    assert outs[..|outs|] == outs;
  }

  /** A marker that crosses a join begins in an output that is not closed, and not in
      the last one. */
  lemma CrossingNeedsOpen(outs: seq<string>, f: Family, i: nat, j: nat) returns (k: nat)
    requires Crossing(outs, f, i, j)
    ensures k < |outs| - 1 && !Closed(outs[k])
  {
    OccurrenceNotEmpty(f, Flat(outs), i, j);
    k := CrossedGate(outs, i, j);
    FlatAround(outs, k);
    OverhangIsOpen(f, Flat(outs[..k]), outs[k], After(outs, k), i - Start(outs, k), j);
  }

  lemma OverhangIsOpen(f: Family, a: string, g: string, b: string, x: nat, j: nat)
    requires x < |g| && |a| + |g| < j && Occurrence(f, a + g + b, |a| + x, j)
    ensures !Closed(g)
  {
    var t := a + g + b;
    assert t[|a| + x..j] == g[x..] + t[|a| + |g|..j];
    BeginsUnfinished(f, g[x..], t[|a| + |g|..j]);
  }

  /** Every output but the last one is closed. */
  predicate ClosedBefore(outs: seq<string>) {
    forall k :: 0 <= k < |outs| - 1 ==> Closed(outs[k])
  }

  lemma ClosedJoinsClean(outs: seq<string>)
    requires ClosedBefore(outs)
    ensures CleanJoins(outs)
  {
    forall f: Family, i: nat, j: nat ensures !Crossing(outs, f, i, j) {
      if Crossing(outs, f, i, j) { var k := CrossingNeedsOpen(outs, f, i, j); }
    }
  }

  lemma FlatPair(a: string, b: string)
    ensures Flat([a, b]) == a + b
  {
    assert [a, b][..1] == [a] && [a][..0] == [];
    assert Flat([a]) == Flat([]) + a;
  }

  lemma ClosedFirst(a: string, b: string, m: string)
    requires Closed(a)
    ensures Contains(a + b, m) <==> Contains(a, m) || Contains(b, m)
  {
    var outs := [a, b];
    FlatPair(a, b);
    ClosedJoinsClean(outs);
    CleanJoinsNeutral(outs, m);
    assert outs[0] == a && outs[1] == b;
  }

  /** Exactly which outputs are harmless whatever the next gate prints. */
  lemma HarmlessExactly(a: string)
    ensures Closed(a) <==> forall b, m :: Contains(a + b, m) <==> Contains(a, m) || Contains(b, m)
  {
    if Closed(a) {
      forall b, m ensures Contains(a + b, m) <==> Contains(a, m) || Contains(b, m) {
        ClosedFirst(a, b, m);
      }
    } else {
      var b, m := OpenOutputFuses(a);
    }
  }

  lemma HeadlessIsNoBeginning(f: Family, s: string)
    requires s != "" && !IsHead(s[0])
    ensures !Unfinished(f, s)
  {
    assert |s| > |Prefix(f)| ==> s[..|Prefix(f)|][0] == s[0];
  }

  /** What is left of a marker without its beginning is closed. */
  lemma TailIsClosed(f: Family, m: string, n: nat)
    requires IsMarkerOf(f, m) && 0 < n <= |m|
    ensures Closed(m[n..])
  {
    var b := m[n..];
    forall g: Family, i: nat | i < |b| ensures !Unfinished(g, b[i..]) {
      MarkerLetters(m, n + i);
      assert b[i..][0] == m[n + i];
      HeadlessIsNoBeginning(g, b[i..]);
    }
  }

  ghost predicate SameMarkers(s: string, t: string) {
    forall m :: Contains(s, m) <==> Contains(t, m)
  }

  /** Exactly which outputs can change places with any closed output. */
  lemma OrderHarmlessExactly(a: string)
    ensures Closed(a) <==> forall b | Closed(b) :: SameMarkers(a + b, b + a)
  {
    if Closed(a) {
      forall b, m | Closed(b) ensures Contains(a + b, m) <==> Contains(b + a, m) {
        ClosedFirst(a, b, m);
        ClosedFirst(b, a, m);
      }
    } else {
      var f: Family, i: nat :| i < |a| && Unfinished(f, a[i..]);
      var b := FinishLong(f, a[i..], |a|);
      FusesOneWay(f, a, i, b);
      TailIsClosed(f, a[i..] + b, |a| - i);
      assert (a[i..] + b)[|a| - i..] == b;
    }
  }

  /* ----- line ends ----- */

  predicate EndsLine(out: string) {
    out == "" || out[|out| - 1] == '\n'
  }

  lemma NewlineIsNoBeginning(f: Family, s: string)
    requires s != "" && s[|s| - 1] == '\n'
    ensures !Unfinished(f, s)
  {}

  /** Ending the last line is enough, but not needed, to be closed. */
  lemma LineEndCloses(out: string)
    requires EndsLine(out)
    ensures Closed(out)
  {
    forall f: Family, i: nat | i < |out| ensures !Unfinished(f, out[i..]) {
      NewlineIsNoBeginning(f, out[i..]);
    }
  }

  predicate AllEndLine(outs: seq<string>) {
    forall k :: 0 <= k < |outs| ==> EndsLine(outs[k])
  }

  /** With line-terminated outputs the buffer holds the union of the gates' markers. */
  lemma MarkersOfGates(outs: seq<string>, m: string)
    requires AllEndLine(outs)
    ensures Contains(Flat(outs), m) <==> SomeContains(outs, m)
  {
    forall k | 0 <= k < |outs| - 1 ensures Closed(outs[k]) { LineEndCloses(outs[k]); }
    ClosedJoinsClean(outs);
    CleanJoinsNeutral(outs, m);
  }

  /** Without line ends the buffer can show a marker no gate printed, and the order of
      the gates then decides the finding set. */
  lemma GatesCanFuse()
    ensures Contains(Flat(["GO-1-", "2"]), "GO-1-2")
    ensures !Contains(Flat(["2", "GO-1-"]), "GO-1-2")
    ensures !Contains("GO-1-", "GO-1-2") && !Contains("2", "GO-1-2")
  {
    FlatPair("GO-1-", "2");
    FlatPair("2", "GO-1-");
    var t := "GO-1-2";
    assert "GO-1-" + "2" == t && t[0..6] == t;
    assert Spells(GoVuln, t, 0, 4, 6);
    assert Reads(GoVuln, t, 0, 6, t);
    var u := "2GO-1-";
    assert "2" + "GO-1-" == u;
    TooShort(u, t);
    TooShort("GO-1-", t);
    TooShort("2", t);
  }

  /* ----- the order of the gate targets ----- */

  lemma SameMembers(a: seq<GateAnswer>, b: seq<GateAnswer>)
    requires multiset(a) == multiset(b)
    ensures forall g :: g in a <==> g in b
  {
    forall g ensures g in a <==> g in b {
      assert g in a <==> g in multiset(a);
    }
  }

  lemma PrintedBySome(gates: seq<GateAnswer>, m: string)
    ensures SomeContains(Captured(gates), m) <==> exists g :: g in gates && Contains(CapturedOf(g), m)
  {
    var outs := Captured(gates);
    if k :| 0 <= k < |outs| && Contains(outs[k], m) { assert gates[k] in gates; }
    if g :| g in gates && Contains(CapturedOf(g), m) {
      var k :| 0 <= k < |gates| && gates[k] == g;
      assert outs[k] == CapturedOf(g);
    }
  }

  /** In both orders the joins make the same markers and spoil the same markers. */
  ghost predicate SameJoins(outs: seq<string>, outs': seq<string>) {
    forall m :: (Made(outs, m) <==> Made(outs', m)) && (Spoiled(outs, m) <==> Spoiled(outs', m))
  }

  ghost predicate NoMarkers(s: string) {
    forall m :: !Contains(s, m)
  }

  /** Two orders of the same gates show the same markers exactly when their joins make
      and spoil the same. */
  lemma SameJoinsSameMarkers(gates: seq<GateAnswer>, gates': seq<GateAnswer>)
    requires multiset(gates) == multiset(gates')
    ensures SameJoins(Captured(gates), Captured(gates')) <==> SameMarkers(Flat(Captured(gates)), Flat(Captured(gates')))
  {
    var outs, outs' := Captured(gates), Captured(gates');
    forall m
      ensures (Made(outs, m) <==> Made(outs', m)) && (Spoiled(outs, m) <==> Spoiled(outs', m)) <==>
              (Contains(Flat(outs), m) <==> Contains(Flat(outs'), m))
    {
      SameMembers(gates, gates');
      PrintedBySome(gates, m);
      PrintedBySome(gates', m);
      MarkersOfJoins(outs, m);
      MarkersOfJoins(outs', m);
    }
  }

  lemma MarkersDecide(tempOk: bool, clone: CloneAnswer, gates: seq<GateAnswer>, gates': seq<GateAnswer>,
                      head: Option<string>, r: ScanOutcome, r': ScanOutcome)
    requires multiset(gates) == multiset(gates')
    requires ScanMeets(tempOk, clone, gates, head, r) && ScanMeets(tempOk, clone, gates', head, r')
    requires tempOk && clone.CloneOk? && !TimedOut(gates)
    ensures var s, t := Flat(Captured(gates)), Flat(Captured(gates'));
            r == r' <==> if head.Some? then SameMarkers(s, t) else AnyFailed(gates) || (NoMarkers(s) <==> NoMarkers(t))
  {
    SameMembers(gates, gates');
    var s, t := Flat(Captured(gates)), Flat(Captured(gates'));
    if head.Some? && !NoMarkers(s) && !NoMarkers(t) {
      SameMarkersSameList(r.vulnIDs, r'.vulnIDs, s, t);
    }
  }

  /** Exactly when two orders of the same gate targets give the same outcome: always
      when the scan ends before the markers are read; otherwise when the joins make
      and spoil the same markers; and without a commit to report, when both buffers
      hold markers or neither does, or a gate failed. */
  lemma GateOrderExactly(tempOk: bool, clone: CloneAnswer, gates: seq<GateAnswer>, gates': seq<GateAnswer>,
                         head: Option<string>, r: ScanOutcome, r': ScanOutcome)
    requires multiset(gates) == multiset(gates')
    requires ScanMeets(tempOk, clone, gates, head, r) && ScanMeets(tempOk, clone, gates', head, r')
    ensures var outs, outs' := Captured(gates), Captured(gates');
            r == r' <==>
              if !tempOk || clone.CloneBroken? || TimedOut(gates) then true
              else if head.Some? then SameJoins(outs, outs')
              else AnyFailed(gates) || (NoMarkers(Flat(outs)) <==> NoMarkers(Flat(outs')))
  {
    SameMembers(gates, gates');
    SameJoinsSameMarkers(gates, gates');
    if tempOk && clone.CloneOk? && !TimedOut(gates) {
      MarkersDecide(tempOk, clone, gates, gates', head, r, r');
    }
  }

  /** Reordering the gate targets does not change the outcome of a scan when no marker
      runs across a join in either order. */
  lemma CleanOrdersAgree(tempOk: bool, clone: CloneAnswer, gates: seq<GateAnswer>, gates': seq<GateAnswer>,
                         head: Option<string>, r: ScanOutcome, r': ScanOutcome)
    requires multiset(gates) == multiset(gates')
    requires CleanJoins(Captured(gates)) && CleanJoins(Captured(gates'))
    requires ScanMeets(tempOk, clone, gates, head, r) && ScanMeets(tempOk, clone, gates', head, r')
    ensures r == r'
  {
    var outs, outs' := Captured(gates), Captured(gates');
    forall m ensures !Made(outs, m) && !Spoiled(outs, m) && !Made(outs', m) && !Spoiled(outs', m) {
      CleanJoinsNeutral(outs, m);
      CleanJoinsNeutral(outs', m);
    }
    assert SameJoins(outs, outs');
    SameJoinsSameMarkers(gates, gates');
    GateOrderExactly(tempOk, clone, gates, gates', head, r, r');
  }

  /** The same, in terms of each gate alone: every captured output is closed. */
  lemma ClosedOrdersAgree(tempOk: bool, clone: CloneAnswer, gates: seq<GateAnswer>, gates': seq<GateAnswer>,
                          head: Option<string>, r: ScanOutcome, r': ScanOutcome)
    requires multiset(gates) == multiset(gates')
    requires forall g :: g in gates ==> Closed(CapturedOf(g))
    requires ScanMeets(tempOk, clone, gates, head, r) && ScanMeets(tempOk, clone, gates', head, r')
    ensures r == r'
  {
    SameMembers(gates, gates');
    ClosedJoinsClean(Captured(gates));
    ClosedJoinsClean(Captured(gates'));
    CleanOrdersAgree(tempOk, clone, gates, gates', head, r, r');
  }

  /** In particular when every captured output is empty or ends its last line. */
  lemma GateOrderIsIrrelevant(tempOk: bool, clone: CloneAnswer, gates: seq<GateAnswer>, gates': seq<GateAnswer>,
                              head: Option<string>, r: ScanOutcome, r': ScanOutcome)
    requires multiset(gates) == multiset(gates')
    requires forall g :: g in gates ==> EndsLine(CapturedOf(g))
    requires ScanMeets(tempOk, clone, gates, head, r) && ScanMeets(tempOk, clone, gates', head, r')
    ensures r == r'
  {
    forall g | g in gates ensures Closed(CapturedOf(g)) { LineEndCloses(CapturedOf(g)); }
    ClosedOrdersAgree(tempOk, clone, gates, gates', head, r, r');
  }
}
