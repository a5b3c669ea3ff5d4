/** The two vulnerability-marker families and the search for them in the output
    of the gates (pkg/scanner.go). */
module Markers {
  import opened Wrappers
  import opened StringOrder
  import opened Sorting

  datatype Family = GoVuln | Cve

  function Prefix(f: Family): string {
    match f
    case GoVuln => "GO-"
    case Cve => "CVE-"
  }

  predicate IsDigit(c: char) { '0' <= c <= '9' }

  predicate DigitsIn(s: string, i: nat, j: nat) {
    i < j <= |s| && forall x :: i <= x < j ==> IsDigit(s[x])
  }

  predicate PrefixAt(f: Family, text: string, i: nat) {
    i + |Prefix(f)| <= |text| && text[i..i + |Prefix(f)|] == Prefix(f)
  }

  /** `text[i..j]` reads: prefix, digits, a dash at `k`, digits. */
  predicate Spells(f: Family, text: string, i: nat, k: nat, j: nat) {
    var p := |Prefix(f)|;
    && i + p < k < j <= |text|
    && PrefixAt(f, text, i)
    && DigitsIn(text, i + p, k) && text[k] == '-' && DigitsIn(text, k + 1, j)
  }

  predicate IsMarkerOf(f: Family, s: string) {
    exists k: nat | k < |s| :: Spells(f, s, 0, k, |s|)
  }

  predicate IsMarker(s: string) {
    IsMarkerOf(GoVuln, s) || IsMarkerOf(Cve, s)
  }

  /** A marker of family `f` stands at `text[i..j]` and does not go on: this is
      the declarative meaning of "the text contains a marker here". */
  predicate Occurrence(f: Family, text: string, i: nat, j: nat) {
    i <= j <= |text| && IsMarkerOf(f, text[i..j]) && (j == |text| || !IsDigit(text[j]))
  }

  lemma SpellsInSlice(f: Family, text: string, i: nat, k: nat, j: nat)
    requires i <= k <= j <= |text|
    ensures Spells(f, text[i..j], 0, k - i, j - i) <==> Spells(f, text, i, k, j)
  {
    var p, s := |Prefix(f)|, text[i..j];
    if i + p < k < j {
      assert s[..p] == text[i..i + p];
      assert forall x :: 0 <= x < |s| ==> s[x] == text[i + x];
      assert forall x :: i <= x < j ==> text[x] == s[x - i];
    }
  }

  /* ----- the regular-expression search ----- */

  /** End of the longest run of digits that starts at `i`. */
  function DigitsEnd(text: string, i: nat): (j: nat)
    requires i <= |text|
    ensures i <= j <= |text|
    ensures forall k :: i <= k < j ==> IsDigit(text[k])
    ensures j == |text| || !IsDigit(text[j])
    decreases |text| - i
  {
    if i < |text| && IsDigit(text[i]) then DigitsEnd(text, i + 1) else i
  }

  /** Greedy match anchored at `i`. */
  function MatchEnd(f: Family, text: string, i: nat): Option<nat> {
    var p := |Prefix(f)|;
    if PrefixAt(f, text, i) then
      var a := DigitsEnd(text, i + p);
      if a > i + p && a < |text| && text[a] == '-' then
        var b := DigitsEnd(text, a + 1);
        if b > a + 1 then Some(b) else None
      else None
    else None
  }

  /** The greedy match spells a marker and cannot go on. */
  lemma MatchSpells(f: Family, text: string, i: nat, j: nat) returns (k: nat)
    requires MatchEnd(f, text, i) == Some(j)
    ensures Spells(f, text, i, k, j) && (j == |text| || !IsDigit(text[j]))
  {
    k := DigitsEnd(text, i + |Prefix(f)|);
    assert DigitsIn(text, i + |Prefix(f)|, k);
    assert DigitsIn(text, k + 1, j);
  }

  lemma SpelledNumbers(f: Family, text: string, i: nat, k: nat, j: nat)
    requires Spells(f, text, i, k, j) && (j == |text| || !IsDigit(text[j]))
    ensures DigitsEnd(text, i + |Prefix(f)|) == k && DigitsEnd(text, k + 1) == j
  {
    assert !IsDigit(text[k]);
    DigitsEndIs(text, i + |Prefix(f)|, k);
    DigitsEndIs(text, k + 1, j);
  }

  /** A marker that cannot go on is what the greedy match finds. */
  lemma SpellsMatches(f: Family, text: string, i: nat, k: nat, j: nat)
    requires Spells(f, text, i, k, j) && (j == |text| || !IsDigit(text[j]))
    ensures MatchEnd(f, text, i) == Some(j)
  {
    SpelledNumbers(f, text, i, k, j);
  }

  lemma MarkerSpells(f: Family, text: string, i: nat, j: nat) returns (k: nat)
    requires i <= j <= |text| && IsMarkerOf(f, text[i..j])
    ensures Spells(f, text, i, k, j)
  {
    var l: nat :| l < |text[i..j]| && Spells(f, text[i..j], 0, l, |text[i..j]|);
    k := i + l;
    SpellsInSlice(f, text, i, k, j);
  }

  lemma SpellsIsMarker(f: Family, text: string, i: nat, k: nat, j: nat)
    requires Spells(f, text, i, k, j)
    ensures i <= j <= |text| && IsMarkerOf(f, text[i..j])
  {
    SpellsInSlice(f, text, i, k, j);
    assert Spells(f, text[i..j], 0, k - i, |text[i..j]|);
  }

  lemma MatchIsOccurrence(f: Family, text: string, i: nat, j: nat)
    ensures MatchEnd(f, text, i) == Some(j) <==> Occurrence(f, text, i, j)
  {
    if MatchEnd(f, text, i) == Some(j) {
      var k := MatchSpells(f, text, i, j);
      SpellsIsMarker(f, text, i, k, j);
    } else if Occurrence(f, text, i, j) {
      var k := MarkerSpells(f, text, i, j);
      SpellsMatches(f, text, i, k, j);
    }
  }

  lemma DigitsEndIs(text: string, i: nat, j: nat)
    requires i <= j <= |text|
    requires forall k :: i <= k < j ==> IsDigit(text[k])
    requires j == |text| || !IsDigit(text[j])
    ensures DigitsEnd(text, i) == j
  {}

  /** Leftmost, greedy, non-overlapping matches from `pos` on, as
      `FindAllString(text, -1)` reports them. */
  function FindAll(f: Family, text: string, pos: nat): seq<(nat, nat)>
    requires pos <= |text|
    decreases |text| - pos
  {
    if pos == |text| then []
    else match MatchEnd(f, text, pos)
      case Some(e) =>
        MatchIsOccurrence(f, text, pos, e);
        [(pos, e)] + FindAll(f, text, e)
      case None => FindAll(f, text, pos + 1)
  }

  /** The first character of a prefix occurs nowhere else in a marker. */
  lemma HeadOnlyAtStart(f: Family, s: string, x: nat)
    requires IsMarkerOf(f, s) && x < |s|
    ensures s[x] == Prefix(f)[0] <==> x == 0
  {
    var p := |Prefix(f)|;
    var k: nat :| k < |s| && Spells(f, s, 0, k, |s|);
    if x < p { assert s[x] == s[..p][x]; }
  }

  /** Inside a marker, past its first character, no marker of the family can start. */
  lemma NoStartInside(f: Family, text: string, i: nat, j: nat, x: nat, y: nat)
    requires Occurrence(f, text, i, j) && i < x < j
    ensures !Occurrence(f, text, x, y)
  {
    HeadOnlyAtStart(f, text[i..j], x - i);
    if x < y <= |text| && IsMarkerOf(f, text[x..y]) {
      HeadOnlyAtStart(f, text[x..y], 0);
    }
  }

  /** The occurrences from `pos` on are the match at `pos` and those from its end on,
      or, without a match, those from the next position on. */
  lemma OccurrencesFrom(f: Family, text: string, pos: nat, i: nat, j: nat)
    ensures var here := pos <= i && Occurrence(f, text, i, j);
            match MatchEnd(f, text, pos)
            case Some(e) => pos < e <= |text| && (here <==> (i, j) == (pos, e) || (e <= i && Occurrence(f, text, i, j)))
            case None => here <==> pos < i && Occurrence(f, text, i, j)
  {
    MatchIsOccurrence(f, text, i, j);
    match MatchEnd(f, text, pos)
    case Some(e) =>
      MatchIsOccurrence(f, text, pos, e);
      OccurrenceNotEmpty(f, text, pos, e);
      if pos < i < e && Occurrence(f, text, i, j) { NoStartInside(f, text, pos, e, i, j); }
    case None =>
  }

  /** The non-overlapping search misses nothing and invents nothing: its spans are
      exactly the occurrences at any position of the text. */
  lemma {:induction false} FindAllIsComplete(f: Family, text: string, pos: nat, i: nat, j: nat)
    requires pos <= |text|
    ensures (i, j) in FindAll(f, text, pos) <==> pos <= i && Occurrence(f, text, i, j)
    decreases |text| - pos
  {
    OccurrencesFrom(f, text, pos, i, j);
    if pos < |text| {
      match MatchEnd(f, text, pos)
      case Some(e) => FindAllIsComplete(f, text, e, i, j);
      case None => FindAllIsComplete(f, text, pos + 1, i, j);
    } else if Occurrence(f, text, i, j) {
      OccurrenceNotEmpty(f, text, i, j);
    }
  }

  lemma OccurrenceNotEmpty(f: Family, text: string, i: nat, j: nat)
    requires Occurrence(f, text, i, j)
    ensures i < j <= |text|
  {}

  predicate LeftToRight(spans: seq<(nat, nat)>) {
    forall a, b :: 0 <= a < b < |spans| ==> spans[a].1 <= spans[b].0
  }

  /** Spans come out left to right and never overlap. */
  lemma {:induction false} FindAllIsOrdered(f: Family, text: string, pos: nat)
    requires pos <= |text|
    ensures LeftToRight(FindAll(f, text, pos))
    decreases |text| - pos
  {
    if pos < |text| {
      match MatchEnd(f, text, pos)
      case Some(e) =>
        MatchIsOccurrence(f, text, pos, e);
        FindAllIsOrdered(f, text, e);
        var rest := FindAll(f, text, e);
        forall b | 0 <= b < |rest| ensures e <= rest[b].0 {
          assert (rest[b].0, rest[b].1) in rest;
          FindAllIsComplete(f, text, e, rest[b].0, rest[b].1);
        }
        assert LeftToRight([(pos, e)] + rest);
      case None =>
        FindAllIsOrdered(f, text, pos + 1);
        assert FindAll(f, text, pos) == FindAll(f, text, pos + 1);
    }
  }

  /* ----- extractMarkers ----- */

  /** `m` stands somewhere in the text as a maximal marker of family `f`. */
  ghost predicate Holds(f: Family, text: string, m: string) {
    exists i: nat, j: nat :: Reads(f, text, i, j, m)
  }

  predicate Reads(f: Family, text: string, i: nat, j: nat, m: string) {
    Occurrence(f, text, i, j) && text[i..j] == m
  }

  ghost predicate Contains(text: string, m: string) {
    Holds(GoVuln, text, m) || Holds(Cve, text, m)
  }

  /** At least one of the ten digits, and nothing else. */
  predicate Number(s: string) {
    s != "" && forall c :: c in s ==> c in "0123456789"
  }

  /** What a marker looks like, spelled out. */
  lemma MarkerText(s: string)
    ensures IsMarkerOf(GoVuln, s) <==> exists a, b :: Number(a) && Number(b) && s == "GO-" + a + "-" + b
    ensures IsMarkerOf(Cve, s) <==> exists a, b :: Number(a) && Number(b) && s == "CVE-" + a + "-" + b
  {
    MarkerPieces(GoVuln, s);
    MarkerPieces(Cve, s);
    assert forall a, b :: Pieces(GoVuln, s, a, b) <==> Number(a) && Number(b) && s == "GO-" + a + "-" + b;
    assert forall a, b :: Pieces(Cve, s, a, b) <==> Number(a) && Number(b) && s == "CVE-" + a + "-" + b;
  }

  predicate Pieces(f: Family, s: string, a: string, b: string) {
    Number(a) && Number(b) && s == Prefix(f) + a + "-" + b
  }

  lemma MarkerPieces(f: Family, s: string)
    ensures IsMarkerOf(f, s) <==> exists a, b :: Pieces(f, s, a, b)
  {
    if k: nat :| k < |s| && Spells(f, s, 0, k, |s|) {
      SpelledPieces(f, s, k);
    } else if a, b :| Pieces(f, s, a, b) {
      PiecesSpell(f, s, a, b);
    }
  }

  lemma SpelledPieces(f: Family, s: string, k: nat)
    requires Spells(f, s, 0, k, |s|)
    ensures var p := |Prefix(f)|; p <= k < |s| && Pieces(f, s, s[p..k], s[k + 1..])
  {
    var p := |Prefix(f)|;
    assert s == s[..p] + s[p..k] + "-" + s[k + 1..];
    DigitsAreNumber(s, p, k);
    DigitsAreNumber(s, k + 1, |s|);
    assert s[k + 1..] == s[k + 1..|s|];
  }

  lemma PiecesSpell(f: Family, s: string, a: string, b: string)
    requires Pieces(f, s, a, b)
    ensures Spells(f, s, 0, |Prefix(f)| + |a|, |s|)
  {
    var p := |Prefix(f)|;
    assert s[..p] == Prefix(f);
    NumberAt(s, Prefix(f), a, "-" + b);
    NumberAt(s, Prefix(f) + a + "-", b, "");
  }

  lemma DigitsAreNumber(s: string, i: nat, j: nat)
    requires DigitsIn(s, i, j)
    ensures Number(s[i..j])
  {}

  lemma NumberAt(s: string, before: string, a: string, behind: string)
    requires Number(a) && s == before + a + behind
    ensures DigitsIn(s, |before|, |before| + |a|)
  {
    assert forall x :: 0 <= x < |a| ==> s[|before| + x] == a[x] && a[x] in a;
  }

  /** The text around an occurrence: `m` with something before it and, behind it,
      something that does not go on with a digit. */
  predicate Around(text: string, before: string, m: string, behind: string) {
    text == before + m + behind && (behind == "" || behind[0] !in "0123456789")
  }

  /** What it means to contain a marker, without positions. */
  lemma ContainsMeans(text: string, m: string)
    ensures Contains(text, m) <==> IsMarker(m) && exists before, behind :: Around(text, before, m, behind)
  {
    if Contains(text, m) {
      var f: Family, i: nat, j: nat :| Reads(f, text, i, j, m);
      ReadAround(f, text, i, j, m);
    } else if IsMarker(m) {
      var f := if IsMarkerOf(GoVuln, m) then GoVuln else Cve;
      forall before, behind ensures !Around(text, before, m, behind) {
        NotBetween(f, text, before, m, behind);
      }
    }
  }

  lemma ReadAround(f: Family, text: string, i: nat, j: nat, m: string)
    requires Reads(f, text, i, j, m)
    ensures Around(text, text[..i], m, text[j..])
  {
    assert text == text[..i] + text[i..j] + text[j..];
  }

  lemma NotBetween(f: Family, text: string, before: string, m: string, behind: string)
    requires IsMarkerOf(f, m)
    ensures Around(text, before, m, behind) ==> Holds(f, text, m)
  {
    if Around(text, before, m, behind) { ReadBetween(f, text, before, m, behind); }
  }

  lemma ReadBetween(f: Family, text: string, before: string, m: string, behind: string)
    requires IsMarkerOf(f, m) && Around(text, before, m, behind)
    ensures Reads(f, text, |before|, |before| + |m|, m)
  {
    assert text[|before|..|before| + |m|] == m;
  }

  /** For example, a CVE identifier between any two texts is seen. */
  lemma CveIsSeen(before: string, behind: string)
    requires behind == "" || behind[0] !in "0123456789"
    ensures Contains(before + "CVE-2024-1" + behind, "CVE-2024-1")
  {
    var m: string := "CVE-2024-1";
    assert Number("2024") && Number("1") && m == "CVE-" + "2024" + "-" + "1";
    MarkerText(m);
    assert Around(before + m + behind, before, m, behind);
    ContainsMeans(before + m + behind, m);
  }

  /** In byte-wise order every CVE marker comes before every GO marker. */
  lemma CveBeforeGo(ids: seq<string>, i: nat, j: nat)
    requires Ascending(ids) && i < |ids| && j < |ids| && "CVE-" <= ids[i] && "GO-" <= ids[j]
    ensures i < j
  {
    assert ids[i][0] == 'C' && ids[j][0] == 'G';
    assert !Less(ids[j], ids[i]);
  }

  lemma ContainsOnlyMarkers(text: string, m: string)
    requires Contains(text, m)
    ensures IsMarker(m)
  {}

  function Slice(text: string, span: (nat, nat)): string {
    if span.0 <= span.1 <= |text| then text[span.0..span.1] else ""
  }

  predicate Listed(text: string, spans: seq<(nat, nat)>, m: string) {
    exists l :: 0 <= l < |spans| && Slice(text, spans[l]) == m
  }

  lemma ListedSnoc(text: string, spans: seq<(nat, nat)>, last: (nat, nat), m: string)
    ensures Listed(text, spans + [last], m) <==> Listed(text, spans, m) || Slice(text, last) == m
  {
    var all := spans + [last];
    assert all[|spans|] == last;
    if l :| 0 <= l < |spans| && Slice(text, spans[l]) == m { assert all[l] == spans[l]; }
  }

  lemma SpansAreMarkers(f: Family, text: string, m: string)
    ensures Listed(text, FindAll(f, text, 0), m) <==> Holds(f, text, m)
  {
    var spans := FindAll(f, text, 0);
    if l :| 0 <= l < |spans| && Slice(text, spans[l]) == m {
      var (i, j) := spans[l];
      assert (i, j) in spans;
      FindAllIsComplete(f, text, 0, i, j);
      assert Reads(f, text, i, j, m);
    }
    if i: nat, j: nat :| Reads(f, text, i, j, m) {
      FindAllIsComplete(f, text, 0, i, j);
      var l :| 0 <= l < |spans| && spans[l] == (i, j);
      assert Slice(text, spans[l]) == m;
    }
  }

  /** `FindAllString` of one family, collected into the set. */
  method Collect(f: Family, text: string, seen: set<string>) returns (r: set<string>)
    ensures forall m :: m in r <==> m in seen || Holds(f, text, m)
  {
    r := seen;
    var spans := FindAll(f, text, 0);
    for k := 0 to |spans|
      invariant forall m :: m in r <==> m in seen || Listed(text, spans[..k], m)
    {
      assert spans[..k + 1] == spans[..k] + [spans[k]];
      forall m { ListedSnoc(text, spans[..k], spans[k], m); }
      r := r + {Slice(text, spans[k])};
    }
    assert spans[..|spans|] == spans;
    forall m ensures m in r <==> m in seen || Holds(f, text, m) { SpansAreMarkers(f, text, m); }
  }

  /** `extractMarkers`: collects the matches of both families in a set, lists the
      set in whatever order it comes, and sorts. The result is the ascending list
      of the markers the text contains. */
  method ExtractMarkers(text: string) returns (ids: seq<string>)
    ensures Ascending(ids)
    ensures forall m :: m in ids <==> Contains(text, m)
    ensures forall i, j :: 0 <= i < |ids| && 0 <= j < |ids| && "CVE-" <= ids[i] && "GO-" <= ids[j] ==> i < j
  {
    var seen := Collect(GoVuln, text, {});
    seen := Collect(Cve, text, seen);
    ids := ListAscending(seen);
    assert forall m :: m in ids <==> m in Elements(ids);
    forall i, j | 0 <= i < |ids| && 0 <= j < |ids| && "CVE-" <= ids[i] && "GO-" <= ids[j] ensures i < j {
      CveBeforeGo(ids, i, j);
    }
  }

  /** Two texts that contain the same markers give the same list. */
  lemma SameMarkersSameList(a: seq<string>, b: seq<string>, s: string, t: string)
    requires Ascending(a) && Ascending(b)
    requires forall m :: m in a <==> Contains(s, m)
    requires forall m :: m in b <==> Contains(t, m)
    ensures a == b <==> forall m :: Contains(s, m) <==> Contains(t, m)
  {
    if forall m :: Contains(s, m) <==> Contains(t, m) {
      assert Elements(a) == Elements(b);
      AscendingUnique(a, b);
    }
  }
}
