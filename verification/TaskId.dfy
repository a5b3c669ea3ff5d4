/** The identity of a finding set (pkg/taskid.go, pkg/candidate.go). */
module TaskId {
  import opened StringOrder
  import opened Sorting
  import opened Markers

  /** `canonicalVulnIDs`: a set filled in a loop, listed in arbitrary order, sorted. */
  method CanonicalVulnIDs(ids: seq<string>) returns (out: seq<string>)
    ensures out == Canonical(ids)
  {
    var seen: set<string> := {};
    for k := 0 to |ids|
      invariant seen == Elements(ids[..k])
    {
      assert ids[..k + 1] == ids[..k] + [ids[k]];
      seen := seen + {ids[k]};
    }
    assert ids[..|ids|] == ids;
    out := ListAscending(seen);
    AscendingUnique(out, Canonical(ids));
  }

  function Seed(owner: string, repo: string, vulnIDs: seq<string>): string {
    "vuln-drift-" + (owner + "-" + repo + "-" + Join(Canonical(vulnIDs), ","))
  }

  lemma {:induction false} JoinSnoc(parts: seq<string>, last: string, sep: string)
    ensures Join(parts + [last], sep) == if parts == [] then last else Join(parts, sep) + sep + last
  {
    if |parts| > 1 {
      assert (parts + [last])[1..] == parts[1..] + [last];
      JoinSnoc(parts[1..], last, sep);
    } else if |parts| == 1 {
      assert parts + [last] == [parts[0], last] && [parts[0], last][1..] == [last];
    }
  }

  /** The seed, spelled out: it joins the one ascending list of the finding set. */
  lemma SeedSpelled(owner: string, repo: string, vulnIDs: seq<string>, sorted: seq<string>)
    requires Ascending(sorted) && Elements(sorted) == Elements(vulnIDs)
    ensures Seed(owner, repo, vulnIDs) == "vuln-drift-" + owner + "-" + repo + "-" + Join(sorted, ",")
  {
    AscendingUnique(Canonical(vulnIDs), sorted);
    var j := Join(sorted, ",");
    assert "vuln-drift-" + (owner + "-" + repo + "-" + j) == "vuln-drift-" + owner + "-" + repo + "-" + j;
  }

  /** For example, of two identifiers given out of order and one twice over. */
  lemma SeedOfTwo(owner: string, repo: string, a: string, b: string)
    requires "CVE-" <= a && "GO-" <= b
    ensures Seed(owner, repo, [b, a, b]) == "vuln-drift-" + owner + "-" + repo + "-" + (a + "," + b)
  {
    assert a[0] == 'C' && b[0] == 'G';
    assert Less(a, b);
    assert Elements([b, a, b]) == {a, b} == Elements([a, b]);
    SeedSpelled(owner, repo, [b, a, b], [a, b]);
    assert [a] + [b] == [a, b];
    JoinSnoc([a], b, ",");
  }

  /** `DeriveVulnTaskID`; `uuid5` is the name-based UUID of the frozen namespace
      (section 5.5 of RFC 9562), in its text form. */
  function DeriveVulnTaskID(uuid5: string -> string, owner: string, repo: string, vulnIDs: seq<string>): string {
    uuid5(Seed(owner, repo, vulnIDs))
  }

  predicate MarkerShaped(ids: seq<string>) {
    ids != [] && forall k :: 0 <= k < |ids| ==> IsMarker(ids[k])
  }

  /* ----- a comma-joined marker list can be read back ----- */

  predicate IsHead(c: char) { c == 'G' || c == 'C' }

  /** In a marker, 'G' and 'C' stand at the start only, and there is no comma. */
  lemma MarkerLetters(m: string, x: nat)
    requires IsMarker(m) && x < |m|
    ensures IsHead(m[x]) <==> x == 0
    ensures m[x] != ','
  {
    var f := if IsMarkerOf(GoVuln, m) then GoVuln else Cve;
    var p := |Prefix(f)|;
    var k: nat :| k < |m| && Spells(f, m, 0, k, |m|);
    if x < p { assert m[x] == m[..p][x]; }
  }

  lemma MarkerNotEmpty(m: string)
    requires IsMarker(m)
    ensures m != ""
  {}

  /** In the joined list a head letter stands at the very start or after a comma. */
  lemma {:induction false} HeadsInJoin(ids: seq<string>, x: nat)
    requires MarkerShaped(ids) && x < |Join(ids, ",")|
    ensures x == 0 ==> IsHead(Join(ids, ",")[x])
    ensures x > 0 && IsHead(Join(ids, ",")[x]) ==> Join(ids, ",")[x - 1] == ','
  {
    MarkerNotEmpty(ids[0]);
    if x < |ids[0]| {
      MarkerLetters(ids[0], x);
    } else if x > |ids[0]| {
      HeadsInJoin(ids[1..], x - |ids[0]| - 1);
    }
  }

  /** The first comma of the joined list ends the first marker. */
  lemma FirstPiece(a: seq<string>, b: seq<string>)
    requires MarkerShaped(a) && MarkerShaped(b) && Join(a, ",") == Join(b, ",")
    ensures a[0] == b[0] && (|a| == 1 <==> |b| == 1)
  {
    var j := Join(a, ",");
    assert forall x :: 0 <= x < |a[0]| ==> j[x] == a[0][x];
    assert forall x :: 0 <= x < |b[0]| ==> j[x] == b[0][x];
    if |a[0]| < |b[0]| { MarkerLetters(b[0], |a[0]|); }
    if |b[0]| < |a[0]| { MarkerLetters(a[0], |b[0]|); }
    assert |a[0]| == |b[0]|;
    assert a[0] == j[..|a[0]|] == b[0];
  }

  lemma {:induction false} JoinInjective(a: seq<string>, b: seq<string>)
    requires MarkerShaped(a) && MarkerShaped(b) && Join(a, ",") == Join(b, ",")
    ensures a == b
  {
    FirstPiece(a, b);
    if |a| > 1 {
      assert Join(a[1..], ",") == Join(a, ",")[|a[0]| + 1..];
      assert Join(b[1..], ",") == Join(b, ",")[|b[0]| + 1..];
      JoinInjective(a[1..], b[1..]);
    }
    assert a == [a[0]] + a[1..] && b == [b[0]] + b[1..];
  }

  /** Whatever text precedes it, a dash and a joined marker list can be split off
      at one place only: the list starts at the last head letter after a dash. */
  lemma SplitAtList(u: string, v: string, a: seq<string>, b: seq<string>)
    requires MarkerShaped(a) && MarkerShaped(b)
    requires u + "-" + Join(a, ",") == v + "-" + Join(b, ",")
    requires |u| <= |v|
    ensures u == v && Join(a, ",") == Join(b, ",")
  {
    var s, ja, jb := u + "-" + Join(a, ","), Join(a, ","), Join(b, ",");
    MarkerNotEmpty(b[0]);
    assert |jb| > 0;
    HeadsInJoin(b, 0);
    if |u| < |v| {
      var x := |v| - |u|;
      assert s[|v| + 1] == jb[0] && s[|v|] == '-';
      assert s[|u| + 1 + x] == ja[x] && s[|u| + x] == ja[x - 1];
      HeadsInJoin(a, x);
    } else {
      assert u == s[..|u|] == v;
      assert ja == s[|u| + 1..] == jb;
    }
  }

  lemma CanonicalMarkerShaped(ids: seq<string>)
    requires MarkerShaped(ids)
    ensures MarkerShaped(Canonical(ids))
  {
    var c := Canonical(ids);
    assert ids[0] in Elements(ids);
    forall k | 0 <= k < |c| ensures IsMarker(c[k]) {
      assert c[k] in Elements(c);
    }
    assert c == [] ==> Elements(c) == {};
  }

  /** When two seeds are the same text: exactly when owner, dash and repo spell the
      same text and the finding sets are the same set. Repo names may hold dashes,
      commas and text that looks like a marker. */
  lemma SeedDecodes(o: string, r: string, ids: seq<string>, o': string, r': string, ids': seq<string>)
    requires MarkerShaped(ids) && MarkerShaped(ids')
    ensures Seed(o, r, ids) == Seed(o', r', ids') <==>
            o + "-" + r == o' + "-" + r' && Elements(ids) == Elements(ids')
  {
    CanonicalIsTheSet(ids, ids');
    CanonicalMarkerShaped(ids);
    CanonicalMarkerShaped(ids');
    var c, c' := Canonical(ids), Canonical(ids');
    SamePrefix("vuln-drift-", o + "-" + r + "-" + Join(c, ","), o' + "-" + r' + "-" + Join(c', ","));
    SplitSeed(o + "-" + r, c, o' + "-" + r', c');
  }

  lemma SamePrefix(p: string, t: string, t': string)
    ensures p + t == p + t' <==> t == t'
  {
    assert t == (p + t)[|p|..] && t' == (p + t')[|p|..];
  }

  lemma SplitSeed(x: string, c: seq<string>, x': string, c': seq<string>)
    requires MarkerShaped(c) && MarkerShaped(c')
    ensures x + "-" + Join(c, ",") == x' + "-" + Join(c', ",") <==> x == x' && c == c'
  {
    if x + "-" + Join(c, ",") == x' + "-" + Join(c', ",") {
      if |x| <= |x'| { SplitAtList(x, x', c, c'); } else { SplitAtList(x', x, c', c); }
      JoinInjective(c, c');
    }
  }

  /** For one owner the seed identifies repo and finding set. */
  lemma SeedIdentifies(owner: string, r: string, ids: seq<string>, r': string, ids': seq<string>)
    requires MarkerShaped(ids) && MarkerShaped(ids')
    ensures Seed(owner, r, ids) == Seed(owner, r', ids') <==> r == r' && Elements(ids) == Elements(ids')
  {
    SeedDecodes(owner, r, ids, owner, r', ids');
    var s, s' := owner + "-" + r, owner + "-" + r';
    assert r == s[|owner| + 1..] && r' == s'[|owner| + 1..];
  }

  /** Across owners it does not. */
  lemma SeedAmbiguousAcrossOwners()
    ensures Seed("a-b", "c", ["GO-1-2"]) == Seed("a", "b-c", ["GO-1-2"])
  {
    assert "a-b" + "-" + "c" == "a" + "-" + "b-c";
  }

  /** With a hash that keeps these two seeds apart, the task identifier identifies
      (repo, finding set) exactly. */
  lemma TaskIdIdentifies(uuid5: string -> string, owner: string, r: string, ids: seq<string>, r': string, ids': seq<string>)
    requires MarkerShaped(ids) && MarkerShaped(ids')
    requires uuid5(Seed(owner, r, ids)) == uuid5(Seed(owner, r', ids')) ==> Seed(owner, r, ids) == Seed(owner, r', ids')
    ensures DeriveVulnTaskID(uuid5, owner, r, ids) == DeriveVulnTaskID(uuid5, owner, r', ids') <==>
            r == r' && Elements(ids) == Elements(ids')
  {
    SeedIdentifies(owner, r, ids, r', ids');
  }

  /** What the scanner extracts is already the list that is hashed, free of
      duplicates, and marker-shaped: payload, count and identifier describe one set. */
  lemma ExtractedListIsHashedList(text: string, ids: seq<string>)
    requires Ascending(ids) && forall m :: m in ids <==> Contains(text, m)
    ensures Canonical(ids) == ids && |ids| == |Elements(ids)|
    ensures ids != [] ==> MarkerShaped(ids)
  {
    AscendingIsCanonical(ids);
    AscendingHasNoDuplicates(ids);
    forall k | 0 <= k < |ids| ensures IsMarker(ids[k]) {
      assert ids[k] in ids;
      ContainsOnlyMarkers(text, ids[k]);
    }
  }
}
