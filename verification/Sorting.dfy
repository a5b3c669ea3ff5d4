/** `sort.Strings` on a slice, and the "range over the map, append, sort" step that
    `canonicalVulnIDs` and `extractMarkers` both end with. */
module Sorting {
  import opened StringOrder

  ghost predicate SortedUpTo(s: seq<string>, n: nat)
    requires n <= |s|
  {
    forall i, j :: 0 <= i < j < n ==> !Less(s[j], s[i])
  }

  lemma NotLessTransitive(a: string, b: string, c: string)
    requires !Less(b, a) && !Less(c, b)
    ensures !Less(c, a)
  {
    LessTotal(a, b);
    if Less(c, a) && a != b { LessTransitive(c, a, b); }
  }

  /** Insertion sort, in place. */
  method SortStrings(a: array<string>)
    modifies a
    ensures SortedUpTo(a[..], a.Length)
    ensures multiset(a[..]) == multiset(old(a[..]))
  {
    for n := 0 to a.Length
      invariant SortedUpTo(a[..], n)
      invariant multiset(a[..]) == multiset(old(a[..]))
    {
      var k: nat := n;
      while k > 0 && Less(a[k], a[k - 1])
        invariant k <= n
        invariant forall i, j :: 0 <= i < j <= n && j != k ==> !Less(a[j], a[i])
        invariant forall j :: k < j <= n ==> !Less(a[j], a[k])
        invariant multiset(a[..]) == multiset(old(a[..]))
      {
        SwapStep(a[..], k, n);
        a[k], a[k - 1] := a[k - 1], a[k];
        k := k - 1;
      }
      forall i, j | 0 <= i < j < n + 1 ensures !Less(a[j], a[i]) {
        if j == k && i < k - 1 { NotLessTransitive(a[i], a[k - 1], a[k]); }
      }
    }
  }

  /** The order facts that one swap of neighbours needs. */
  lemma SwapStep(s: seq<string>, k: nat, n: nat)
    requires 0 < k <= n < |s| && Less(s[k], s[k - 1])
    ensures !Less(s[k - 1], s[k])
  {
    if Less(s[k - 1], s[k]) { LessTransitive(s[k - 1], s[k], s[k - 1]); LessIrreflexive(s[k - 1]); }
  }

  /** Lists a set in an arbitrary order (Go ranges over maps in random order) and
      sorts the list in place: the order of the walk does not show in the result. */
  method ListAscending(seen: set<string>) returns (ids: seq<string>)
    ensures Ascending(ids) && Elements(ids) == seen
  {
    var a := new string[|seen|](_ => "");
    var todo, n := seen, 0;
    while todo != {}
      invariant todo <= seen && n + |todo| == |seen|
      invariant multiset(a[..n]) == multiset(seen - todo)
    {
      var id :| id in todo;
      a[n] := id;
      assert a[..n + 1] == a[..n] + [id];
      assert multiset(seen - (todo - {id})) == multiset(seen - todo) + multiset{id} by {
        assert seen - (todo - {id}) == (seen - todo) + {id};
      }
      todo, n := todo - {id}, n + 1;
    }
    assert a[..n] == a[..] && seen - todo == seen;
    SortStrings(a);
    ids := a[..];
    SortedSetIsAscending(ids, seen);
  }

  lemma TwiceMeansTwo(s: seq<string>, i: nat, j: nat)
    requires i < j < |s|
    ensures s[i] == s[j] ==> multiset(s)[s[j]] >= 2
  {
    assert s == s[..i] + [s[i]] + s[i + 1..j] + [s[j]] + s[j + 1..];
  }

  lemma SortedSetIsAscending(s: seq<string>, elements: set<string>)
    requires SortedUpTo(s, |s|) && multiset(s) == multiset(elements)
    ensures Ascending(s) && Elements(s) == elements
  {
    assert forall x :: x in s <==> x in multiset(s);
    forall i, j | 0 <= i < j < |s| ensures Less(s[i], s[j]) {
      LessTotal(s[i], s[j]);
      TwiceMeansTwo(s, i, j);
    }
  }
}
