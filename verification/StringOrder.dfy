/** Byte-wise string order, as `sort.Strings` uses it, and lists that are
    strictly ascending in it. A Go string is a byte sequence; here each byte is
    one `char`, and nothing below depends on the size of a `char`. */
module StringOrder {

  predicate Less(a: string, b: string) {
    if b == "" then false
    else if a == "" then true
    else a[0] < b[0] || (a[0] == b[0] && Less(a[1..], b[1..]))
  }

  lemma LessIrreflexive(a: string)
    ensures !Less(a, a)
  {}

  lemma {:induction false} LessTransitive(a: string, b: string, c: string)
    requires Less(a, b) && Less(b, c)
    ensures Less(a, c)
  {
    if a != "" && a[0] == b[0] == c[0] {
      LessTransitive(a[1..], b[1..], c[1..]);
    }
  }

  lemma {:induction false} LessTotal(a: string, b: string)
    ensures Less(a, b) || a == b || Less(b, a)
  {
    if a != "" && b != "" && a[0] == b[0] {
      LessTotal(a[1..], b[1..]);
      assert a == [a[0]] + a[1..] && b == [b[0]] + b[1..];
    }
  }

  /** `k` is where `a` and `b` part: `a` ends there, or has the smaller byte. */
  predicate PartsBelow(a: string, b: string, k: nat) {
    && k <= |a| && k < |b| && a[..k] == b[..k]
    && (k == |a| || a[k] < b[k])
  }

  lemma PartsAtHead(a: string, b: string, k: nat)
    requires PartsBelow(a, b, k)
    ensures k == 0 || (a != "" && a[0] == b[0])
  {
    if k > 0 { assert a[..k][0] == a[0] && b[..k][0] == b[0]; }
  }

  /** The order is the byte-wise one: at the first place where the two differ the
      smaller byte decides, and a proper prefix comes first. */
  lemma {:induction false} LessMeans(a: string, b: string)
    ensures Less(a, b) <==> exists k: nat :: PartsBelow(a, b, k)
  {
    if a != "" && b != "" && a[0] == b[0] {
      LessMeans(a[1..], b[1..]);
      if k: nat :| PartsBelow(a[1..], b[1..], k) {
        assert a[..k + 1] == [a[0]] + a[1..][..k] && b[..k + 1] == [b[0]] + b[1..][..k];
        assert PartsBelow(a, b, k + 1);
      }
      if k: nat :| PartsBelow(a, b, k) {
        if k > 0 {
          assert a[1..][..k - 1] == a[..k][1..] && b[1..][..k - 1] == b[..k][1..];
          assert PartsBelow(a[1..], b[1..], k - 1);
        }
      }
    } else if b != "" {
      if a == "" || a[0] < b[0] { assert PartsBelow(a, b, 0); }
      if k: nat :| PartsBelow(a, b, k) { PartsAtHead(a, b, k); }
    }
  }

  predicate Ascending(s: seq<string>) {
    forall i, j :: 0 <= i < j < |s| ==> Less(s[i], s[j])
  }

  function Elements(s: seq<string>): set<string> {
    set x | x in s
  }

  /** A strictly ascending list is determined by its elements. */
  lemma {:induction false} AscendingUnique(s: seq<string>, t: seq<string>)
    requires Ascending(s) && Ascending(t) && Elements(s) == Elements(t)
    ensures s == t
  {
    assert forall x :: x in s <==> x in Elements(s) <==> x in Elements(t) <==> x in t;
    assert s != [] ==> s[0] in t;
    assert t != [] ==> t[0] in s;
    if s != [] {
      SameHead(s, t);
      TailElements(s);
      TailElements(t);
      AscendingUnique(s[1..], t[1..]);
      assert s == [s[0]] + s[1..] && t == [t[0]] + t[1..];
    }
  }

  lemma SameHead(s: seq<string>, t: seq<string>)
    requires s != [] && t != [] && Ascending(s) && Ascending(t)
    requires s[0] in t && t[0] in s
    ensures s[0] == t[0]
  {
    var i :| 0 <= i < |t| && t[i] == s[0];
    var j :| 0 <= j < |s| && s[j] == t[0];
    if i > 0 && j > 0 {
      LessTransitive(s[0], t[0], s[0]);
      LessIrreflexive(s[0]);
    }
  }

  lemma TailElements(s: seq<string>)
    requires s != [] && Ascending(s)
    ensures Elements(s[1..]) == Elements(s) - {s[0]}
  {
    LessIrreflexive(s[0]);
    assert forall i | 0 <= i < |s[1..]| :: s[1..][i] == s[i + 1];
    forall x | x in Elements(s) - {s[0]}
      ensures x in s[1..]
    {
      var i :| 0 <= i < |s| && s[i] == x;
      assert s[1..][i - 1] == x;
    }
  }

  /** Puts `x` into an ascending list, unless it is there already. */
  function AddOnce(x: string, s: seq<string>): (r: seq<string>)
    requires Ascending(s)
    ensures Ascending(r) && Elements(r) == Elements(s) + {x}
  {
    if s == [] then [x]
    else if s[0] == x then s
    else if Less(x, s[0]) then
      assert forall i | 0 < i < |s| :: Less(x, s[i]) by {
        forall i | 0 < i < |s| ensures Less(x, s[i]) { LessTransitive(x, s[0], s[i]); }
      }
      [x] + s
    else
      LessTotal(x, s[0]);
      TailElements(s);
      var r := AddOnce(x, s[1..]);
      assert forall i | 0 <= i < |r| :: r[i] in Elements(r);
      assert forall y | y in Elements(r) :: y == x || y in s[1..];
      assert Elements([s[0]] + r) == {s[0]} + Elements(r);
      [s[0]] + r
  }

  /** Reference definition of the deduplicated, sorted form of a list. */
  function Canonical(ids: seq<string>): (r: seq<string>)
    ensures Ascending(r) && Elements(r) == Elements(ids)
  {
    if ids == [] then []
    else
      assert ids == [ids[0]] + ids[1..];
      AddOnce(ids[0], Canonical(ids[1..]))
  }

  /** Canonical forms agree exactly when the element sets agree, so neither the
      order nor the multiplicity of the input matters. */
  lemma CanonicalIsTheSet(a: seq<string>, b: seq<string>)
    ensures Canonical(a) == Canonical(b) <==> Elements(a) == Elements(b)
  {
    if Elements(a) == Elements(b) {
      AscendingUnique(Canonical(a), Canonical(b));
    }
  }

  /** An ascending list is its own canonical form; hence the form is idempotent. */
  lemma AscendingIsCanonical(s: seq<string>)
    requires Ascending(s)
    ensures Canonical(s) == s
  {
    AscendingUnique(Canonical(s), s);
  }

  lemma AscendingHasNoDuplicates(s: seq<string>)
    requires Ascending(s)
    ensures |Elements(s)| == |s|
    decreases |s|
  {
    if s == [] {
      assert Elements(s) == {};
    } else {
      TailElements(s);
      AscendingHasNoDuplicates(s[1..]);
    }
  }

  function Join(parts: seq<string>, sep: string): string {
    if parts == [] then ""
    else if |parts| == 1 then parts[0]
    else parts[0] + sep + Join(parts[1..], sep)
  }
}
