/** Capture of gate output and classification of a scan (pkg/scanner.go). Running
    git and make is an oracle: exit status, written chunks, "context done". */
module Scanner {
  import opened StringOrder
  import opened Wrappers
  import opened Markers

  /* ----- cappedWriter ----- */

  const MAX_GATE_OUTPUT_BYTES: nat := 4 * 1024 * 1024

  function Capped(text: string, n: nat): string {
    if |text| <= n then text else text[..n]
  }

  function Flat(chunks: seq<string>): string {
    if chunks == [] then "" else Flat(chunks[..|chunks| - 1]) + chunks[|chunks| - 1]
  }

  class Buffer {
    var data: string

    constructor ()
      ensures data == ""
    {
      data := "";
    }
  }

  class CappedWriter {
    const buf: Buffer
    var remaining: nat

    constructor (buf: Buffer, max: nat)
      ensures this.buf == buf && remaining == max
    {
      this.buf, remaining := buf, max;
    }

    /** Keeps the leading `remaining` bytes and claims to have taken everything. */
    method Write(p: string) returns (n: nat)
      modifies this`remaining, buf
      ensures n == |p|
      ensures buf.data == old(buf.data) + Capped(p, old(remaining))
      ensures remaining + |Capped(p, old(remaining))| == old(remaining)
    {
      if remaining <= 0 {
        assert Capped(p, remaining) == "";
        return |p|;
      }
      var m := |p|;
      if m > remaining { m := remaining; }
      buf.data := buf.data + p[..m];
      assert p[..m] == Capped(p, remaining);
      remaining := remaining - m;
      return |p|;
    }
  }

  /** One gate process: any number of writes of any size through one fresh writer
      on the shared buffer appends exactly the first `MAX_GATE_OUTPUT_BYTES` bytes
      of what was written; no write is ever reported short. */
  method RunGate(combined: Buffer, writes: seq<string>) returns (accepted: seq<nat>)
    modifies combined
    ensures var all := Flat(writes);
            combined.data == old(combined.data) + if |all| <= 4194304 then all else all[..4194304]
    ensures combined.data == old(combined.data) + Capped(Flat(writes), MAX_GATE_OUTPUT_BYTES)
    ensures |accepted| == |writes| && forall k :: 0 <= k < |writes| ==> accepted[k] == |writes[k]|
  {
    var w := new CappedWriter(combined, MAX_GATE_OUTPUT_BYTES);
    accepted := [];
    for k := 0 to |writes|
      invariant w.buf == combined
      invariant combined.data == old(combined.data) + Capped(Flat(writes[..k]), MAX_GATE_OUTPUT_BYTES)
      invariant w.remaining + |Capped(Flat(writes[..k]), MAX_GATE_OUTPUT_BYTES)| == MAX_GATE_OUTPUT_BYTES
      invariant |accepted| == k && forall l :: 0 <= l < k ==> accepted[l] == |writes[l]|
    {
      assert writes[..k + 1][..k] == writes[..k];
      CapInTwoSteps(Flat(writes[..k]), writes[k], MAX_GATE_OUTPUT_BYTES);
      var n := w.Write(writes[k]);
      accepted := accepted + [n];
    }
    assert writes[..|writes|] == writes;
  }

  lemma CapInTwoSteps(a: string, b: string, n: nat)
    ensures Capped(a + b, n) == Capped(a, n) + Capped(b, n - |Capped(a, n)|)
  {}

  /* ----- what the cap does to markers ----- */

  /** A marker of the capped text is an occurrence of the full text that ends by the
      cap, or the part before the cap of one that runs across it. */
  ghost predicate SurvivesCap(f: Family, text: string, n: nat, m: string) {
    exists i: nat, j: nat :: CutTo(f, text, n, i, j, m)
  }

  predicate CutTo(f: Family, text: string, n: nat, i: nat, j: nat, m: string) {
    && Occurrence(f, text, i, j)
    && ((j <= n && m == text[i..j]) || (i <= n < j && m == text[i..n] && IsMarkerOf(f, m)))
  }

  lemma CapOccurrence(f: Family, text: string, n: nat, i: nat, j: nat)
    requires n <= |text|
    ensures Occurrence(f, text[..n], i, j) <==>
            i <= j <= n && IsMarkerOf(f, text[i..j]) && (j == n || !IsDigit(text[j]))
  {
    if i <= j <= n { assert text[..n][i..j] == text[i..j]; }
  }

  /** A marker followed by more digits is a proper prefix of an occurrence. */
  lemma MarkerGrows(f: Family, text: string, i: nat, n: nat) returns (j: nat)
    requires i <= n < |text| && IsMarkerOf(f, text[i..n]) && IsDigit(text[n])
    ensures n < j && Occurrence(f, text, i, j)
  {
    var k: nat :| k < n - i && Spells(f, text[i..n], 0, k, n - i);
    SpellsInSlice(f, text, i, i + k, n);
    j := DigitsEnd(text, n);
    SpellsInSlice(f, text, i, i + k, j);
  }

  /** Exactly which markers the capped text shows: those of the full text that end
      by the cap, and, for an occurrence cut by the cap, its part before the cap. */
  lemma CappedMarkers(f: Family, text: string, n: nat, m: string)
    ensures Holds(f, Capped(text, n), m) <==> SurvivesCap(f, text, n, m)
  {
    if n < |text| {
      if i: nat, j: nat :| Reads(f, text[..n], i, j, m) { ShownSurvives(f, text, n, i, j, m); }
      if i: nat, j: nat :| CutTo(f, text, n, i, j, m) { SurvivorShows(f, text, n, i, j, m); }
    } else {
      if i: nat, j: nat :| Reads(f, text, i, j, m) { assert CutTo(f, text, n, i, j, m); }
      if i: nat, j: nat :| CutTo(f, text, n, i, j, m) { assert Reads(f, text, i, j, m); }
    }
  }

  lemma ShownSurvives(f: Family, text: string, n: nat, i: nat, j: nat, m: string)
    requires n < |text| && Reads(f, text[..n], i, j, m)
    ensures SurvivesCap(f, text, n, m)
  {
    CapOccurrence(f, text, n, i, j);
    assert m == text[i..j];
    if j == n && IsDigit(text[n]) {
      var j' := MarkerGrows(f, text, i, n);
      assert CutTo(f, text, n, i, j', m);
    } else {
      assert CutTo(f, text, n, i, j, m);
    }
  }

  lemma SurvivorShows(f: Family, text: string, n: nat, i: nat, j: nat, m: string)
    requires n < |text| && CutTo(f, text, n, i, j, m)
    ensures Holds(f, text[..n], m)
  {
    var e := if j <= n then j else n;
    CapOccurrence(f, text, n, i, e);
    assert text[..n][i..e] == text[i..e];
    assert Reads(f, text[..n], i, e, m);
  }

  function Blanks(n: nat): (r: string)
    ensures |r| == n && forall x :: 0 <= x < n ==> r[x] == ' '
  {
    seq(n, _ => ' ')
  }

  /** Capping can show a marker the text does not have: here the cap cuts off the last
      digit of the only one. */
  lemma CapCanShorten()
    ensures var t := Blanks(MAX_GATE_OUTPUT_BYTES - 9) + "GO-2024-12";
            Contains(Capped(t, MAX_GATE_OUTPUT_BYTES), "GO-2024-1") && !Contains(t, "GO-2024-1")
  {
    var pad, m, c: string := Blanks(MAX_GATE_OUTPUT_BYTES - 9), "GO-2024-12", "GO-2024-1";
    var t, n, p := pad + m, MAX_GATE_OUTPUT_BYTES, |pad|;
    assert t[p..n + 1] == m && t[p..n] == c;
    assert Spells(GoVuln, m, 0, 7, 10) && Spells(GoVuln, c, 0, 7, 9);
    assert CutTo(GoVuln, t, n, p, n + 1, c);
    CappedMarkers(GoVuln, t, n, c);
    LongerMarkerOnly(pad);
  }

  lemma LongerMarkerOnly(pad: string)
    requires forall x :: 0 <= x < |pad| ==> pad[x] == ' '
    ensures !Contains(pad + "GO-2024-12", "GO-2024-1")
  {
    var m, c: string := "GO-2024-12", "GO-2024-1";
    var t, p := pad + m, |pad|;
    forall f: Family, i: nat, j: nat | Occurrence(f, t, i, j) ensures t[i..j] != c {
      OccurrenceNotEmpty(f, t, i, j);
      assert t[p + 9] == m[9];
      assert i > p ==> t[i] == m[i - p];
      assert t[i..j][0] == t[i];
    }
  }

  /* ----- Scan ----- */

  datatype ScanError = TempDirError | CloneError | TimeoutError | GateError

  datatype ScanOutcome = Failed(err: ScanError) | Scanned(headSHA: string, vulnIDs: seq<string>)

  datatype CloneAnswer = CloneOk | CloneBroken(ctxDone: bool)

  datatype GateAnswer = GateAnswer(writes: seq<string>, failed: bool, ctxDone: bool)

  function CapturedOf(g: GateAnswer): string {
    Capped(Flat(g.writes), MAX_GATE_OUTPUT_BYTES)
  }

  function Captured(gates: seq<GateAnswer>): (r: seq<string>)
    ensures |r| == |gates| && forall k :: 0 <= k < |gates| ==> r[k] == CapturedOf(gates[k])
  {
    seq(|gates|, k requires 0 <= k < |gates| => CapturedOf(gates[k]))
  }

  predicate TimedOut(gates: seq<GateAnswer>) {
    exists g :: g in gates && g.failed && g.ctxDone
  }

  predicate AnyFailed(gates: seq<GateAnswer>) {
    exists g :: g in gates && g.failed
  }

  /** What a scan promises its caller, as a relation between the answers of the
      outside world and the outcome. */
  ghost predicate ScanMeets(tempOk: bool, clone: CloneAnswer, gates: seq<GateAnswer>, head: Option<string>, r: ScanOutcome) {
    if !tempOk then r == Failed(TempDirError)
    else if clone.CloneBroken? then r == Failed(if clone.ctxDone then TimeoutError else CloneError)
    else if TimedOut(gates) then r == Failed(TimeoutError)
    else
      var text := Flat(Captured(gates));
      if forall m :: !Contains(text, m) then
        r == if AnyFailed(gates) then Failed(GateError) else Scanned("", [])
      else if head.None? then r == Failed(GateError)
      else
        && r.Scanned? && r.headSHA == head.value && Ascending(r.vulnIDs)
        && forall m :: m in r.vulnIDs <==> Contains(text, m)
  }

  method Scan(tempOk: bool, clone: CloneAnswer, gates: seq<GateAnswer>, head: Option<string>)
    returns (r: ScanOutcome)
    ensures ScanMeets(tempOk, clone, gates, head, r)
    ensures r.Scanned? ==> Ascending(r.vulnIDs) && forall m :: m in r.vulnIDs ==> IsMarker(m)
  {
    if !tempOk { return Failed(TempDirError); }
    if clone.CloneBroken? {
      if clone.ctxDone { return Failed(TimeoutError); }
      return Failed(CloneError);
    }
    var combined := new Buffer();
    var anyGateFailed := false;
    for k := 0 to |gates|
      invariant fresh(combined)
      invariant combined.data == Flat(Captured(gates[..k]))
      invariant !TimedOut(gates[..k])
      invariant anyGateFailed == AnyFailed(gates[..k])
    {
      assert gates[..k + 1] == gates[..k] + [gates[k]];
      assert Captured(gates[..k + 1])[..k] == Captured(gates[..k]);
      var _ := RunGate(combined, gates[k].writes);
      if gates[k].failed {
        if gates[k].ctxDone {
          assert gates[k] in gates;
          return Failed(TimeoutError);
        }
        anyGateFailed := true;
        assert gates[k] in gates[..k + 1];
      }
    }
    assert gates[..|gates|] == gates;
    var markers := ExtractMarkers(combined.data);
    if |markers| == 0 {
      assert forall m :: m !in markers;
      if anyGateFailed { return Failed(GateError); }
      return Scanned("", []);
    }
    assert markers[0] in markers;
    if head.None? { return Failed(GateError); }
    return Scanned(head.value, markers);
  }
}
