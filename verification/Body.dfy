/** The body handed back after a non-2xx response was logged (pkg/non2xx_log.go):
    a buffered prefix, then the rest of the original. */
module Body {
  import opened Wrappers
  import opened Snippet

  datatype Ending = Eof | Fault(code: int)

  /** How the transport cuts one read: at most `n` bytes; `eager` reports the ending
      together with the last bytes instead of on the next read. */
  datatype Offer = Offer(n: nat, eager: bool)

  /** An original body: what is left, how it ends, and an arbitrary plan of short,
      empty and eager reads. After a fault it was told of once, it says end of file. */
  class Source {
    const ending: Ending
    var data: seq<Byte>
    var plan: seq<Offer>
    var ended: bool

    constructor (data: seq<Byte>, ending: Ending, plan: seq<Offer>)
      ensures this.data == data && this.ending == ending && this.plan == plan && !ended
    {
      this.data, this.ending, this.plan, this.ended := data, ending, plan, false;
    }

    function Rest(): seq<Byte>
      reads this
    {
      if ended then [] else data
    }

    function Finale(): Ending
      reads this
    {
      if ended then Eof else ending
    }

    function Work(): nat
      reads this
    {
      if ended then 0 else 1 + |plan| + |data|
    }

    method Read(max: nat) returns (chunk: seq<Byte>, err: Option<Ending>)
      modifies this
      ensures |chunk| <= max && old(Rest()) == chunk + Rest()
      ensures err.Some? ==> Rest() == [] && err == Some(old(Finale())) && ended
      ensures err.None? ==> Finale() == old(Finale()) && !ended && (max > 0 ==> Work() < old(Work()))
    {
      if ended { return [], Some(Eof); }
      var offer := if plan == [] then Offer(|data|, data == []) else plan[0];
      if plan != [] { plan := plan[1..]; }
      var n := if offer.n <= max then offer.n else max;
      n := if n <= |data| then n else |data|;
      chunk, data := data[..n], data[n..];
      err := None;
      if data == [] && offer.eager {
        err := Some(ending);
        ended := true;
      }
    }
  }

  function Take(data: seq<Byte>, n: nat): seq<Byte> {
    if |data| <= n then data else data[..n]
  }

  class LimitReader {
    const src: Source
    var n: nat

    constructor (src: Source, n: nat)
      ensures this.src == src && this.n == n
    {
      this.src, this.n := src, n;
    }

    method Read(max: nat) returns (chunk: seq<Byte>, err: Option<Ending>)
      modifies this`n, src
      ensures old(n) == 0 ==>
                && chunk == [] && err == Some(Eof) && n == 0
                && src.Rest() == old(src.Rest()) && src.Finale() == old(src.Finale())
      ensures old(n) > 0 ==>
                && n + |chunk| == old(n) && |chunk| <= max && old(src.Rest()) == chunk + src.Rest()
                && (err.Some? ==> src.Rest() == [] && err == Some(old(src.Finale())) && src.ended)
                && (err.None? ==> src.Finale() == old(src.Finale()) && (max > 0 ==> src.Work() < old(src.Work())))
    {
      if n == 0 { return [], Some(Eof); }
      var m := if max > n then n else max;
      chunk, err := src.Read(m);
      n := n - |chunk|;
    }
  }

  /** Buffer sizes, read by read; all leave room for a byte. */
  type Sizes = nat -> nat

  ghost predicate Positive(sizes: Sizes) {
    forall k :: sizes(k) > 0
  }

  /** `io.ReadAll` of the limited body, however its buffer grows: the first `limit`
      bytes, and an error only when the body's own fault was met. */
  method ReadAllLimited(src: Source, limit: nat, sizes: Sizes) returns (prefix: seq<Byte>, readErr: Option<int>)
    requires Positive(sizes)
    modifies src
    ensures prefix == Take(old(src.Rest()), limit)
    ensures old(src.Rest()) == prefix + src.Rest()
    ensures readErr.Some? ==> src.Rest() == [] && old(src.Finale()) == Fault(readErr.value)
    ensures readErr.None? ==> src.Finale() == old(src.Finale())
  {
    var r := new LimitReader(src, limit);
    prefix := [];
    ghost var whole, finale := src.Rest(), src.Finale();
    var k: nat := 0;
    while true
      invariant fresh(r) && r.src == src && r.n + |prefix| == limit
      invariant whole == prefix + src.Rest() && src.Finale() == finale
      decreases src.Work() + r.n
    {
      var chunk, err := r.Read(sizes(k));
      prefix, k := prefix + chunk, k + 1;
      match err
      case None =>
      case Some(Eof) => return prefix, None;
      case Some(Fault(code)) => return prefix, Some(code);
    }
  }

  datatype Tail = Original(src: Source) | Failing(code: int)

  /** `io.MultiReader` over the prefix and the tail, closing the original body. */
  class PeekedBody {
    var prefix: seq<Byte>
    var prefixDone: bool
    var tailDone: bool
    const tail: Tail
    const closer: Source

    constructor (prefix: seq<Byte>, tail: Tail, closer: Source)
      ensures this.prefix == prefix && this.tail == tail && this.closer == closer && !prefixDone && !tailDone
    {
      this.prefix, this.tail, this.closer, prefixDone, tailDone := prefix, tail, closer, false, false;
    }

    ghost function Parts(): set<object>
    {
      if tail.Original? then {this, tail.src} else {this}
    }

    function Remaining(): seq<Byte>
      reads Parts()
    {
      (if prefixDone then [] else prefix) + (if tailDone || tail.Failing? then [] else tail.src.Rest())
    }

    function Finale(): Ending
      reads Parts()
    {
      if tailDone then Eof else if tail.Failing? then Fault(tail.code) else tail.src.Finale()
    }

    function Work(): nat
      reads Parts()
    {
      (if prefixDone then 0 else 1 + |prefix|) + (if tailDone || tail.Failing? then 0 else tail.src.Work())
    }

    method Read(max: nat) returns (chunk: seq<Byte>, err: Option<Ending>)
      modifies Parts()
      ensures |chunk| <= max && old(Remaining()) == chunk + Remaining()
      ensures err.Some? ==> Remaining() == [] && err == Some(old(Finale()))
      ensures err.None? ==> Finale() == old(Finale()) && Work() > 0 && (max > 0 ==> Work() < old(Work()))
    {
      if !prefixDone {
        if prefix != [] {
          var n := if |prefix| <= max then |prefix| else max;
          chunk, prefix := prefix[..n], prefix[n..];
          return chunk, None;
        }
        prefixDone := true;
      }
      if tailDone { return [], Some(Eof); }
      if tail.Failing? { return [], Some(Fault(tail.code)); }
      chunk, err := tail.src.Read(max);
      if err == Some(Eof) { tailDone := true; }
    }
  }

  /** Any sequence of caller buffer sizes: what came out so far, followed by what is
      left, is the body; an ending is reported only at the very end, and it is the
      body's own. It does come, once there were enough reads with room for a byte. */
  method ReadInPieces(body: PeekedBody, sizes: seq<nat>) returns (got: seq<Byte>, err: Option<Ending>)
    modifies body.Parts()
    ensures old(body.Remaining()) == got + body.Remaining()
    ensures err.Some? ==> got == old(body.Remaining()) && err == Some(old(body.Finale()))
    ensures err.None? ==> body.Finale() == old(body.Finale())
    ensures |sizes| > 0 && |sizes| >= old(body.Work()) && (forall k :: 0 <= k < |sizes| ==> sizes[k] > 0) ==> err.Some?
  {
    got, err := [], None;
    for k := 0 to |sizes|
      invariant k > 0 ==> body.Work() > 0
      invariant (forall l :: 0 <= l < k ==> sizes[l] > 0) ==> body.Work() + k <= old(body.Work())
      invariant old(body.Remaining()) == got + body.Remaining()
      invariant body.Finale() == old(body.Finale()) && err.None?
    {
      var chunk, e := body.Read(sizes[k]);
      got := got + chunk;
      if e.Some? { return got, e; }
    }
  }

  /** A caller that keeps reading, with buffers of any positive sizes, gets all of it. */
  method ReadToEnd(body: PeekedBody, sizes: Sizes) returns (got: seq<Byte>, err: Ending)
    requires Positive(sizes)
    modifies body.Parts()
    ensures got == old(body.Remaining()) && err == old(body.Finale())
  {
    got := [];
    var k: nat := 0;
    while true
      invariant old(body.Remaining()) == got + body.Remaining()
      invariant body.Finale() == old(body.Finale())
      decreases body.Work()
    {
      ghost var left := body.Remaining();
      var chunk, e := body.Read(sizes(k));
      JoinLater(got, chunk, left, body.Remaining());
      got, k := got + chunk, k + 1;
      if e.Some? { return got, e.value; }
    }
  }

  lemma JoinLater(got: seq<Byte>, chunk: seq<Byte>, left: seq<Byte>, rest: seq<Byte>)
    requires left == chunk + rest
    ensures got + left == got + chunk + rest
  {}

  const NON_2XX_PEEK_BYTES: nat := 4096

  datatype ResponseBody = NoBody | Raw(src: Source) | Peeked(body: PeekedBody)

  class Response {
    const status: int
    var body: ResponseBody

    constructor (status: int, body: ResponseBody)
      ensures this.status == status && this.body == body
    {
      this.status, this.body := status, body;
    }
  }

  /** `logNon2xxResponse` for a body straight from the transport. A 2xx response is
      not touched. Otherwise the snippet of the first bytes is logged, and the caller
      is left with a body that still holds every original byte and ends as the
      original would have, wherever that ending falls; closing it closes the original. */
  method LogNon2xxResponse(resp: Response, sizes: Sizes) returns (logged: Option<seq<Byte>>)
    requires Positive(sizes) && !resp.body.Peeked?
    modifies resp`body, if resp.body.Raw? then {resp.body.src} else {}
    ensures 200 <= resp.status <= 299 ==>
              && logged.None? && resp.body == old(resp.body)
              && (resp.body.Raw? ==> unchanged(resp.body.src))
    ensures !(200 <= resp.status <= 299) && old(resp.body).NoBody? ==> logged == Some(BodySnippet([])) && resp.body.NoBody?
    ensures !(200 <= resp.status <= 299) && old(resp.body).Raw? ==>
              var src := old(resp.body).src;
              && logged == Some(BodySnippet(if |old(src.Rest())| <= 4096 then old(src.Rest()) else old(src.Rest())[..4096]))
              && resp.body.Peeked? && fresh(resp.body.body) && resp.body.body.closer == src
              && resp.body.body.Remaining() == old(src.Rest())
              && resp.body.body.Finale() == old(src.Finale())
  {
    if resp.status >= 200 && resp.status <= 299 { return None; }
    var prefix: seq<Byte> := [];
    if resp.body.Raw? {
      var src := resp.body.src;
      var readErr: Option<int>;
      prefix, readErr := ReadAllLimited(src, NON_2XX_PEEK_BYTES, sizes);
      var tail := if readErr.Some? then Failing(readErr.value) else Original(src);
      var body := new PeekedBody(prefix, tail, src);
      resp.body := Peeked(body);
    }
    logged := Some(BodySnippet(prefix));
  }
}
