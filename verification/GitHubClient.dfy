/** Listing the installation's repos (pkg/githubclient.go, pkg/repo.go). */
module GitHubClient {
  import opened Wrappers
  import opened StringOrder
  import opened TaskId
  import opened Domain
  import opened PollSpec

  datatype RawRepo = NilRepo | RawRepo(owner: string, name: string, archived: bool, defaultBranch: string)

  predicate InCharset(c: char) {
    'a' <= c <= 'z' || 'A' <= c <= 'Z' || '0' <= c <= '9' || c == '_' || c == '.' || c == '-'
  }

  /** `^[a-zA-Z0-9_.-]+$` */
  predicate ValidName(s: string) {
    s != "" && forall i :: 0 <= i < |s| ==> InCharset(s[i])
  }

  predicate InScope(r: RawRepo, owner: string) {
    r.RawRepo? && !r.archived && r.owner == owner && r.name != "" && ValidName(r.owner) && ValidName(r.name)
  }

  function Projected(r: RawRepo, owner: string): Repo
    requires r.RawRepo?
  {
    Repo(owner, r.name, r.defaultBranch, "")
  }

  /** The repos in scope, in order. */
  function Mapped(repos: seq<RawRepo>, owner: string): seq<Repo> {
    if repos == [] then []
    else
      var last := repos[|repos| - 1];
      Mapped(repos[..|repos| - 1], owner) + if InScope(last, owner) then [Projected(last, owner)] else []
  }

  method MapGitHubRepos(repos: seq<RawRepo>, owner: string) returns (result: seq<Repo>)
    ensures result == Mapped(repos, owner)
  {
    result := [];
    for k := 0 to |repos|
      invariant result == Mapped(repos[..k], owner)
    {
      assert repos[..k + 1][..k] == repos[..k];
      var repo := repos[k];
      if repo.NilRepo? { continue; }
      if repo.archived { continue; }
      if repo.owner != owner { continue; }
      if repo.name == "" { continue; }
      if !ValidName(repo.owner) || !ValidName(repo.name) { continue; }
      result := result + [Repo(owner, repo.name, repo.defaultBranch, "")];
    }
    assert repos[..|repos|] == repos;
  }

  /** Mapping page by page or all at once is the same. */
  lemma {:induction false} MappedConcat(a: seq<RawRepo>, b: seq<RawRepo>, owner: string)
    ensures Mapped(a + b, owner) == Mapped(a, owner) + Mapped(b, owner)
  {
    if b == [] {
      assert a + b == a;
    } else {
      var n := |b| - 1;
      assert (a + b)[..|a| + n] == a + b[..n];
      MappedConcat(a, b[..n], owner);
    }
  }

  /** A name, spelled out: letters, digits, underscore, dot and dash. */
  predicate Plain(s: string) {
    s != "" && forall c :: c in s ==>
      'a' <= c <= 'z' || 'A' <= c <= 'Z' || '0' <= c <= '9' || c == '_' || c == '.' || c == '-'
  }

  lemma ValidIsPlain(s: string)
    ensures ValidName(s) <==> Plain(s)
  {
    assert forall i :: 0 <= i < |s| ==> s[i] in s;
  }

  /** What becomes of one listed repo: a nil, archived, foreign, nameless or oddly
      named one is left out, every other one is projected. */
  lemma MappedOne(raw: RawRepo, owner: string)
    ensures Mapped([raw], owner) ==
              if raw.RawRepo? && !raw.archived && raw.owner == owner && Plain(raw.owner) && Plain(raw.name)
              then [Repo(owner, raw.name, raw.defaultBranch, "")] else []
  {
    assert [raw][..0] == [] && [raw][0] == raw;
    if raw.RawRepo? {
      ValidIsPlain(raw.owner);
      ValidIsPlain(raw.name);
    }
  }

  /** `r` is what the listed repo becomes. */
  predicate Becomes(raw: RawRepo, owner: string, r: Repo) {
    && raw.RawRepo? && !raw.archived && raw.owner == owner && Plain(raw.owner) && Plain(raw.name)
    && r == Repo(owner, raw.name, raw.defaultBranch, "")
  }

  /** A repo is returned exactly when some listed repo becomes it; in particular no
      archived one is ever returned. */
  lemma {:induction false} MappedMembers(repos: seq<RawRepo>, owner: string, r: Repo)
    ensures r in Mapped(repos, owner) <==> exists raw :: raw in repos && Becomes(raw, owner, r)
  {
    if repos != [] {
      var n := |repos| - 1;
      MappedMembers(repos[..n], owner, r);
      assert repos == repos[..n] + [repos[n]];
      MappedConcat(repos[..n], [repos[n]], owner);
      MappedOne(repos[n], owner);
      assert r in Mapped([repos[n]], owner) <==> Becomes(repos[n], owner, r);
    }
  }

  /* ----- pagination ----- */

  const MAX_LIST_PAGES: nat := 100

  /** Answer to one page request; `next` 0 means there is no further page. */
  datatype PageAnswer = PageLimited | PageBroken | Page(repos: seq<RawRepo>, next: int)

  /** The k-th request asks for page `page`; any function will do, also one whose
      `next` links run in a circle or never end. */
  type Fetch = (nat, int) -> PageAnswer

  datatype Listing = LimitedList | BrokenList | Listing(repos: seq<Repo>)

  /** Page numbers asked for, request by request. */
  function PageAsked(fetch: Fetch, k: nat): int {
    if k == 0 then 1
    else match fetch(k - 1, PageAsked(fetch, k - 1))
      case Page(_, next) => next
      case _ => 0
  }

  function AnswerTo(fetch: Fetch, k: nat): PageAnswer {
    fetch(k, PageAsked(fetch, k))
  }

  /** Requests 0 to k - 1 all brought a page with a link to another. */
  predicate GoesOn(fetch: Fetch, k: nat) {
    forall i :: 0 <= i < k ==> AnswerTo(fetch, i).Page? && AnswerTo(fetch, i).next != 0
  }

  function RawUpTo(fetch: Fetch, k: nat): seq<RawRepo> {
    if k == 0 then [] else RawUpTo(fetch, k - 1) + if AnswerTo(fetch, k - 1).Page? then AnswerTo(fetch, k - 1).repos else []
  }

  /** What a listing promises. `cancelledAt` is the request before which the context
      is found done, if any. */
  ghost predicate ListingMeets(fetch: Fetch, owner: string, cancelledAt: Option<nat>, r: Listing, requests: nat) {
    && requests <= 100
    && (r.Listing? ==>
          && requests > 0 && r.repos == Mapped(RawUpTo(fetch, requests), owner)
          && GoesOn(fetch, requests - 1) && AnswerTo(fetch, requests - 1).Page?
          && (requests < 100 ==> AnswerTo(fetch, requests - 1).next == 0))
    && (r.LimitedList? ==> requests > 0 && GoesOn(fetch, requests - 1) && AnswerTo(fetch, requests - 1).PageLimited?)
    && (r.BrokenList? ==>
          && GoesOn(fetch, if requests > 0 then requests - 1 else 0)
          && (cancelledAt == Some(requests) || (requests > 0 && AnswerTo(fetch, requests - 1).PageBroken?)))
    && (cancelledAt.Some? ==> requests <= cancelledAt.value)
    && (cancelledAt.Some? && cancelledAt.value < 100 && GoesOn(fetch, cancelledAt.value) ==>
          r.BrokenList? && requests == cancelledAt.value)
  }

  /** `ListRepos`: ends for every `fetch` with at most 100 requests; a failing request
      fails the listing as a whole; otherwise the result is everything in scope on
      the pages asked for. */
  method ListRepos(fetch: Fetch, owner: string, cancelledAt: Option<nat>) returns (r: Listing, requests: nat)
    ensures ListingMeets(fetch, owner, cancelledAt, r, requests)
  {
    var raw: seq<RawRepo> := [];
    var page := 1;
    requests := 0;
    while requests < MAX_LIST_PAGES
      invariant requests <= MAX_LIST_PAGES
      invariant GoesOn(fetch, requests)
      invariant raw == RawUpTo(fetch, requests)
      invariant page == PageAsked(fetch, requests)
      invariant cancelledAt.Some? ==> requests <= cancelledAt.value
    {
      if cancelledAt == Some(requests) { return BrokenList, requests; }
      var answer := fetch(requests, page);
      assert answer == AnswerTo(fetch, requests);
      requests := requests + 1;
      match answer
      case PageLimited => return LimitedList, requests;
      case PageBroken => return BrokenList, requests;
      case Page(repos, next) =>
        raw := raw + repos;
        if next == 0 { break; }
        page := next;
    }
    var repos := MapGitHubRepos(raw, owner);
    r := Listing(repos);
  }

  function AllOf(pages: seq<seq<RawRepo>>): seq<RawRepo> {
    if pages == [] then [] else AllOf(pages[..|pages| - 1]) + pages[|pages| - 1]
  }

  /** Page `p` carries `pages[p - 1]` and links to the next page, the last one to none. */
  predicate Links(fetch: Fetch, pages: seq<seq<RawRepo>>, p: nat) {
    0 < p <= |pages| ==> fetch(p - 1, p) == Page(pages[p - 1], if p < |pages| then p + 1 else 0)
  }

  predicate Chain(fetch: Fetch, pages: seq<seq<RawRepo>>) {
    forall p: nat | p <= |pages| :: Links(fetch, pages, p)
  }

  lemma {:induction false} ChainFollowed(fetch: Fetch, pages: seq<seq<RawRepo>>, k: nat)
    requires Chain(fetch, pages) && k <= |pages|
    ensures k < |pages| ==> PageAsked(fetch, k) == k + 1
    ensures RawUpTo(fetch, k) == AllOf(pages[..k])
    ensures forall i :: 0 <= i < k ==> AnswerTo(fetch, i) == fetch(i, i + 1)
  {
    if k > 0 {
      ChainFollowed(fetch, pages, k - 1);
      assert pages[..k][..k - 1] == pages[..k - 1];
      assert Links(fetch, pages, k);
    }
  }

  /** Up to 100 pages that link each to the next are all asked for, once each and in
      order, and nothing on them is lost. */
  lemma WholeListing(fetch: Fetch, owner: string, pages: seq<seq<RawRepo>>, r: Listing, requests: nat)
    requires 0 < |pages| <= 100 && Chain(fetch, pages)
    requires ListingMeets(fetch, owner, None, r, requests)
    ensures requests == |pages| && r == Listing(Mapped(AllOf(pages), owner))
  {
    var n := |pages|;
    ChainFollowed(fetch, pages, n);
    assert pages[..n] == pages;
    assert Links(fetch, pages, n) && AnswerTo(fetch, n - 1).next == 0;
    forall i | 0 <= i < n ensures AnswerTo(fetch, i).Page? && (i < n - 1 ==> AnswerTo(fetch, i).next != 0) {
      assert Links(fetch, pages, i + 1);
    }
  }

  /** Links that never end, for example in a circle, end the listing after 100 requests. */
  lemma EndlessListing(fetch: Fetch, owner: string, r: Listing, requests: nat)
    requires forall k: nat, p: int :: fetch(k, p).Page? && fetch(k, p).next != 0
    requires ListingMeets(fetch, owner, None, r, requests)
    ensures requests == 100 && r == Listing(Mapped(RawUpTo(fetch, 100), owner))
  {
    if requests > 0 { assert AnswerTo(fetch, requests - 1).Page?; }
  }

  /* ----- keys ----- */

  /** The key of a repo with a valid owner tells owner and name apart, whatever the name. */
  lemma KeyDecodes(r: Repo, r': Repo)
    requires ValidName(r.owner) && ValidName(r'.owner)
    ensures Key(r) == Key(r') <==> r.owner == r'.owner && r.name == r'.name
  {
    if Key(r) == Key(r') {
      var p, k := "github.com/", Key(r);
      var t, t' := r.owner + "/" + r.name, r'.owner + "/" + r'.name;
      assert k == p + t && k == p + t';
      assert t == k[|p|..] == t';
      assert t[|r.owner|] == '/' && forall i :: 0 <= i < |r.owner| ==> t[i] == r.owner[i];
      assert t[|r'.owner|] == '/' && forall i :: 0 <= i < |r'.owner| ==> t[i] == r'.owner[i];
      assert |r.owner| == |r'.owner|;
      assert r.owner == t[..|r.owner|] == r'.owner;
      assert r.name == t[|r.owner| + 1..] == r'.name;
    }
  }

  /** On the repos of one listing the cursor key is injective up to the branch: two
      entries share a key only if they are the same repo, and all have valid names. */
  lemma KeysOfListing(repos: seq<RawRepo>, owner: string, r: Repo, r': Repo)
    requires r in Mapped(repos, owner) && r' in Mapped(repos, owner)
    ensures ValidName(r.owner) && ValidName(r.name) && r.owner == owner
    ensures Key(r) == Key(r') <==> r.name == r'.name
  {
    MappedMembers(repos, owner, r);
    MappedMembers(repos, owner, r');
    ValidIsPlain(r.owner);
    ValidIsPlain(r.name);
    KeyDecodes(r, r');
  }

  /** From listing to dedup: when the cursor entry of a listed repo was written for an
      earlier candidate of the same listing, a non-forced cycle skips the repo exactly
      when the two finding sets are the same set. */
  lemma DedupComparesSets(uuid5: string -> string, repos: seq<RawRepo>, owner: string, c: Candidate, earlier: Candidate)
    requires c.repo in Mapped(repos, owner) && earlier.repo in Mapped(repos, owner) && Key(c.repo) == Key(earlier.repo)
    requires MarkerShaped(c.vulnIDs) && MarkerShaped(earlier.vulnIDs)
    requires forall s :: uuid5(s) != ""
    requires var s, s' := Seed(owner, c.repo.name, c.vulnIDs), Seed(owner, earlier.repo.name, earlier.vulnIDs);
             uuid5(s) == uuid5(s') ==> s == s'
    ensures Unchanged(false, TaskIdentifier(uuid5, c), TaskIdentifier(uuid5, earlier)) <==>
            Elements(c.vulnIDs) == Elements(earlier.vulnIDs)
  {
    KeysOfListing(repos, owner, c.repo, earlier.repo);
    KeysOfListing(repos, owner, earlier.repo, c.repo);
    TaskIdIdentifies(uuid5, owner, c.repo.name, c.vulnIDs, earlier.repo.name, earlier.vulnIDs);
  }
}
