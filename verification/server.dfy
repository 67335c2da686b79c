/**
 The two handlers served one request after another against a single store,
 as the server's mux dispatches them. Only sequential runs are modelled.
 */
module Server {
  import opened Store

  datatype Option<T> = None | Some(value: T)

  /** A request reaching one of the two store handlers. */
  datatype Request =
    | EnhanceRequest(url: string, entropy: Entropy)
    | RedirectRequest(path: string)
  {
    /** The randomness is in range, and a redirect path is at least as long
        as the prefix it is routed under. */
    predicate Valid() {
      match this
      case EnhanceRequest(_, e) => e.Valid()
      case RedirectRequest(p) => |EnhancedPrefix| <= |p|
    }

    /** The request stores its URL under `key`. */
    predicate Stores(key: string)
      requires Valid()
    {
      EnhanceRequest? && url != "" && IssuedKey(entropy) == key
    }
  }

  predicate AllValid(reqs: seq<Request>) {
    forall i :: 0 <= i < |reqs| ==> reqs[i].Valid()
  }

  /** One request: dispatch to its handler. */
  function Serve(urls: UrlMap, req: Request): (r: Outcome)
    requires req.Valid()
    ensures req.RedirectRequest? ==> r.urls == urls
    ensures req.EnhanceRequest? && req.url == "" ==> r.urls == urls
    ensures forall k :: k in urls ==> k in r.urls
  {
    match req
    case EnhanceRequest(u, e) => Enhance(urls, u, e)
    case RedirectRequest(p) => Outcome(urls, Resolve(urls, p))
  }

  /** The store after serving the requests in order. Entries are never
      removed. */
  function Replay(urls: UrlMap, reqs: seq<Request>): (m: UrlMap)
    requires AllValid(reqs)
    ensures urls.Keys <= m.Keys
    decreases |reqs|
  {
    if reqs == [] then urls
    else Serve(Replay(urls, reqs[..|reqs| - 1]), reqs[|reqs| - 1]).urls
  }

  /** Reference for what the store holds under `key` after a run: the URL of
      the last request that stored under it, or else the initial entry. */
  function LastWriter(urls: UrlMap, reqs: seq<Request>, key: string): Option<string>
    requires AllValid(reqs)
    decreases |reqs|
  {
    if reqs == [] then (if key in urls then Some(urls[key]) else None)
    else if reqs[|reqs| - 1].Stores(key) then Some(reqs[|reqs| - 1].url)
    else LastWriter(urls, reqs[..|reqs| - 1], key)
  }

  /** The store after a run holds, under every key, exactly what the last
      request storing under that key submitted: later writes win. */
  lemma {:induction false} ReplayIsLastWriter(urls: UrlMap, reqs: seq<Request>, key: string)
    requires AllValid(reqs)
    ensures key in Replay(urls, reqs) <==> LastWriter(urls, reqs, key).Some?
    ensures key in Replay(urls, reqs) ==> LastWriter(urls, reqs, key) == Some(Replay(urls, reqs)[key])
    decreases |reqs|
  {
    if reqs != [] {
      var front := reqs[..|reqs| - 1];
      assert AllValid(front);
      ReplayIsLastWriter(urls, front, key);
    }
  }

  /** Resolving a non-empty key after a run redirects to the last URL stored
      under it, and answers not-found when nothing was. */
  lemma ResolveAfterReplay(urls: UrlMap, reqs: seq<Request>, key: string)
    requires AllValid(reqs) && key != ""
    ensures LastWriter(urls, reqs, key).Some? ==>
      Resolve(Replay(urls, reqs), EnhancedPath(key)) == Redirect(LastWriter(urls, reqs, key).value)
    ensures LastWriter(urls, reqs, key).None? ==>
      Resolve(Replay(urls, reqs), EnhancedPath(key)) == NotFound
  {
    ReplayIsLastWriter(urls, reqs, key);
    ResolveEnhancedPath(Replay(urls, reqs), key);
  }

  /** A URL submitted by request `i` is what its key redirects to at the end
      of the run, as long as no later request stored under the same key. */
  lemma {:induction false} IssuedUrlSurvives(urls: UrlMap, reqs: seq<Request>, i: nat)
    requires AllValid(reqs) && i < |reqs|
    requires reqs[i].EnhanceRequest? && reqs[i].url != ""
    requires forall j :: i < j < |reqs| ==> !reqs[j].Stores(IssuedKey(reqs[i].entropy))
    ensures Resolve(Replay(urls, reqs), EnhancedPath(IssuedKey(reqs[i].entropy))) == Redirect(reqs[i].url)
  {
    var key := IssuedKey(reqs[i].entropy);
    LastWriterAt(urls, reqs, i);
    ResolveAfterReplay(urls, reqs, key);
  }

  lemma {:induction false} LastWriterAt(urls: UrlMap, reqs: seq<Request>, i: nat)
    requires AllValid(reqs) && i < |reqs|
    requires reqs[i].EnhanceRequest? && reqs[i].url != ""
    requires forall j :: i < j < |reqs| ==> !reqs[j].Stores(IssuedKey(reqs[i].entropy))
    ensures LastWriter(urls, reqs, IssuedKey(reqs[i].entropy)) == Some(reqs[i].url)
    decreases |reqs|
  {
    if i < |reqs| - 1 {
      var front := reqs[..|reqs| - 1];
      assert AllValid(front);
      LastWriterAt(urls, front, i);
    }
  }

  /** Starting from the empty store, a key that no request stored under is
      not found: every redirect leads to a URL somebody submitted. */
  lemma UnknownKeyNotFound(reqs: seq<Request>, key: string)
    requires AllValid(reqs) && key != ""
    requires forall i :: 0 <= i < |reqs| ==> !reqs[i].Stores(key)
    ensures Resolve(Replay(map[], reqs), EnhancedPath(key)) == NotFound
  {
    NoWriterNone(reqs, key);
    ResolveAfterReplay(map[], reqs, key);
  }

  lemma {:induction false} NoWriterNone(reqs: seq<Request>, key: string)
    requires AllValid(reqs)
    requires forall i :: 0 <= i < |reqs| ==> !reqs[i].Stores(key)
    ensures LastWriter(map[], reqs, key) == None
    decreases |reqs|
  {
    if reqs != [] {
      var front := reqs[..|reqs| - 1];
      assert AllValid(front);
      NoWriterNone(front, key);
    }
  }

  /** The run with every redirect request dropped. */
  function EnhancesOnly(reqs: seq<Request>): (r: seq<Request>)
    requires AllValid(reqs)
    ensures AllValid(r)
    ensures forall i :: 0 <= i < |r| ==> r[i].EnhanceRequest?
    ensures |r| <= |reqs|
    decreases |reqs|
  {
    if reqs == [] then []
    else
      var front := EnhancesOnly(reqs[..|reqs| - 1]);
      if reqs[|reqs| - 1].EnhanceRequest? then front + [reqs[|reqs| - 1]] else front
  }

  /** Redirects never change the store: a run ends in the same store as the
      same run without its redirect requests. */
  lemma {:induction false} RedirectsDoNotMutate(urls: UrlMap, reqs: seq<Request>)
    requires AllValid(reqs)
    ensures Replay(urls, reqs) == Replay(urls, EnhancesOnly(reqs))
    decreases |reqs|
  {
    if reqs != [] {
      var front := reqs[..|reqs| - 1];
      assert AllValid(front);
      RedirectsDoNotMutate(urls, front);
      var last := reqs[|reqs| - 1];
      if last.EnhanceRequest? {
        var ef := EnhancesOnly(front);
        assert (ef + [last])[..|ef + [last]| - 1] == ef;
      }
    }
  }
}
