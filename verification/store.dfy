/**
 The URL store and the logic of its two handlers (`URLMap.handleEnhance`
 and `URLMap.handleRedirect`), with the HTTP response reduced to an outcome
 value and the map threaded through explicitly.
 */
module Store {
  import opened KeyGen
  import opened Enhancer

  /** The store: enhanced key to original URL. */
  type UrlMap = map<string, string>

  /** What a handler answers. */
  datatype Response =
    | BadRequest(msg: string)
    | NotFound
    | Redirect(url: string)
    | Issued(key: string)

  /** The store after a handler, and its answer. */
  datatype Outcome = Outcome(urls: UrlMap, response: Response)

  const MissingUrl: string := "URL parameter is missing"
  const MissingKey: string := "Enhanced key is missing"

  /** Host the enhanced links point at. */
  const MyHost: string := "localhost:8080"

  /** Path prefix the redirect handler is registered under. */
  const EnhancedPrefix: string := "/enhanced/"

  /** Scheme and host of every enhanced link. */
  const Origin: string := "http://" + MyHost

  /** Everything the random source and the species lookup contribute to one
      enhance request: the generator's draws, the fetched name and the
      shuffle's swaps. */
  datatype Entropy = Entropy(draws: seq<int>, name: string, swaps: seq<Swap>) {
    predicate Valid() {
      ValidDraws(draws) && InRange(swaps, |name| + KeyLength)
    }
  }

  /** The enhanced key an enhance request stores its URL under: a
      rearrangement of the name and a freshly generated short key. */
  function IssuedKey(e: Entropy): (key: string)
    requires e.Valid()
    ensures |key| == |e.name| + KeyLength
    ensures key != ""
    ensures multiset(key) == multiset(e.name) + multiset(ShortKey(e.draws))
  {
    EnhanceText(e.name, ShortKey(e.draws), e.swaps)
  }

  /** The store part of the enhance handler: reject an empty URL, otherwise
      store the URL under the enhanced key, replacing whatever was there. */
  function Enhance(urls: UrlMap, inputUrl: string, e: Entropy): (r: Outcome)
    requires e.Valid()
    ensures inputUrl == "" ==> r == Outcome(urls, BadRequest(MissingUrl))
    ensures inputUrl != "" ==>
      var key := IssuedKey(e);
      && r.response == Issued(key)
      && r.urls.Keys == urls.Keys + {key}
      && r.urls[key] == inputUrl
      && forall k :: k in urls && k != key ==> r.urls[k] == urls[k]
  {
    if inputUrl == "" then Outcome(urls, BadRequest(MissingUrl))
    else
      var key := IssuedKey(e);
      Outcome(urls[key := inputUrl], Issued(key))
  }

  /** Path of the link the enhance handler shows for a key. */
  function EnhancedPath(key: string): (path: string)
    ensures |path| == |EnhancedPrefix| + |key|
  {
    EnhancedPrefix + key
  }

  /** The link the enhance handler shows for a key. */
  function EnhancedUrl(key: string): (url: string)
    ensures |Origin| <= |url|
  {
    Origin + EnhancedPath(key)
  }

  /** The key the redirect handler reads: everything after the prefix's
      length, whatever those first characters are. */
  function KeyOfPath(path: string): (key: string)
    requires |EnhancedPrefix| <= |path|
    ensures |key| == |path| - |EnhancedPrefix|
  {
    path[|EnhancedPrefix|..]
  }

  /** The redirect handler: reject an empty key, otherwise redirect to the
      stored URL or answer not-found. It never changes the store. */
  function Resolve(urls: UrlMap, path: string): (r: Response)
    requires |EnhancedPrefix| <= |path|
    ensures r.BadRequest? <==> |path| == |EnhancedPrefix|
    ensures r.BadRequest? ==> r.msg == MissingKey
    ensures r.NotFound? <==> KeyOfPath(path) != "" && KeyOfPath(path) !in urls
    ensures r.Redirect? <==> KeyOfPath(path) != "" && KeyOfPath(path) in urls
    ensures r.Redirect? ==> r.url == urls[KeyOfPath(path)]
    ensures !r.Issued?
  {
    var key := KeyOfPath(path);
    if key == "" then BadRequest(MissingKey)
    else if key !in urls then NotFound
    else Redirect(urls[key])
  }

  /** On a path under the prefix, the key looked up is the rest of the path. */
  lemma ResolveEnhancedPath(urls: UrlMap, key: string)
    ensures key == "" ==> Resolve(urls, EnhancedPath(key)) == BadRequest(MissingKey)
    ensures key != "" && key !in urls ==> Resolve(urls, EnhancedPath(key)) == NotFound
    ensures key != "" && key in urls ==> Resolve(urls, EnhancedPath(key)) == Redirect(urls[key])
  {
    assert KeyOfPath(EnhancedPath(key)) == key;
  }

  /** The path of the link shown for a key carries exactly that key back to
      the redirect handler. */
  lemma EnhancedUrlRoundTrip(key: string)
    ensures EnhancedUrl(key)[..|Origin|] == Origin
    ensures EnhancedUrl(key)[|Origin|..] == EnhancedPath(key)
    ensures KeyOfPath(EnhancedPath(key)) == key
  {
  }

  /** Following the link an enhance request shows leads to the URL it
      submitted. */
  lemma EnhanceThenResolve(urls: UrlMap, inputUrl: string, e: Entropy)
    requires e.Valid() && inputUrl != ""
    ensures var r := Enhance(urls, inputUrl, e);
      && r.response.Issued?
      && Resolve(r.urls, EnhancedUrl(r.response.key)[|Origin|..]) == Redirect(inputUrl)
  {
    EnhancedUrlRoundTrip(IssuedKey(e));
  }

  /** No check that the enhanced key is new: a URL already stored under it
      is replaced, the store does not grow, and the earlier URL can no longer
      be reached through that key. */
  lemma EnhanceOverwrites(urls: UrlMap, inputUrl: string, e: Entropy)
    requires e.Valid() && inputUrl != ""
    requires IssuedKey(e) in urls
    ensures var r := Enhance(urls, inputUrl, e);
      && |r.urls| == |urls|
      && Resolve(r.urls, EnhancedPath(IssuedKey(e))) == Redirect(inputUrl)
  {
    var key := IssuedKey(e);
    assert Enhance(urls, inputUrl, e).urls.Keys == urls.Keys;
    EnhancedUrlRoundTrip(key);
  }

  /** Two enhance requests whose enhanced keys coincide: the second URL
      replaces the first, which no path reaches any more. */
  lemma CollidingEnhancesLoseFirstUrl(urls: UrlMap, first: string, second: string, e1: Entropy, e2: Entropy)
    requires e1.Valid() && e2.Valid() && IssuedKey(e1) == IssuedKey(e2)
    requires first != "" && second != ""
    ensures var r1 := Enhance(urls, first, e1);
      var r2 := Enhance(r1.urls, second, e2);
      && r1.response == r2.response
      && Resolve(r2.urls, EnhancedPath(r1.response.key)) == Redirect(second)
      && first !in r2.urls.Values - urls.Values - {second}
  {
    EnhancedUrlRoundTrip(IssuedKey(e1));
  }

  /** Keys coincide not only for equal randomness. With an empty name, the
      draws `d` and `d` with its first two entries exchanged give different
      short keys whenever those entries differ ("abaaaaaa" and "baaaaaaa",
      say). Two runs of the shuffle's seven swap calls, both of the shape
      `rand.Shuffle` produces, then give the same enhanced key: the calls for
      positions 7 down to 2 leave every byte in place, and the last call
      swaps positions 1 and 0 in the second run only. */
  lemma DistinctShortKeysCollide(d: seq<int>, idle: seq<Swap>, e1: Entropy, e2: Entropy)
    requires ValidDraws(d) && d[0] != d[1]
    requires |idle| == 6 && forall k :: 0 <= k < 6 ==> idle[k] == Swap(7 - k, 7 - k)
    requires e1 == Entropy(d, "", idle + [Swap(1, 1)])
    requires e2 == Entropy([d[1], d[0]] + d[2..], "", idle + [Swap(1, 0)])
    ensures ShuffleCalls(e1.swaps, KeyLength) && ShuffleCalls(e2.swaps, KeyLength)
    ensures e1.Valid() && e2.Valid()
    ensures ShortKey(e1.draws) != ShortKey(e2.draws)
    ensures IssuedKey(e1) == IssuedKey(e2)
  {
    var k1, k2 := ShortKey(e1.draws), ShortKey(e2.draws);
    SwappedDrawsKeys(e1.draws, e2.draws);
    IdleThenLast(k1, idle, Swap(1, 1));
    IdleThenLast(k2, idle, Swap(1, 0));
    IssuedKeyNoName(e1);
    IssuedKeyNoName(e2);
  }

  /** Exchanging two different first draws gives a different short key,
      which one swap of its first two characters turns back into the
      original one. */
  lemma SwappedDrawsKeys(d1: seq<int>, d2: seq<int>)
    requires ValidDraws(d1) && d1[0] != d1[1] && d2 == [d1[1], d1[0]] + d1[2..]
    ensures ValidDraws(d2)
    ensures ShortKey(d1) != ShortKey(d2)
    ensures SwapAt(ShortKey(d2), 0, 1) == ShortKey(d1)
  {
    SwapUndoesSwappedDraws(d1, d2);
    assert d2[0] != d1[0];
    DrawsOfShortKey(d1);
    DrawsOfShortKey(d2);
  }

  /** With an empty name the enhanced key is the shuffled short key. */
  lemma IssuedKeyNoName(e: Entropy)
    requires e.Valid() && e.name == ""
    ensures IssuedKey(e) == Shuffled(ShortKey(e.draws), e.swaps)
  {
    assert "" + ShortKey(e.draws) == ShortKey(e.draws);
  }

  /** Swapping the first two characters of the key from the exchanged draws
      gives the key from the original draws. */
  lemma SwapUndoesSwappedDraws(d1: seq<int>, d2: seq<int>)
    requires ValidDraws(d1) && d2 == [d1[1], d1[0]] + d1[2..]
    ensures ValidDraws(d2)
    ensures SwapAt(ShortKey(d2), 0, 1) == ShortKey(d1)
  {
    SwappedDrawsSwapKey(d1, d2);
    var k1, s := ShortKey(d1), SwapAt(ShortKey(d2), 0, 1);
    assert s[2..] == k1[2..];
    assert s == s[..2] + s[2..] && k1 == k1[..2] + k1[2..];
  }
}
