# URL enhancer store — a Dafny model

The service takes a URL, generates an 8-character short key from a
62-character alphabet, and mixes that key with a Pokémon species name fetched
from a web API by shuffling the bytes of `name ++ key`. It stores the URL in
an in-memory map under the shuffled "enhanced key" and shows the link
`http://localhost:8080/enhanced/<key>`. Requesting that path hands the stored
URL to `http.Redirect` as the redirect target.

The model covers the sequential logic of the store in `main.go`:

- `keygen.dfy` (module `KeyGen`) covers `generateShortKey`. It includes the
  alphabet, the key length and the key built from the random draws, together
  with the inverse that decodes a key back into its draws.
- `enhancer.dfy` (module `Enhancer`) covers `enhanceText`. The concatenation
  is followed by a sequence of in-place swaps. The swaps appear both as a
  function and as the swap loop over a byte buffer, and the file also shows
  that replaying the swaps backwards undoes them.
- `store.dfy` (module `Store`) covers the URL map and the store part of
  `handleEnhance`: reject an empty URL, otherwise write under the enhanced
  key. It also covers the link built for the key and `handleRedirect`: take
  everything after the length of `/enhanced/`, reject an empty key, look the
  key up, and redirect or answer not-found.
- `server.dfy` (module `Server`) serves the two handlers one request after
  another against a single map. It proves what the map holds after any run of
  requests.

Randomness and the network become parameters (`KeyGen.ValidDraws`,
`Store.Entropy`). The draws are the eight values `rand.Intn(62)` returns. The
name is whatever the species lookup returned, including the empty string. The
swaps are the calls the shuffle makes to its swap callback, each on two
positions inside the buffer. Each `char` of a Dafny `string` stands for one
byte of the Go string or `[]byte`.

The store does not check for collisions. The comment at `main.go:62` calls the key
unique, but `um.urls[enhancedKey] = inputURL` replaces any entry already held
under that key. The model writes the same way. `Store.EnhanceOverwrites`,
`Store.CollidingEnhancesLoseFirstUrl` and `Server.ReplayIsLastWriter` state
the overwrite as a proved property. `Store.DistinctShortKeysCollide` shows
that two different short keys can still produce the same enhanced key once
they are shuffled.

The code has no insert-if-absent, no retry on a collision and so no bound on
retries, no error for an exhausted key space, and no guarantee that issued
keys are unique. The model has none of these either. Its messages are the
code's: "URL parameter is missing" and "Enhanced key is missing".

## Model

| member | source | states |
|---|---|---|
| KeyGen.ShortKey | main.go:152-169 | For draws that are eight values in `[0, 62)`, the generated key has exactly `keyLength` = 8 characters, and every character is in the alphabet |
| KeyGen.CharsetLiteral | main.go:153 | The alphabet the model indexes is the generator's literal `a`–`z`, `A`–`Z`, `0`–`9`, 62 characters long |
| KeyGen.CharIndexInverts | main.go:153 | No character occurs twice in the alphabet: decoding the character at position `i` gives back `i` |
| KeyGen.DrawsOfShortKey | main.go:162-167 | The generated key determines its draws: decoding it returns exactly the draws it was built from, so different draws always give different short keys |
| KeyGen.ShortKeyOfDrawsOf | main.go:154-167 | Every 8-character string over the alphabet is produced by exactly one valid draw sequence, so all 62^8 keys can be generated |
| Enhancer.SwapAt | main.go:143-145 | One call of the swap callback exchanges the two positions, leaves every other byte in place and keeps the multiset of bytes; that swaps lose nothing is stated by `Enhancer.ShuffledReverse` |
| Enhancer.Shuffled | main.go:142-145 | Any sequence of in-range swaps keeps the buffer's length and its multiset of bytes, so the result is a permutation of the input |
| Enhancer.ShuffledReverse | main.go:143-145 | Applying the swaps in reverse order restores the original buffer, so the shuffle only moves bytes and never loses one |
| Enhancer.Shuffle | main.go:140-146 | The in-place swap loop over the byte buffer gives the same result as the swap sequence, and keeps the buffer's multiset of bytes at every step |
| Enhancer.EnhanceText | main.go:133-149 | The enhanced text has length `len(name) + len(text)`, and its bytes are exactly those of the name plus those of the text |
| Enhancer.EnhanceTextReversible | main.go:140-146 | If the swaps are known, `name ++ text` can be recovered from the enhanced text |
| Store.IssuedKey | main.go:62-64 | The key a request stores under has `len(name) + 8` bytes, so it is never empty, and it is a rearrangement of the name and the generated short key |
| Store.Enhance | main.go:55-65 | An empty URL is rejected with "URL parameter is missing" and the map is unchanged. Otherwise the answer is the issued key, the map gains that key (new or not), the key maps to the submitted URL, and every other entry is unchanged |
| Store.Resolve | main.go:85-98 | The key is everything after the first 10 characters. A path of exactly that length is a bad request with "Enhanced key is missing". A non-empty key redirects to its stored URL if present and is not-found if absent. Resolve never issues a key or returns a map |
| Store.ResolveEnhancedPath | main.go:86-97 | On a path `/enhanced/` + `k`, `k` is the key looked up: empty gives a bad request, absent gives not-found, present redirects to its entry |
| Store.EnhancedUrlRoundTrip | main.go:68-86 | The link shown for a key is the origin followed by `/enhanced/` + key, and stripping the prefix as the redirect handler does gives back exactly that key |
| Store.EnhancedPath | main.go:68 | The path of the link has the length of `/enhanced/` plus the key; what the path means is stated by `Store.EnhancedUrlRoundTrip` |
| Store.EnhancedUrl | main.go:68 | The link is at least as long as `http://localhost:8080`; what it carries is stated by `Store.EnhancedUrlRoundTrip` |
| Store.KeyOfPath | main.go:86 | The key read from a path is the path minus the length of `/enhanced/`; that it gives back the key of a shown link is stated by `Store.EnhancedUrlRoundTrip` |
| Store.EnhanceThenResolve | main.go:62-97 | After a successful enhance, following the path of the link it shows answers with a redirect whose target is the URL that was submitted |
| Store.EnhanceOverwrites | main.go:62-65 | If the enhanced key is already stored, the map does not grow and the key now redirects to the new URL: the old entry is replaced, not refused |
| Store.CollidingEnhancesLoseFirstUrl | main.go:62-65 | Two enhances that produce the same key both report that key, and the key then redirects to the second URL |
| Store.DistinctShortKeysCollide | main.go:133-169 | With an empty name, two draw sequences whose short keys differ can still produce the same enhanced key, through two runs of seven swap calls of the shape the library shuffle makes (position `i` from 7 down to 1, partner `j <= i`) |
| Server.Serve | main.go:182-183 | A redirect request, or an enhance request with an empty URL, leaves the map unchanged, and no request removes a key |
| Server.Replay | main.go:174-183 | Serving any run of requests from a map keeps every key the map started with |
| Server.ReplayIsLastWriter | main.go:63-65 | After any run, a key is in the map exactly when some request stored under it or it was there at the start, and its entry is the URL of the last request that stored under it |
| Server.ResolveAfterReplay | main.go:65-97 | After any run, a non-empty key answers with a redirect whose target is the last URL stored under it, and is not found if nothing was stored under it |
| Server.IssuedUrlSurvives | main.go:62-97 | A URL submitted in a run is the redirect target its key answers with at the end, provided no later request in the run stored under the same key |
| Server.UnknownKeyNotFound | main.go:91-94 | Starting from the empty map created at start-up, a non-empty key that no request stored under is not found |
| Server.RedirectsDoNotMutate | main.go:85-98 | Dropping every redirect request from a run leaves the final map the same: redirects never change the store |

## Left out

- HTTP serving, `ServeMux` routing, static files and `main` (main.go:171-188) are I/O plumbing. Only the fresh empty map (main.go:174-176) and the dispatch to the two handlers appear, in `Server`.
- Template parsing and rendering in `handleHome` and `handleEnhance` (main.go:36-51, 70-81) are presentation. The enhanced link itself is modelled as `Store.EnhancedUrl`.
- `getSpeciesName` (main.go:102-129) is a network call and a JSON decode. Its result is the `name` parameter, which may be any string, including the empty string it returns when decoding fails. The random species id at main.go:136 is therefore not modelled.
- Store.Enhance: covers only requests whose species lookup returns. When `client.Do` fails, `resp` is nil and `defer resp.Body.Close()` at main.go:119 panics; the handler then stops before the write at main.go:65, so the map is unchanged and no key is issued. The model has no outcome for that case, and the run lemmas in `Server` assume every enhance request got a name.
- Store.Resolve: `Redirect(u)` is the target handed to `http.Redirect` at main.go:97, not the `Location` header sent. The library rewrites a target with no scheme and no host relative to the request path and cleans it, so a stored `example.com` read at `/enhanced/<key>` is sent as `/enhanced/example.com`. Only absolute URLs reach the client unchanged, and the round-trip lemmas say nothing about what the client then fetches.
- Random seeding and the library calls `rand.Intn` and `rand.Shuffle` are not modelled. The `rand.New(...)` results at main.go:135, 142 and 159 are discarded by the code anyway. Their outputs are the `draws` and `swaps` parameters, and the swaps may be any in-range sequence, which covers the swaps the shuffle actually makes. `Enhancer.ShuffleCalls` describes the shape of those calls (Fisher-Yates order, taken from the library's documented algorithm); only the collision witness uses it.
- Concurrent handler calls are not modelled. The handlers read and write `um.urls` without a lock (main.go:65, 91), and only sequential runs are modelled. Nothing here claims thread safety.
- URL parsing and percent-decoding of the request path are not modelled, because they belong to the HTTP library. The round trip is stated on the path string. That string equals the request path the server sees only when the key has no `/`, `?`, `#` or `%`, which holds for alphanumeric short keys and lower-case hyphenated species names.
- The redirect handler (`Store.Resolve`) requires only that the path is at least as long as `/enhanced/`, because the slice at main.go:86 panics on a shorter path. The code never checks that the path starts with `/enhanced/`; the router guarantees it.
- HTTP status codes are not modelled (400, 404 and 301 at main.go:58, 88, 93 and 97). They are represented by the outcome kinds `BadRequest`, `NotFound` and `Redirect`.
