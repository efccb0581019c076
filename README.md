# nghttp2 shrpx: Downstream header handling, FieldStore and BlockAllocator

A Dafny model of the header-handling core of nghttp2's reverse proxy (shrpx). The
behaviour is the one its Downstream test suite, `src/shrpx_downstream_test.cc`, pins down:

- **BlockAllocator** (`block_allocator.dfy`, module `Allocator`). An arena of fixed-size
  blocks. Allocations that reach the isolation threshold get a block of their own.
  - A pointer into the arena is a `View`: block, offset, length and the capacity of its
    allocation. Each allocation keeps one byte for the terminating NUL.
  - `Concat` (realloc_concat_string_ref) grows a string in place while its allocation has
    room. Otherwise it copies the string into a new allocation of at least twice the capacity.
  - Every method proves that no other live string changes.
- **FieldStore** (`field_store.dfy`, module `Store`). The append-only header list of one
  message.
  - A field is added whole (`AddHeaderToken`), or built piece by piece in the arena
    (`AllocAddHeaderName`, `AppendLastHeaderKey`, `AppendLastHeaderValue`).
  - Name pieces are lower-cased; value pieces are kept as given.
  - The store's invariant: every arena string is live, and the open field's strings belong
    to no other field. The lookups return the first match.
- **Header transforms** (`cookies.dfy`, `location.dfy`, `affinity.dfy`, and `downstream.dfy`
  whose module is `Forwarding`):
  - cookie crumbling (one entry per cookie-pair, keeping the never-index flag of the field
    it came from);
  - its count;
  - cookie assembly (trailing ' ' and ';' stripped, parts joined with "; ");
  - Location rewriting (a redirect naming the backend host is made to name the client's
    authority and scheme);
  - the session-affinity cookie (the first pair with the key, read as exactly eight hex
    digits, else 0);
  - the HTTP-version gate for interim responses.
- **Scenarios** (`scenarios.dfy`). Each test of the suite replayed as a method. It makes
  the same calls, and its postcondition is what the test asserts.

Reference definitions give the transforms their partners:
- crumbling agrees with split-on-';'/strip-spaces/drop-empty (`CrumbsAreCleanSplit`);
- assembly then crumbling gives the parts back (the contracts of `Join` and `Assemble`, and
  `JoinThenCrumb`);
- hex decoding inverts encoding both ways (`DecodeEncode`, `EncodeOfHexValue`);
- Location parsing inverts rendering (`ParseRender`).

Behaviour the test decides:
- Header names are lower-cased piece by piece as they are appended; values are kept as
  given (test lines 55-75).
- Affinity keys compare byte for byte, so "lb" and "LB" differ (test lines 236-242).
- The port of the Location URI plays no part in matching its host (test lines 175-178,
  where "localhost2:3000" matches the backend host "localhost2").

Choices of the model where the test is silent:
- The port of the backend host is disregarded too: only the text before its first ':' is
  compared. The test's backend host has no port.
- A crumb starts after every ' ' and ';' in front of it. The test's values (lines 110 and
  113) never have more than one space after a ';', so they read the same under a rule that
  strips at most one leading space (see "## Left out").
- The affinity search reads pairs as cookie crumbs, so ' ' and ';' before a key are
  skipped (see "## Left out").

## Model

| member | source | states |
|---|---|---|
| Strings.LowerStr | src/shrpx_downstream_test.cc:56-60 | the result has the input's length; each byte is the ASCII lower-case of the input byte, so no upper-case letter is left |
| Strings.LowerStrAppend | src/shrpx_downstream_test.cc:55-74 | lower-casing pieces one by one gives the lower-cased whole name |
| Headers.FindByToken | src/shrpx_downstream_test.cc:91-94 | Some(i) only for a field carrying the token with none before it; None exactly when no field carries it |
| Headers.FindByName | src/shrpx_downstream_test.cc:96-99 | Some(i) only for the first field whose name is byte-equal; None exactly when no name is equal |
| Headers.FindByTokenAppend | src/shrpx_downstream_test.cc:83-94 | fields added later never change a token lookup that already succeeds |
| Headers.FindByNameAppend | src/shrpx_downstream_test.cc:83-99 | fields added later never change a name lookup that already succeeds |
| Allocator.BlockAllocator.constructor | src/shrpx_downstream_test.cc:53 | an empty arena with the given block size; the isolation threshold is capped at the block size |
| Allocator.BlockAllocator.Reserve | src/shrpx_downstream_test.cc:53-55 | a new allocation disjoint from all earlier ones; earlier blocks keep their bytes |
| Allocator.BlockAllocator.AllocCopy | src/shrpx_downstream_test.cc:55 | a new allocation of the string plus its NUL that reads back as the string; every live view reads as before |
| Allocator.BlockAllocator.Concat | src/shrpx_downstream_test.cc:57-68 | the result reads as the old string followed by the new bytes; it stays in place iff its allocation has room, otherwise it moves to a new allocation of the grown capacity; other allocations, and shorter views of the same one, are unchanged |
| Allocator.BlockAllocator.GrowInPlace | src/shrpx_downstream_test.cc:57 | the same allocation, longer by the new bytes, reading as old text plus new bytes; no other view changes |
| Allocator.BlockAllocator.Relocate | src/shrpx_downstream_test.cc:58-68 | a fresh allocation of the grown capacity holding old text plus new bytes; every live view reads as before |
| Store.SameText | src/shrpx_downstream_test.cc:70-77 | fields outside the allocation that changed resolve to the same strings afterwards |
| Store.OpenNew | src/shrpx_downstream_test.cc:55 | a field with a fresh name and an empty value keeps the store's invariant and can be grown |
| Store.ReplaceLast | src/shrpx_downstream_test.cc:57-68 | swapping the open field for its grown successor keeps the store's invariant |
| Store.SwapLast | src/shrpx_downstream_test.cc:57-68 | after a change confined to the open field's allocation, only the last field reads differently, and the invariant holds |
| Store.FieldStore.Headers | src/shrpx_downstream_test.cc:73-77 | the header list has exactly one field per stored entry; the contract of `Store.ResolveAll` adds that field i is entry i with its name and value read out of the arena |
| Store.FieldStore.constructor | src/shrpx_downstream_test.cc:54 | an empty store over the given arena with no open field |
| Store.FieldStore.AllocAddHeaderName | src/shrpx_downstream_test.cc:55 | appends one field: the lower-cased name, an empty value, the token of the lower-cased name; it is open for growth |
| Store.FieldStore.AppendLastHeaderKey | src/shrpx_downstream_test.cc:56-60 | only the last field changes: its name grows by the lower-cased piece, its token is looked up again, its value is kept |
| Store.FieldStore.AppendLastHeaderValue | src/shrpx_downstream_test.cc:62-68 | only the last field changes: its value grows by the piece as given, in a new allocation the first time |
| Store.FieldStore.AddHeaderToken | src/shrpx_downstream_test.cc:70-71 | appends exactly the given field after all earlier ones and closes the open field |
| Store.FieldStore.RewriteValue | src/shrpx_downstream_test.cc:180-182 | field i takes the new value; every other field, and field i's name, flag and token, are unchanged |
| Store.FieldStore.HeaderByToken | src/shrpx_downstream_test.cc:92-94 | a stored field with that token, or None exactly when no field has it |
| Store.FieldStore.HeaderByName | src/shrpx_downstream_test.cc:97-99 | a stored field with exactly that name, or None exactly when no field has it |
| Cookies.Crumbs | src/shrpx_downstream_test.cc:109-116 | the cookie-pairs of one value: skip every ' ' and ';', take up to the next ';', repeat; a plain definition with no contract of its own, its meaning stated by `CrumbsAreCrumbs` and `CrumbsAreCleanSplit` |
| Cookies.CrumbsAreCrumbs | src/shrpx_downstream_test.cc:134-139 | every crumb is non-empty, holds no ';' and starts with neither ' ' nor ';' |
| Cookies.CountCrumbsIsLength | src/shrpx_downstream_test.cc:121-124 | counting the crumbs of a value without building them gives the number of crumbs |
| Cookies.CrumbsAcrossSemicolon | src/shrpx_downstream_test.cc:110 | a ';' is a hard boundary: the crumbs of a;x are those of a followed by those of x |
| Cookies.CrumbsAfterSepPrefix | src/shrpx_downstream_test.cc:110-113 | any run of ' ' and ';' in front of a value leaves its crumbs unchanged |
| Cookies.CrumbsCons | src/shrpx_downstream_test.cc:110 | a cookie-pair followed by ';' is the first crumb |
| Cookies.CrumbsAreCleanSplit | src/shrpx_downstream_test.cc:109-116 | the crumbs equal the reference reading: split on ';', strip leading spaces, drop empty segments |
| Cookies.CrumbNvs | src/shrpx_downstream_test.cc:126-139 | one entry per crumb, in order, each named "cookie" with the given never-index flag |
| Cookies.Crumble | src/shrpx_downstream_test.cc:118-119 | every entry it emits is named "cookie" and holds one cookie-pair: non-empty, no ';', no leading ' ' or ';' |
| Cookies.CountCrumble | src/shrpx_downstream_test.cc:121-124 | counted without building any entry, it equals the number of entries crumbling emits |
| Cookies.CrumbleAppend | src/shrpx_downstream_test.cc:105-119 | one more field adds exactly its own crumbs, at the end |
| Cookies.CrumbleConcat | src/shrpx_downstream_test.cc:105-119 | crumbling a concatenation is the concatenation of the crumblings |
| Cookies.CrumbOrigin | src/shrpx_downstream_test.cc:134-144 | every entry is named "cookie" and comes from some cookie field whose flag it carries and among whose crumbs its value is |
| Cookies.StripTrailing | src/shrpx_downstream_test.cc:158-166 | the result is a prefix of the value that does not end in ' ' or ';', and only ' ' and ';' were removed |
| Cookies.StripTrailingOf | src/shrpx_downstream_test.cc:158-166 | a pair followed by a run of ' ' and ';' strips to exactly the pair |
| Cookies.CookiePartsAppend | src/shrpx_downstream_test.cc:151-166 | one more field adds its stripped value to the parts when it is a non-empty cookie, and nothing otherwise |
| Cookies.AssembleIgnoresOthers | src/shrpx_downstream_test.cc:151-154 | a field that is not a cookie changes neither the parts nor the assembled value |
| Cookies.Join | src/shrpx_downstream_test.cc:167-168 | crumbling parts joined with "; " gives the crumbs of each part, in order |
| Cookies.Assemble | src/shrpx_downstream_test.cc:147-168 | round trip: crumbling the assembled value gives the crumbs of each stripped cookie value in field order |
| Cookies.JoinThenCrumb | src/shrpx_downstream_test.cc:167-168 | round trip: joining cookie-pairs and crumbling gives exactly those pairs back |
| Affinity.HexDigitValue | src/shrpx_downstream_test.cc:228-242 | each hex digit, either case, is worth less than 16; the contract of `HexChar` states that writing the value back gives the lower-case digit |
| Affinity.HexValueOfEncode | src/shrpx_downstream_test.cc:228-242 | reading n written hex digits gives back every value below 16^n |
| Affinity.EncodeOfHexValue | src/shrpx_downstream_test.cc:228-242 | writing back a read hex string gives its digits, lower-cased |
| Affinity.DecodeHex8 | src/shrpx_downstream_test.cc:228-246 | Some iff exactly eight hex digits; the value fits 32 bits and its eight-digit form is the input lower-cased |
| Affinity.DecodeEncode | src/shrpx_downstream_test.cc:236-242 | every 32-bit value written as eight digits decodes to itself |
| Affinity.HexValueOfEight | src/shrpx_downstream_test.cc:238-242 | eight digits are read big-endian, digit by digit |
| Affinity.AllCrumbs | src/shrpx_downstream_test.cc:219-232 | the pairs searched, from every Cookie field in field order; each is a cookie crumb: non-empty, no ';', never starting with ' ' or ';' |
| Affinity.KeyOf | src/shrpx_downstream_test.cc:222-231 | a key iff the pair holds '=': the prefix before the first '=' |
| Affinity.FirstMatch | src/shrpx_downstream_test.cc:236-244 | Some(i) only for a pair keyed by the name with no such pair before it; None exactly when no pair has the key |
| Affinity.FindAffinityCookie | src/shrpx_downstream_test.cc:236-246 | below 2^32; non-zero only as the eight-digit value of the first pair with the key; 0 when no pair has it |
| Affinity.AllCrumbsConcat | src/shrpx_downstream_test.cc:219-232 | the pairs of a concatenation of field lists are the pairs of each, in order |
| Affinity.AllCrumbsAppend | src/shrpx_downstream_test.cc:219-232 | one more field adds its crumbs at the end when it is a cookie, and nothing otherwise |
| Affinity.FirstMatchIs | src/shrpx_downstream_test.cc:236-244 | conversely, the first pair with the key is where the search stops |
| Affinity.AffinityOfMatch | src/shrpx_downstream_test.cc:236-246 | the answer is the decoded value of the first matching pair, or 0 when it does not decode |
| Affinity.FindAffinityAt | src/shrpx_downstream_test.cc:236-246 | for the first pair with the key: its eight-digit value when well formed, else 0 |
| Affinity.AllCrumbsAreCrumble | src/shrpx_downstream_test.cc:219-232 | the pairs searched are exactly the values crumbling emits, position by position |
| Affinity.FirstMatchConcat | src/shrpx_downstream_test.cc:236-244 | the search over a concatenation finds the left part's match first, otherwise the right part's, shifted |
| Affinity.FindAffinityAppend | src/shrpx_downstream_test.cc:236-242 | once a pair with the key is present, later fields never change the answer |
| Affinity.FindAffinityIgnoresOthers | src/shrpx_downstream_test.cc:224-226 | fields that are not cookies never change the answer |
| Affinity.NoCookieNoCrumbs | src/shrpx_downstream_test.cc:224-226 | a list without cookie fields yields no pairs |
| Affinity.PairParts | src/shrpx_downstream_test.cc:228 | name=value is one crumb, keyed by name, with that value |
| Affinity.AffinityOfIssuedCookie | src/shrpx_downstream_test.cc:228-238 | round trip: a cookie name=<eight digits of u> after fields without that key yields u, whatever follows |
| Location.Parse | src/shrpx_downstream_test.cc:178 | a parsed URI is well formed and renders back to the input |
| Location.ParseRender | src/shrpx_downstream_test.cc:178-182 | parsing a rendered well-formed URI gives it back |
| Location.RewriteLocationUri | src/shrpx_downstream_test.cc:175-182 | Some iff the value parses and its host equals the backend host with ports disregarded; then it is client scheme :// client authority followed by the original path |
| Location.RewriteLocation | src/shrpx_downstream_test.cc:177-182 | same length; every field keeps name, token and flag; only the first Location field may change, and it does take the rewritten URI whenever the backend host and the request authority are non-empty and its value points at the backend |
| Location.RewriteKeepsLocationToken | src/shrpx_downstream_test.cc:181 | the Location field stays where the token lookup finds it |
| Location.RewrittenValue | src/shrpx_downstream_test.cc:175-182 | a changed field is the first Location field; host and authority are known; the old value parsed to a URI on the backend host; the new value is that URI with the client's scheme and authority |
| Location.RewriteIdempotent | src/shrpx_downstream_test.cc:180-182 | when the client's host is not the backend's, a second rewrite changes nothing |
| Forwarding.SupportsNonFinal | src/shrpx_downstream_test.cc:189-212 | true exactly for HTTP/1.1 and later |
| Forwarding.SupportsNonFinalMonotone | src/shrpx_downstream_test.cc:189-212 | a version that may receive interim responses keeps that right at every later version |
| Forwarding.Downstream.constructor | src/shrpx_downstream_test.cc:103 | empty request and response stores over separate arenas; no authority or backend host; HTTP/1.1 |
| Forwarding.Downstream.SetRequestDownstreamHost | src/shrpx_downstream_test.cc:175 | records the backend host and leaves the authority and version as they were |
| Forwarding.Downstream.CrumbleRequestCookie | src/shrpx_downstream_test.cc:118-119 | appends to the caller's vector exactly the crumbling of the request's fields |
| Forwarding.Downstream.CrumbleValue | src/shrpx_downstream_test.cc:109-116 | the scanning loop over one cookie value appends one entry per crumb, in order |
| Forwarding.Downstream.CountCrumbleRequestCookie | src/shrpx_downstream_test.cc:121-124 | the number of entries crumbling appends |
| Forwarding.Downstream.AssembleRequestCookie | src/shrpx_downstream_test.cc:167-168 | crumbling the assembled value gives the crumbs of every stripped cookie value |
| Forwarding.Downstream.RewriteLocationResponseHeader | src/shrpx_downstream_test.cc:180-182 | the response fields become their rewrite, so a Location value pointing at the backend takes the client's scheme and authority; the request fields are unchanged |
| Forwarding.Downstream.AffinityCookie | src/shrpx_downstream_test.cc:236-246 | below 2^32; a non-zero answer is the decoded value of an entry crumbling would emit, keyed by the name |
| Forwarding.Downstream.SupportsNonFinalResponse | src/shrpx_downstream_test.cc:192-212 | true exactly when the request's version is HTTP/1.1 or later |
| Scenarios.LowerPieces | src/shrpx_downstream_test.cc:74 | "alpha", "BRAVO" and "golF0123456789" lower-cased and joined are "alphabravogolf0123456789" |
| Scenarios.TestFieldStoreAppendLastHeader | src/shrpx_downstream_test.cc:52-78 | exactly two fields; the first is the lower-cased joined name with the exact joined value; the second is echo: foxtrot; the last name piece and the last value piece both move |
| Scenarios.LookupExample | src/shrpx_downstream_test.cc:91-99 | in the three test fields, :authority and "alpha" are found and :method and "bravo" are not |
| Scenarios.TestFieldStoreHeader | src/shrpx_downstream_test.cc:80-100 | :authority gives value 1; :method gives nothing; alpha gives value 0; bravo gives nothing |
| Scenarios.CrumbsOfFirstCookie | src/shrpx_downstream_test.cc:110 | "alpha; bravo; ; ;; charlie;;" crumbs to alpha, bravo, charlie |
| Scenarios.CrumbsOfSecondCookie | src/shrpx_downstream_test.cc:113 | ";delta" crumbs to delta |
| Scenarios.CrumbleFive | src/shrpx_downstream_test.cc:105-119 | the two pseudo-header fields contribute nothing; the three cookie fields contribute their crumbs in order |
| Scenarios.CrumbleTail | src/shrpx_downstream_test.cc:134-144 | the three cookie fields give the five expected entries, the first three never-indexed |
| Scenarios.TestCrumbleRequestCookie | src/shrpx_downstream_test.cc:102-145 | the five entries alpha, bravo, charlie (never-indexed), delta, echo (not); the count is 5 too |
| Scenarios.PartsOfSix | src/shrpx_downstream_test.cc:151-166 | the parts are the stripped values of the four cookie fields, the pseudo-headers ignored |
| Scenarios.AssembleTail | src/shrpx_downstream_test.cc:155-168 | "alpha", "bravo;", "charlie; ", "delta;;" stripped and joined give "alpha; bravo; charlie; delta" |
| Scenarios.TestAssembleRequestCookie | src/shrpx_downstream_test.cc:147-169 | the assembled value is "alpha; bravo; charlie; delta" |
| Scenarios.ParseBackend | src/shrpx_downstream_test.cc:178 | "http://localhost2:3000/" parses to scheme http, authority localhost2:3000, path / |
| Scenarios.RewriteUriExample | src/shrpx_downstream_test.cc:175-182 | with backend host localhost2, that URI becomes "https://localhost:8443/" |
| Scenarios.TestRewriteLocationResponseHeader | src/shrpx_downstream_test.cc:171-183 | the Location field is found by its token and reads "https://localhost:8443/" |
| Scenarios.TestSupportsNonFinalResponse | src/shrpx_downstream_test.cc:185-213 | true for 3.0, 2.0 and 1.1; false for 1.0 and 0.9 |
| Scenarios.PairsTail | src/shrpx_downstream_test.cc:219-232 | the four cookie values give the pairs a=b, c=d, lb=deadbeef, LB=f1f2f3f4, short=e1e2e3e |
| Scenarios.KeysOfPairs | src/shrpx_downstream_test.cc:222-246 | the keys of those pairs; deadbeef and f1f2f3f4 decode, e1e2e3e does not |
| Scenarios.AffinityTail | src/shrpx_downstream_test.cc:236-246 | over those pairs, lb gives 0xdeadbeef, LB gives 0xf1f2f3f4 and short gives 0 |
| Scenarios.TestFindAffinityCookie | src/shrpx_downstream_test.cc:215-247 | lb gives 0xdeadbeef, LB gives 0xf1f2f3f4, short gives 0 |

## Left out

- The munit harness and suite registration (`src/shrpx_downstream_test.cc:36-50`): test plumbing.
- shrpx_downstream.cc, shrpx_downstream.h, the allocator header, http2.cc and util.cc are not
  part of this model. Their behaviour is modelled from what the test asserts; where the
  test is silent the choice is named in this section or in the list of choices above.
- The upstream and connection handles passed as `nullptr` to `Downstream` (line 103): they
  take no part in header handling.
- Raw pointers and their stability: strings in the arena are views (block, offset, length,
  capacity).
  - The size header the allocator keeps in front of each allocation, and alignment, are not modelled.
  - Allocation failure is not modelled: blocks are unbounded sequences.
- The block size and isolation threshold of a real Downstream's arenas are given as constants.
  Only the 16-byte arena of the FieldStore tests is pinned by the test.
- The token table (`http2::lookup_token`, the `HD_*` constants): tokens are an enumeration.
  `AllocAddHeaderName` and `AppendLastHeaderKey` take the table lookup as a parameter.
- Buffer-size accounting of the field store (the byte count that tracks header size limits) is not modelled.
- `nghttp2_nv` layout and the `NGHTTP2_NV_FLAG_NO_INDEX` bit (lines 127-131): each entry is a
  name, a value and a boolean flag.
- Cookies.Crumbs: only ' ' and ';' are skipped in front of a crumb. Tabs are kept as part of the crumb.
- Cookies.Crumbs: every space in front of a crumb is skipped, not at most one. For "a;  b"
  the model gives the crumbs "a" and "b", where stripping one space would give "a" and " b".
  The test does not decide between the two.
- Affinity.FindAffinityCookie: a pair is read as a cookie crumb, so every ' ' and ';' in
  front of a key is skipped. For "x=1; lb=00000001" the key "lb" gives 1, where a split on
  ';' that trims nothing would see the key " lb" and give 0. The test's values have no
  space after a ';', so they do not decide between the two.
- Affinity.FindAffinityCookie: a pair without '=' is skipped and the search goes on. The
  test has no such pair.
- Affinity.FindAffinityCookie: the result is computed on each call and not cached.
- Location.Parse: only absolute `scheme://authority rest` values are recognised, so relative
  references are left as they are. The host is whatever precedes the authority's first ':',
  so userinfo and bracketed IPv6 literals are not told apart from the host.
- Location.RewriteLocation: the rewrite is skipped when the backend host or the request
  authority is empty. The model makes no exception when the client's host equals the backend
  host; `RewriteIdempotent` states when a second rewrite is a no-op.
- Cookies.Assemble: a cookie value made only of separators contributes an empty part. Empty
  values are skipped.
- Store.FieldStore.HeaderByToken: when several fields carry the token, the first one is
  returned. The test has only one of each.
- Store.FieldStore.HeaderByName: when several fields carry the name, the first one is
  returned. The test has only one of each.
