/**
 * Downstream: the state the proxy keeps for one request forwarded to a backend. Here
 * it holds the request and response field stores, the request's authority and HTTP
 * version, and the backend host the request was sent to; its operations are the
 * header transforms applied on the way through.
 */
module Forwarding {
  import opened Optional
  import opened Strings
  import opened Headers
  import opened Cookies
  import opened Location
  import opened Affinity
  import opened Allocator
  import opened Store

  /** The size of each arena block and the isolation threshold of a Downstream's arenas. */
  const ArenaBlockSize: nat := 1024
  const ArenaIsolation: nat := 1024

  /**
   * Whether a client speaking HTTP/major.minor may be sent interim (1xx) responses:
   * HTTP/1.0 clients may not (section 6.2 of RFC 7231), HTTP/1.1 and later may.
   */
  function SupportsNonFinal(major: nat, minor: nat): (r: bool)
    ensures r <==> !VersionBefore(major, minor, 1, 1)
  {
    major >= 2 || (major == 1 && minor >= 1)
  }

  /** HTTP/a.b is older than HTTP/c.d. */
  predicate VersionBefore(a: nat, b: nat, c: nat, d: nat)
  {
    a < c || (a == c && b < d)
  }

  /** A client that may receive interim responses keeps that right at every later version. */
  lemma SupportsNonFinalMonotone(major: nat, minor: nat, major': nat, minor': nat)
    requires SupportsNonFinal(major, minor)
    requires !VersionBefore(major', minor', major, minor)
    ensures SupportsNonFinal(major', minor')
  {
  }

  /** The crumbs of a request prefix, after the caller's entries, grow by those of the next field. */
  lemma CrumblePrefixStep(nva: seq<Nv>, hs: seq<HeaderField>, i: nat)
    requires i < |hs|
    ensures nva + Crumble(hs[..i + 1]) == nva + Crumble(hs[..i]) + FieldCrumbs(hs[i])
  {
    var prefix := hs[..i];
    assert hs[..i + 1] == prefix + [hs[i]];
    CrumbleAppend(prefix, hs[i]);
    assert nva + (Crumble(prefix) + FieldCrumbs(hs[i])) == nva + Crumble(prefix) + FieldCrumbs(hs[i]);
  }

  /** Skipping the separators at `p` does not change the crumbs still to come. */
  lemma SkipSeps(w: string, p: nat)
    requires p <= |w|
    ensures p + SepRun(w[p..]) <= |w|
    ensures Crumbs(w[p..]) == Crumbs(w[p + SepRun(w[p..])..])
    ensures p + SepRun(w[p..]) < |w| ==> !IsCookieSep(w[p + SepRun(w[p..])])
    ensures p + SepRun(w[p..]) == |w| ==> Crumbs(w[p..]) == []
  {
    var rest := w[p..];
    CrumbsAfterSeps(rest);
    assert rest[SepRun(rest)..] == w[p + SepRun(rest)..];
  }

  /** At a byte that is not a separator, the next crumb runs up to the next ';'. */
  lemma TakeCrumb(w: string, p: nat)
    requires p < |w| && !IsCookieSep(w[p])
    ensures var k := IndexOf(w[p..], ';');
      0 < k && p + k <= |w| && Crumbs(w[p..]) == [w[p..p + k]] + Crumbs(w[p + k..])
  {
    var rest := w[p..];
    var k := IndexOf(rest, ';');
    assert rest[..k] == w[p..p + k];
    assert rest[k..] == w[p + k..];
  }

  /** The crumbs of `w` are those `done` and those of what follows `p`. */
  ghost predicate Scanned(w: string, p: nat, done: seq<string>)
  {
    p <= |w| && Crumbs(w) == done + Crumbs(w[p..])
  }

  /** Skipping the separators at `p` loses no crumb; at the end of `w` every crumb is done. */
  lemma ScanSkip(w: string, p: nat, done: seq<string>, q: nat)
    requires Scanned(w, p, done) && q == p + SepRun(w[p..])
    ensures Scanned(w, q, done)
    ensures q < |w| ==> !IsCookieSep(w[q])
    ensures q == |w| ==> Crumbs(w) == done
  {
    SkipSeps(w, p);
    var rest := Crumbs(w[q..]);
    assert Crumbs(w[p..]) == rest;
    assert Crumbs(w) == done + rest;
    if q == |w| {
      assert done + [] == done;
    }
  }

  /** The crumb at `q`, up to the next ';', moves from the crumbs to come to those done. */
  lemma ScanTake(w: string, q: nat, done: seq<string>, k: nat)
    requires Scanned(w, q, done) && q < |w| && !IsCookieSep(w[q]) && k == IndexOf(w[q..], ';')
    ensures 0 < k && q + k <= |w| && Scanned(w, q + k, done + [w[q..q + k]])
  {
    TakeCrumb(w, q);
    assert done + ([w[q..q + k]] + Crumbs(w[q + k..])) == (done + [w[q..q + k]]) + Crumbs(w[q + k..]);
  }

  lemma CrumbNvsSnoc(done: seq<string>, c: string, noIndex: bool)
    ensures CrumbNvs(done + [c], noIndex) == CrumbNvs(done, noIndex) + [Nv(CookieName, c, noIndex)]
  {
  }

  /** Emitting one more crumb keeps the output in step with the crumbs done. */
  lemma EmitCrumb(acc: seq<Nv>, done: seq<string>, out: seq<Nv>, c: string, noIndex: bool)
    requires out == acc + CrumbNvs(done, noIndex)
    ensures out + [Nv(CookieName, c, noIndex)] == acc + CrumbNvs(done + [c], noIndex)
  {
    CrumbNvsSnoc(done, c, noIndex);
    assert acc + (CrumbNvs(done, noIndex) + [Nv(CookieName, c, noIndex)]) ==
      (acc + CrumbNvs(done, noIndex)) + [Nv(CookieName, c, noIndex)];
  }

  class Downstream {
    /** req_.fs and resp_.fs, each over an arena of its own. */
    const reqFs: FieldStore
    const respFs: FieldStore
    /** req_.authority: the authority the client asked for. */
    var reqAuthority: string
    /** req_.http_major and req_.http_minor. */
    var reqHttpMajor: nat
    var reqHttpMinor: nat
    /** request_downstream_host_: the backend host the request went to. */
    var requestDownstreamHost: string

    ghost predicate Valid()
      reads reqFs, reqFs.balloc, respFs, respFs.balloc
    {
      && reqFs != respFs && reqFs.balloc != respFs.balloc
      && reqFs.Valid() && respFs.Valid()
    }

    /** A Downstream for a fresh HTTP/1.1 request: empty stores, no authority, no backend yet. */
    constructor ()
      ensures Valid() && fresh(reqFs) && fresh(respFs) && fresh(reqFs.balloc) && fresh(respFs.balloc)
      ensures reqFs.Headers() == [] && respFs.Headers() == []
      ensures !reqFs.open && !respFs.open
      ensures reqAuthority == [] && requestDownstreamHost == []
      ensures reqHttpMajor == 1 && reqHttpMinor == 1
    {
      var reqArena := new BlockAllocator(ArenaBlockSize, ArenaIsolation);
      var respArena := new BlockAllocator(ArenaBlockSize, ArenaIsolation);
      reqFs := new FieldStore(reqArena);
      respFs := new FieldStore(respArena);
      reqAuthority := [];
      reqHttpMajor, reqHttpMinor := 1, 1;
      requestDownstreamHost := [];
    }

    /** set_request_downstream_host. */
    method SetRequestDownstreamHost(host: string)
      modifies this
      ensures requestDownstreamHost == host
      ensures reqAuthority == old(reqAuthority)
      ensures reqHttpMajor == old(reqHttpMajor) && reqHttpMinor == old(reqHttpMinor)
    {
      requestDownstreamHost := host;
    }

    /**
     * crumble_request_cookie: every Cookie field of the request, split into one entry
     * per cookie-pair, appended to the caller's vector `nva` in field order.
     */
    method CrumbleRequestCookie(nva: seq<Nv>) returns (out: seq<Nv>)
      requires Valid()
      ensures out == nva + Crumble(reqFs.Headers())
    {
      var hs := reqFs.Headers();
      out := nva;
      var i := 0;
      while i < |hs|
        invariant 0 <= i <= |hs|
        invariant out == nva + Crumble(hs[..i])
      {
        CrumblePrefixStep(nva, hs, i);
        if IsCookie(hs[i]) {
          out := CrumbleValue(out, hs[i].value, hs[i].noIndex);
        }
        i := i + 1;
      }
      assert hs[..|hs|] == hs;
    }

    /**
     * The scan of one Cookie value: skip the run of ' ' and ';', take everything up to
     * the next ';' as one entry, and repeat until the value is used up.
     */
    static method CrumbleValue(acc: seq<Nv>, w: string, noIndex: bool) returns (out: seq<Nv>)
      ensures out == acc + CrumbNvs(Crumbs(w), noIndex)
    {
      out := acc;
      ghost var done: seq<string> := [];
      var p := 0;
      assert w[p..] == w;
      while true
        invariant Scanned(w, p, done)
        invariant out == acc + CrumbNvs(done, noIndex)
        decreases |w| - p
      {
        var q := p + SepRun(w[p..]);
        ScanSkip(w, p, done, q);
        if q == |w| {
          break;
        }
        var k := IndexOf(w[q..], ';');
        ScanTake(w, q, done, k);
        var crumb := w[q..q + k];
        EmitCrumb(acc, done, out, crumb, noIndex);
        out := out + [Nv(CookieName, crumb, noIndex)];
        done := done + [crumb];
        p := q + k;
      }
    }

    /** count_crumble_request_cookie: the number of entries crumbling appends. */
    function CountCrumbleRequestCookie(): (n: nat)
      reads this, reqFs, reqFs.balloc
      requires reqFs.Valid()
      ensures n == |Crumble(reqFs.Headers())|
    {
      CountCrumble(reqFs.Headers())
    }

    /**
     * assemble_request_cookie: the request's Cookie fields as one value for an HTTP/1.1
     * backend; crumbling it gives back the pairs of every stripped cookie value.
     */
    function AssembleRequestCookie(): (r: string)
      reads this, reqFs, reqFs.balloc
      requires reqFs.Valid()
      ensures Crumbs(r) == CrumbsAll(CookieParts(reqFs.Headers()))
    {
      Assemble(reqFs.Headers())
    }

    /**
     * rewrite_location_response_header: when the response's Location points at the
     * backend host, it is made to point at the authority the client used, with the
     * client's scheme; the request side is untouched.
     */
    method RewriteLocationResponseHeader(scheme: string)
      requires Valid()
      modifies respFs, respFs.balloc
      ensures Valid()
      ensures respFs.Headers() == RewriteLocation(old(respFs.Headers()), reqAuthority, requestDownstreamHost, scheme)
      ensures reqFs.Headers() == old(reqFs.Headers())
    {
      var hs := respFs.Headers();
      var hd := FindByToken(hs, Location);
      if hd.None? {
        return;
      }
      if requestDownstreamHost == [] || reqAuthority == [] {
        return;
      }
      var newUri := RewriteLocationUri(hs[hd.value].value, requestDownstreamHost, reqAuthority, scheme);
      if newUri.None? {
        return;
      }
      respFs.RewriteValue(hd.value, newUri.value);
    }

    /**
     * find_affinity_cookie: the backend pinned by the request's cookie `name`, or 0. A
     * non-zero answer always comes from one of the entries crumbling would emit.
     */
    function AffinityCookie(name: string): (r: nat)
      reads this, reqFs, reqFs.balloc
      requires reqFs.Valid()
      ensures r == FindAffinityCookie(reqFs.Headers(), name) && r < Two32
      ensures r != 0 ==>
        exists i :: 0 <= i < |Crumble(reqFs.Headers())| &&
          KeyOf(Crumble(reqFs.Headers())[i].value) == Some(name) &&
          DecodeHex8(ValueOf(Crumble(reqFs.Headers())[i].value)) == Some(r)
    {
      AllCrumbsAreCrumble(reqFs.Headers());
      FindAffinityCookie(reqFs.Headers(), name)
    }

    /** supports_non_final_response. */
    function SupportsNonFinalResponse(): (r: bool)
      reads this
      ensures r <==> !VersionBefore(reqHttpMajor, reqHttpMinor, 1, 1)
    {
      SupportsNonFinal(reqHttpMajor, reqHttpMinor)
    }
  }
}
