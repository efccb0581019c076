/**
 * The scenarios of the Downstream test suite, replayed against the model: each test
 * becomes a method that makes the same calls and whose postcondition is what the test
 * checks. The concrete values are worked out by the lemmas in front of each method; each
 * takes the test's input as a parameter fixed by its precondition.
 */
module Scenarios {
  import opened Optional
  import opened Strings
  import opened Headers
  import opened Cookies
  import opened Location
  import opened Affinity
  import opened Allocator
  import opened Store
  import opened Forwarding

  // ---------------------------------------------------------------------------
  // Growing the last field

  lemma LowerPieces(a: string, b: string, c: string)
    requires a == "alpha" && b == "BRAVO" && c == "golF0123456789"
    ensures LowerStr(a) + LowerStr(b) + LowerStr(c) == "alphabravogolf0123456789"
  {
    var la, lb, lc := LowerStr(a), LowerStr(b), LowerStr(c);
    assert la == "alpha";
    assert lb == "bravo";
    assert lc == "golf0123456789";
  }

  lemma ValuePieces(a: string, b: string, c: string)
    requires a == "Charlie" && b == "deltA" && c == "echo0123456789"
    ensures [] + a + b + c == "CharliedeltAecho0123456789"
  {
  }

  /**
   * src/shrpx_downstream_test.cc:52-78: a name and a value built from three pieces each
   * in a 16-byte arena. The name is lower-cased piece by piece, the value kept as given;
   * the last piece of each no longer fits where the string lies, so it moves; the field
   * added whole afterwards keeps its strings.
   */
  method TestFieldStoreAppendLastHeader(lookup: string -> Option<Token>)
    returns (hs: seq<HeaderField>, keyMoved: bool, valueMoved: bool)
    ensures |hs| == 2
    ensures hs[0].name == "alphabravogolf0123456789" && hs[0].value == "CharliedeltAecho0123456789"
    ensures !hs[0].noIndex
    ensures hs[1] == HeaderField("echo", "foxtrot", false, None)
    ensures keyMoved && valueMoved
  {
    var balloc := new BlockAllocator(16, 16);
    var fs := new FieldStore(balloc);
    fs.AllocAddHeaderName("alpha", lookup);
    fs.AppendLastHeaderKey("BRAVO", lookup);
    keyMoved := Relocates(fs.NameView(), 14);
    fs.AppendLastHeaderKey("golF0123456789", lookup);
    fs.AppendLastHeaderValue("Charlie");
    fs.AppendLastHeaderValue("deltA");
    valueMoved := Relocates(fs.ValueView(), 14);
    fs.AppendLastHeaderValue("echo0123456789");
    fs.AddHeaderToken("echo", "foxtrot", false, None);
    hs := fs.Headers();
    LowerPieces("alpha", "BRAVO", "golF0123456789");
    ValuePieces("Charlie", "deltA", "echo0123456789");
  }

  // ---------------------------------------------------------------------------
  // Lookups

  function LookupFields(): seq<HeaderField>
  {
    [ HeaderField("alpha", "0", false, None),
      HeaderField(":authority", "1", false, Some(Authority)),
      HeaderField("content-length", "2", false, Some(ContentLength)) ]
  }

  lemma LookupExample(hs: seq<HeaderField>)
    requires hs == LookupFields()
    ensures FindByToken(hs, Authority) == Some(1) && FindByToken(hs, Method).None?
    ensures FindByName(hs, "alpha") == Some(0) && FindByName(hs, "bravo").None?
  {
    var bravo := "bravo";
    assert hs[0].name != bravo && hs[1].name != bravo && hs[2].name != bravo;
  }

  /**
   * src/shrpx_downstream_test.cc:80-100: lookup by token and by name find the field that
   * carries it, and report nothing when no field does.
   */
  method TestFieldStoreHeader()
    returns (byAuthority: Option<HeaderField>, byMethod: Option<HeaderField>,
             byAlpha: Option<HeaderField>, byBravo: Option<HeaderField>)
    ensures byAuthority.Some? && byAuthority.value.name == ":authority" && byAuthority.value.value == "1"
    ensures byMethod.None?
    ensures byAlpha.Some? && byAlpha.value.name == "alpha" && byAlpha.value.value == "0"
    ensures byBravo.None?
  {
    var balloc := new BlockAllocator(16, 16);
    var fs := new FieldStore(balloc);
    fs.AddHeaderToken("alpha", "0", false, None);
    fs.AddHeaderToken(":authority", "1", false, Some(Authority));
    fs.AddHeaderToken("content-length", "2", false, Some(ContentLength));
    assert fs.Headers() == LookupFields();
    LookupExample(fs.Headers());
    byAuthority := fs.HeaderByToken(Authority);
    byMethod := fs.HeaderByToken(Method);
    byAlpha := fs.HeaderByName("alpha");
    byBravo := fs.HeaderByName("bravo");
  }

  // ---------------------------------------------------------------------------
  // Crumbling

  /** Crumbling five fields added one by one, the first two of them not cookies. */
  lemma CrumbleFive(h0: seq<HeaderField>, h1: seq<HeaderField>, h2: seq<HeaderField>,
                    h3: seq<HeaderField>, h4: seq<HeaderField>, h5: seq<HeaderField>,
                    f0: HeaderField, f1: HeaderField, f2: HeaderField, f3: HeaderField, f4: HeaderField)
    requires h0 == [] && h1 == h0 + [f0] && h2 == h1 + [f1] && h3 == h2 + [f2]
    requires h4 == h3 + [f3] && h5 == h4 + [f4]
    requires !IsCookie(f0) && !IsCookie(f1)
    ensures Crumble(h5) == FieldCrumbs(f2) + FieldCrumbs(f3) + FieldCrumbs(f4)
  {
    CrumbleAppend(h0, f0);
    CrumbleAppend(h1, f1);
    assert Crumble(h2) == [];
    CrumbleAppend(h2, f2);
    assert Crumble(h3) == FieldCrumbs(f2);
    CrumbleAppend(h3, f3);
    CrumbleAppend(h4, f4);
  }

  lemma FirstCookiePieces()
    ensures "alpha; bravo; ; ;; charlie;;" ==
      "alpha" + [';'] + (" " + ("bravo" + [';'] + (" ; ;; " + ("charlie" + [';'] + ";"))))
  {
  }

  lemma CrumbsOfFirstCookie(w: string)
    requires w == "alpha; bravo; ; ;; charlie;;"
    ensures Crumbs(w) == ["alpha", "bravo", "charlie"]
  {
    var r3: string := ";";
    CrumbsAfterSepPrefix(r3, []);
    assert r3 + [] == r3;
    var c := "charlie" + [';'] + r3;
    CrumbsCons("charlie", r3);
    var b2 := " ; ;; " + c;
    CrumbsAfterSepPrefix(" ; ;; ", c);
    var b := "bravo" + [';'] + b2;
    CrumbsCons("bravo", b2);
    var a2 := " " + b;
    CrumbsAfterSepPrefix(" ", b);
    CrumbsCons("alpha", a2);
    FirstCookiePieces();
  }

  lemma CrumbsOfSecondCookie(w: string)
    requires w == ";delta"
    ensures Crumbs(w) == ["delta"]
  {
    var d: string := "delta";
    assert w == ";" + d;
    CrumbsAfterSepPrefix(";", d);
    CrumbsOfCrumb(d);
  }

  lemma CrumbNvsOfFive(a: string, b: string, c: string, d: string, e: string)
    ensures CrumbNvs([a, b, c], true) + CrumbNvs([d], false) + CrumbNvs([e], false) ==
      [ Nv(CookieName, a, true), Nv(CookieName, b, true), Nv(CookieName, c, true),
        Nv(CookieName, d, false), Nv(CookieName, e, false) ]
  {
  }

  lemma CrumbleTail(f2: HeaderField, f3: HeaderField, f4: HeaderField)
    requires IsCookie(f2) && IsCookie(f3) && IsCookie(f4) && f2.noIndex && !f3.noIndex && !f4.noIndex
    requires f2.value == "alpha; bravo; ; ;; charlie;;" && f3.value == ";delta" && f4.value == "echo"
    ensures FieldCrumbs(f2) + FieldCrumbs(f3) + FieldCrumbs(f4) ==
      [ Nv("cookie", "alpha", true), Nv("cookie", "bravo", true), Nv("cookie", "charlie", true),
        Nv("cookie", "delta", false), Nv("cookie", "echo", false) ]
  {
    CrumbsOfFirstCookie(f2.value);
    CrumbsOfSecondCookie(f3.value);
    CrumbsOfCrumb(f4.value);
    CrumbNvsOfFive("alpha", "bravo", "charlie", "delta", "echo");
  }

  /**
   * src/shrpx_downstream_test.cc:102-145: five entries; alpha, bravo and charlie keep the
   * never-index flag of the field they came from, delta and echo come without it, and the
   * count made without crumbling agrees.
   */
  method TestCrumbleRequestCookie() returns (nva: seq<Nv>, numCookies: nat)
    ensures nva ==
      [ Nv("cookie", "alpha", true), Nv("cookie", "bravo", true), Nv("cookie", "charlie", true),
        Nv("cookie", "delta", false), Nv("cookie", "echo", false) ]
    ensures |nva| == 5 && numCookies == 5
  {
    var d := new Downstream();
    var fs := d.reqFs;
    ghost var h0 := fs.Headers();
    fs.AddHeaderToken(":method", "get", false, None);
    ghost var h1 := fs.Headers();
    fs.AddHeaderToken(":path", "/", false, None);
    ghost var h2 := fs.Headers();
    fs.AddHeaderToken("cookie", "alpha; bravo; ; ;; charlie;;", true, Some(Cookie));
    ghost var h3 := fs.Headers();
    fs.AddHeaderToken("cookie", ";delta", false, Some(Cookie));
    ghost var h4 := fs.Headers();
    fs.AddHeaderToken("cookie", "echo", false, Some(Cookie));
    nva := d.CrumbleRequestCookie([]);
    numCookies := d.CountCrumbleRequestCookie();
    CrumbleFive(h0, h1, h2, h3, h4, fs.Headers(),
      HeaderField(":method", "get", false, None), HeaderField(":path", "/", false, None),
      HeaderField("cookie", "alpha; bravo; ; ;; charlie;;", true, Some(Cookie)),
      HeaderField("cookie", ";delta", false, Some(Cookie)), HeaderField("cookie", "echo", false, Some(Cookie)));
    CrumbleTail(HeaderField("cookie", "alpha; bravo; ; ;; charlie;;", true, Some(Cookie)),
      HeaderField("cookie", ";delta", false, Some(Cookie)), HeaderField("cookie", "echo", false, Some(Cookie)));
  }

  // ---------------------------------------------------------------------------
  // Assembly

  /** Assembling six fields added one by one, the first two of them not cookies. */
  lemma PartsOfSix(h0: seq<HeaderField>, h1: seq<HeaderField>, h2: seq<HeaderField>, h3: seq<HeaderField>,
                   h4: seq<HeaderField>, h5: seq<HeaderField>, h6: seq<HeaderField>,
                   f0: HeaderField, f1: HeaderField, f2: HeaderField, f3: HeaderField, f4: HeaderField, f5: HeaderField)
    requires h0 == [] && h1 == h0 + [f0] && h2 == h1 + [f1] && h3 == h2 + [f2]
    requires h4 == h3 + [f3] && h5 == h4 + [f4] && h6 == h5 + [f5]
    requires !IsCookie(f0) && !IsCookie(f1)
    requires IsCookie(f2) && IsCookie(f3) && IsCookie(f4) && IsCookie(f5)
    requires f2.value != [] && f3.value != [] && f4.value != [] && f5.value != []
    ensures CookieParts(h6) ==
      [StripTrailing(f2.value), StripTrailing(f3.value), StripTrailing(f4.value), StripTrailing(f5.value)]
  {
    var p2, p3, p4, p5 := StripTrailing(f2.value), StripTrailing(f3.value), StripTrailing(f4.value), StripTrailing(f5.value);
    CookiePartsAppend(h0, f0);
    assert CookieParts(h1) == [];
    CookiePartsAppend(h1, f1);
    assert CookieParts(h2) == [];
    CookiePartsAppend(h2, f2);
    assert CookieParts(h3) == [p2];
    CookiePartsAppend(h3, f3);
    assert CookieParts(h4) == [p2, p3];
    CookiePartsAppend(h4, f4);
    assert CookieParts(h5) == [p2, p3, p4];
    CookiePartsAppend(h5, f5);
    assert CookieParts(h6) == [p2, p3, p4] + [p5];
  }

  /** `v` is the cookie-pair `p` followed by the separators `s`. */
  lemma StripExample(v: string, p: string, s: string)
    requires v == p + s && p != [] && !IsCookieSep(p[|p| - 1])
    requires forall j :: 0 <= j < |s| ==> IsCookieSep(s[j])
    ensures StripTrailing(v) == p
  {
    StripTrailingOf(p, s);
  }

  lemma StripBravo(v: string)
    requires v == "bravo;"
    ensures StripTrailing(v) == "bravo"
  {
    StripExample(v, "bravo", ";");
  }

  lemma StripCharlie(v: string)
    requires v == "charlie; "
    ensures StripTrailing(v) == "charlie"
  {
    StripExample(v, "charlie", "; ");
  }

  lemma StripDelta(v: string)
    requires v == "delta;;"
    ensures StripTrailing(v) == "delta"
  {
    StripExample(v, "delta", ";;");
  }

  lemma JoinFour(a: string, b: string, c: string, d: string)
    ensures Join([a, b, c, d]) == a + "; " + (b + "; " + (c + "; " + d))
  {
    assert Join([d]) == d;
    assert [c, d][1..] == [d];
    assert Join([c, d]) == c + "; " + d;
    assert [b, c, d][1..] == [c, d];
    assert Join([b, c, d]) == b + "; " + (c + "; " + d);
    assert [a, b, c, d][1..] == [b, c, d];
  }

  lemma JoinedExample(a: string, b: string, c: string, d: string)
    requires a == "alpha" && b == "bravo" && c == "charlie" && d == "delta"
    ensures a + "; " + (b + "; " + (c + "; " + d)) == "alpha; bravo; charlie; delta"
  {
  }

  lemma AssembleTail(a: string, b: string, c: string, d: string)
    requires a == "alpha" && b == "bravo;" && c == "charlie; " && d == "delta;;"
    ensures Join([StripTrailing(a), StripTrailing(b), StripTrailing(c), StripTrailing(d)])
      == "alpha; bravo; charlie; delta"
  {
    StripExample(a, "alpha", []);
    StripBravo(b);
    StripCharlie(c);
    StripDelta(d);
    JoinFour("alpha", "bravo", "charlie", "delta");
    JoinedExample("alpha", "bravo", "charlie", "delta");
  }

  /**
   * src/shrpx_downstream_test.cc:147-169: the four cookie fields lose their trailing ';'
   * and ' ' and are joined with "; "; the pseudo-header fields play no part.
   */
  method TestAssembleRequestCookie() returns (cookie: string)
    ensures cookie == "alpha; bravo; charlie; delta"
  {
    var d := new Downstream();
    var fs := d.reqFs;
    ghost var h0 := fs.Headers();
    fs.AddHeaderToken(":method", "get", false, None);
    ghost var h1 := fs.Headers();
    fs.AddHeaderToken(":path", "/", false, None);
    ghost var h2 := fs.Headers();
    fs.AddHeaderToken("cookie", "alpha", false, Some(Cookie));
    ghost var h3 := fs.Headers();
    fs.AddHeaderToken("cookie", "bravo;", false, Some(Cookie));
    ghost var h4 := fs.Headers();
    fs.AddHeaderToken("cookie", "charlie; ", false, Some(Cookie));
    ghost var h5 := fs.Headers();
    fs.AddHeaderToken("cookie", "delta;;", false, Some(Cookie));
    cookie := d.AssembleRequestCookie();
    PartsOfSix(h0, h1, h2, h3, h4, h5, fs.Headers(),
      HeaderField(":method", "get", false, None), HeaderField(":path", "/", false, None),
      HeaderField("cookie", "alpha", false, Some(Cookie)), HeaderField("cookie", "bravo;", false, Some(Cookie)),
      HeaderField("cookie", "charlie; ", false, Some(Cookie)), HeaderField("cookie", "delta;;", false, Some(Cookie)));
    AssembleTail("alpha", "bravo;", "charlie; ", "delta;;");
  }

  // ---------------------------------------------------------------------------
  // Location

  lemma BackendHost(a: string)
    requires a == "localhost2:3000"
    ensures HostOf(a) == "localhost2"
  {
    IndexOfIs(a, ':', 10);
    assert a[..10] == "localhost2";
  }

  lemma PlainHost(h: string)
    requires h == "localhost2"
    ensures HostOf(h) == h
  {
    IndexOfIs(h, ':', |h|);
    assert h[..|h|] == h;
  }

  lemma SchemeHttp(s: string)
    requires s == "http"
    ensures IsScheme(s)
  {
    assert IsSchemeChar(s[0]) && IsSchemeChar(s[1]) && IsSchemeChar(s[2]) && IsSchemeChar(s[3]);
  }

  lemma AuthorityBackend(a: string)
    requires a == "localhost2:3000"
    ensures IsAuthority(a)
  {
    BackendHost(a);
    forall i | 0 <= i < |a| ensures !EndsAuthority(a[i]) {
      assert a[i] in "localhost2:3000";
    }
  }

  lemma BackendRender(scheme: string, authority: string, rest: string)
    requires scheme == "http" && authority == "localhost2:3000" && rest == "/"
    ensures Render(Uri(scheme, authority, rest)) == "http://localhost2:3000/"
  {
  }

  lemma BackendUri(u: Uri)
    requires u == Uri("http", "localhost2:3000", "/")
    ensures WellFormed(u) && Render(u) == "http://localhost2:3000/"
  {
    SchemeHttp(u.scheme);
    AuthorityBackend(u.authority);
    BackendRender(u.scheme, u.authority, u.rest);
  }

  lemma ParseBackend(value: string)
    requires value == "http://localhost2:3000/"
    ensures Parse(value) == Some(Uri("http", "localhost2:3000", "/"))
  {
    var u := Uri("http", "localhost2:3000", "/");
    BackendUri(u);
    ParseRender(u);
  }

  lemma ClientUri(scheme: string, authority: string, rest: string)
    requires scheme == "https" && authority == "localhost:8443" && rest == "/"
    ensures Render(Uri(scheme, authority, rest)) == "https://localhost:8443/"
  {
  }

  lemma RewriteUriExample(value: string, host: string, authority: string, scheme: string)
    requires value == "http://localhost2:3000/" && host == "localhost2"
    requires authority == "localhost:8443" && scheme == "https"
    ensures RewriteLocationUri(value, host, authority, scheme) == Some("https://localhost:8443/")
  {
    ParseBackend(value);
    BackendHost("localhost2:3000");
    PlainHost(host);
    ClientUri(scheme, authority, "/");
  }

  lemma LocationTail(h0: seq<HeaderField>, h1: seq<HeaderField>, authority: string, host: string, scheme: string)
    requires h0 == [] && h1 == h0 + [HeaderField("location", "http://localhost2:3000/", false, Some(Location))]
    requires authority == "localhost:8443" && host == "localhost2" && scheme == "https"
    ensures RewriteLocation(h1, authority, host, scheme) ==
      [HeaderField("location", "https://localhost:8443/", false, Some(Location))]
  {
    assert FindByToken(h1, Location) == Some(0);
    RewriteUriExample(h1[0].value, host, authority, scheme);
  }

  /**
   * src/shrpx_downstream_test.cc:171-183: a Location naming the backend host is made to
   * name the authority the client asked for, with the client's scheme.
   */
  method TestRewriteLocationResponseHeader() returns (location: Option<HeaderField>)
    ensures location.Some? && location.value.value == "https://localhost:8443/"
  {
    var d := new Downstream();
    d.SetRequestDownstreamHost("localhost2");
    d.reqAuthority := "localhost:8443";
    var fs := d.respFs;
    ghost var h0 := fs.Headers();
    fs.AddHeaderToken("location", "http://localhost2:3000/", false, Some(Location));
    ghost var h1 := fs.Headers();
    d.RewriteLocationResponseHeader("https");
    location := fs.HeaderByToken(Location);
    LocationTail(h0, h1, d.reqAuthority, d.requestDownstreamHost, "https");
  }

  // ---------------------------------------------------------------------------
  // Interim responses

  /** src/shrpx_downstream_test.cc:185-213: HTTP/1.1 and later may, HTTP/1.0 and 0.9 may not. */
  method TestSupportsNonFinalResponse() returns (v30: bool, v20: bool, v11: bool, v10: bool, v09: bool)
    ensures v30 && v20 && v11
    ensures !v10 && !v09
  {
    var d := new Downstream();
    d.reqHttpMajor, d.reqHttpMinor := 3, 0;
    v30 := d.SupportsNonFinalResponse();
    d.reqHttpMajor, d.reqHttpMinor := 2, 0;
    v20 := d.SupportsNonFinalResponse();
    d.reqHttpMajor, d.reqHttpMinor := 1, 1;
    v11 := d.SupportsNonFinalResponse();
    d.reqHttpMajor, d.reqHttpMinor := 1, 0;
    v10 := d.SupportsNonFinalResponse();
    d.reqHttpMajor, d.reqHttpMinor := 0, 9;
    v09 := d.SupportsNonFinalResponse();
  }

  // ---------------------------------------------------------------------------
  // Affinity

  /** The cookie-pairs of five fields added one by one, the third of them not a cookie. */
  lemma PairsOfFive(h0: seq<HeaderField>, h1: seq<HeaderField>, h2: seq<HeaderField>,
                    h3: seq<HeaderField>, h4: seq<HeaderField>, h5: seq<HeaderField>,
                    f0: HeaderField, f1: HeaderField, f2: HeaderField, f3: HeaderField, f4: HeaderField)
    requires h0 == [] && h1 == h0 + [f0] && h2 == h1 + [f1] && h3 == h2 + [f2]
    requires h4 == h3 + [f3] && h5 == h4 + [f4]
    requires IsCookie(f0) && IsCookie(f1) && !IsCookie(f2) && IsCookie(f3) && IsCookie(f4)
    ensures AllCrumbs(h5) == Crumbs(f0.value) + Crumbs(f1.value) + Crumbs(f3.value) + Crumbs(f4.value)
  {
    AllCrumbsAppend(h0, f0);
    AllCrumbsAppend(h1, f1);
    AllCrumbsAppend(h2, f2);
    AllCrumbsAppend(h3, f3);
    AllCrumbsAppend(h4, f4);
  }

  /** Two cookie-pairs separated by one ';'. */
  lemma CrumbsOfTwo(p: string, q: string, w: string)
    requires IsCrumb(p) && IsCrumb(q) && w == p + [';'] + q
    ensures Crumbs(w) == [p, q]
  {
    CrumbsOfCrumb(q);
    CrumbsCons(p, q);
  }

  lemma CrumbsOfPairs(w: string)
    requires w == "a=b;;c=d"
    ensures Crumbs(w) == ["a=b", "c=d"]
  {
    var x: string := ";c=d";
    assert w == "a=b" + [';'] + x;
    CrumbsCons("a=b", x);
    assert x == ";" + "c=d";
    CrumbsAfterSepPrefix(";", "c=d");
    CrumbsOfCrumb("c=d");
  }

  lemma BalancerSplit(w: string)
    requires w == "lb=deadbeef;LB=f1f2f3f4"
    ensures w == "lb=deadbeef" + [';'] + "LB=f1f2f3f4"
  {
  }

  lemma CrumbsOfBalancer(w: string)
    requires w == "lb=deadbeef;LB=f1f2f3f4"
    ensures Crumbs(w) == ["lb=deadbeef", "LB=f1f2f3f4"]
  {
    BalancerSplit(w);
    CrumbsOfTwo("lb=deadbeef", "LB=f1f2f3f4", w);
  }

  lemma CrumbsOfFour(a: seq<string>, b: seq<string>, c: seq<string>, d: seq<string>, p: string, q: string,
                     r: string, t: string, u: string)
    requires a == [] && b == [p, q] && c == [r, t] && d == [u]
    ensures a + b + c + d == [p, q, r, t, u]
  {
  }

  lemma PairsTail(v0: string, v1: string, v3: string, v4: string)
    requires v0 == "" && v1 == "a=b;;c=d" && v3 == "lb=deadbeef;LB=f1f2f3f4" && v4 == "short=e1e2e3e"
    ensures Crumbs(v0) + Crumbs(v1) + Crumbs(v3) + Crumbs(v4) ==
      ["a=b", "c=d", "lb=deadbeef", "LB=f1f2f3f4", "short=e1e2e3e"]
  {
    CrumbsOfPairs(v1);
    CrumbsOfBalancer(v3);
    CrumbsOfCrumb(v4);
    CrumbsOfFour(Crumbs(v0), Crumbs(v1), Crumbs(v3), Crumbs(v4),
      "a=b", "c=d", "lb=deadbeef", "LB=f1f2f3f4", "short=e1e2e3e");
  }

  /** The key of `c` is its first `k` bytes and its value the bytes after the '='. */
  lemma KeyValue(c: string, k: nat)
    requires k < |c| && c[k] == '=' && forall j :: 0 <= j < k ==> c[j] != '='
    ensures KeyOf(c) == Some(c[..k]) && ValueOf(c) == c[k + 1..]
  {
    IndexOfIs(c, '=', k);
  }

  lemma KeyOfA(c: string)
    requires c == "a=b"
    ensures KeyOf(c) == Some("a")
  {
    KeyValue(c, 1);
    assert c[..1] == "a";
  }

  lemma KeyOfC(c: string)
    requires c == "c=d"
    ensures KeyOf(c) == Some("c")
  {
    KeyValue(c, 1);
    assert c[..1] == "c";
  }

  lemma PairLower(c: string)
    requires c == "lb=deadbeef"
    ensures KeyOf(c) == Some("lb") && ValueOf(c) == "deadbeef"
  {
    KeyValue(c, 2);
    assert c[..2] == "lb" && c[3..] == "deadbeef";
  }

  lemma PairUpper(c: string)
    requires c == "LB=f1f2f3f4"
    ensures KeyOf(c) == Some("LB") && ValueOf(c) == "f1f2f3f4"
  {
    KeyValue(c, 2);
    assert c[..2] == "LB" && c[3..] == "f1f2f3f4";
  }

  lemma PairShort(c: string)
    requires c == "short=e1e2e3e"
    ensures KeyOf(c) == Some("short") && |ValueOf(c)| == 7
  {
    KeyValue(c, 5);
    assert c[..5] == "short";
  }

  lemma DecodeDeadbeef(s: string)
    requires s == "deadbeef"
    ensures DecodeHex8(s) == Some(0xdeadbeef)
  {
    HexValueOfEight(s);
  }

  lemma DecodeF1f2f3f4(s: string)
    requires s == "f1f2f3f4"
    ensures DecodeHex8(s) == Some(0xf1f2f3f4)
  {
    HexValueOfEight(s);
  }

  lemma KeysOfPairs(cs: seq<string>)
    requires cs == ["a=b", "c=d", "lb=deadbeef", "LB=f1f2f3f4", "short=e1e2e3e"]
    ensures KeyOf(cs[0]) == Some("a") && KeyOf(cs[1]) == Some("c")
    ensures KeyOf(cs[2]) == Some("lb") && KeyOf(cs[3]) == Some("LB") && KeyOf(cs[4]) == Some("short")
    ensures DecodeHex8(ValueOf(cs[2])) == Some(0xdeadbeef)
    ensures DecodeHex8(ValueOf(cs[3])) == Some(0xf1f2f3f4)
    ensures DecodeHex8(ValueOf(cs[4])).None?
  {
    KeyOfA(cs[0]);
    KeyOfC(cs[1]);
    PairLower(cs[2]);
    DecodeDeadbeef(ValueOf(cs[2]));
    PairUpper(cs[3]);
    DecodeF1f2f3f4(ValueOf(cs[3]));
    PairShort(cs[4]);
  }

  /** Among five pairs, the one at `k` is the first keyed `name` when the keys before it differ. */
  lemma FirstOfFive(cs: seq<string>, k0: string, k1: string, k2: string, k3: string, name: string, k: nat)
    requires |cs| == 5 && 2 <= k < 5 && KeyOf(cs[k]) == Some(name)
    requires KeyOf(cs[0]) == Some(k0) && KeyOf(cs[1]) == Some(k1)
    requires KeyOf(cs[2]) == Some(k2) && KeyOf(cs[3]) == Some(k3)
    requires k0 != name && k1 != name && (k > 2 ==> k2 != name) && (k > 3 ==> k3 != name)
    ensures FirstMatch(cs, name) == Some(k)
  {
    FirstMatchIs(cs, name, k);
  }

  lemma AffinityTail(hs: seq<HeaderField>)
    requires AllCrumbs(hs) == ["a=b", "c=d", "lb=deadbeef", "LB=f1f2f3f4", "short=e1e2e3e"]
    ensures FindAffinityCookie(hs, "lb") == 0xdeadbeef
    ensures FindAffinityCookie(hs, "LB") == 0xf1f2f3f4
    ensures FindAffinityCookie(hs, "short") == 0
  {
    var cs := AllCrumbs(hs);
    KeysOfPairs(cs);
    FirstOfFive(cs, "a", "c", "lb", "LB", "lb", 2);
    FirstOfFive(cs, "a", "c", "lb", "LB", "LB", 3);
    FirstOfFive(cs, "a", "c", "lb", "LB", "short", 4);
    AffinityOfMatch(hs, "lb", 2, DecodeHex8(ValueOf(cs[2])));
    AffinityOfMatch(hs, "LB", 3, DecodeHex8(ValueOf(cs[3])));
    AffinityOfMatch(hs, "short", 4, DecodeHex8(ValueOf(cs[4])));
  }

  /**
   * src/shrpx_downstream_test.cc:215-247: "lb" and "LB" are different keys, the empty
   * cookie and the Content-Length field are passed over, and a value one digit short
   * gives 0.
   */
  method TestFindAffinityCookie() returns (lb: nat, upper: nat, short: nat)
    ensures lb == 0xdeadbeef && upper == 0xf1f2f3f4 && short == 0
  {
    var d := new Downstream();
    var fs := d.reqFs;
    ghost var h0 := fs.Headers();
    fs.AddHeaderToken("cookie", "", false, Some(Cookie));
    ghost var h1 := fs.Headers();
    fs.AddHeaderToken("cookie", "a=b;;c=d", false, Some(Cookie));
    ghost var h2 := fs.Headers();
    fs.AddHeaderToken("content-length", "599", false, Some(ContentLength));
    ghost var h3 := fs.Headers();
    fs.AddHeaderToken("cookie", "lb=deadbeef;LB=f1f2f3f4", false, Some(Cookie));
    ghost var h4 := fs.Headers();
    fs.AddHeaderToken("cookie", "short=e1e2e3e", false, Some(Cookie));
    lb := d.AffinityCookie("lb");
    upper := d.AffinityCookie("LB");
    short := d.AffinityCookie("short");
    PairsOfFive(h0, h1, h2, h3, h4, fs.Headers(),
      HeaderField("cookie", "", false, Some(Cookie)), HeaderField("cookie", "a=b;;c=d", false, Some(Cookie)),
      HeaderField("content-length", "599", false, Some(ContentLength)),
      HeaderField("cookie", "lb=deadbeef;LB=f1f2f3f4", false, Some(Cookie)),
      HeaderField("cookie", "short=e1e2e3e", false, Some(Cookie)));
    PairsTail("", "a=b;;c=d", "lb=deadbeef;LB=f1f2f3f4", "short=e1e2e3e");
    AffinityTail(fs.Headers());
  }
}
