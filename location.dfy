/**
 * Location rewriting: a redirect (section 7.1.2 of RFC 7231) that names the backend
 * host is made to name the host the client used instead, so that the proxy's internal
 * topology does not leak. Only absolute `scheme://authority rest` values are handled.
 */
module Location {
  import opened Optional
  import opened Strings
  import opened Headers

  /** An absolute URI split into scheme, authority and the rest (path, query, fragment). */
  datatype Uri = Uri(scheme: string, authority: string, rest: string)

  /** A scheme byte, following section 3.1 of RFC 3986. */
  predicate IsSchemeChar(c: char)
  {
    ('a' <= c <= 'z') || ('A' <= c <= 'Z') || ('0' <= c <= '9') || c == '+' || c == '-' || c == '.'
  }

  predicate IsAlpha(c: char)
  {
    ('a' <= c <= 'z') || ('A' <= c <= 'Z')
  }

  /** The bytes that end an authority (section 3.2 of RFC 3986). */
  predicate EndsAuthority(c: char)
  {
    c == '/' || c == '?' || c == '#'
  }

  predicate IsScheme(s: string)
  {
    s != [] && IsAlpha(s[0]) && forall i :: 0 <= i < |s| ==> IsSchemeChar(s[i])
  }

  /** The host of an authority: what precedes its first ':', so the port plays no part. */
  function HostOf(authority: string): string
  {
    authority[..IndexOf(authority, ':')]
  }

  predicate IsAuthority(a: string)
  {
    HostOf(a) != [] && forall i :: 0 <= i < |a| ==> !EndsAuthority(a[i])
  }

  predicate WellFormed(u: Uri)
  {
    IsScheme(u.scheme) && IsAuthority(u.authority) && (u.rest == [] || EndsAuthority(u.rest[0]))
  }

  function Render(u: Uri): string
  {
    u.scheme + "://" + u.authority + u.rest
  }

  /** The length of the authority at the start of `s`. */
  function AuthorityLength(s: string): (k: nat)
    ensures k <= |s|
    ensures forall j :: 0 <= j < k ==> !EndsAuthority(s[j])
    ensures k < |s| ==> EndsAuthority(s[k])
  {
    if s == [] || EndsAuthority(s[0]) then 0 else 1 + AuthorityLength(s[1..])
  }

  /** Reads an absolute URI; None for anything else (a relative reference, a missing host). */
  function Parse(s: string): (r: Option<Uri>)
    ensures r.Some? ==> WellFormed(r.value) && Render(r.value) == s
  {
    var i := IndexOf(s, ':');
    if i + 3 > |s| || s[i..i + 3] != "://" || !IsScheme(s[..i]) then None
    else
      var after := s[i + 3..];
      var k := AuthorityLength(after);
      var u := Uri(s[..i], after[..k], after[k..]);
      if HostOf(u.authority) == [] then None
      else
        assert Render(u) == s by {
          assert s == s[..i] + s[i..i + 3] + after;
          assert after == after[..k] + after[k..];
        }
        Some(u)
  }

  lemma AuthorityLengthOf(a: string, rest: string)
    requires forall i :: 0 <= i < |a| ==> !EndsAuthority(a[i])
    requires rest == [] || EndsAuthority(rest[0])
    ensures AuthorityLength(a + rest) == |a|
  {
    var s := a + rest;
    var k := AuthorityLength(s);
    assert forall j :: 0 <= j < |a| ==> s[j] == a[j];
    if rest != [] {
      assert s[|a|] == rest[0];
    }
  }

  /** A scheme followed by text that starts with ':': the first ':' is the one after the scheme. */
  lemma SchemeThen(scheme: string, tail: string)
    requires forall j :: 0 <= j < |scheme| ==> IsSchemeChar(scheme[j])
    requires 3 <= |tail| && tail[0] == ':'
    ensures var s := scheme + tail; var i := |scheme|;
      IndexOf(s, ':') == i && s[..i] == scheme && s[i..i + 3] == tail[..3] && s[i + 3..] == tail[3..]
  {
    assert IndexOf(scheme, ':') == |scheme|;
    IndexOfAppend(scheme, tail, ':');
    assert IndexOf(tail, ':') == 0;
    var s := scheme + tail;
    var i := |scheme|;
    assert s[i..] == tail;
    assert s[i..i + 3] == tail[..3];
  }

  /** The separator between scheme and authority. */
  lemma SepThen(x: string)
    ensures var t := "://" + x; 3 <= |t| && t[0] == ':' && t[..3] == "://" && t[3..] == x
  {
  }

  /** Where the pieces of a rendered URI sit in the text. */
  lemma RenderParts(u: Uri)
    requires WellFormed(u)
    ensures var s := Render(u); var i := |u.scheme|;
      IndexOf(s, ':') == i && i + 3 <= |s| && s[..i] == u.scheme && s[i..i + 3] == "://" &&
      s[i + 3..] == u.authority + u.rest
  {
    var tail := "://" + (u.authority + u.rest);
    SepThen(u.authority + u.rest);
    SchemeThen(u.scheme, tail);
    assert Render(u) == u.scheme + tail;
  }

  /** Parsing a rendered well-formed URI gives it back. */
  lemma ParseRender(u: Uri)
    requires WellFormed(u)
    ensures Parse(Render(u)) == Some(u)
  {
    var s := Render(u);
    RenderParts(u);
    var after := s[|u.scheme| + 3..];
    AuthorityLengthOf(u.authority, u.rest);
    assert after[..|u.authority|] == u.authority;
    assert after[|u.authority|..] == u.rest;
  }

  /**
   * http2::rewrite_location_uri: when the Location value is an absolute URI whose host
   * is the backend's host (ports disregarded), the same URI with the client's scheme
   * and authority; None when the value is to stay as it is.
   */
  function RewriteLocationUri(value: string, downstreamHost: string, authority: string, scheme: string): (r: Option<string>)
    ensures r.Some? <==> Parse(value).Some? && HostOf(Parse(value).value.authority) == HostOf(downstreamHost)
    ensures r.Some? ==> r.value == scheme + "://" + authority + Parse(value).value.rest
  {
    match Parse(value)
    case None => None
    case Some(u) =>
      if HostOf(u.authority) == HostOf(downstreamHost) then Some(Render(Uri(scheme, authority, u.rest)))
      else None
  }

  /**
   * Downstream::rewrite_location_response_header on a response's fields: the first
   * Location field takes the rewritten value; nothing changes when there is no Location
   * field, when the backend host or the request authority is unknown (empty), or when
   * the value does not point at the backend.
   */
  function RewriteLocation(hs: seq<HeaderField>, authority: string, downstreamHost: string, scheme: string): (r: seq<HeaderField>)
    ensures |r| == |hs|
    ensures forall j :: 0 <= j < |hs| ==>
      r[j].name == hs[j].name && r[j].token == hs[j].token && r[j].noIndex == hs[j].noIndex
    ensures forall j :: 0 <= j < |hs| && Some(j) != FindByToken(hs, Location) ==> r[j] == hs[j]
    ensures var f := FindByToken(hs, Location);
      f.Some? && downstreamHost != [] && authority != [] &&
      RewriteLocationUri(hs[f.value].value, downstreamHost, authority, scheme).Some? ==>
        r[f.value].value == RewriteLocationUri(hs[f.value].value, downstreamHost, authority, scheme).value
  {
    match FindByToken(hs, Location)
    case None => hs
    case Some(i) =>
      if downstreamHost == [] || authority == [] then hs
      else
        match RewriteLocationUri(hs[i].value, downstreamHost, authority, scheme)
        case None => hs
        case Some(v) => hs[i := hs[i].(value := v)]
  }

  /** The Location field stays where the token lookup finds it. */
  lemma RewriteKeepsLocationToken(hs: seq<HeaderField>, authority: string, downstreamHost: string, scheme: string)
    ensures FindByToken(RewriteLocation(hs, authority, downstreamHost, scheme), Location) == FindByToken(hs, Location)
  {
    var r := RewriteLocation(hs, authority, downstreamHost, scheme);
    var f := FindByToken(hs, Location);
    if f.Some? {
      assert r[f.value].token == Some(Location);
    } else {
      assert forall j :: 0 <= j < |r| ==> r[j].token == hs[j].token;
    }
  }

  /**
   * When the Location value changes, it is the original value with its scheme and
   * authority replaced by the client's, and its path, query and fragment kept.
   */
  lemma RewrittenValue(hs: seq<HeaderField>, authority: string, downstreamHost: string, scheme: string, i: nat)
    requires i < |hs|
    requires RewriteLocation(hs, authority, downstreamHost, scheme)[i] != hs[i]
    ensures FindByToken(hs, Location) == Some(i)
    ensures downstreamHost != [] && authority != []
    ensures var u := Parse(hs[i].value);
      u.Some? && HostOf(u.value.authority) == HostOf(downstreamHost) &&
      hs[i].value == Render(u.value) &&
      RewriteLocation(hs, authority, downstreamHost, scheme)[i].value == Render(Uri(scheme, authority, u.value.rest))
  {
  }

  /**
   * Rewriting twice is rewriting once, as long as the client's host is not the backend's:
   * the rewritten value no longer points at the backend.
   */
  lemma RewriteIdempotent(hs: seq<HeaderField>, authority: string, downstreamHost: string, scheme: string)
    requires IsScheme(scheme) && IsAuthority(authority)
    requires HostOf(authority) != HostOf(downstreamHost)
    ensures var once := RewriteLocation(hs, authority, downstreamHost, scheme);
      RewriteLocation(once, authority, downstreamHost, scheme) == once
  {
    var once := RewriteLocation(hs, authority, downstreamHost, scheme);
    RewriteKeepsLocationToken(hs, authority, downstreamHost, scheme);
    var f := FindByToken(hs, Location);
    if f.Some? && once[f.value] != hs[f.value] {
      var i := f.value;
      var u := Parse(hs[i].value).value;
      var u' := Uri(scheme, authority, u.rest);
      assert WellFormed(u');
      ParseRender(u');
      assert RewriteLocationUri(once[i].value, downstreamHost, authority, scheme).None?;
    } else if f.Some? {
      assert once == hs;
    }
  }
}
