/**
 * Cookie crumbling and assembly: the split of one Cookie header into one field per
 * cookie-pair and the join back into one value, as section 8.1.2.5 of RFC 7540
 * (section 8.2.3 of RFC 9113) describes them.
 */
module Cookies {
  import opened Optional
  import opened Strings
  import opened Headers

  const CookieName: string := "cookie"

  /** One header entry handed to the HTTP/2 encoder (an nghttp2_nv without its flag bits). */
  datatype Nv = Nv(name: string, value: string, noIndex: bool)

  /** The bytes skipped between crumbs. */
  predicate IsCookieSep(c: char)
  {
    c == ' ' || c == ';'
  }

  predicate IsCookie(f: HeaderField)
  {
    f.token == Some(Cookie)
  }

  /** A cookie-pair on its own: not empty, no ';', and not starting with a separator. */
  predicate IsCrumb(p: string)
  {
    p != [] && !IsCookieSep(p[0]) && ';' !in p
  }

  // ---------------------------------------------------------------------------
  // Crumbs of one value

  /**
   * The crumbs of one cookie value, left to right: skip every ' ' and ';', then take
   * everything up to the next ';'.
   */
  function Crumbs(w: string): seq<string>
    decreases |w|
  {
    if w == [] then []
    else if IsCookieSep(w[0]) then Crumbs(w[1..])
    else
      var k := IndexOf(w, ';');
      assert k > 0;
      [w[..k]] + Crumbs(w[k..])
  }

  /** Every crumb is a cookie-pair on its own: not empty, no ';', no leading separator. */
  lemma {:induction false} CrumbsAreCrumbs(w: string)
    ensures forall i :: 0 <= i < |Crumbs(w)| ==> IsCrumb(Crumbs(w)[i])
    decreases |w|
  {
    if w == [] {
    } else if IsCookieSep(w[0]) {
      CrumbsAreCrumbs(w[1..]);
    } else {
      var k := IndexOf(w, ';');
      CrumbsAreCrumbs(w[k..]);
      assert ';' !in w[..k];
    }
  }

  /** The number of crumbs of one value, counted the way count_crumble_request_cookie scans. */
  function CountCrumbs(w: string): nat
    decreases |w|
  {
    if w == [] then 0
    else if IsCookieSep(w[0]) then CountCrumbs(w[1..])
    else
      var k := IndexOf(w, ';');
      assert k > 0;
      1 + CountCrumbs(w[k..])
  }

  lemma {:induction false} CountCrumbsIsLength(w: string)
    ensures CountCrumbs(w) == |Crumbs(w)|
    decreases |w|
  {
    if w == [] {
    } else if IsCookieSep(w[0]) {
      CountCrumbsIsLength(w[1..]);
    } else {
      var k := IndexOf(w, ';');
      CountCrumbsIsLength(w[k..]);
    }
  }

  /** The length of the run of ' ' and ';' that `w` starts with (std::find_if). */
  function SepRun(w: string): (k: nat)
    ensures k <= |w|
    ensures forall j :: 0 <= j < k ==> IsCookieSep(w[j])
    ensures k < |w| ==> !IsCookieSep(w[k])
  {
    if w != [] && IsCookieSep(w[0]) then 1 + SepRun(w[1..]) else 0
  }

  /** Skipping a run of separators does not change the crumbs. */
  lemma {:induction false} CrumbsAfterSeps(w: string)
    ensures Crumbs(w) == Crumbs(w[SepRun(w)..])
    decreases |w|
  {
    if w != [] && IsCookieSep(w[0]) {
      CrumbsAfterSeps(w[1..]);
      assert w[1..][SepRun(w[1..])..] == w[SepRun(w)..];
    }
  }

  /** A ';' is a hard boundary: the crumbs of `a;x` are those of `a` followed by those of `x`. */
  lemma {:induction false} CrumbsAcrossSemicolon(a: string, x: string)
    ensures Crumbs(a + [';'] + x) == Crumbs(a) + Crumbs(x)
    decreases |a|
  {
    if a == [] {
      assert a + [';'] + x == [';'] + x;
      assert ([';'] + x)[1..] == x;
    } else if IsCookieSep(a[0]) {
      SepThenSemicolon(a, x);
      CrumbsAcrossSemicolon(a[1..], x);
    } else if IndexOf(a, ';') < |a| {
      var k := IndexOf(a, ';');
      CrumbThenSemicolon(a, x);
      CrumbsAcrossSemicolon(a[k..], x);
      assert [a[..k]] + (Crumbs(a[k..]) + Crumbs(x)) == ([a[..k]] + Crumbs(a[k..])) + Crumbs(x);
    } else {
      LastCrumbThenSemicolon(a, x);
    }
  }

  /** One step of CrumbsAcrossSemicolon: a leading separator is skipped on both sides. */
  lemma SepThenSemicolon(a: string, x: string)
    requires a != [] && IsCookieSep(a[0])
    ensures Crumbs(a + [';'] + x) == Crumbs(a[1..] + [';'] + x)
    ensures Crumbs(a) == Crumbs(a[1..])
  {
    assert (a + [';'] + x)[1..] == a[1..] + [';'] + x;
  }

  /** One step of CrumbsAcrossSemicolon: `a` holds a ';' of its own, so its first crumb ends there. */
  lemma CrumbThenSemicolon(a: string, x: string)
    requires a != [] && !IsCookieSep(a[0]) && IndexOf(a, ';') < |a|
    ensures var k := IndexOf(a, ';');
      Crumbs(a + [';'] + x) == [a[..k]] + Crumbs(a[k..] + [';'] + x) &&
      Crumbs(a) == [a[..k]] + Crumbs(a[k..])
  {
    var w := a + [';'] + x;
    IndexOfAppend(a, [';'] + x, ';');
    assert w == a + ([';'] + x);
    var k := IndexOf(a, ';');
    assert w[..k] == a[..k];
    assert w[k..] == a[k..] + [';'] + x;
  }

  /** The end of CrumbsAcrossSemicolon: `a` is one crumb, ended by the ';' in front of `x`. */
  lemma LastCrumbThenSemicolon(a: string, x: string)
    requires a != [] && !IsCookieSep(a[0]) && IndexOf(a, ';') == |a|
    ensures Crumbs(a + [';'] + x) == Crumbs(a) + Crumbs(x)
  {
    var w := a + [';'] + x;
    var tail := [';'] + x;
    IndexOfAppend(a, tail, ';');
    assert w == a + tail;
    assert IndexOf(tail, ';') == 0;
    var k := |a|;
    assert w[..k] == a;
    assert w[k..] == tail;
    assert tail[1..] == x;
    assert Crumbs(tail) == Crumbs(x);
    assert a[..k] == a && a[k..] == [];
    assert Crumbs(a) == [a] + Crumbs([]);
  }

  /** A leading space never changes the crumbs. */
  lemma CrumbsAfterSpace(x: string)
    ensures Crumbs([' '] + x) == Crumbs(x)
  {
    assert ([' '] + x)[1..] == x;
  }

  /** A leading run of separators never changes the crumbs. */
  lemma {:induction false} CrumbsSkip(w: string, k: nat)
    requires k <= |w| && forall j :: 0 <= j < k ==> IsCookieSep(w[j])
    ensures Crumbs(w) == Crumbs(w[k..])
  {
    if k > 0 {
      CrumbsSkip(w[1..], k - 1);
      assert w[1..][k - 1..] == w[k..];
    }
  }

  /** Separators in front of a value never change its crumbs. */
  lemma CrumbsAfterSepPrefix(s: string, x: string)
    requires forall j :: 0 <= j < |s| ==> IsCookieSep(s[j])
    ensures Crumbs(s + x) == Crumbs(x)
  {
    CrumbsSkip(s + x, |s|);
    assert (s + x)[|s|..] == x;
  }

  /** A cookie-pair followed by ';' is the first crumb. */
  lemma CrumbsCons(p: string, x: string)
    requires IsCrumb(p)
    ensures Crumbs(p + [';'] + x) == [p] + Crumbs(x)
  {
    CrumbsAcrossSemicolon(p, x);
    CrumbsOfCrumb(p);
  }

  // ---------------------------------------------------------------------------
  // A reference definition: split on ';', strip leading spaces, drop empty segments

  /** The segments of `w` between ';' bytes (there is always at least one). */
  function Split(w: string): (r: seq<string>)
    decreases |w|
    ensures |r| >= 1
  {
    var k := IndexOf(w, ';');
    if k == |w| then [w] else [w[..k]] + Split(w[k + 1..])
  }

  function StripLeadingSpaces(s: string): (r: string)
    decreases |s|
  {
    if s != [] && s[0] == ' ' then StripLeadingSpaces(s[1..]) else s
  }

  /** Strips each segment and drops those left empty. */
  function Clean(segs: seq<string>): seq<string>
  {
    if segs == [] then []
    else
      var s := StripLeadingSpaces(segs[0]);
      (if s == [] then [] else [s]) + Clean(segs[1..])
  }

  lemma {:induction false} CleanAppend(a: seq<string>, b: seq<string>)
    ensures Clean(a + b) == Clean(a) + Clean(b)
  {
    if a != [] {
      assert (a + b)[1..] == a[1..] + b;
      CleanAppend(a[1..], b);
    } else {
      assert a + b == b;
    }
  }

  /** A leading ';' ends an empty segment, which cleaning drops. */
  lemma CleanSplitSemicolon(w: string)
    requires w != [] && w[0] == ';'
    ensures Clean(Split(w)) == Clean(Split(w[1..]))
  {
    assert IndexOf(w, ';') == 0;
    assert Split(w) == [[]] + Split(w[1..]);
    CleanAppend([[]], Split(w[1..]));
    assert Clean([[]]) == [];
  }

  /** A leading ' ' is stripped from the segment it begins. */
  lemma CleanSplitSpace(w: string)
    requires w != [] && w[0] == ' '
    ensures Clean(Split(w)) == Clean(Split(w[1..]))
  {
    var k := IndexOf(w, ';');
    var t := w[1..];
    assert IndexOf(t, ';') == k - 1;
    var head, head' := w[..k], t[..k - 1];
    assert head[1..] == head';
    var one: seq<string> := [head];
    var one': seq<string> := [head'];
    assert Clean(one) == Clean(one') by {
      assert one[1..] == one'[1..];
    }
    if k == |w| {
      assert head == w && head' == t;
      assert Split(w) == one && Split(t) == one';
    } else {
      var tail := Split(w[k + 1..]);
      assert t[k..] == w[k + 1..];
      assert Split(w) == one + tail && Split(t) == one' + tail;
      CleanAppend(one, tail);
      CleanAppend(one', tail);
    }
  }

  /** A segment that starts with neither separator is kept whole. */
  lemma CleanSplitCrumb(w: string)
    requires w != [] && !IsCookieSep(w[0])
    ensures var k := IndexOf(w, ';');
      Clean(Split(w)) == [w[..k]] + (if k == |w| then [] else Clean(Split(w[k + 1..])))
  {
    var k := IndexOf(w, ';');
    var head := w[..k];
    assert head[0] == w[0];
    assert StripLeadingSpaces(head) == head;
    var one: seq<string> := [head];
    assert Clean(one) == one by {
      assert one[1..] == [];
    }
    if k == |w| {
      assert head == w;
      assert Split(w) == one;
    } else {
      var tail := Split(w[k + 1..]);
      assert Split(w) == one + tail;
      CleanAppend(one, tail);
    }
  }

  /** Crumbing agrees with the split-strip-drop reading of the cookie grammar. */
  lemma {:induction false} CrumbsAreCleanSplit(w: string)
    ensures Crumbs(w) == Clean(Split(w))
    decreases |w|
  {
    if w == [] {
      assert Split(w) == [[]];
      assert Clean([[]]) == [] + Clean([]);
    } else if w[0] == ';' {
      CleanSplitSemicolon(w);
      CrumbsAreCleanSplit(w[1..]);
    } else if w[0] == ' ' {
      CleanSplitSpace(w);
      CrumbsAreCleanSplit(w[1..]);
    } else {
      var k := IndexOf(w, ';');
      CleanSplitCrumb(w);
      if k < |w| {
        assert w[k..][1..] == w[k + 1..];
        CrumbsAreCleanSplit(w[k + 1..]);
      }
    }
  }

  // ---------------------------------------------------------------------------
  // Crumbling a field list

  function CrumbNvs(cs: seq<string>, noIndex: bool): (r: seq<Nv>)
    ensures |r| == |cs|
    ensures forall i :: 0 <= i < |cs| ==> r[i] == Nv(CookieName, cs[i], noIndex)
  {
    if cs == [] then [] else [Nv(CookieName, cs[0], noIndex)] + CrumbNvs(cs[1..], noIndex)
  }

  /** The entries one field contributes: its crumbs when it is a cookie, nothing otherwise. */
  function FieldCrumbs(f: HeaderField): seq<Nv>
  {
    if IsCookie(f) then CrumbNvs(Crumbs(f.value), f.noIndex) else []
  }

  /**
   * Downstream::crumble_request_cookie: the crumbs of every cookie field, in field order.
   * Every entry is a cookie entry holding one cookie-pair.
   */
  function Crumble(hs: seq<HeaderField>): (r: seq<Nv>)
    ensures forall i :: 0 <= i < |r| ==> r[i].name == CookieName && IsCrumb(r[i].value)
  {
    if hs == [] then []
    else
      CrumbsAreCrumbs(hs[0].value);
      FieldCrumbs(hs[0]) + Crumble(hs[1..])
  }

  /**
   * Downstream::count_crumble_request_cookie, counted without building the crumbs: the
   * number of entries crumbling emits.
   */
  function CountCrumble(hs: seq<HeaderField>): (n: nat)
    ensures n == |Crumble(hs)|
  {
    if hs == [] then 0
    else
      CountCrumbsIsLength(hs[0].value);
      (if IsCookie(hs[0]) then CountCrumbs(hs[0].value) else 0) + CountCrumble(hs[1..])
  }

  /** Crumbling a list extended by one field appends exactly that field's crumbs. */
  lemma {:induction false} CrumbleAppend(hs: seq<HeaderField>, f: HeaderField)
    ensures Crumble(hs + [f]) == Crumble(hs) + FieldCrumbs(f)
  {
    if hs == [] {
      assert [f][1..] == [];
    } else {
      assert (hs + [f])[1..] == hs[1..] + [f];
      CrumbleAppend(hs[1..], f);
    }
  }

  lemma {:induction false} CrumbleConcat(hs: seq<HeaderField>, more: seq<HeaderField>)
    ensures Crumble(hs + more) == Crumble(hs) + Crumble(more)
  {
    if hs == [] {
      assert hs + more == more;
    } else {
      assert (hs + more)[1..] == hs[1..] + more;
      CrumbleConcat(hs[1..], more);
    }
  }

  /**
   * Every entry crumbling emits is named "cookie" and comes from a cookie field whose
   * never-index flag it carries and among whose crumbs its value is.
   */
  lemma {:induction false} CrumbOrigin(hs: seq<HeaderField>, n: nat)
    requires n < |Crumble(hs)|
    ensures Crumble(hs)[n].name == CookieName
    ensures exists i :: (0 <= i < |hs| && IsCookie(hs[i]) &&
      Crumble(hs)[n].noIndex == hs[i].noIndex && Crumble(hs)[n].value in Crumbs(hs[i].value))
  {
    var head := FieldCrumbs(hs[0]);
    if n < |head| {
      assert Crumble(hs)[n] == head[n];
    } else {
      assert Crumble(hs)[n] == Crumble(hs[1..])[n - |head|];
      CrumbOrigin(hs[1..], n - |head|);
      var i :| 0 <= i < |hs[1..]| && IsCookie(hs[1..][i]) &&
        Crumble(hs[1..])[n - |head|].noIndex == hs[1..][i].noIndex &&
        Crumble(hs[1..])[n - |head|].value in Crumbs(hs[1..][i].value);
      assert hs[i + 1] == hs[1..][i];
    }
  }

  // ---------------------------------------------------------------------------
  // Assembly

  /** A value with its trailing run of ' ' and ';' removed. */
  function StripTrailing(v: string): (r: string)
    ensures r <= v
    ensures r == [] || !IsCookieSep(r[|r| - 1])
    ensures forall i :: |r| <= i < |v| ==> IsCookieSep(v[i])
  {
    if v != [] && IsCookieSep(v[|v| - 1]) then StripTrailing(v[..|v| - 1]) else v
  }

  /** Stripping removes exactly a trailing run of separators. */
  lemma {:induction false} StripTrailingOf(p: string, s: string)
    requires p == [] || !IsCookieSep(p[|p| - 1])
    requires forall j :: 0 <= j < |s| ==> IsCookieSep(s[j])
    ensures StripTrailing(p + s) == p
    decreases |s|
  {
    if s == [] {
      assert p + s == p;
    } else {
      var s' := s[..|s| - 1];
      assert (p + s)[..|p + s| - 1] == p + s';
      StripTrailingOf(p, s');
    }
  }

  /** What one field contributes to assembly: its stripped value when it is a non-empty cookie. */
  function PartOf(f: HeaderField): seq<string>
  {
    if IsCookie(f) && f.value != [] then [StripTrailing(f.value)] else []
  }

  /** The stripped values of the cookie fields that are not empty, in field order. */
  function CookieParts(hs: seq<HeaderField>): seq<string>
  {
    if hs == [] then [] else PartOf(hs[0]) + CookieParts(hs[1..])
  }

  /** The parts separated by "; "; crumbling the result gives the crumbs of each part, in order. */
  function Join(parts: seq<string>): (r: string)
    ensures Crumbs(r) == CrumbsAll(parts)
  {
    if parts == [] then []
    else if |parts| == 1 then
      assert parts[1..] == [];
      parts[0]
    else
      var rest := Join(parts[1..]);
      assert parts[0] + "; " + rest == parts[0] + [';'] + ([' '] + rest);
      CrumbsAcrossSemicolon(parts[0], [' '] + rest);
      CrumbsAfterSpace(rest);
      parts[0] + "; " + rest
  }

  /**
   * Downstream::assemble_request_cookie: one Cookie value for an HTTP/1.1 backend.
   * Round trip: crumbling it yields, in field order, the crumbs of each cookie field's
   * stripped value.
   */
  function Assemble(hs: seq<HeaderField>): (r: string)
    ensures Crumbs(r) == CrumbsAll(CookieParts(hs))
  {
    Join(CookieParts(hs))
  }

  function CrumbsAll(parts: seq<string>): seq<string>
  {
    if parts == [] then [] else Crumbs(parts[0]) + CrumbsAll(parts[1..])
  }

  /** A single cookie-pair is its own only crumb. */
  lemma CrumbsOfCrumb(p: string)
    requires IsCrumb(p)
    ensures Crumbs(p) == [p]
  {
    assert IndexOf(p, ';') == |p|;
    assert p[..|p|] == p;
  }

  lemma {:induction false} CrumbsAllOfCrumbs(parts: seq<string>)
    requires forall i :: 0 <= i < |parts| ==> IsCrumb(parts[i])
    ensures CrumbsAll(parts) == parts
  {
    if parts != [] {
      CrumbsOfCrumb(parts[0]);
      CrumbsAllOfCrumbs(parts[1..]);
    }
  }

  /** Round trip from the other side: joining cookie-pairs and crumbling gives them back. */
  lemma JoinThenCrumb(parts: seq<string>)
    requires forall i :: 0 <= i < |parts| ==> IsCrumb(parts[i])
    ensures Crumbs(Join(parts)) == parts
  {
    CrumbsAllOfCrumbs(parts);
  }

  /** Assembly takes the fields one after the other. */
  lemma {:induction false} CookiePartsAppend(hs: seq<HeaderField>, f: HeaderField)
    ensures CookieParts(hs + [f]) == CookieParts(hs) + PartOf(f)
  {
    var w := hs + [f];
    if hs == [] {
      assert w[1..] == [];
    } else {
      assert w[0] == hs[0] && w[1..] == hs[1..] + [f];
      CookiePartsAppend(hs[1..], f);
    }
  }

  /** Fields that are not cookies play no part in assembly. */
  lemma {:induction false} AssembleIgnoresOthers(hs: seq<HeaderField>, f: HeaderField)
    requires !IsCookie(f)
    ensures CookieParts(hs + [f]) == CookieParts(hs)
    ensures Assemble(hs + [f]) == Assemble(hs)
  {
    if hs == [] {
      assert [f][1..] == [];
    } else {
      assert (hs + [f])[1..] == hs[1..] + [f];
      AssembleIgnoresOthers(hs[1..], f);
    }
  }
}
