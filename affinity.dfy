/**
 * Session-affinity cookie extraction: the backend a client was pinned to travels in a
 * cookie whose value is a 32-bit number written as exactly eight hexadecimal digits.
 */
module Affinity {
  import opened Optional
  import opened Strings
  import opened Headers
  import opened Cookies

  // ---------------------------------------------------------------------------
  // Hexadecimal digits

  predicate IsHexDigit(c: char)
  {
    ('0' <= c <= '9') || ('a' <= c <= 'f') || ('A' <= c <= 'F')
  }

  predicate IsHex(s: string)
  {
    forall i :: 0 <= i < |s| ==> IsHexDigit(s[i])
  }

  /** The value of one hexadecimal digit, either case (util::hex_to_uint). */
  function HexDigitValue(c: char): (d: nat)
    requires IsHexDigit(c)
    ensures d < 16
  {
    if '0' <= c <= '9' then c as int - '0' as int
    else if 'a' <= c <= 'f' then c as int - 'a' as int + 10
    else c as int - 'A' as int + 10
  }

  /** The lower-case digit for a value below 16. */
  function HexChar(d: nat): (c: char)
    requires d < 16
    ensures IsHexDigit(c) && IsLowerChar(c) && HexDigitValue(c) == d
  {
    if d < 10 then ('0' as int + d) as char else ('a' as int + d - 10) as char
  }

  function Pow16(n: nat): (p: nat)
    ensures p > 0
  {
    if n == 0 then 1 else 16 * Pow16(n - 1)
  }

  const Two32: nat := 0x1_0000_0000

  lemma Pow16Of8()
    ensures Pow16(8) == Two32
  {
  }

  /** The big-endian value of a string of hexadecimal digits. */
  function HexValue(s: string): (v: nat)
    requires IsHex(s)
    ensures v < Pow16(|s|)
  {
    if s == [] then 0 else HexValue(s[..|s| - 1]) * 16 + HexDigitValue(s[|s| - 1])
  }

  /** `u` written with `n` lower-case hexadecimal digits, most significant first. */
  function EncodeHex(u: nat, n: nat): (s: string)
    ensures |s| == n && IsHex(s)
  {
    if n == 0 then [] else EncodeHex(u / 16, n - 1) + [HexChar(u % 16)]
  }

  /** Reading one more digit shifts the value up by one digit. */
  lemma HexValueSnoc(p: string, c: char)
    requires IsHex(p) && IsHexDigit(c)
    ensures IsHex(p + [c]) && HexValue(p + [c]) == HexValue(p) * 16 + HexDigitValue(c)
  {
    assert (p + [c])[..|p|] == p;
  }

  /** Reading back what was written: every value that fits in `n` digits survives. */
  lemma {:induction false} HexValueOfEncode(u: nat, n: nat)
    requires u < Pow16(n)
    ensures HexValue(EncodeHex(u, n)) == u
  {
    if n > 0 {
      var s := EncodeHex(u, n);
      assert s[..n - 1] == EncodeHex(u / 16, n - 1);
      HexValueOfEncode(u / 16, n - 1);
    }
  }

  /** Writing back what was read gives the digits again, lower-cased. */
  lemma {:induction false} EncodeOfHexValue(s: string)
    requires IsHex(s)
    ensures EncodeHex(HexValue(s), |s|) == LowerStr(s)
  {
    if s != [] {
      var p := s[..|s| - 1];
      var c := s[|s| - 1];
      var v := HexValue(s);
      assert v / 16 == HexValue(p) && v % 16 == HexDigitValue(c);
      EncodeOfHexValue(p);
      assert HexChar(HexDigitValue(c)) == Lower(c);
      assert s == p + [c];
      LowerStrAppend(p, [c]);
    }
  }

  /**
   * The affinity value of a cookie value: Some only for exactly eight hexadecimal digits,
   * read big-endian into a 32-bit number; None for any other length or any other byte.
   */
  function DecodeHex8(s: string): (r: Option<nat>)
    ensures r.Some? <==> |s| == 8 && IsHex(s)
    ensures r.Some? ==> r.value < Two32 && EncodeHex(r.value, 8) == LowerStr(s)
  {
    if |s| == 8 && IsHex(s) then
      Pow16Of8();
      EncodeOfHexValue(s);
      Some(HexValue(s))
    else None
  }

  /** Every 32-bit value has an eight-digit form that decodes back to it. */
  lemma DecodeEncode(u: nat)
    requires u < Two32
    ensures DecodeHex8(EncodeHex(u, 8)) == Some(u)
  {
    Pow16Of8();
    HexValueOfEncode(u, 8);
  }

  // ---------------------------------------------------------------------------
  // Finding the affinity cookie

  /** The key of a cookie-pair: what precedes its first '='; None when it has no '='. */
  function KeyOf(crumb: string): (r: Option<string>)
    ensures r.Some? <==> '=' in crumb
    ensures r.Some? ==> r.value <= crumb && '=' !in r.value && crumb[|r.value|] == '='
  {
    var k := IndexOf(crumb, '=');
    if k < |crumb| then Some(crumb[..k]) else None
  }

  /** The value of a cookie-pair that has a key: what follows its first '='. */
  function ValueOf(crumb: string): string
    requires '=' in crumb
  {
    crumb[IndexOf(crumb, '=') + 1..]
  }

  /**
   * The cookie-pairs of every Cookie field, in field order, then left to right. A pair is
   * read as a cookie crumb, so it never starts with ' ' or ';' and never holds a ';'.
   */
  function AllCrumbs(hs: seq<HeaderField>): (r: seq<string>)
    ensures forall i :: 0 <= i < |r| ==> IsCrumb(r[i])
  {
    if hs == [] then []
    else
      CrumbsAreCrumbs(hs[0].value);
      (if IsCookie(hs[0]) then Crumbs(hs[0].value) else []) + AllCrumbs(hs[1..])
  }

  /** The position of the first pair whose key is byte-equal to `name`. */
  function FirstMatch(cs: seq<string>, name: string): (r: Option<nat>)
    ensures r.Some? ==> r.value < |cs| && KeyOf(cs[r.value]) == Some(name)
    ensures r.Some? ==> forall j :: 0 <= j < r.value ==> KeyOf(cs[j]) != Some(name)
    ensures r.None? <==> forall j :: 0 <= j < |cs| ==> KeyOf(cs[j]) != Some(name)
  {
    if cs == [] then None
    else if KeyOf(cs[0]) == Some(name) then Some(0)
    else match FirstMatch(cs[1..], name)
      case None => None
      case Some(k) => Some(k + 1)
  }

  /**
   * Downstream::find_affinity_cookie: the eight-digit value of the first pair named
   * `name`, or 0 when there is no such pair or its value is malformed. Only the first
   * pair with that key is looked at; a later well-formed one does not count.
   */
  function FindAffinityCookie(hs: seq<HeaderField>, name: string): (r: nat)
    ensures r < Two32
    ensures r != 0 ==> var m := FirstMatch(AllCrumbs(hs), name);
      m.Some? && DecodeHex8(ValueOf(AllCrumbs(hs)[m.value])) == Some(r)
    ensures FirstMatch(AllCrumbs(hs), name).None? ==> r == 0
  {
    var cs := AllCrumbs(hs);
    match FirstMatch(cs, name)
    case None => 0
    case Some(i) =>
      match DecodeHex8(ValueOf(cs[i]))
      case None => 0
      case Some(v) => v
  }

  // ---------------------------------------------------------------------------
  // Properties

  lemma {:induction false} AllCrumbsConcat(hs: seq<HeaderField>, more: seq<HeaderField>)
    ensures AllCrumbs(hs + more) == AllCrumbs(hs) + AllCrumbs(more)
  {
    if hs == [] {
      assert hs + more == more;
    } else {
      assert (hs + more)[1..] == hs[1..] + more;
      AllCrumbsConcat(hs[1..], more);
    }
  }

  /** One more field adds its cookie-pairs, if it is a Cookie field, at the end. */
  lemma AllCrumbsAppend(hs: seq<HeaderField>, f: HeaderField)
    ensures AllCrumbs(hs + [f]) == AllCrumbs(hs) + (if IsCookie(f) then Crumbs(f.value) else [])
  {
    AllCrumbsConcat(hs, [f]);
    assert [f][1..] == [];
  }

  /** Conversely, the first pair with the key is the one FirstMatch finds. */
  lemma FirstMatchIs(cs: seq<string>, name: string, k: nat)
    requires k < |cs| && KeyOf(cs[k]) == Some(name)
    requires forall j :: 0 <= j < k ==> KeyOf(cs[j]) != Some(name)
    ensures FirstMatch(cs, name) == Some(k)
  {
  }

  /** Once the first pair keyed `name` is known, its decoded value is the answer. */
  lemma AffinityOfMatch(hs: seq<HeaderField>, name: string, k: nat, v: Option<nat>)
    requires FirstMatch(AllCrumbs(hs), name) == Some(k)
    requires DecodeHex8(ValueOf(AllCrumbs(hs)[k])) == v
    ensures v.Some? ==> FindAffinityCookie(hs, name) == v.value
    ensures v.None? ==> FindAffinityCookie(hs, name) == 0
  {
  }

  /**
   * The affinity value of `name` is read from the first pair with that key: its decoded
   * value, or 0 when that value is not eight hexadecimal digits.
   */
  lemma FindAffinityAt(hs: seq<HeaderField>, name: string, k: nat)
    requires k < |AllCrumbs(hs)| && KeyOf(AllCrumbs(hs)[k]) == Some(name)
    requires forall j :: 0 <= j < k ==> KeyOf(AllCrumbs(hs)[j]) != Some(name)
    ensures DecodeHex8(ValueOf(AllCrumbs(hs)[k])).Some? ==>
      FindAffinityCookie(hs, name) == DecodeHex8(ValueOf(AllCrumbs(hs)[k])).value
    ensures DecodeHex8(ValueOf(AllCrumbs(hs)[k])).None? ==> FindAffinityCookie(hs, name) == 0
  {
    FirstMatchIs(AllCrumbs(hs), name, k);
  }

  /** The value of eight hexadecimal digits, digit by digit. */
  lemma {:induction false} HexValueOfEight(s: string)
    requires |s| == 8 && IsHex(s)
    ensures HexValue(s) ==
      ((((((HexDigitValue(s[0]) * 16 + HexDigitValue(s[1])) * 16 + HexDigitValue(s[2])) * 16
        + HexDigitValue(s[3])) * 16 + HexDigitValue(s[4])) * 16 + HexDigitValue(s[5])) * 16
        + HexDigitValue(s[6])) * 16 + HexDigitValue(s[7])
  {
    assert s[..0] == [];
    assert s[..1] == s[..0] + [s[0]];
    HexValueSnoc(s[..0], s[0]);
    assert s[..2] == s[..1] + [s[1]];
    HexValueSnoc(s[..1], s[1]);
    assert s[..3] == s[..2] + [s[2]];
    HexValueSnoc(s[..2], s[2]);
    assert s[..4] == s[..3] + [s[3]];
    HexValueSnoc(s[..3], s[3]);
    assert s[..5] == s[..4] + [s[4]];
    HexValueSnoc(s[..4], s[4]);
    assert s[..6] == s[..5] + [s[5]];
    HexValueSnoc(s[..5], s[5]);
    assert s[..7] == s[..6] + [s[6]];
    HexValueSnoc(s[..6], s[6]);
    assert s[..8] == s[..7] + [s[7]];
    HexValueSnoc(s[..7], s[7]);
    assert s[..8] == s;
  }

  /** The pairs searched are exactly the values crumbling would emit. */
  lemma {:induction false} AllCrumbsAreCrumble(hs: seq<HeaderField>)
    ensures |AllCrumbs(hs)| == |Crumble(hs)|
    ensures forall i :: 0 <= i < |Crumble(hs)| ==> AllCrumbs(hs)[i] == Crumble(hs)[i].value
  {
    if hs != [] {
      AllCrumbsAreCrumble(hs[1..]);
    }
  }

  lemma FirstMatchConcat(a: seq<string>, b: seq<string>, name: string)
    ensures FirstMatch(a + b, name) ==
      if FirstMatch(a, name).Some? then FirstMatch(a, name)
      else match FirstMatch(b, name)
        case None => None
        case Some(k) => Some(|a| + k)
  {
    var ab := a + b;
    if FirstMatch(a, name).Some? {
      var k := FirstMatch(a, name).value;
      assert forall j :: 0 <= j <= k ==> ab[j] == a[j];
      FirstMatchIs(ab, name, k);
    } else if FirstMatch(b, name).Some? {
      var k := FirstMatch(b, name).value;
      forall j | 0 <= j < |a| + k
        ensures KeyOf(ab[j]) != Some(name)
      {
        if j >= |a| {
          assert ab[j] == b[j - |a|];
        }
      }
      assert ab[|a| + k] == b[k];
      FirstMatchIs(ab, name, |a| + k);
    } else {
      forall j | 0 <= j < |ab|
        ensures KeyOf(ab[j]) != Some(name)
      {
        if j >= |a| {
          assert ab[j] == b[j - |a|];
        }
      }
    }
  }

  /** Once a pair with the key is present, later fields cannot change the answer. */
  lemma FindAffinityAppend(hs: seq<HeaderField>, more: seq<HeaderField>, name: string)
    requires FirstMatch(AllCrumbs(hs), name).Some?
    ensures FindAffinityCookie(hs + more, name) == FindAffinityCookie(hs, name)
  {
    AllCrumbsConcat(hs, more);
    FirstMatchConcat(AllCrumbs(hs), AllCrumbs(more), name);
  }

  /** Fields other than Cookie fields are never looked at. */
  lemma FindAffinityIgnoresOthers(hs: seq<HeaderField>, more: seq<HeaderField>, name: string)
    requires forall j :: 0 <= j < |more| ==> !IsCookie(more[j])
    ensures FindAffinityCookie(hs + more, name) == FindAffinityCookie(hs, name)
  {
    AllCrumbsConcat(hs, more);
    assert AllCrumbs(more) == [] by { NoCookieNoCrumbs(more); }
    assert AllCrumbs(hs) + [] == AllCrumbs(hs);
  }

  lemma {:induction false} NoCookieNoCrumbs(hs: seq<HeaderField>)
    requires forall j :: 0 <= j < |hs| ==> !IsCookie(hs[j])
    ensures AllCrumbs(hs) == []
  {
    if hs != [] {
      NoCookieNoCrumbs(hs[1..]);
    }
  }

  /** The pair `name=value` is one crumb whose key is `name` and whose value is `value`. */
  lemma PairParts(name: string, value: string)
    requires name != [] && !IsCookieSep(name[0]) && ';' !in name && '=' !in name
    requires ';' !in value
    ensures var c := name + "=" + value;
      IsCrumb(c) && KeyOf(c) == Some(name) && ValueOf(c) == value
  {
    var c := name + "=" + value;
    assert c == name + ("=" + value);
    assert ';' !in c by {
      assert forall i :: 0 <= i < |c| ==>
        c[i] == (if i < |name| then name[i] else if i == |name| then '=' else value[i - |name| - 1]);
    }
    IndexOfAppend(name, "=" + value, '=');
    assert IndexOf(name, '=') == |name|;
    assert c[..|name|] == name;
  }

  /**
   * Round trip with the cookie a proxy would set: a Cookie field `name=<8 hex digits of u>`
   * after fields that hold no pair with that key yields `u`, whatever follows.
   */
  lemma AffinityOfIssuedCookie(hs: seq<HeaderField>, name: string, u: nat, noIndex: bool, more: seq<HeaderField>)
    requires u < Two32
    requires name != [] && !IsCookieSep(name[0]) && ';' !in name && '=' !in name
    requires FirstMatch(AllCrumbs(hs), name).None?
    ensures var f := HeaderField(CookieName, name + "=" + EncodeHex(u, 8), noIndex, Some(Cookie));
      FindAffinityCookie(hs + [f] + more, name) == u
  {
    var hex := EncodeHex(u, 8);
    var c := name + "=" + hex;
    var f := HeaderField(CookieName, c, noIndex, Some(Cookie));
    assert ';' !in hex by { assert forall i :: 0 <= i < |hex| ==> IsHexDigit(hex[i]); }
    PairParts(name, hex);
    CrumbsOfCrumb(c);
    assert AllCrumbs([f]) == [c] by { assert [f][1..] == []; }
    AllCrumbsConcat(hs, [f]);
    AllCrumbsConcat(hs + [f], more);
    FirstMatchConcat(AllCrumbs(hs), [c], name);
    FirstMatchConcat(AllCrumbs(hs) + [c], AllCrumbs(more), name);
    DecodeEncode(u);
  }
}
