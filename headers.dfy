/**
 * Header fields as the transforms see them: a name, a value, the never-index flag
 * (the never-indexed literal of section 7.1.3 of RFC 7541) and an optional token,
 * the pre-computed classification of a well-known header name.
 */
module Headers {
  import opened Optional

  /** The well-known header names the tests classify; other names carry no token. */
  datatype Token = Authority | Method | Path | ContentLength | Cookie | Location

  datatype HeaderField = HeaderField(name: string, value: string, noIndex: bool, token: Option<Token>)

  /** The position of the first field carrying token `t`, or None (FieldStore::header(token)). */
  function FindByToken(hs: seq<HeaderField>, t: Token): (r: Option<nat>)
    ensures r.Some? ==> r.value < |hs| && hs[r.value].token == Some(t)
    ensures r.Some? ==> forall j :: 0 <= j < r.value ==> hs[j].token != Some(t)
    ensures r.None? <==> forall j :: 0 <= j < |hs| ==> hs[j].token != Some(t)
  {
    if hs == [] then None
    else if hs[0].token == Some(t) then Some(0)
    else match FindByToken(hs[1..], t)
      case None => None
      case Some(k) => Some(k + 1)
  }

  /** The position of the first field whose name is byte-equal to `name`, or None. */
  function FindByName(hs: seq<HeaderField>, name: string): (r: Option<nat>)
    ensures r.Some? ==> r.value < |hs| && hs[r.value].name == name
    ensures r.Some? ==> forall j :: 0 <= j < r.value ==> hs[j].name != name
    ensures r.None? <==> forall j :: 0 <= j < |hs| ==> hs[j].name != name
  {
    if hs == [] then None
    else if hs[0].name == name then Some(0)
    else match FindByName(hs[1..], name)
      case None => None
      case Some(k) => Some(k + 1)
  }

  /** The field at a found position, as the pointer returned by FieldStore::header. */
  function FieldAt(hs: seq<HeaderField>, r: Option<nat>): Option<HeaderField>
  {
    if r.Some? && r.value < |hs| then Some(hs[r.value]) else None
  }

  /** Appending fields never changes what an earlier match found. */
  lemma {:induction false} FindByTokenAppend(hs: seq<HeaderField>, more: seq<HeaderField>, t: Token)
    requires FindByToken(hs, t).Some?
    ensures FindByToken(hs + more, t) == FindByToken(hs, t)
  {
    if hs[0].token != Some(t) {
      assert (hs + more)[1..] == hs[1..] + more;
      FindByTokenAppend(hs[1..], more, t);
    }
  }

  lemma {:induction false} FindByNameAppend(hs: seq<HeaderField>, more: seq<HeaderField>, name: string)
    requires FindByName(hs, name).Some?
    ensures FindByName(hs + more, name) == FindByName(hs, name)
  {
    if hs[0].name != name {
      assert (hs + more)[1..] == hs[1..] + more;
      FindByNameAppend(hs[1..], more, name);
    }
  }
}
