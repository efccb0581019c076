/**
 * FieldStore: the ordered, append-only header list of one request or response. Fields
 * arrive whole (AddHeaderToken, which keeps the caller's strings) or piece by piece
 * while a header is split over parser callbacks (AllocAddHeaderName, then
 * AppendLastHeaderKey / AppendLastHeaderValue, which copy into the BlockAllocator).
 */
module Store {
  import opened Optional
  import opened Strings
  import opened Headers
  import opened Allocator

  /** A string a field refers to: the caller's own bytes, or bytes in the arena. */
  datatype Str = Lit(s: string) | Ref(v: View)

  datatype Field = Field(name: Str, value: Str, noIndex: bool, token: Option<Token>)

  predicate StrIn(blocks: seq<seq<char>>, x: Str)
  {
    x.Ref? ==> InBounds(blocks, x.v)
  }

  ghost predicate StrLive(regions: set<Region>, x: Str)
  {
    x.Ref? ==> LiveIn(regions, x.v)
  }

  function Resolve(blocks: seq<seq<char>>, x: Str): string
    requires StrIn(blocks, x)
  {
    match x
    case Lit(s) => s
    case Ref(v) => Text(blocks, v)
  }

  predicate FieldIn(blocks: seq<seq<char>>, f: Field)
  {
    StrIn(blocks, f.name) && StrIn(blocks, f.value)
  }

  function ResolveField(blocks: seq<seq<char>>, f: Field): HeaderField
    requires FieldIn(blocks, f)
  {
    HeaderField(Resolve(blocks, f.name), Resolve(blocks, f.value), f.noIndex, f.token)
  }

  /** The header list as the rest of the proxy reads it. */
  function ResolveAll(blocks: seq<seq<char>>, fs: seq<Field>): (r: seq<HeaderField>)
    requires forall i :: 0 <= i < |fs| ==> FieldIn(blocks, fs[i])
    ensures |r| == |fs|
    ensures forall i :: 0 <= i < |fs| ==> r[i] == ResolveField(blocks, fs[i])
  {
    seq(|fs|, i requires 0 <= i < |fs| => ResolveField(blocks, fs[i]))
  }

  /** Field `f` refers to allocation `r`. */
  predicate Uses(f: Field, r: Region)
  {
    (f.name.Ref? && RegionOf(f.name.v) == r) || (f.value.Ref? && RegionOf(f.value.v) == r)
  }

  /**
   * The last field can still grow: its name (and its value, once it has one) lie in
   * allocations no other field refers to.
   */
  predicate OpenLast(hs: seq<Field>)
  {
    && |hs| > 0
    && var last := hs[|hs| - 1];
    && last.name.Ref?
    && (last.value.Ref? || last.value == Lit([]))
    && (last.value.Ref? ==> RegionOf(last.value.v) != RegionOf(last.name.v))
    && (forall i :: 0 <= i < |hs| - 1 ==> !Uses(hs[i], RegionOf(last.name.v)))
    && (last.value.Ref? ==> forall i :: 0 <= i < |hs| - 1 ==> !Uses(hs[i], RegionOf(last.value.v)))
  }

  ghost predicate AllLive(regions: set<Region>, hs: seq<Field>)
  {
    forall i :: 0 <= i < |hs| ==> StrLive(regions, hs[i].name) && StrLive(regions, hs[i].value)
  }

  /** `y` replaces `x` in place: the same allocation, or one that did not exist before. */
  ghost predicate Succeeds(x: Str, y: Str, oldRegions: set<Region>)
  {
    y == x || (y.Ref? && ((x.Ref? && RegionOf(y.v) == RegionOf(x.v)) || RegionOf(y.v) !in oldRegions))
  }

  /** Growing the open field's name or value keeps the store's invariant. */
  lemma ReplaceLast(hs: seq<Field>, f: Field, oldRegions: set<Region>, newRegions: set<Region>)
    requires OpenLast(hs) && AllLive(oldRegions, hs) && oldRegions <= newRegions
    requires f.name.Ref? && (f.value.Ref? || f.value == Lit([]))
    requires StrLive(newRegions, f.name) && StrLive(newRegions, f.value)
    requires f.value.Ref? ==> RegionOf(f.value.v) != RegionOf(f.name.v)
    requires Succeeds(hs[|hs| - 1].name, f.name, oldRegions)
    requires Succeeds(hs[|hs| - 1].value, f.value, oldRegions)
    ensures AllLive(newRegions, hs[..|hs| - 1] + [f]) && OpenLast(hs[..|hs| - 1] + [f])
  {
    var n := |hs| - 1;
    var hs' := hs[..n] + [f];
    forall i | 0 <= i < n
      ensures !Uses(hs'[i], RegionOf(f.name.v))
      ensures f.value.Ref? ==> !Uses(hs'[i], RegionOf(f.value.v))
    {
      assert hs'[i] == hs[i];
    }
  }

  /** A field whose name is a fresh allocation and whose value is still empty can grow. */
  lemma OpenNew(hs: seq<Field>, f: Field, oldRegions: set<Region>, newRegions: set<Region>)
    requires AllLive(oldRegions, hs) && oldRegions <= newRegions
    requires f.name.Ref? && f.value == Lit([]) && LiveIn(newRegions, f.name.v)
    requires RegionOf(f.name.v) !in oldRegions
    ensures AllLive(newRegions, hs + [f]) && OpenLast(hs + [f])
  {
    var hs' := hs + [f];
    forall i | 0 <= i < |hs|
      ensures !Uses(hs'[i], RegionOf(f.name.v))
    {
      assert hs'[i] == hs[i];
    }
  }

  /** Giving any field a value in a fresh allocation keeps the store's invariant. */
  lemma ReplaceValue(hs: seq<Field>, i: nat, v: View, oldRegions: set<Region>, newRegions: set<Region>)
    requires i < |hs| && AllLive(oldRegions, hs) && oldRegions <= newRegions
    requires LiveIn(newRegions, v) && RegionOf(v) !in oldRegions
    ensures AllLive(newRegions, hs[i := hs[i].(value := Ref(v))])
    ensures OpenLast(hs) ==> OpenLast(hs[i := hs[i].(value := Ref(v))])
  {
    var hs' := hs[i := hs[i].(value := Ref(v))];
    var n := |hs| - 1;
    if OpenLast(hs) {
      var last := hs'[n];
      assert RegionOf(last.name.v) in oldRegions;
      forall j | 0 <= j < n
        ensures !Uses(hs'[j], RegionOf(last.name.v))
        ensures last.value.Ref? ==> !Uses(hs'[j], RegionOf(last.value.v))
      {
        if j != i {
          assert hs'[j] == hs[j];
          assert StrLive(oldRegions, hs[j].name) && StrLive(oldRegions, hs[j].value);
        }
      }
    }
  }

  lemma ResolveAppend(blocks: seq<seq<char>>, hs: seq<Field>, f: Field)
    requires forall i :: 0 <= i < |hs| ==> FieldIn(blocks, hs[i])
    requires FieldIn(blocks, f)
    ensures ResolveAll(blocks, hs + [f]) == ResolveAll(blocks, hs) + [ResolveField(blocks, f)]
  {
  }

  lemma ResolveUpdate(blocks: seq<seq<char>>, hs: seq<Field>, i: nat, f: Field)
    requires forall j :: 0 <= j < |hs| ==> FieldIn(blocks, hs[j])
    requires i < |hs| && FieldIn(blocks, f)
    ensures ResolveAll(blocks, hs[i := f]) == ResolveAll(blocks, hs)[i := ResolveField(blocks, f)]
  {
  }

  lemma ResolvePrefix(blocks: seq<seq<char>>, hs: seq<Field>, n: nat)
    requires forall j :: 0 <= j < |hs| ==> FieldIn(blocks, hs[j])
    requires n <= |hs|
    ensures ResolveAll(blocks, hs[..n]) == ResolveAll(blocks, hs)[..n]
  {
  }

  /**
   * Fields whose strings lie outside the allocation that changed read the same after
   * the change.
   */
  lemma SameText(oldBlocks: seq<seq<char>>, newBlocks: seq<seq<char>>, hs: seq<Field>, oldRegions: set<Region>, changed: Region)
    requires forall i :: 0 <= i < |hs| ==> StrLive(oldRegions, hs[i].name) && StrLive(oldRegions, hs[i].value)
    requires forall i :: 0 <= i < |hs| ==> !Uses(hs[i], changed)
    requires forall w :: LiveIn(oldRegions, w) && RegionOf(w) != changed ==> Keeps(oldBlocks, newBlocks, w)
    ensures forall i :: 0 <= i < |hs| ==> FieldIn(newBlocks, hs[i]) && FieldIn(oldBlocks, hs[i])
    ensures ResolveAll(newBlocks, hs) == ResolveAll(oldBlocks, hs)
  {
    assert forall i :: 0 <= i < |hs| ==>
      FieldIn(newBlocks, hs[i]) && FieldIn(oldBlocks, hs[i]) &&
      ResolveField(newBlocks, hs[i]) == ResolveField(oldBlocks, hs[i]);
  }

  /**
   * The open field `hs[n]` replaced by `f`, which succeeds its strings, after a change
   * confined to allocation `changed`: one of the open field's own, or a fresh one. The
   * invariant holds of the new list, and it reads as before except for the last field.
   */
  lemma SwapLast(oldBlocks: seq<seq<char>>, newBlocks: seq<seq<char>>, hs: seq<Field>, f: Field,
                 oldRegions: set<Region>, newRegions: set<Region>, changed: Region)
    requires OpenLast(hs) && AllLive(oldRegions, hs) && oldRegions <= newRegions
    requires forall i :: 0 <= i < |hs| ==> FieldIn(oldBlocks, hs[i])
    requires forall w :: LiveIn(oldRegions, w) && RegionOf(w) != changed ==> Keeps(oldBlocks, newBlocks, w)
    requires changed !in oldRegions || Uses(hs[|hs| - 1], changed)
    requires f.name.Ref? && (f.value.Ref? || f.value == Lit([]))
    requires StrLive(newRegions, f.name) && StrLive(newRegions, f.value) && FieldIn(newBlocks, f)
    requires f.value.Ref? ==> RegionOf(f.value.v) != RegionOf(f.name.v)
    requires Succeeds(hs[|hs| - 1].name, f.name, oldRegions)
    requires Succeeds(hs[|hs| - 1].value, f.value, oldRegions)
    ensures AllLive(newRegions, hs[..|hs| - 1] + [f]) && OpenLast(hs[..|hs| - 1] + [f])
    ensures forall i :: 0 <= i < |hs| - 1 ==> FieldIn(newBlocks, hs[i])
    ensures ResolveAll(newBlocks, hs[..|hs| - 1] + [f]) ==
      ResolveAll(oldBlocks, hs)[..|hs| - 1] + [ResolveField(newBlocks, f)]
  {
    var n := |hs| - 1;
    var prefix := hs[..n];
    ResolvePrefix(oldBlocks, hs, n);
    forall i | 0 <= i < |prefix|
      ensures StrLive(oldRegions, prefix[i].name) && StrLive(oldRegions, prefix[i].value)
      ensures !Uses(prefix[i], changed)
    {
      assert prefix[i] == hs[i];
    }
    SameText(oldBlocks, newBlocks, prefix, oldRegions, changed);
    ReplaceLast(hs, f, oldRegions, newRegions);
    ResolveAppend(newBlocks, prefix, f);
  }

  class FieldStore {
    const balloc: BlockAllocator
    var headers: seq<Field>
    /** header_key_prev_: the last callback appended to a name. */
    var keyPrev: bool
    /** The last field was begun by AllocAddHeaderName and nothing was added after it. */
    ghost var open: bool

    ghost predicate Valid()
      reads this, balloc
    {
      && balloc.Valid()
      && AllLive(balloc.regions, headers)
      && (open ==> OpenLast(headers))
    }

    /** FieldStore::headers(). */
    function Headers(): (r: seq<HeaderField>)
      reads this, balloc
      requires Valid()
      ensures |r| == |headers|
    {
      ResolveAll(balloc.blocks, headers)
    }

    /** The arena view of the name being built. */
    function NameView(): View
      reads this
      requires |headers| > 0 && headers[|headers| - 1].name.Ref?
    {
      headers[|headers| - 1].name.v
    }

    /** The arena view of the value being built. */
    function ValueView(): View
      reads this
      requires |headers| > 0 && headers[|headers| - 1].value.Ref?
    {
      headers[|headers| - 1].value.v
    }

    constructor (balloc: BlockAllocator)
      requires balloc.Valid()
      ensures Valid() && this.balloc == balloc
      ensures Headers() == [] && !keyPrev && !open
    {
      this.balloc := balloc;
      headers := [];
      keyPrev := false;
      open := false;
    }

    /**
     * alloc_add_header_name: begins a field whose name is `name` copied into the arena
     * and lower-cased, with an empty value; `lookup` is the token table.
     */
    method AllocAddHeaderName(name: string, lookup: string -> Option<Token>)
      requires Valid()
      modifies this, balloc
      ensures Valid() && open && keyPrev
      ensures Headers() == old(Headers()) + [HeaderField(LowerStr(name), [], false, lookup(LowerStr(name)))]
      ensures NameView().len == |name| && NameView().cap == |name| + 1
      ensures headers[|headers| - 1].value == Lit([])
    {
      ghost var oldBlocks := balloc.blocks;
      ghost var oldRegions := balloc.regions;
      var lowered := LowerStr(name);
      var v := balloc.AllocCopy(lowered);
      SameText(oldBlocks, balloc.blocks, headers, oldRegions, RegionOf(v));
      var f := Field(Ref(v), Lit([]), false, lookup(lowered));
      ResolveAppend(balloc.blocks, headers, f);
      OpenNew(headers, f, oldRegions, balloc.regions);
      headers := headers + [f];
      keyPrev, open := true, true;
    }

    /**
     * append_last_header_key: the next piece of the open field's name, lower-cased and
     * appended; the token is looked up again for the longer name.
     */
    method AppendLastHeaderKey(data: string, lookup: string -> Option<Token>)
      requires Valid() && open && keyPrev
      modifies this, balloc
      ensures Valid() && open && keyPrev && |headers| == old(|headers|)
      ensures var n := |headers| - 1;
        var last := old(Headers())[n];
        Headers() == old(Headers())[..n] + [last.(name := last.name + LowerStr(data), token := lookup(last.name + LowerStr(data)))]
      ensures NameView().len == old(NameView()).len + |data|
      ensures NameView().cap == GrownCap(old(NameView()), |data|)
      ensures headers[|headers| - 1].value == old(headers[|headers| - 1].value)
    {
      ghost var oldBlocks := balloc.blocks;
      ghost var oldRegions := balloc.regions;
      var n := |headers| - 1;
      var last := headers[n];
      var lowered := LowerStr(data);
      var v := balloc.Concat(last.name.v, lowered);
      var name := Text(balloc.blocks, v);
      assert name == Resolve(oldBlocks, last.name) + lowered;
      var f := last.(name := Ref(v), token := lookup(name));
      if last.value.Ref? {
        assert Keeps(oldBlocks, balloc.blocks, last.value.v);
      }
      SwapLast(oldBlocks, balloc.blocks, headers, f, oldRegions, balloc.regions, RegionOf(last.name.v));
      headers := headers[..n] + [f];
      keyPrev := true;
    }

    /** append_last_header_value: the next piece of the open field's value, appended as it is. */
    method AppendLastHeaderValue(data: string)
      requires Valid() && open
      modifies this, balloc
      ensures Valid() && open && !keyPrev && |headers| == old(|headers|)
      ensures var n := |headers| - 1;
        var last := old(Headers())[n];
        Headers() == old(Headers())[..n] + [last.(value := last.value + data)]
      ensures headers[|headers| - 1].value.Ref?
      ensures ValueView().len == |old(Headers())[|headers| - 1].value| + |data|
      ensures old(headers[|headers| - 1].value).Ref? ==> ValueView().cap == GrownCap(old(ValueView()), |data|)
      ensures old(headers[|headers| - 1].value).Lit? ==> ValueView().cap == |data| + 1
    {
      ghost var oldBlocks := balloc.blocks;
      ghost var oldRegions := balloc.regions;
      var n := |headers| - 1;
      var last := headers[n];
      var v: View;
      ghost var changed: Region;
      if last.value.Lit? {
        v := balloc.AllocCopy(data);
        changed := RegionOf(v);
        assert last.value.s + data == data;
      } else {
        v := balloc.Concat(last.value.v, data);
        changed := RegionOf(last.value.v);
      }
      assert Text(balloc.blocks, v) == Resolve(oldBlocks, last.value) + data;
      assert Keeps(oldBlocks, balloc.blocks, last.name.v);
      var f := last.(value := Ref(v));
      SwapLast(oldBlocks, balloc.blocks, headers, f, oldRegions, balloc.regions, changed);
      headers := headers[..n] + [f];
      keyPrev := false;
    }

    /**
     * add_header_token: appends a complete field that keeps the caller's strings; no
     * field is open afterwards.
     */
    method AddHeaderToken(name: string, value: string, noIndex: bool, token: Option<Token>)
      requires Valid()
      modifies this
      ensures Valid() && !open && keyPrev == old(keyPrev)
      ensures Headers() == old(Headers()) + [HeaderField(name, value, noIndex, token)]
    {
      var f := Field(Lit(name), Lit(value), noIndex, token);
      ResolveAppend(balloc.blocks, headers, f);
      headers := headers + [f];
      open := false;
    }

    /**
     * The assignment `hd->value = ...` made through the pointer that header() returns:
     * field `i` takes `value`, copied into the arena; nothing else changes.
     */
    method RewriteValue(i: nat, value: string)
      requires Valid() && i < |headers|
      modifies this, balloc
      ensures Valid() && open == old(open) && keyPrev == old(keyPrev)
      ensures Headers() == old(Headers())[i := old(Headers())[i].(value := value)]
    {
      ghost var oldBlocks := balloc.blocks;
      ghost var oldRegions := balloc.regions;
      var v := balloc.AllocCopy(value);
      SameText(oldBlocks, balloc.blocks, headers, oldRegions, RegionOf(v));
      var f := headers[i].(value := Ref(v));
      ReplaceValue(headers, i, v, oldRegions, balloc.regions);
      ResolveUpdate(balloc.blocks, headers, i, f);
      headers := headers[i := f];
    }

    /** FieldStore::header(token): the first field with token `t`. */
    function HeaderByToken(t: Token): (r: Option<HeaderField>)
      reads this, balloc
      requires Valid()
      ensures r.Some? ==> r.value.token == Some(t) && r.value in Headers()
      ensures r.None? <==> forall j :: 0 <= j < |Headers()| ==> Headers()[j].token != Some(t)
    {
      FieldAt(Headers(), FindByToken(Headers(), t))
    }

    /** FieldStore::header(name): the first field whose name is exactly `name`. */
    function HeaderByName(name: string): (r: Option<HeaderField>)
      reads this, balloc
      requires Valid()
      ensures r.Some? ==> r.value.name == name && r.value in Headers()
      ensures r.None? <==> forall j :: 0 <= j < |Headers()| ==> Headers()[j].name != name
    {
      FieldAt(Headers(), FindByName(Headers(), name))
    }
  }
}
