/**
 * The arena behind a FieldStore: a BlockAllocator hands out byte ranges carved from
 * fixed-size blocks, or a block of their own when they reach the isolation threshold,
 * and can grow the most recent string it returned. A pointer into the arena is
 * modelled as a View: block index, offset, length of the string and the capacity of
 * the allocation it lies in (the size the allocator records next to it). Every
 * allocation reserves one byte more than the string for the terminating NUL.
 */
module Allocator {

  datatype View = View(block: nat, off: nat, len: nat, cap: nat)

  /** An allocation: `cap` bytes at offset `off` of block `block`. */
  datatype Region = Region(block: nat, off: nat, cap: nat)

  function RegionOf(v: View): Region
  {
    Region(v.block, v.off, v.cap)
  }

  predicate Disjoint(r: Region, s: Region)
  {
    r.block != s.block || r.off + r.cap <= s.off || s.off + s.cap <= r.off
  }

  predicate InBounds(blocks: seq<seq<char>>, v: View)
  {
    v.block < |blocks| && v.off + v.len <= |blocks[v.block]|
  }

  /** The string a view designates. */
  function Text(blocks: seq<seq<char>>, v: View): string
    requires InBounds(blocks, v)
  {
    blocks[v.block][v.off..v.off + v.len]
  }

  /** `w` reads the same in both states. */
  predicate Keeps(oldBlocks: seq<seq<char>>, newBlocks: seq<seq<char>>, w: View)
  {
    InBounds(oldBlocks, w) && InBounds(newBlocks, w) && Text(newBlocks, w) == Text(oldBlocks, w)
  }

  /** A view is live when it lies in an allocation, with room left for its NUL. */
  ghost predicate LiveIn(regions: set<Region>, v: View)
  {
    RegionOf(v) in regions && v.len < v.cap
  }

  function Max(a: nat, b: nat): nat
  {
    if a < b then b else a
  }

  function Min(a: nat, b: nat): nat
  {
    if a < b then a else b
  }

  /** Growing `v` by `more` bytes (plus its NUL) no longer fits its allocation. */
  predicate Relocates(v: View, more: nat)
  {
    v.len + more + 1 > v.cap
  }

  /** The capacity of the allocation holding `v` once it has grown by `more` bytes. */
  function GrownCap(v: View, more: nat): nat
  {
    var need := v.len + more + 1;
    if need <= v.cap then v.cap else Max(need + 1, 2 * v.cap)
  }

  /** `data` written into a block at `at`. */
  function Write(blk: seq<char>, at: nat, data: seq<char>): (r: seq<char>)
    requires at + |data| <= |blk|
    ensures |r| == |blk|
    ensures forall i :: 0 <= i < |blk| ==> r[i] == if at <= i < at + |data| then data[i - at] else blk[i]
  {
    blk[..at] + data + blk[at + |data|..]
  }

  /** A write leaves every range it does not touch as it was. */
  lemma WriteElsewhere(blk: seq<char>, at: nat, data: seq<char>, lo: nat, hi: nat)
    requires at + |data| <= |blk| && lo <= hi <= |blk|
    requires hi <= at || at + |data| <= lo
    ensures Write(blk, at, data)[lo..hi] == blk[lo..hi]
  {
    var r := Write(blk, at, data);
    assert forall i :: 0 <= i < hi - lo ==> r[lo..hi][i] == r[lo + i] == blk[lo + i];
  }

  /** A write can be read back. */
  lemma WriteThenRead(blk: seq<char>, at: nat, data: seq<char>, n: nat)
    requires at + |data| <= |blk| && n <= |data|
    ensures Write(blk, at, data)[at..at + n] == data[..n]
  {
    var r := Write(blk, at, data);
    assert forall i :: 0 <= i < n ==> r[at..at + n][i] == r[at + i] == data[i];
  }

  /** A write that starts right after a range extends it. */
  lemma WriteAfter(blk: seq<char>, lo: nat, at: nat, data: seq<char>, n: nat)
    requires lo <= at && at + |data| <= |blk| && n <= |data|
    ensures Write(blk, at, data)[lo..at + n] == blk[lo..at] + data[..n]
  {
    var r := Write(blk, at, data);
    assert forall i :: 0 <= i < at + n - lo ==>
      r[lo..at + n][i] == (blk[lo..at] + data[..n])[i];
  }

  /** A write into one block keeps every view that does not overlap the bytes written. */
  lemma WriteOutside(blocks: seq<seq<char>>, b: nat, at: nat, data: seq<char>, w: View)
    requires b < |blocks| && at + |data| <= |blocks[b]| && InBounds(blocks, w)
    requires w.block != b || w.off + w.len <= at || at + |data| <= w.off
    ensures Keeps(blocks, blocks[b := Write(blocks[b], at, data)], w)
  {
    if w.block == b {
      WriteElsewhere(blocks[b], at, data, w.off, w.off + w.len);
    }
  }

  /** Adding a region disjoint from every region of a pairwise-disjoint set keeps it so. */
  lemma AddDisjoint(regions: set<Region>, r: Region)
    requires forall a, b :: a in regions && b in regions && a != b ==> Disjoint(a, b)
    requires forall a :: a in regions ==> Disjoint(a, r)
    ensures forall a, b :: a in regions + {r} && b in regions + {r} && a != b ==> Disjoint(a, b)
  {
  }

  class BlockAllocator {
    const blockSize: nat
    const isolationThreshold: nat
    /** The contents of every block, oldest first. */
    var blocks: seq<seq<char>>
    /** How much of each block is handed out. */
    var used: seq<nat>
    /** The block small allocations are carved from, when there is one. */
    var hasHead: bool
    var head: nat
    /** Every allocation made so far. */
    ghost var regions: set<Region>

    ghost predicate Valid()
      reads this
    {
      && isolationThreshold <= blockSize
      && |used| == |blocks|
      && (forall b :: 0 <= b < |blocks| ==> used[b] <= |blocks[b]|)
      && (hasHead ==> head < |blocks| && |blocks[head]| == blockSize)
      && (forall r :: r in regions ==> 0 < r.cap && r.block < |blocks| && r.off + r.cap <= used[r.block])
      && (forall r, s :: r in regions && s in regions && r != s ==> Disjoint(r, s))
    }

    constructor (blockSize: nat, isolationThreshold: nat)
      ensures Valid()
      ensures this.blockSize == blockSize
      ensures this.isolationThreshold == Min(blockSize, isolationThreshold)
      ensures blocks == [] && regions == {}
    {
      this.blockSize := blockSize;
      this.isolationThreshold := Min(blockSize, isolationThreshold);
      blocks, used := [], [];
      hasHead, head := false, 0;
      regions := {};
    }

    /**
     * Reserves `n` bytes: a block of their own when `n` reaches the isolation threshold,
     * otherwise the free tail of the head block, starting a new head block when it is
     * too short. No byte already handed out changes.
     */
    method Reserve(n: nat) returns (b: nat, off: nat)
      requires Valid() && 0 < n
      modifies this
      ensures Valid()
      ensures Region(b, off, n) !in old(regions)
      ensures regions == old(regions) + {Region(b, off, n)}
      ensures |blocks| >= old(|blocks|) && blocks[..old(|blocks|)] == old(blocks)
      ensures b < |blocks| && off + n <= |blocks[b]|
    {
      if n >= isolationThreshold {
        blocks := blocks + [seq(n, _ => '\0')];
        used := used + [n];
        b, off := |blocks| - 1, 0;
      } else {
        if !hasHead || blockSize - used[head] < n {
          blocks := blocks + [seq(blockSize, _ => '\0')];
          used := used + [0];
          hasHead, head := true, |blocks| - 1;
        }
        b, off := head, used[head];
        used := used[head := off + n];
      }
      assert forall r :: r in regions ==> Disjoint(r, Region(b, off, n));
      AddDisjoint(regions, Region(b, off, n));
      regions := regions + {Region(b, off, n)};
    }

    /** make_byte_ref followed by a copy: `s` and its NUL in a new allocation. */
    method AllocCopy(s: string) returns (v: View)
      requires Valid()
      modifies this
      ensures Valid()
      ensures v.len == |s| && v.cap == |s| + 1
      ensures LiveIn(regions, v) && Text(blocks, v) == s
      ensures RegionOf(v) !in old(regions) && regions == old(regions) + {RegionOf(v)}
      ensures forall w :: LiveIn(old(regions), w) ==>
        Keeps(old(blocks), blocks, w)
    {
      ghost var oldBlocks := blocks;
      var b, off := Reserve(|s| + 1);
      WriteThenRead(blocks[b], off, s + ['\0'], |s|);
      assert (s + ['\0'])[..|s|] == s;
      forall w | LiveIn(old(regions), w)
        ensures Keeps(oldBlocks, blocks[b := Write(blocks[b], off, s + ['\0'])], w)
      {
        assert Disjoint(RegionOf(w), Region(b, off, |s| + 1));
        WriteOutside(blocks, b, off, s + ['\0'], w);
      }
      blocks := blocks[b := Write(blocks[b], off, s + ['\0'])];
      v := View(b, off, |s|, |s| + 1);
    }

    /**
     * realloc_concat_string_ref: `v` followed by `more`. The string grows where it is
     * when its allocation has room for it and its NUL; otherwise it is copied, with
     * `more`, into a new allocation of at least twice the old capacity. No other
     * allocation, and no shorter view of the same allocation, changes.
     */
    method Concat(v: View, more: string) returns (r: View)
      requires Valid() && LiveIn(regions, v)
      modifies this
      ensures Valid()
      ensures LiveIn(regions, r) && r.len == v.len + |more| && r.cap == GrownCap(v, |more|)
      ensures Text(blocks, r) == Text(old(blocks), v) + more
      ensures !Relocates(v, |more|) ==> r.block == v.block && r.off == v.off && regions == old(regions)
      ensures Relocates(v, |more|) ==> RegionOf(r) !in old(regions) && regions == old(regions) + {RegionOf(r)}
      ensures forall w :: LiveIn(old(regions), w) && (RegionOf(w) != RegionOf(v) || w.len <= v.len) ==>
        Keeps(old(blocks), blocks, w)
    {
      if !Relocates(v, |more|) {
        r := GrowInPlace(v, more);
      } else {
        r := Relocate(v, more);
      }
    }

    /** The in-place half of Concat: `more` and a NUL written after `v` in its allocation. */
    method GrowInPlace(v: View, more: string) returns (r: View)
      requires Valid() && LiveIn(regions, v) && !Relocates(v, |more|)
      modifies this
      ensures Valid() && regions == old(regions)
      ensures r == View(v.block, v.off, v.len + |more|, v.cap)
      ensures InBounds(blocks, r) && Text(blocks, r) == Text(old(blocks), v) + more
      ensures forall w :: LiveIn(old(regions), w) && (RegionOf(w) != RegionOf(v) || w.len <= v.len) ==>
        Keeps(old(blocks), blocks, w)
    {
      ghost var oldBlocks := blocks;
      var data := more + ['\0'];
      assert data[..|more|] == more;
      var at := v.off + v.len;
      var nb := Write(blocks[v.block], at, data);
      WriteAfter(blocks[v.block], v.off, at, data, |more|);
      forall w | LiveIn(regions, w) && (RegionOf(w) != RegionOf(v) || w.len <= v.len)
        ensures Keeps(oldBlocks, blocks[v.block := nb], w)
      {
        assert RegionOf(w) != RegionOf(v) ==> Disjoint(RegionOf(w), RegionOf(v));
        WriteOutside(blocks, v.block, at, data, w);
      }
      blocks := blocks[v.block := nb];
      r := View(v.block, v.off, v.len + |more|, v.cap);
    }

    /** The copying half of Concat: `v`, `more` and a NUL in a new, larger allocation. */
    method Relocate(v: View, more: string) returns (r: View)
      requires Valid() && LiveIn(regions, v) && Relocates(v, |more|)
      modifies this
      ensures Valid()
      ensures r.len == v.len + |more| && r.cap == GrownCap(v, |more|)
      ensures RegionOf(r) !in old(regions) && regions == old(regions) + {RegionOf(r)}
      ensures InBounds(blocks, r) && Text(blocks, r) == Text(old(blocks), v) + more
      ensures forall w :: LiveIn(old(regions), w) ==>
        Keeps(old(blocks), blocks, w)
    {
      ghost var oldBlocks := blocks;
      var prefix := Text(blocks, v);
      var cap := GrownCap(v, |more|);
      var b, off := Reserve(cap);
      var all := prefix + more + ['\0'];
      var nb := Write(blocks[b], off, all);
      WriteThenRead(blocks[b], off, all, v.len + |more|);
      assert all[..v.len + |more|] == prefix + more;
      forall w | LiveIn(old(regions), w)
        ensures Keeps(oldBlocks, blocks[b := nb], w)
      {
        assert Disjoint(RegionOf(w), Region(b, off, cap));
        WriteOutside(blocks, b, off, all, w);
      }
      blocks := blocks[b := nb];
      r := View(b, off, v.len + |more|, cap);
    }
  }
}
