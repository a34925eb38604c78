/** The swap store (src/vm/swap.c): a bitmap with one bit per sector of the
    swap disk, where a page occupies a run of SectorNum consecutive sectors
    found first-fit.  swap_out copies a page to a free run, swap_in copies it
    back and frees the run, swap_free frees a run without reading it. */
module Swap {
  import opened Base

  /** Sectors per page (SECTOR_NUM = PGSIZE / DISK_SECTOR_SIZE). */
  const SectorNum: nat := PageSize / SectorSize

  /** The bitmap (true = in use) and the swap disk, one bit per sector. */
  datatype SwapState = SwapState(bits: seq<bool>, disk: seq<seq<Byte>>)

  predicate Valid(s: SwapState)
  {
    && |s.bits| == |s.disk|
    && forall k :: 0 <= k < |s.disk| ==> |s.disk[k]| == SectorSize
  }

  /** Bits [i, i + cnt) exist and are all clear. */
  predicate FreeRun(bits: seq<bool>, i: nat, cnt: nat)
  {
    i + cnt <= |bits| && forall j :: i <= j < i + cnt ==> !bits[j]
  }

  /** The search of bitmap_scan_and_flip (start 0, value false): the lowest
      index at or after `from` that begins a free run of `cnt` bits. */
  function Scan(bits: seq<bool>, cnt: nat, from: nat): (r: Option<nat>)
    ensures r.Some? ==> from <= r.value && FreeRun(bits, r.value, cnt)
    ensures r.Some? ==> forall j :: from <= j < r.value ==> !FreeRun(bits, j, cnt)
    ensures r.None? <==> forall j :: from <= j ==> !FreeRun(bits, j, cnt)
    decreases |bits| - from
  {
    if from + cnt > |bits| then None
    else if FreeRun(bits, from, cnt) then Some(from)
    else Scan(bits, cnt, from + 1)
  }

  /** Bits [i, i + cnt) set to `v` (bitmap_set_multiple), the rest kept. */
  function SetRun(bits: seq<bool>, i: nat, cnt: nat, v: bool): (b: seq<bool>)
    requires i + cnt <= |bits|
    ensures |b| == |bits|
    ensures forall j :: 0 <= j < |b| ==> b[j] == if i <= j < i + cnt then v else bits[j]
  {
    seq(|bits|, j requires 0 <= j < |bits| => if i <= j < i + cnt then v else bits[j])
  }

  /** Sector `k` of a page. */
  function PageChunk(page: seq<Byte>, k: nat): (c: seq<Byte>)
    requires |page| == PageSize && k < SectorNum
    ensures |c| == SectorSize
  {
    page[k * SectorSize..(k + 1) * SectorSize]
  }

  datatype OutResult = Out(index: nat, state: SwapState) | NoSpace

  /** swap_out: take the lowest free run of SectorNum bits, mark it used, and
      write page sector k to disk sector index + k.  No free run is the
      source's fatal halt, here the NoSpace outcome. */
  function SwapOut(s: SwapState, page: seq<Byte>): (r: OutResult)
    requires Valid(s) && |page| == PageSize
    ensures r.NoSpace? <==> forall j :: !FreeRun(s.bits, j, SectorNum)
    ensures r.Out? ==>
      && FreeRun(s.bits, r.index, SectorNum)
      && r.index + SectorNum <= |s.disk|
      && (forall j :: 0 <= j < r.index ==> !FreeRun(s.bits, j, SectorNum))
      && Valid(r.state)
      && |r.state.bits| == |s.bits|
      && (forall j :: 0 <= j < |s.bits| ==>
            r.state.bits[j] == (s.bits[j] || r.index <= j < r.index + SectorNum))
      && (forall k :: 0 <= k < SectorNum ==> r.state.disk[r.index + k] == PageChunk(page, k))
      && (forall j :: 0 <= j < |s.disk| && !(r.index <= j < r.index + SectorNum) ==>
            r.state.disk[j] == s.disk[j])
  {
    match Scan(s.bits, SectorNum, 0)
    case None => NoSpace
    case Some(i) =>
      Out(i, SwapState(SetRun(s.bits, i, SectorNum, true), WritePage(s.disk, i, page)))
  }

  /** The disk after page sector k is written to disk sector index + k for
      every k < SectorNum (the disk_write loop of swap_out). */
  function WritePage(disk: seq<seq<Byte>>, index: nat, page: seq<Byte>): (d: seq<seq<Byte>>)
    requires |page| == PageSize && index + SectorNum <= |disk|
    requires forall k :: 0 <= k < |disk| ==> |disk[k]| == SectorSize
    ensures |d| == |disk|
    ensures forall k :: 0 <= k < |d| ==> |d[k]| == SectorSize
    ensures forall k :: 0 <= k < SectorNum ==> d[index + k] == PageChunk(page, k)
    ensures forall j :: 0 <= j < |disk| && !(index <= j < index + SectorNum) ==> d[j] == disk[j]
  {
    var d := seq(|disk|, j requires 0 <= j < |disk| =>
      if index <= j < index + SectorNum then PageChunk(page, j - index) else disk[j]);
    assert forall k :: 0 <= k < SectorNum ==> d[index + k] == PageChunk(page, k);
    d
  }

  /** Disk sectors [index, index + n) concatenated. */
  function Gather(disk: seq<seq<Byte>>, index: nat, n: nat): seq<Byte>
    requires index + n <= |disk|
  {
    if n == 0 then [] else Gather(disk, index, n - 1) + disk[index + n - 1]
  }

  /** Sector k of the gathered bytes is disk sector index + k. */
  lemma {:induction false} GatherSectors(disk: seq<seq<Byte>>, index: nat, n: nat)
    requires index + n <= |disk|
    requires forall k :: 0 <= k < |disk| ==> |disk[k]| == SectorSize
    ensures |Gather(disk, index, n)| == n * SectorSize
    ensures forall k :: 0 <= k < n ==>
      Gather(disk, index, n)[k * SectorSize..(k + 1) * SectorSize] == disk[index + k]
  {
    if n > 0 {
      GatherSectors(disk, index, n - 1);
      var g := Gather(disk, index, n - 1);
      var last := disk[index + n - 1];
      assert Gather(disk, index, n) == g + last;
      forall k | 0 <= k < n
        ensures (g + last)[k * SectorSize..(k + 1) * SectorSize] == disk[index + k]
      {
        if k < n - 1 {
          MulMonotone(k + 1, n - 1, SectorSize);
          assert (g + last)[k * SectorSize..(k + 1) * SectorSize] == g[k * SectorSize..(k + 1) * SectorSize];
        } else {
          assert (g + last)[k * SectorSize..(k + 1) * SectorSize] == last;
        }
      }
    }
  }

  /** swap_in: read the page back from disk sectors [index, index + 8) and
      clear the run's bits. */
  function SwapIn(s: SwapState, index: nat): (r: (seq<Byte>, SwapState))
    requires Valid(s) && index + SectorNum <= |s.bits|
    ensures |r.0| == PageSize
    ensures forall k :: 0 <= k < SectorNum ==> PageChunk(r.0, k) == s.disk[index + k]
    ensures Valid(r.1) && r.1.disk == s.disk
    ensures FreeRun(r.1.bits, index, SectorNum)
    ensures forall j :: 0 <= j < |s.bits| && !(index <= j < index + SectorNum) ==>
      r.1.bits[j] == s.bits[j]
  {
    GatherSectors(s.disk, index, SectorNum);
    (Gather(s.disk, index, SectorNum), SwapState(SetRun(s.bits, index, SectorNum, false), s.disk))
  }

  /** swap_free: clear the run's bits; the disk keeps its contents. */
  function SwapFree(s: SwapState, index: nat): (s': SwapState)
    requires Valid(s) && index + SectorNum <= |s.bits|
    ensures Valid(s') && s'.disk == s.disk
    ensures FreeRun(s'.bits, index, SectorNum)
    ensures forall j :: 0 <= j < |s.bits| && !(index <= j < index + SectorNum) ==>
      s'.bits[j] == s.bits[j]
  {
    SwapState(SetRun(s.bits, index, SectorNum, false), s.disk)
  }

  /** Reading back the first n sectors written by swap_out yields the first
      n sectors' worth of the page. */
  lemma {:induction false} GatherChunks(disk: seq<seq<Byte>>, index: nat, page: seq<Byte>, n: nat)
    requires |page| == PageSize && n <= SectorNum && index + SectorNum <= |disk|
    requires forall k :: 0 <= k < SectorNum ==> disk[index + k] == PageChunk(page, k)
    ensures Gather(disk, index, n) == page[..n * SectorSize]
  {
    if n > 0 {
      GatherChunks(disk, index, page, n - 1);
      assert disk[index + n - 1] == PageChunk(page, n - 1);
      assert page[..n * SectorSize] == page[..(n - 1) * SectorSize] + PageChunk(page, n - 1);
    }
  }

  /** Round trip: swapping a page out and back in returns the same bytes and
      leaves the bitmap as it was before swap_out. */
  lemma OutThenIn(s: SwapState, page: seq<Byte>, i: nat, s1: SwapState)
    requires Valid(s) && |page| == PageSize
    requires SwapOut(s, page) == Out(i, s1)
    ensures SwapIn(s1, i).0 == page
    ensures SwapIn(s1, i).1.bits == s.bits
  {
    ReadBack(s1.disk, i, page);
    assert FreeRun(s.bits, i, SectorNum);
    SetRunUndo(s.bits, i, SectorNum);
  }

  /** The SectorNum sectors swap_out writes gather back into the page. */
  lemma ReadBack(disk: seq<seq<Byte>>, index: nat, page: seq<Byte>)
    requires |page| == PageSize && index + SectorNum <= |disk|
    requires forall k :: 0 <= k < SectorNum ==> disk[index + k] == PageChunk(page, k)
    ensures Gather(disk, index, SectorNum) == page
  {
    GatherChunks(disk, index, page, SectorNum);
    assert page[..SectorNum * SectorSize] == page;
  }

  /** Marking a free run used and then clearing it restores the bitmap. */
  lemma SetRunUndo(bits: seq<bool>, i: nat, cnt: nat)
    requires FreeRun(bits, i, cnt)
    ensures SetRun(SetRun(bits, i, cnt, true), i, cnt, false) == bits
  {
    var b := SetRun(SetRun(bits, i, cnt, true), i, cnt, false);
    assert forall j :: 0 <= j < |b| ==> b[j] == bits[j];
  }

  /** swap_free makes its run available again: the next swap_out succeeds,
      at that index or a lower one. */
  lemma FreeThenOut(s: SwapState, index: nat, page: seq<Byte>)
    requires Valid(s) && index + SectorNum <= |s.bits| && |page| == PageSize
    ensures var r := SwapOut(SwapFree(s, index), page);
      r.Out? && r.index <= index
  {
  }

  /** Two pages swapped out one after the other get disjoint runs. */
  lemma OutTwiceDisjoint(s: SwapState, p: seq<Byte>, q: seq<Byte>)
    requires Valid(s) && |p| == PageSize && |q| == PageSize
    ensures var r1 := SwapOut(s, p);
      r1.Out? ==> var r2 := SwapOut(r1.state, q);
        r2.Out? ==> r1.index + SectorNum <= r2.index || r2.index + SectorNum <= r1.index
  {
    var r1 := SwapOut(s, p);
    if r1.Out? {
      var r2 := SwapOut(r1.state, q);
      if r2.Out? {
        var j := if r1.index < r2.index then r2.index else r1.index;
        assert r1.index <= j < r1.index + SectorNum ==> r1.state.bits[j];
        assert r2.index <= j < r2.index + SectorNum ==> !r1.state.bits[j];
      }
    }
  }
}
