/** The frame table (src/vm/frame.c): an ordered list of the user frames
    handed out, appended to on allocation and searched front to back on
    release.  The physical page allocator is an input: `got` is what
    palloc_get_page returned. */
module FrameTable {
  import opened Base

  /** struct frame_entry: the frame and the page entry using it (NULL, so
      None, in everything this code creates). */
  datatype FrameEntry = FrameEntry(frame: Addr, page: Option<Addr>)

  type Frames = seq<FrameEntry>

  /** PAL_USER from Pintos' enum palloc_flags (PAL_ASSERT = 1, PAL_ZERO = 2). */
  const PalUser: nat := 4

  predicate HasUserFlag(flags: nat)
  {
    (flags / PalUser) % 2 == 1
  }

  datatype Alloc = Allocated(frame: Addr, frames: Frames) | Panic

  /** alloc_frame: demands PAL_USER; halts when the allocator has no page
      (Panic, no entry added); otherwise appends one entry for the frame,
      with no page yet, and returns the frame. */
  function AllocFrame(t: Frames, flags: nat, got: Option<Addr>): (r: Alloc)
    requires HasUserFlag(flags)
    ensures r.Panic? <==> got.None?
    ensures r.Allocated? ==>
      && r.frame == got.value
      && |r.frames| == |t| + 1
      && r.frames[..|t|] == t
      && r.frames[|t|] == FrameEntry(got.value, None)
  {
    match got
    case None => Panic
    case Some(f) => Allocated(f, t + [FrameEntry(f, None)])
  }

  /** Position of the first entry for `f`: the search loop of free_frame. */
  function IndexOf(t: Frames, f: Addr): Option<nat>
  {
    FirstWhere(t, (e: FrameEntry) => e.frame == f)
  }

  /** free_frame: unlink the first entry for `f`, keeping the others in
      order; a frame not in the list leaves it as it is. */
  function FreeFrame(t: Frames, f: Addr): (r: Frames)
    ensures IndexOf(t, f).None? ==> r == t
    ensures IndexOf(t, f).Some? ==>
      var k := IndexOf(t, f).value;
      r == t[..k] + t[k + 1..]
  {
    if |t| == 0 then []
    else if t[0].frame == f then t[1..]
    else
      var rest := FreeFrame(t[1..], f);
      assert IndexOf(t[1..], f).Some? ==>
        var k := IndexOf(t[1..], f).value;
        [t[0]] + (t[1..][..k] + t[1..][k + 1..]) == t[..k + 1] + t[k + 2..];
      [t[0]] + rest
  }

  /** How many entries hold frame `f`. */
  function Occurrences(t: Frames, f: Addr): nat
  {
    if |t| == 0 then 0
    else (if t[0].frame == f then 1 else 0) + Occurrences(t[1..], f)
  }

  lemma {:induction false} OccurrencesSplit(a: Frames, b: Frames, f: Addr)
    ensures Occurrences(a + b, f) == Occurrences(a, f) + Occurrences(b, f)
  {
    if |a| > 0 {
      assert (a + b)[1..] == a[1..] + b;
      OccurrencesSplit(a[1..], b, f);
    } else {
      assert a + b == b;
    }
  }

  /** free_frame takes out exactly one entry for a frame it finds and
      nothing for any other frame. */
  lemma FreeFrameCounts(t: Frames, f: Addr, g: Addr)
    ensures IndexOf(t, f).Some? ==>
      Occurrences(FreeFrame(t, f), g) == Occurrences(t, g) - (if g == f then 1 else 0)
  {
    if IndexOf(t, f).Some? {
      var k := IndexOf(t, f).value;
      assert t == t[..k] + ([t[k]] + t[k + 1..]);
      OccurrencesSplit(t[..k], [t[k]] + t[k + 1..], g);
      OccurrencesSplit([t[k]], t[k + 1..], g);
      OccurrencesSplit(t[..k], t[k + 1..], g);
    }
  }

  /** Allocating a frame the table does not hold and freeing it again
      leaves the table as it was. */
  lemma AllocThenFree(t: Frames, flags: nat, f: Addr)
    requires HasUserFlag(flags)
    requires IndexOf(t, f).None?
    ensures FreeFrame(AllocFrame(t, flags, Some(f)).frames, f) == t
  {
    var t' := AllocFrame(t, flags, Some(f)).frames;
    assert t' == t + [FrameEntry(f, None)];
    var k := IndexOf(t', f);
    assert k.Some? by {
      assert t'[|t|].frame == f;
    }
    assert k.value == |t|;
    assert t'[..|t|] == t && t'[|t| + 1..] == [];
  }
}
