/** The file-system buffer cache (src/filesys/cache.c): a list of at most
    CacheSize sector-sized entries kept in insertion order, looked up by
    sector, evicted first-in first-out, with dirty entries written back to
    disk on eviction and on shutdown.

    The disk is an abstract sequence of sectors.  The central property is a
    refinement: the cache laid over the disk (`Logical`) behaves like a plain
    disk that reads return bytes from and writes splice bytes into, and
    eviction and shutdown never change it. */
module BufferCache {
  import opened Base

  const CacheSize: nat := 64

  /** One cached sector; `dirty` records a write not yet on disk. */
  datatype Entry = Entry(sector: nat, data: seq<Byte>, dirty: bool)

  /** The cache list together with the separately kept `cache_count`. */
  datatype Cache = Cache(entries: seq<Entry>, count: int)

  /** The file-system disk: sector number to sector contents. */
  type Disk = seq<seq<Byte>>

  datatype Store = Store(cache: Cache, disk: Disk)

  predicate DiskOk(d: Disk)
  {
    forall s :: 0 <= s < |d| ==> |d[s]| == SectorSize
  }

  /** An entry names a real sector, holds one sector of data, and a clean
      entry agrees with the disk. */
  predicate EntryOk(e: Entry, d: Disk)
  {
    && e.sector < |d|
    && |e.data| == SectorSize
    && (!e.dirty ==> e.data == d[e.sector])
  }

  predicate Distinct(es: seq<Entry>)
  {
    forall i, j :: 0 <= i < j < |es| ==> es[i].sector != es[j].sector
  }

  predicate EntriesOk(es: seq<Entry>, d: Disk)
  {
    && DiskOk(d)
    && (forall i :: 0 <= i < |es| ==> EntryOk(es[i], d))
    && Distinct(es)
  }

  predicate Valid(st: Store)
  {
    && EntriesOk(st.cache.entries, st.disk)
    && st.cache.count == |st.cache.entries| <= CacheSize
  }

  /** The search both cache_read and cache_write begin with: the position of
      the first entry for `sector`, if there is one. */
  function Find(es: seq<Entry>, sector: nat): Option<nat>
  {
    FirstWhere(es, (e: Entry) => e.sector == sector)
  }

  /** The current content of sector `s`: the cached copy if there is one,
      the disk's otherwise. */
  function Content(es: seq<Entry>, d: Disk, s: nat): seq<Byte>
    requires s < |d|
  {
    match Find(es, s)
    case Some(i) => es[i].data
    case None => d[s]
  }

  /** The logical disk: every cached entry laid over the disk. */
  function View(es: seq<Entry>, d: Disk): (v: Disk)
    ensures |v| == |d|
  {
    seq(|d|, s requires 0 <= s < |d| => Content(es, d, s))
  }

  function Logical(st: Store): Disk
  {
    View(st.cache.entries, st.disk)
  }

  lemma ViewOfEmpty(d: Disk)
    ensures View([], d) == d
  {
  }

  /** Appending an entry for a sector not yet cached leaves every other
      sector's lookup alone. */
  lemma FindAppend(es: seq<Entry>, e: Entry, s: nat)
    ensures Find(es + [e], s) ==
      (if Find(es, s).Some? then Find(es, s)
       else if e.sector == s then Some(|es|) else None)
  {
    FirstWhereAppend(es, e, (x: Entry) => x.sector == s);
  }

  /** Lookup depends only on the sequence of sectors. */
  lemma FindSameSectors(es: seq<Entry>, fs: seq<Entry>, s: nat)
    requires |es| == |fs|
    requires forall i :: 0 <= i < |es| ==> es[i].sector == fs[i].sector
    ensures Find(es, s) == Find(fs, s)
  {
    FirstWhereSame(es, (x: Entry) => x.sector == s, fs, (x: Entry) => x.sector == s);
  }

  /** Popping the front entry, and writing it to disk when it is dirty, keeps
      the logical disk and the invariant: the step shared by cache_evict and
      every iteration of cache_close. */
  lemma PopFront(es: seq<Entry>, d: Disk)
    requires EntriesOk(es, d) && |es| > 0
    ensures var d' := if es[0].dirty then d[es[0].sector := es[0].data] else d;
      && EntriesOk(es[1..], d')
      && View(es[1..], d') == View(es, d)
  {
    var e := es[0];
    var d' := if e.dirty then d[e.sector := e.data] else d;
    assert EntryOk(e, d);
    forall i | 0 <= i < |es[1..]|
      ensures EntryOk(es[1..][i], d')
    {
      assert es[1..][i] == es[i + 1];
      assert EntryOk(es[i + 1], d);
      assert es[i + 1].sector != e.sector;
    }
    forall s | 0 <= s < |d|
      ensures Content(es[1..], d', s) == Content(es, d, s)
    {
      if s == e.sector {
        assert Find(es, s) == Some(0);
        assert Find(es[1..], s).None? by {
          forall j | 0 <= j < |es[1..]|
            ensures es[1..][j].sector != s
          {
            assert es[1..][j] == es[j + 1];
          }
        }
      }
    }
  }

  /** cache_evict: drop the oldest entry, writing it back iff it is dirty. */
  function Evict(st: Store): (st': Store)
    requires Valid(st) && |st.cache.entries| > 0
    ensures Valid(st')
    ensures st'.cache.entries == st.cache.entries[1..]
    ensures st'.cache.count == st.cache.count - 1
    ensures var e := st.cache.entries[0];
      st'.disk == if e.dirty then st.disk[e.sector := e.data] else st.disk
    ensures Logical(st') == Logical(st)
  {
    var e := st.cache.entries[0];
    PopFront(st.cache.entries, st.disk);
    Store(Cache(st.cache.entries[1..], st.cache.count - 1),
          if e.dirty then st.disk[e.sector := e.data] else st.disk)
  }

  /** The store with room for one more entry: evicts first when full, as both
      cache_read and cache_write do on a miss. */
  function MakeRoom(st: Store): (st': Store)
    requires Valid(st)
    ensures Valid(st')
    ensures |st'.cache.entries| < CacheSize
    ensures Logical(st') == Logical(st)
    ensures |st'.disk| == |st.disk|
    ensures st.cache.count < CacheSize ==> st' == st
    ensures st.cache.count == CacheSize ==> st'.cache.entries == st.cache.entries[1..]
  {
    if st.cache.count == CacheSize then Evict(st) else st
  }

  /** Adding an entry for an uncached sector to a store with room keeps the
      invariant and changes the logical disk at that sector only. */
  lemma Insert(st: Store, e: Entry)
    requires Valid(st) && |st.cache.entries| < CacheSize
    requires EntryOk(e, st.disk)
    requires Find(st.cache.entries, e.sector).None?
    ensures var st' := Store(Cache(st.cache.entries + [e], st.cache.count + 1), st.disk);
      && Valid(st')
      && Logical(st') == Logical(st)[e.sector := e.data]
  {
    var es := st.cache.entries;
    var d := st.disk;
    var es' := es + [e];
    forall i | 0 <= i < |es'|
      ensures EntryOk(es'[i], d)
    {
      if i < |es| { assert es'[i] == es[i]; }
    }
    forall s | 0 <= s < |d|
      ensures Content(es', d, s) == Logical(st)[e.sector := e.data][s]
    {
      FindAppend(es, e, s);
    }
  }

  /** Making room never brings a sector into the cache. */
  lemma MakeRoomKeepsMiss(st: Store, sector: nat)
    requires Valid(st) && Find(st.cache.entries, sector).None?
    ensures Find(MakeRoom(st).cache.entries, sector).None?
  {
    var st1 := MakeRoom(st);
    if st.cache.count == CacheSize {
      forall j | 0 <= j < |st1.cache.entries|
        ensures st1.cache.entries[j].sector != sector
      {
        assert st1.cache.entries[j] == st.cache.entries[j + 1];
      }
    }
  }

  /** cache_read: returns bytes [ofs, ofs + size) of the sector's logical
      content; a miss loads the sector into a new clean entry at the back. */
  function Read(st: Store, sector: nat, ofs: nat, size: nat): (r: (Store, seq<Byte>))
    requires Valid(st) && sector < |st.disk|
    requires ofs + size <= SectorSize
    ensures Valid(r.0)
    ensures r.1 == Logical(st)[sector][ofs..ofs + size]
    ensures Logical(r.0) == Logical(st)
    ensures Find(st.cache.entries, sector).Some? ==> r.0 == st
    ensures Find(st.cache.entries, sector).None? ==>
      && r.0.cache.entries == MakeRoom(st).cache.entries + [Entry(sector, st.disk[sector], false)]
      && r.0.disk == MakeRoom(st).disk
  {
    match Find(st.cache.entries, sector)
    case Some(i) =>
      assert EntryOk(st.cache.entries[i], st.disk);
      (st, st.cache.entries[i].data[ofs..ofs + size])
    case None =>
      var st1 := MakeRoom(st);
      var e := Entry(sector, st1.disk[sector], false);
      MakeRoomKeepsMiss(st, sector);
      assert st1.disk[sector] == Logical(st1)[sector] == st.disk[sector];
      Insert(st1, e);
      (Store(Cache(st1.cache.entries + [e], st1.cache.count + 1), st1.disk), e.data[ofs..ofs + size])
  }

  /** cache_write on a hit: the entry at `i` takes the new bytes and turns
      dirty; the disk and the order of sectors stay as they were. */
  function WriteHit(st: Store, i: nat, ofs: nat, buf: seq<Byte>): (r: Store)
    requires Valid(st) && i < |st.cache.entries|
    requires ofs + |buf| <= SectorSize
    ensures Valid(r)
    ensures var sector := st.cache.entries[i].sector;
      Logical(r) == Logical(st)[sector := Splice(Logical(st)[sector], ofs, buf)]
    ensures r.disk == st.disk
    ensures |r.cache.entries| == |st.cache.entries| && r.cache.entries[i].dirty
    ensures forall j :: 0 <= j < |st.cache.entries| ==> r.cache.entries[j].sector == st.cache.entries[j].sector
    ensures forall j :: 0 <= j < |st.cache.entries| && j != i ==> r.cache.entries[j] == st.cache.entries[j]
  {
    var es := st.cache.entries;
    var sector := es[i].sector;
    assert EntryOk(es[i], st.disk);
    var e := Entry(sector, Splice(es[i].data, ofs, buf), true);
    var es' := es[i := e];
    assert forall j :: 0 <= j < |es| ==> es'[j].sector == es[j].sector;
    assert forall j :: 0 <= j < |es'| ==> EntryOk(es'[j], st.disk) by {
      forall j | 0 <= j < |es'| ensures EntryOk(es'[j], st.disk) {
        if j != i { assert es'[j] == es[j]; }
      }
    }
    var r := Store(Cache(es', st.cache.count), st.disk);
    ReplaceData(es, st.disk, i, e.data);
    r
  }

  /** Replacing the data of the entry at `i` changes the logical disk at
      that entry's sector only. */
  lemma ReplaceData(es: seq<Entry>, d: Disk, i: nat, data: seq<Byte>)
    requires Distinct(es) && i < |es| && es[i].sector < |d|
    ensures var es' := es[i := es[i].(data := data, dirty := true)];
      View(es', d) == View(es, d)[es[i].sector := data]
  {
    var es' := es[i := es[i].(data := data, dirty := true)];
    var sector := es[i].sector;
    forall s | 0 <= s < |d|
      ensures View(es', d)[s] == View(es, d)[sector := data][s]
    {
      FindSameSectors(es, es', s);
      if s == sector {
        assert Find(es, s) == Some(i);
      }
    }
  }

  /** A write covering the whole sector does not depend on the old bytes. */
  lemma FullSplice(a: seq<Byte>, buf: seq<Byte>)
    requires |a| == SectorSize
    ensures |buf| == SectorSize ==> Splice(a, 0, buf) == buf
  {
    if |buf| == SectorSize {
      assert Splice(a, 0, buf) == Splice(a, 0, buf)[0..SectorSize];
    }
  }

  /** cache_write on a miss: make room, then append a dirty entry holding
      the sector's old contents (zeros when the write covers it all) with
      the new bytes spliced in. */
  function WriteMiss(st: Store, sector: nat, ofs: nat, buf: seq<Byte>): (r: Store)
    requires Valid(st) && sector < |st.disk|
    requires Find(st.cache.entries, sector).None?
    requires ofs + |buf| <= SectorSize
    ensures Valid(r)
    ensures Logical(r) == Logical(st)[sector := Splice(Logical(st)[sector], ofs, buf)]
    ensures r.disk == MakeRoom(st).disk
    ensures |r.cache.entries| > 0 && r.cache.entries[..|r.cache.entries| - 1] == MakeRoom(st).cache.entries
    ensures r.cache.entries[|r.cache.entries| - 1] == Entry(sector, Splice(Logical(st)[sector], ofs, buf), true)
  {
    var st1 := MakeRoom(st);
    MakeRoomKeepsMiss(st, sector);
    assert st1.disk[sector] == Logical(st1)[sector] == Logical(st)[sector];
    var base := if ofs > 0 || |buf| < SectorSize then st1.disk[sector] else Zeros();
    FullSplice(Zeros(), buf);
    FullSplice(st1.disk[sector], buf);
    var e := Entry(sector, Splice(base, ofs, buf), true);
    assert e.data == Splice(Logical(st)[sector], ofs, buf);
    Insert(st1, e);
    var r := Store(Cache(st1.cache.entries + [e], st1.cache.count + 1), st1.disk);
    assert r.cache.entries[..|r.cache.entries| - 1] == st1.cache.entries;
    r
  }

  /** cache_write: marks the sector's entry dirty and replaces exactly bytes
      [ofs, ofs + |buf|) of its logical content.  On a miss the rest of the
      sector is first read from disk unless the write covers the whole
      sector, in which case the old contents are never looked at. */
  function Write(st: Store, sector: nat, ofs: nat, buf: seq<Byte>): (r: Store)
    requires Valid(st) && sector < |st.disk|
    requires ofs + |buf| <= SectorSize
    ensures Valid(r)
    ensures Logical(r) == Logical(st)[sector := Splice(Logical(st)[sector], ofs, buf)]
    ensures var k := Find(r.cache.entries, sector); k.Some? && r.cache.entries[k.value].dirty
    ensures Find(st.cache.entries, sector).Some? ==>
      && r.disk == st.disk
      && |r.cache.entries| == |st.cache.entries|
      && (forall i :: 0 <= i < |st.cache.entries| ==> r.cache.entries[i].sector == st.cache.entries[i].sector)
      && forall i :: 0 <= i < |st.cache.entries| && i != Find(st.cache.entries, sector).value ==>
        r.cache.entries[i] == st.cache.entries[i]
    ensures Find(st.cache.entries, sector).None? ==>
      && r.disk == MakeRoom(st).disk
      && r.cache.entries[..|r.cache.entries| - 1] == MakeRoom(st).cache.entries
  {
    match Find(st.cache.entries, sector)
    case Some(i) =>
      var r := WriteHit(st, i, ofs, buf);
      FindSameSectors(st.cache.entries, r.cache.entries, sector);
      r
    case None =>
      var r := WriteMiss(st, sector, ofs, buf);
      var n := |r.cache.entries| - 1;
      assert r.cache.entries == r.cache.entries[..n] + [r.cache.entries[n]];
      MakeRoomKeepsMiss(st, sector);
      FindAppend(r.cache.entries[..n], r.cache.entries[n], sector);
      r
  }

  /** cache_close: empties the list front to back, writing back every dirty
      entry, and resets the count; afterwards the disk alone holds the
      logical contents. */
  method Close(st: Store) returns (st': Store)
    requires Valid(st)
    ensures Valid(st')
    ensures st'.cache.entries == [] && st'.cache.count == 0
    ensures st'.disk == Logical(st)
  {
    var es := st.cache.entries;
    var d := st.disk;
    while |es| > 0
      invariant EntriesOk(es, d)
      invariant View(es, d) == Logical(st)
      decreases |es|
    {
      PopFront(es, d);
      var e := es[0];
      if e.dirty {
        d := d[e.sector := e.data];
      }
      es := es[1..];
    }
    ViewOfEmpty(d);
    st' := Store(Cache([], 0), d);
  }
}
