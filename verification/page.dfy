/** The supplemental page table (src/vm/page.c): a per-process hash table of
    page entries keyed by page-aligned virtual address.  The hash table is a
    map from page address to entry; hash_insert keeps an existing entry on a
    duplicate key and reports it instead of inserting. */
module PageTable {
  import opened Base

  /** enum page_stat. */
  datatype PageStatus = Frame | SwapSlot

  /** struct page_entry without its hash link. */
  datatype PageEntry = PageEntry(page: Addr, status: PageStatus, writable: bool)

  type Table = map<Addr, PageEntry>

  /** pg_round_down: clear the low 12 bits of a 32-bit address. */
  function RoundDown(addr: Addr): (r: Addr)
    ensures r % PageSize == 0
    ensures r <= addr < r + PageSize
  {
    addr - addr % PageSize
  }

  /** Addresses on the same page round to the same page. */
  lemma RoundDownSamePage(a: Addr, b: Addr)
    requires a / PageSize == b / PageSize
    ensures RoundDown(a) == RoundDown(b)
  {
    assert a == a / PageSize * PageSize + a % PageSize;
    assert b == b / PageSize * PageSize + b % PageSize;
  }

  /** Every entry sits under its own page-aligned address. */
  predicate Valid(t: Table)
  {
    forall k :: k in t ==> t[k].page == k && k % PageSize == 0
  }

  /** page_find: the entry for the page holding `addr`, or None (NULL). */
  function Find(t: Table, addr: Addr): (r: Option<PageEntry>)
    ensures r.Some? <==> RoundDown(addr) in t
    ensures r.Some? ==> r.value == t[RoundDown(addr)]
    ensures Valid(t) && r.Some? ==> r.value.page <= addr < r.value.page + PageSize
  {
    var key := RoundDown(addr);
    if key in t then Some(t[key]) else None
  }

  /** All addresses within one page find the same entry. */
  lemma FindSamePage(t: Table, a: Addr, b: Addr)
    requires a / PageSize == b / PageSize
    ensures Find(t, a) == Find(t, b)
  {
    RoundDownSamePage(a, b);
  }

  /** Result of page_create: the table afterwards and the returned pointer
      (None for NULL). */
  datatype Created = Created(table: Table, entry: Option<PageEntry>)

  /** The fresh entry page_create builds for `addr`. */
  function NewEntry(addr: Addr, writable: bool): PageEntry
  {
    PageEntry(RoundDown(addr), Frame, writable)
  }

  /** page_create as written: when the page already has an entry, the new one
      is freed but still returned.  `mallocOk` is whether malloc succeeded. */
  function CreateAsWritten(t: Table, addr: Addr, writable: bool, mallocOk: bool): (r: Created)
    ensures r.table == (if mallocOk && RoundDown(addr) !in t then t[RoundDown(addr) := NewEntry(addr, writable)] else t)
    ensures r.entry.Some? <==> mallocOk
    ensures mallocOk ==> r.entry == Some(NewEntry(addr, writable))
  {
    if !mallocOk then Created(t, None)
    else
      var p := NewEntry(addr, writable);
      if p.page in t then Created(t, Some(p))
      else Created(t[p.page := p], Some(p))
  }

  /** The returned entry is the one the table holds: the property callers of
      page_create rely on. */
  predicate ReturnsStored(r: Created)
  {
    r.entry.Some? ==> r.entry.value.page in r.table && r.table[r.entry.value.page] == r.entry.value
  }

  /** Whenever the page already holds an entry other than the one
      page_create builds, the returned entry is not the one the table holds
      (and it has been freed). */
  lemma CreateAsWrittenReturnsFreed(t: Table, addr: Addr, writable: bool)
    requires RoundDown(addr) in t && t[RoundDown(addr)] != NewEntry(addr, writable)
    ensures !ReturnsStored(CreateAsWritten(t, addr, writable, true))
  {
  }

  /** An instance: creating a writable entry over a read-only swapped-out
      one. */
  lemma CreateOverSwappedPage()
    ensures var t := map[0 := PageEntry(0, SwapSlot, false)];
      !ReturnsStored(CreateAsWritten(t, 5, true, true))
  {
    var t := map[0 := PageEntry(0, SwapSlot, false)];
    assert RoundDown(5) == 0;
    CreateAsWrittenReturnsFreed(t, 5, true);
  }

  /** page_create with the duplicate case reporting failure (NULL) like the
      malloc failure does: the table is left alone and only an entry that
      was really inserted is returned. */
  function Create(t: Table, addr: Addr, writable: bool, mallocOk: bool): (r: Created)
    ensures Valid(t) ==> Valid(r.table)
    ensures ReturnsStored(r)
    ensures !mallocOk || RoundDown(addr) in t ==> r == Created(t, None)
    ensures mallocOk && RoundDown(addr) !in t ==>
      && r.entry == Some(PageEntry(RoundDown(addr), Frame, writable))
      && r.table.Keys == t.Keys + {RoundDown(addr)}
      && forall k :: k in t ==> r.table[k] == t[k]
  {
    if !mallocOk then Created(t, None)
    else
      var p := NewEntry(addr, writable);
      if p.page in t then Created(t, None)
      else Created(t[p.page := p], Some(p))
  }

  /** After a successful create every address on that page finds the new
      entry; other pages find what they found before. */
  lemma CreateThenFind(t: Table, addr: Addr, writable: bool, other: Addr)
    requires RoundDown(addr) !in t
    ensures var t' := Create(t, addr, writable, true).table;
      && (RoundDown(other) == RoundDown(addr) ==> Find(t', other) == Some(NewEntry(addr, writable)))
      && (RoundDown(other) != RoundDown(addr) ==> Find(t', other) == Find(t, other))
  {
  }

  /** page_delete: remove the entry stored under `p`'s page. */
  function Delete(t: Table, p: PageEntry): (t': Table)
    ensures p.page !in t'
    ensures t'.Keys == t.Keys - {p.page}
    ensures forall k :: k in t' ==> t'[k] == t[k]
    ensures Valid(t) ==> Valid(t')
  {
    t - {p.page}
  }

  /** After deleting an entry no address of its page finds anything, and
      every other page is unaffected. */
  lemma DeleteThenFind(t: Table, p: PageEntry, addr: Addr)
    ensures RoundDown(addr) == p.page ==> Find(Delete(t, p), addr).None?
    ensures RoundDown(addr) != p.page ==> Find(Delete(t, p), addr) == Find(t, addr)
  {
  }

  /** page_load: false iff the page has no entry.  Both statuses the enum
      allows return true without touching the table, so the source's panic
      for any other status cannot be reached. */
  function Load(t: Table, addr: Addr): (ok: bool)
    ensures ok <==> RoundDown(addr) in t
  {
    match Find(t, addr)
    case None => false
    case Some(p) =>
      match p.status
      case Frame => true
      case SwapSlot => true
  }
}
