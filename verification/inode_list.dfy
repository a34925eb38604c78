/** The list of open in-memory inodes (src/filesys/inode.c, open_inodes):
    opening a sector that is already open shares its inode and bumps the
    opener count; the last close drops the inode from the list and deletes
    its blocks if it was removed; deny-write counts never exceed the
    opener count.  An inode is named by its position in the list. */
module OpenInodes {
  import opened Base

  datatype Inode = Inode(sector: nat, openCnt: int, removed: bool, denyWriteCnt: int)

  type OpenList = seq<Inode>

  /** Counter bounds inode_deny_write and inode_allow_write assert. */
  predicate CountsOk(n: Inode)
  {
    1 <= n.openCnt && 0 <= n.denyWriteCnt <= n.openCnt
  }

  /** At most one inode per sector, every one with sane counters. */
  predicate Valid(l: OpenList)
  {
    && (forall i :: 0 <= i < |l| ==> CountsOk(l[i]))
    && (forall i, j :: 0 <= i < j < |l| ==> l[i].sector != l[j].sector)
  }

  /** The search at the start of inode_open. */
  function Lookup(l: OpenList, sector: nat): Option<nat>
  {
    FirstWhere(l, (n: Inode) => n.sector == sector)
  }

  /** Result of inode_open: the new list and the returned inode's position,
      or None for the null pointer a failed malloc produces. */
  datatype Opened = Opened(list: OpenList, inode: Option<nat>)

  /** inode_open: an open sector is reopened in place; otherwise a fresh
      inode (one opener, writes allowed, not removed) goes to the front,
      unless allocation (`allocOk`) fails. */
  function Open(l: OpenList, sector: nat, allocOk: bool): (r: Opened)
    requires Valid(l)
    ensures Valid(r.list)
    ensures r.inode.Some? ==> r.inode.value < |r.list| && r.list[r.inode.value].sector == sector
    ensures r.inode.None? <==> Lookup(l, sector).None? && !allocOk
    ensures r.inode.None? ==> r.list == l
    ensures Lookup(l, sector).Some? ==>
      var i := Lookup(l, sector).value;
      && r.inode == Some(i)
      && |r.list| == |l|
      && r.list[i].openCnt == l[i].openCnt + 1
      && r.list[i].denyWriteCnt == l[i].denyWriteCnt
      && r.list[i].removed == l[i].removed
      && forall j :: 0 <= j < |l| && j != i ==> r.list[j] == l[j]
    ensures Lookup(l, sector).None? && allocOk ==>
      && r.inode == Some(0)
      && r.list[0] == Inode(sector, 1, false, 0)
      && r.list[1..] == l
  {
    match Lookup(l, sector)
    case Some(i) =>
      Opened(l[i := l[i].(openCnt := l[i].openCnt + 1)], Some(i))
    case None =>
      if !allocOk then Opened(l, None)
      else
        var l' := [Inode(sector, 1, false, 0)] + l;
        assert forall j :: 0 < j < |l'| ==> l'[j] == l[j - 1];
        Opened(l', Some(0))
  }

  /** Result of inode_close: the new list, and whether inode_delete ran. */
  datatype Closed = Closed(list: OpenList, deleted: bool)

  /** inode_close: one opener fewer; the last one drops the inode from the
      list, deleting its blocks iff it was removed.  A null inode is ignored. */
  function Close(l: OpenList, h: Option<nat>): (r: Closed)
    requires h.Some? ==> h.value < |l|
    ensures h.None? ==> r == Closed(l, false)
    ensures h.Some? && l[h.value].openCnt == 1 ==>
      r.list == l[..h.value] + l[h.value + 1..] && (r.deleted <==> l[h.value].removed)
    ensures h.Some? && l[h.value].openCnt != 1 ==>
      && !r.deleted
      && |r.list| == |l|
      && r.list[h.value] == l[h.value].(openCnt := l[h.value].openCnt - 1)
      && forall j :: 0 <= j < |l| && j != h.value ==> r.list[j] == l[j]
    ensures Valid(l) && h.Some? && (l[h.value].denyWriteCnt < l[h.value].openCnt || l[h.value].openCnt == 1) ==>
      Valid(r.list)
  {
    match h
    case None => Closed(l, false)
    case Some(i) =>
      if l[i].openCnt - 1 == 0 then
        var l' := l[..i] + l[i + 1..];
        assert forall j :: 0 <= j < |l'| ==> l'[j] == if j < i then l[j] else l[j + 1];
        Closed(l', l[i].removed)
      else
        Closed(l[i := l[i].(openCnt := l[i].openCnt - 1)], false)
  }

  /** inode_close does not check deny_write_cnt: a close that is not the
      last one, while every opener denies writes, leaves more deniers than
      openers. */
  lemma NonLastCloseBreaksBound()
    ensures var l := [Inode(0, 2, false, 2)];
      Valid(l) && !Valid(Close(l, Some(0)).list)
  {
    var l := [Inode(0, 2, false, 2)];
    assert Close(l, Some(0)).list[0].denyWriteCnt == 2;
  }

  /** Opening a sector and closing the returned inode again restores the
      list and deletes nothing. */
  lemma OpenThenClose(l: OpenList, sector: nat, allocOk: bool)
    requires Valid(l)
    ensures var o := Open(l, sector, allocOk);
      o.inode.Some? ==> Close(o.list, o.inode) == Closed(l, false)
  {
    var o := Open(l, sector, allocOk);
    if o.inode.Some? {
      var i := o.inode.value;
      if Lookup(l, sector).Some? {
        assert o.list[i := l[i]] == l;
        assert Close(o.list, o.inode).list == l;
      } else {
        assert o.list[..0] + o.list[1..] == l;
      }
    }
  }

  /** inode_remove: mark the inode for deletion at its last close. */
  function Remove(l: OpenList, i: nat): (l': OpenList)
    requires i < |l|
    ensures Valid(l) ==> Valid(l')
    ensures |l'| == |l| && l'[i].removed
    ensures l'[i].(removed := l[i].removed) == l[i]
    ensures forall j :: 0 <= j < |l| && j != i ==> l'[j] == l[j]
  {
    l[i := l[i].(removed := true)]
  }

  /** inode_deny_write: one more denier, which the source asserts never
      outnumbers the openers. */
  function DenyWrite(l: OpenList, i: nat): (l': OpenList)
    requires Valid(l) && i < |l|
    requires l[i].denyWriteCnt + 1 <= l[i].openCnt
    ensures Valid(l')
    ensures |l'| == |l|
    ensures l'[i].denyWriteCnt == l[i].denyWriteCnt + 1 > 0
    ensures l'[i].(denyWriteCnt := l[i].denyWriteCnt) == l[i]
    ensures forall j :: 0 <= j < |l| && j != i ==> l'[j] == l[j]
  {
    l[i := l[i].(denyWriteCnt := l[i].denyWriteCnt + 1)]
  }

  /** inode_allow_write: one denier fewer; the source asserts there was one. */
  function AllowWrite(l: OpenList, i: nat): (l': OpenList)
    requires Valid(l) && i < |l|
    requires l[i].denyWriteCnt > 0
    ensures Valid(l')
    ensures |l'| == |l|
    ensures l'[i].denyWriteCnt == l[i].denyWriteCnt - 1
    ensures l'[i].(denyWriteCnt := l[i].denyWriteCnt) == l[i]
    ensures forall j :: 0 <= j < |l| && j != i ==> l'[j] == l[j]
  {
    l[i := l[i].(denyWriteCnt := l[i].denyWriteCnt - 1)]
  }

  /** Denying and then allowing writes is a no-op on the list. */
  lemma DenyThenAllow(l: OpenList, i: nat)
    requires Valid(l) && i < |l|
    requires l[i].denyWriteCnt + 1 <= l[i].openCnt
    ensures AllowWrite(DenyWrite(l, i), i) == l
  {
  }
}
