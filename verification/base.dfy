/** Shared constants and small helpers used by every component of the model:
    the sector and page sizes of the Pintos kernel, bytes, blocks, and an
    Option type standing in for C's NULL-or-pointer returns. */
module Base {

  /** Size of one disk sector in bytes (DISK_SECTOR_SIZE). */
  const SectorSize: nat := 512

  /** Size of one virtual page in bytes (PGSIZE). */
  const PageSize: nat := 4096

  /** Number of distinct 32-bit addresses; pointers wrap modulo this. */
  const AddrSpace: nat := 0x1_0000_0000

  type Byte = x: int | 0 <= x < 256

  /** A 32-bit virtual or physical address. */
  type Addr = x: nat | x < AddrSpace

  datatype Option<+T> = None | Some(value: T)

  function Min(a: int, b: int): int
  {
    if a < b then a else b
  }

  function Max(a: int, b: int): int
  {
    if a < b then b else a
  }

  /** Multiplying by a common factor keeps the order. */
  lemma MulMonotone(a: nat, b: nat, f: nat)
    requires a <= b
    ensures a * f <= b * f
  {
  }

  /** DIV_ROUND_UP from Pintos' round.h, for a non-negative dividend. */
  function DivRoundUp(x: nat, step: nat): (r: nat)
    requires step > 0
    ensures r * step >= x
    ensures r == 0 || (r - 1) * step < x
  {
    (x + step - 1) / step
  }

  /** A sector-sized block of zero bytes. */
  function Zeros(): (z: seq<Byte>)
    ensures |z| == SectorSize
    ensures forall i :: 0 <= i < |z| ==> z[i] == 0
  {
    seq(SectorSize, _ => 0)
  }

  /** The block `b` with bytes [ofs, ofs + |buf|) replaced by `buf`
      (what memcpy into a sector buffer does). */
  function Splice(b: seq<Byte>, ofs: nat, buf: seq<Byte>): (r: seq<Byte>)
    requires ofs + |buf| <= |b|
    ensures |r| == |b|
    ensures forall i :: 0 <= i < |b| && (i < ofs || ofs + |buf| <= i) ==> r[i] == b[i]
    ensures forall i :: 0 <= i < |buf| ==> r[ofs + i] == buf[i]
    ensures r[ofs..ofs + |buf|] == buf
  {
    b[..ofs] + buf + b[ofs + |buf|..]
  }

  /** The position of the first element satisfying `p`: the front-to-back
      list walk, stopping at the first match, that the kernel uses to look
      up cache entries, open inodes, frames and file descriptors. */
  function FirstWhere<T>(s: seq<T>, p: T -> bool): (r: Option<nat>)
    ensures r.Some? ==> r.value < |s| && p(s[r.value])
    ensures r.Some? ==> forall j :: 0 <= j < r.value ==> !p(s[j])
    ensures r.None? <==> forall j :: 0 <= j < |s| ==> !p(s[j])
  {
    if |s| == 0 then None
    else if p(s[0]) then Some(0)
    else match FirstWhere(s[1..], p)
      case None => None
      case Some(i) => Some(i + 1)
  }

  /** Appending an element changes the search only when nothing before it
      matched. */
  lemma {:induction false} FirstWhereAppend<T>(s: seq<T>, x: T, p: T -> bool)
    ensures FirstWhere(s + [x], p) ==
      (if FirstWhere(s, p).Some? then FirstWhere(s, p)
       else if p(x) then Some(|s|) else None)
  {
    if |s| == 0 {
      assert s + [x] == [x];
    } else {
      assert (s + [x])[1..] == s[1..] + [x];
      FirstWhereAppend(s[1..], x, p);
    }
  }

  /** Two sequences whose elements match position by position give the same
      search result. */
  lemma {:induction false} FirstWhereSame<T, U>(s: seq<T>, p: T -> bool, t: seq<U>, q: U -> bool)
    requires |s| == |t|
    requires forall i :: 0 <= i < |s| ==> p(s[i]) == q(t[i])
    ensures FirstWhere(s, p) == FirstWhere(t, q)
  {
    if |s| > 0 {
      FirstWhereSame(s[1..], p, t[1..], q);
    }
  }
}
