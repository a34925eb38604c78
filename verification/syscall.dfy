/** User-address validation and the per-process file-descriptor table of
    the system-call layer (src/userprog/syscall.c).  A failed address check
    ends the process (sys_exit(-1)); here it is a false result.  Files are
    opaque handles; what the file system does with them is given as
    functions. */
module Syscall {
  import opened Base

  /** PHYS_BASE: user addresses lie below it. */
  const PhysBase: nat := 0xC000_0000

  /** Lowest address a user pointer may have (start of the code segment). */
  const CodeStart: nat := 0x0804_8000

  const StdinFileno: int := 0
  const StdoutFileno: int := 1

  /** is_user_vaddr: below PHYS_BASE. */
  predicate IsUserVaddr(a: Addr)
  {
    a < PhysBase
  }

  /** check_vaddr: true when the process survives the check, that is when
      neither exit condition (a kernel address, or an address below the
      code segment) holds; the accepted addresses form [CodeStart, PhysBase). */
  function CheckVaddr(a: Addr): (ok: bool)
    ensures ok <==> CodeStart <= a < PhysBase
  {
    !(!IsUserVaddr(a) || a < CodeStart)
  }

  /** The 32-bit pointer `addr + i`. */
  function Wrap(addr: Addr, i: nat): Addr
  {
    (addr + i) % AddrSpace
  }

  /** Every byte of [addr, addr + size), with the pointer wrapping at 2^32,
      passes check_vaddr. */
  predicate AllValid(addr: Addr, size: nat)
  {
    forall i :: 0 <= i < size ==> CheckVaddr(Wrap(addr, i))
  }

  /** check_bytes: walk the range byte by byte, stopping at the first bad
      address; it passes iff the whole range is valid, that is iff it is
      empty or lies within [CodeStart, PhysBase). */
  method CheckBytes(addr: Addr, size: nat) returns (ok: bool)
    requires size < AddrSpace
    ensures ok <==> AllValid(addr, size)
    ensures ok <==> size == 0 || (CodeStart <= addr && addr + size <= PhysBase)
  {
    var save: Addr := addr;
    var i := 0;
    while i < size
      invariant 0 <= i <= size
      invariant save == Wrap(addr, i)
      invariant forall j :: 0 <= j < i ==> CheckVaddr(Wrap(addr, j))
    {
      if !CheckVaddr(save) {
        ok := false;
        assert !CheckVaddr(Wrap(addr, i));
        RangeForm(addr, size);
        return;
      }
      WrapStep(addr, i);
      save := (save + 1) % AddrSpace;
      i := i + 1;
    }
    ok := true;
    RangeForm(addr, size);
  }

  /** Advancing a wrapped pointer by one is wrapping the next offset. */
  lemma WrapStep(addr: Addr, i: nat)
    ensures (Wrap(addr, i) + 1) % AddrSpace == Wrap(addr, i + 1)
  {
  }

  /** A range that starts in user space and runs past PhysBase contains
      PhysBase itself, a kernel address. */
  lemma CrossesBase(addr: Addr, size: nat)
    requires addr < PhysBase < addr + size
    ensures !AllValid(addr, size)
  {
    assert Wrap(addr, PhysBase - addr) == PhysBase;
  }

  /** The closed form of AllValid: no wrap-around can sneak a range past
      the check, because reaching the top of memory means crossing PhysBase. */
  lemma RangeForm(addr: Addr, size: nat)
    requires size < AddrSpace
    ensures AllValid(addr, size) <==> size == 0 || (CodeStart <= addr && addr + size <= PhysBase)
  {
    if size > 0 && AllValid(addr, size) {
      assert CheckVaddr(Wrap(addr, 0));
      if addr + size > PhysBase {
        CrossesBase(addr, size);
      }
    }
    if size > 0 && CodeStart <= addr && addr + size <= PhysBase {
      forall i | 0 <= i < size
        ensures CheckVaddr(Wrap(addr, i))
      {
        assert addr + i < AddrSpace;
        assert Wrap(addr, i) == addr + i;
      }
      assert AllValid(addr, size);
    }
  }

  /** struct file_fd: a descriptor and its open file. */
  datatype FileFd = FileFd(fd: int, file: nat)

  /** The thread's file list and its next descriptor (maxfd). */
  datatype Process = Process(files: seq<FileFd>, maxfd: int)

  /** Descriptors are above the console ones, below maxfd, and distinct. */
  predicate Valid(p: Process)
  {
    && StdoutFileno < p.maxfd
    && (forall i :: 0 <= i < |p.files| ==> StdoutFileno < p.files[i].fd < p.maxfd)
    && (forall i, j :: 0 <= i < j < |p.files| ==> p.files[i].fd != p.files[j].fd)
  }

  /** Position of the first entry with descriptor `fd`. */
  function IndexOf(files: seq<FileFd>, fd: int): Option<nat>
  {
    FirstWhere(files, (e: FileFd) => e.fd == fd)
  }

  /** get_file: the file of the first entry with descriptor `fd`, or None
      (NULL). */
  function GetFile(p: Process, fd: int): (r: Option<nat>)
    ensures r.None? <==> forall j :: 0 <= j < |p.files| ==> p.files[j].fd != fd
    ensures r.Some? ==> exists j ::
      && 0 <= j < |p.files|
      && p.files[j] == FileFd(fd, r.value)
      && forall i :: 0 <= i < j ==> p.files[i].fd != fd
  {
    match IndexOf(p.files, fd)
    case None => None
    case Some(i) => Some(p.files[i].file)
  }

  /** sys_open: `got` is what filesys_open returned and `pageOk` whether
      palloc_get_page succeeded.  On success the old maxfd is returned and
      recorded for the file at the back of the list; any failure returns -1
      and changes nothing. */
  function Open(p: Process, got: Option<nat>, pageOk: bool): (r: (Process, int))
    requires Valid(p)
    ensures Valid(r.0)
    ensures got.None? || !pageOk ==> r == (p, -1)
    ensures got.Some? && pageOk ==>
      && r.1 == p.maxfd
      && r.0.maxfd == p.maxfd + 1
      && r.0.files == p.files + [FileFd(p.maxfd, got.value)]
  {
    match got
    case None => (p, -1)
    case Some(f) =>
      if !pageOk then (p, -1)
      else (Process(p.files + [FileFd(p.maxfd, f)], p.maxfd + 1), p.maxfd)
  }

  /** The descriptor sys_open returns names the opened file. */
  lemma OpenThenGet(p: Process, f: nat)
    requires Valid(p)
    ensures var r := Open(p, Some(f), true);
      GetFile(r.0, r.1) == Some(f)
  {
    var r := Open(p, Some(f), true);
    var k := IndexOf(r.0.files, r.1);
    assert r.0.files[|p.files|].fd == p.maxfd;
    assert k.Some? && k.value == |p.files|;
  }

  /** sys_close: unlink the first entry with descriptor `fd` and report the
      file to close; an unknown descriptor changes nothing. */
  function Close(p: Process, fd: int): (r: (Process, Option<nat>))
    ensures r.0.maxfd == p.maxfd
    ensures IndexOf(p.files, fd).None? ==> r == (p, None)
    ensures IndexOf(p.files, fd).Some? ==>
      var k := IndexOf(p.files, fd).value;
      && r.0.files == p.files[..k] + p.files[k + 1..]
      && r.1 == Some(p.files[k].file)
    ensures Valid(p) ==> Valid(r.0)
  {
    match IndexOf(p.files, fd)
    case None => (p, None)
    case Some(k) =>
      var files := p.files[..k] + p.files[k + 1..];
      assert forall j :: 0 <= j < |files| ==> files[j] == if j < k then p.files[j] else p.files[j + 1];
      (Process(files, p.maxfd), Some(p.files[k].file))
  }

  /** With distinct descriptors, get_file finds each entry's own file. */
  lemma GetFileAt(p: Process, j: nat)
    requires Valid(p) && j < |p.files|
    ensures GetFile(p, p.files[j].fd) == Some(p.files[j].file)
  {
    var k := IndexOf(p.files, p.files[j].fd);
    assert k.Some?;
  }

  /** The entries left by close are the old ones with position `k` cut out. */
  lemma CloseShifts(p: Process, fd: int, k: nat)
    requires IndexOf(p.files, fd) == Some(k)
    ensures var q := Close(p, fd).0;
      && |q.files| == |p.files| - 1
      && forall j :: 0 <= j < |q.files| ==> q.files[j] == if j < k then p.files[j] else p.files[j + 1]
  {
  }

  /** After close, the closed descriptor names no file. */
  lemma CloseForgets(p: Process, fd: int)
    requires Valid(p)
    ensures GetFile(Close(p, fd).0, fd).None?
  {
    var q := Close(p, fd).0;
    if IndexOf(p.files, fd).Some? {
      var k := IndexOf(p.files, fd).value;
      CloseShifts(p, fd, k);
      forall j | 0 <= j < |q.files|
        ensures q.files[j].fd != fd
      {
        var src := if j < k then j else j + 1;
        assert q.files[j] == p.files[src] && src != k;
      }
    }
  }

  /** After close, every other descriptor names the file it named before. */
  lemma CloseKeeps(p: Process, fd: int, other: int)
    requires Valid(p) && other != fd
    ensures GetFile(Close(p, fd).0, other) == GetFile(p, other)
  {
    var q := Close(p, fd).0;
    if IndexOf(p.files, fd).Some? && IndexOf(p.files, other).Some? {
      var k := IndexOf(p.files, fd).value;
      var i := IndexOf(p.files, other).value;
      CloseShifts(p, fd, k);
      var i' := if i < k then i else i - 1;
      assert q.files[i'] == p.files[i];
      GetFileAt(p, i);
      GetFileAt(q, i');
    }
  }

  /** A closed descriptor no longer names a file, and the others keep theirs. */
  lemma CloseThenGet(p: Process, fd: int, other: int)
    requires Valid(p)
    ensures GetFile(Close(p, fd).0, fd).None?
    ensures other != fd ==> GetFile(Close(p, fd).0, other) == GetFile(p, other)
  {
    CloseForgets(p, fd);
    if other != fd {
      CloseKeeps(p, fd, other);
    }
  }

  /** A C `int` holding an `unsigned` value, as `return size;` converts it. */
  function Int32(u: nat): int
    requires u < AddrSpace
  {
    if u < 0x8000_0000 then u else u - AddrSpace
  }

  /** sys_filesize: -1 for an unknown descriptor, else the file's length. */
  function Filesize(p: Process, fd: int, length: nat -> int): (r: int)
    ensures GetFile(p, fd).None? ==> r == -1
    ensures GetFile(p, fd).Some? ==> r == length(GetFile(p, fd).value)
  {
    match GetFile(p, fd)
    case None => -1
    case Some(f) => length(f)
  }

  /** sys_read: the console (fd 0) delivers all `size` bytes; an unknown
      descriptor gives -1; otherwise what file_read returns. */
  function Read(p: Process, fd: int, size: nat, fileRead: (nat, nat) -> int): (r: int)
    requires size < AddrSpace
    ensures fd == StdinFileno ==> r == Int32(size)
    ensures fd != StdinFileno && GetFile(p, fd).None? ==> r == -1
    ensures fd != StdinFileno && GetFile(p, fd).Some? ==> r == fileRead(GetFile(p, fd).value, size)
  {
    if fd == StdinFileno then Int32(size)
    else match GetFile(p, fd)
      case None => -1
      case Some(f) => fileRead(f, size)
  }

  /** sys_write: the console (fd 1) takes all `size` bytes; an unknown
      descriptor gives -1; otherwise what file_write returns. */
  function Write(p: Process, fd: int, size: nat, fileWrite: (nat, nat) -> int): (r: int)
    requires size < AddrSpace
    ensures fd == StdoutFileno ==> r == Int32(size)
    ensures fd != StdoutFileno && GetFile(p, fd).None? ==> r == -1
    ensures fd != StdoutFileno && GetFile(p, fd).Some? ==> r == fileWrite(GetFile(p, fd).value, size)
  {
    if fd == StdoutFileno then Int32(size)
    else match GetFile(p, fd)
      case None => -1
      case Some(f) => fileWrite(f, size)
  }

  /** In a well-formed table the console descriptors name no file, so
      reading stdout, writing stdin and asking either's size all give -1. */
  lemma ConsoleCrossed(p: Process, size: nat, length: nat -> int, fileRead: (nat, nat) -> int, fileWrite: (nat, nat) -> int)
    requires Valid(p) && size < AddrSpace
    ensures Read(p, StdoutFileno, size, fileRead) == -1
    ensures Write(p, StdinFileno, size, fileWrite) == -1
    ensures Filesize(p, StdinFileno, length) == -1 && Filesize(p, StdoutFileno, length) == -1
  {
  }
}
