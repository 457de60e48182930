/**
 * The descriptor side of the router: calls on a descriptor or a directory
 * handle go to the archive when the archive owns it (`SQUASH_VALID_VFD`,
 * `squash_find_entry`) and to the real system otherwise. An open archive
 * file is its content and the descriptor's position; `squash_read` is
 * taken to read as much of the request as the content holds from there.
 */
module Descriptors {
  import opened CStrings

  /** `SQUASH_SEEK_SET`, `SQUASH_SEEK_CUR`, `SQUASH_SEEK_END`. */
  datatype Whence = SeekSet | SeekCur | SeekEnd

  /** An open archive file. */
  datatype VFile = VFile(content: seq<bv8>, pos: nat)

  /** The directory-handle calls that are routed as a whole. */
  datatype DirOp = CloseDir | ReadDir | TellDir | SeekDir(loc: int) | RewindDir | DirFd

  /** A call forwarded to the real system. */
  datatype SysCall =
    | SysRead(fd: int, n: nat)
    | SysPread(fd: int, n: nat, offset: int)
    | SysReadv(fd: int, lens: seq<nat>)
    | SysLseek(fd: int, offset: int, whence: Whence)
    | SysClose(fd: int)
    | SysFstat(fd: int)
    | SysDir(op: DirOp, dirp: int)

  // ----- squash_read and squash_lseek on one file -----

  /** How many bytes a read of `n` delivers from `f`: all of them, or as
      many as remain before the end of the content. */
  function ReadCount(f: VFile, n: nat): (k: nat)
    ensures k <= n
    ensures k == 0 <==> n == 0 || f.pos >= |f.content|
    ensures k > 0 ==> f.pos + k <= |f.content| && (k == n || f.pos + k == |f.content|)
  {
    if f.pos >= |f.content| then 0 else Min(n, |f.content| - f.pos)
  }

  /** The bytes a read of `n` delivers from `f`. */
  function ReadBytes(f: VFile, n: nat): (b: seq<bv8>)
    ensures |b| == ReadCount(f, n)
  {
    if ReadCount(f, n) == 0 then [] else f.content[f.pos..f.pos + ReadCount(f, n)]
  }

  /** The position a seek asks for, if it is not negative. */
  function SeekTarget(f: VFile, offset: int, whence: Whence): (r: Option<nat>)
    ensures r.None? <==> (match whence
      case SeekSet => offset
      case SeekCur => f.pos + offset
      case SeekEnd => |f.content| + offset) < 0
  {
    var base := match whence case SeekSet => 0 case SeekCur => f.pos case SeekEnd => |f.content|;
    if base + offset < 0 then None else Some(base + offset)
  }

  /** Seeking to where the descriptor already is leaves it there. */
  lemma SeekCurZero(f: VFile)
    ensures SeekTarget(f, 0, SeekCur) == Some(f.pos)
  {
  }

  // ----- readv as a function of the file and the buffer lengths -----

  /** What `enclose_io_readv` does to an archive file: a failed read, with the
      position it was made at, or the bytes read into each buffer that was
      filled, with the total and the final position. */
  datatype Readv = ReadvFailed(at: nat) | ReadvDone(total: nat, pos: nat, bufs: seq<seq<bv8>>)

  /** The reads of `enclose_io_readv`, buffer by buffer, where `fails(pos, n)`
      says whether `squash_read` of `n` bytes at `pos` fails. */
  function ReadvFrom(f: VFile, lens: seq<nat>, fails: (nat, nat) -> bool): Readv
    decreases |lens|
  {
    if lens == [] then ReadvDone(0, f.pos, [])
    else if fails(f.pos, lens[0]) then ReadvFailed(f.pos)
    else
      var k := ReadCount(f, lens[0]);
      if k == 0 then ReadvDone(0, f.pos, [])
      else Prepend(k, [ReadBytes(f, lens[0])], ReadvFrom(VFile(f.content, f.pos + k), lens[1..], fails))
  }

  /** Buffers already filled, with their total, in front of the rest of a readv. */
  function Prepend(total: nat, bufs: seq<seq<bv8>>, r: Readv): Readv {
    match r
    case ReadvFailed(at) => ReadvFailed(at)
    case ReadvDone(t, p, b) => ReadvDone(total + t, p, bufs + b)
  }

  /** One read of a readv: it fails, delivers nothing, or delivers bytes in
      front of the rest of the readv from the new position. */
  lemma ReadvStep(f: VFile, lens: seq<nat>, i: nat, fails: (nat, nat) -> bool)
    requires i < |lens|
    ensures fails(f.pos, lens[i]) ==> ReadvFrom(f, lens[i..], fails) == ReadvFailed(f.pos)
    ensures !fails(f.pos, lens[i]) && ReadCount(f, lens[i]) == 0 ==> ReadvFrom(f, lens[i..], fails) == ReadvDone(0, f.pos, [])
    ensures !fails(f.pos, lens[i]) && ReadCount(f, lens[i]) > 0 ==>
      ReadvFrom(f, lens[i..], fails) ==
        Prepend(ReadCount(f, lens[i]), [ReadBytes(f, lens[i])],
                ReadvFrom(VFile(f.content, f.pos + ReadCount(f, lens[i])), lens[i + 1..], fails))
  {
    assert lens[i..][0] == lens[i] && lens[i..][1..] == lens[i + 1..];
  }

  lemma PrependPrepend(t1: nat, b1: seq<seq<bv8>>, t2: nat, b2: seq<seq<bv8>>, r: Readv)
    ensures Prepend(t1, b1, Prepend(t2, b2, r)) == Prepend(t1 + t2, b1 + b2, r)
  {
    if r.ReadvDone? {
      assert b1 + (b2 + r.bufs) == b1 + b2 + r.bufs;
    }
  }

  function Concat(bufs: seq<seq<bv8>>): seq<bv8> {
    if bufs == [] then [] else bufs[0] + Concat(bufs[1..])
  }

  /** A readv that succeeds returns the number of bytes it delivered, and
      the buffers hold the content from the old position to the new one,
      in order, none of them empty and none longer than its request. */
  lemma {:induction false} ReadvContents(f: VFile, lens: seq<nat>, fails: (nat, nat) -> bool)
    ensures var r := ReadvFrom(f, lens, fails);
      r.ReadvDone? ==>
        f.pos <= r.pos && r.total == r.pos - f.pos && |r.bufs| <= |lens|
        && (r.total == 0 ==> r.bufs == [])
        && (r.total > 0 ==> r.pos <= |f.content| && Concat(r.bufs) == f.content[f.pos..r.pos])
        && (forall i :: 0 <= i < |r.bufs| ==> 0 < |r.bufs[i]| <= lens[i])
    decreases |lens|
  {
    if lens != [] {
      ReadvStep(f, lens, 0, fails);
      assert lens[0..] == lens;
      var k := ReadCount(f, lens[0]);
      if !fails(f.pos, lens[0]) && k > 0 {
        var g := VFile(f.content, f.pos + k);
        ReadvContents(g, lens[1..], fails);
        var rest := ReadvFrom(g, lens[1..], fails);
        if rest.ReadvDone? {
          ReadvContentsCons(f, k, lens, rest);
        }
      }
    }
  }

  /** The step of `ReadvContents`: a first buffer of `k` bytes in front of a
      readv from the new position that has the properties. */
  lemma ReadvContentsCons(f: VFile, k: nat, lens: seq<nat>, rest: Readv)
    requires lens != [] && k == ReadCount(f, lens[0]) && k > 0 && rest.ReadvDone?
    requires f.pos + k <= rest.pos && rest.total == rest.pos - (f.pos + k) && |rest.bufs| <= |lens[1..]|
    requires rest.total == 0 ==> rest.bufs == []
    requires rest.total > 0 ==> rest.pos <= |f.content| && Concat(rest.bufs) == f.content[f.pos + k..rest.pos]
    requires forall i :: 0 <= i < |rest.bufs| ==> 0 < |rest.bufs[i]| <= lens[1..][i]
    ensures var r := Prepend(k, [ReadBytes(f, lens[0])], rest);
      f.pos <= r.pos && r.total == r.pos - f.pos && |r.bufs| <= |lens|
      && r.pos <= |f.content| && Concat(r.bufs) == f.content[f.pos..r.pos]
      && (forall i :: 0 <= i < |r.bufs| ==> 0 < |r.bufs[i]| <= lens[i])
  {
    var r := Prepend(k, [ReadBytes(f, lens[0])], rest);
    assert r.bufs[1..] == rest.bufs;
    if rest.total > 0 {
      assert f.content[f.pos..rest.pos] == f.content[f.pos..f.pos + k] + f.content[f.pos + k..rest.pos];
    }
    forall i | 0 < i < |r.bufs| ensures 0 < |r.bufs[i]| <= lens[i] {
      assert r.bufs[i] == rest.bufs[i - 1] && lens[i] == lens[1..][i - 1];
    }
  }

  /** A readv that succeeds without filling every buffer stopped at a read
      that returned 0: the end of the content, or an empty buffer. */
  lemma {:induction false} ReadvStopsAtZero(f: VFile, lens: seq<nat>, fails: (nat, nat) -> bool)
    ensures var r := ReadvFrom(f, lens, fails);
      r.ReadvDone? && |r.bufs| < |lens| ==> r.pos >= |f.content| || lens[|r.bufs|] == 0
    decreases |lens|
  {
    var r := ReadvFrom(f, lens, fails);
    if lens != [] && !fails(f.pos, lens[0]) && ReadCount(f, lens[0]) > 0 {
      var k := ReadCount(f, lens[0]);
      var g := VFile(f.content, f.pos + k);
      ReadvStopsAtZero(g, lens[1..], fails);
      var rest := ReadvFrom(g, lens[1..], fails);
      if rest.ReadvDone? {
        assert |r.bufs| == 1 + |rest.bufs|;
        if |rest.bufs| < |lens[1..]| {
          assert lens[|r.bufs|] == lens[1..][|rest.bufs|];
        }
      }
    }
  }

  // ----- The descriptor table -----

  class Files {
    /** The archive's open descriptors (`SQUASH_VALID_VFD`). */
    var files: map<int, VFile>
    /** The archive's open directory handles (`squash_find_entry`). */
    var openDirs: set<int>
    /** Whether `squash_read(fd, _, n)` at a position fails. */
    const readFails: (int, nat, nat) -> bool
    /** What `squash_fstat` and the archive's directory calls return. */
    const archiveFstat: int -> int
    const archiveDir: (DirOp, int) -> int
    /** What a forwarded call returns. */
    const sys: SysCall -> int
    /** The calls forwarded to the real system so far. */
    ghost var sysCalls: seq<SysCall>

    constructor (files: map<int, VFile>, openDirs: set<int>, readFails: (int, nat, nat) -> bool,
                 archiveFstat: int -> int, archiveDir: (DirOp, int) -> int, sys: SysCall -> int)
      ensures this.files == files && this.openDirs == openDirs && this.readFails == readFails
      ensures this.archiveFstat == archiveFstat && this.archiveDir == archiveDir && this.sys == sys
      ensures sysCalls == []
    {
      this.files := files;
      this.openDirs := openDirs;
      this.readFails := readFails;
      this.archiveFstat := archiveFstat;
      this.archiveDir := archiveDir;
      this.sys := sys;
      sysCalls := [];
    }

    /** The reads of `fd`'s file, as `ReadvFrom` sees them. */
    function FailsAt(fd: int): (nat, nat) -> bool {
      (pos: nat, n: nat) => readFails(fd, pos, n)
    }

    /** Forward a call to the real system. */
    method Forward(call: SysCall) returns (r: int)
      modifies this`sysCalls
      ensures r == sys(call) && sysCalls == old(sysCalls) + [call]
    {
      sysCalls := sysCalls + [call];
      r := sys(call);
    }

    /** `squash_read` of `n` bytes on an archive descriptor. */
    method SquashRead(fd: int, n: nat) returns (r: int, data: seq<bv8>)
      requires fd in files
      modifies this`files
      ensures var f := old(files)[fd];
        if readFails(fd, f.pos, n) then r == -1 && data == [] && files == old(files)
        else r == ReadCount(f, n) && data == ReadBytes(f, n) &&
             files == old(files)[fd := VFile(f.content, f.pos + ReadCount(f, n))]
    {
      var f := files[fd];
      if readFails(fd, f.pos, n) {
        return -1, [];
      }
      var k := ReadCount(f, n);
      data := ReadBytes(f, n);
      files := files[fd := VFile(f.content, f.pos + k)];
      r := k;
    }

    /** `squash_lseek` on an archive descriptor: a negative target fails. */
    method SquashLseek(fd: int, offset: int, whence: Whence) returns (r: int)
      requires fd in files
      modifies this`files
      ensures var f := old(files)[fd];
        match SeekTarget(f, offset, whence)
        case None => r == -1 && files == old(files)
        case Some(p) => r == p && files == old(files)[fd := VFile(f.content, p)]
    {
      var f := files[fd];
      var target := SeekTarget(f, offset, whence);
      if target.None? {
        return -1;
      }
      files := files[fd := VFile(f.content, target.value)];
      r := target.value;
    }

    /** `enclose_io_read`. */
    method Read(fd: int, n: nat) returns (r: int, data: seq<bv8>)
      modifies this`files, this`sysCalls
      ensures fd !in old(files) ==>
        r == sys(SysRead(fd, n)) && sysCalls == old(sysCalls) + [SysRead(fd, n)] && files == old(files)
      ensures fd in old(files) ==> sysCalls == old(sysCalls)
      ensures fd in old(files) ==>
        var f := old(files)[fd];
        if readFails(fd, f.pos, n) then r == -1 && files == old(files)
        else r == ReadCount(f, n) && data == ReadBytes(f, n) &&
             files == old(files)[fd := VFile(f.content, f.pos + ReadCount(f, n))]
    {
      if fd in files {
        r, data := SquashRead(fd, n);
      } else {
        r := Forward(SysRead(fd, n));
        data := [];
      }
    }

    /** `enclose_io_lseek`. */
    method Lseek(fd: int, offset: int, whence: Whence) returns (r: int)
      modifies this`files, this`sysCalls
      ensures fd !in old(files) ==>
        r == sys(SysLseek(fd, offset, whence)) && sysCalls == old(sysCalls) + [SysLseek(fd, offset, whence)] &&
        files == old(files)
      ensures fd in old(files) ==> sysCalls == old(sysCalls)
      ensures fd in old(files) ==>
        var f := old(files)[fd];
        match SeekTarget(f, offset, whence)
        case None => r == -1 && files == old(files)
        case Some(p) => r == p && files == old(files)[fd := VFile(f.content, p)]
    {
      if fd in files {
        r := SquashLseek(fd, offset, whence);
      } else {
        r := Forward(SysLseek(fd, offset, whence));
      }
    }

    /** `enclose_io_pread` on an archive descriptor: remember the position,
        seek to `offset`, read, seek back. A failed read leaves the
        descriptor at `offset`. */
    method Pread(fd: int, n: nat, offset: int) returns (r: int, data: seq<bv8>)
      modifies this`files, this`sysCalls
      ensures fd !in old(files) ==>
        r == sys(SysPread(fd, n, offset)) && sysCalls == old(sysCalls) + [SysPread(fd, n, offset)] &&
        files == old(files)
      ensures fd in old(files) ==> sysCalls == old(sysCalls)
      ensures fd in old(files) && offset < 0 ==> r == -1 && files == old(files)
      ensures fd in old(files) && offset >= 0 ==>
        var f := old(files)[fd];
        var g := VFile(f.content, offset);
        if readFails(fd, offset, n) then r == -1 && files == old(files)[fd := g]
        else r == ReadCount(g, n) && data == ReadBytes(g, n) && files == old(files)
    {
      if fd !in files {
        r := Forward(SysPread(fd, n, offset));
        return r, [];
      }
      var backup := SquashLseek(fd, 0, SeekCur);
      SeekCurZero(old(files)[fd]);
      var moved := SquashLseek(fd, offset, SeekSet);
      if moved == -1 {
        return -1, [];
      }
      r, data := SquashRead(fd, n);
      if r == -1 {
        return -1, [];
      }
      var back := SquashLseek(fd, backup, SeekSet);
      assert back == backup;
    }

    /** `enclose_io_readv`: an archive descriptor is read buffer by buffer
        (`ReadvArchive`), any other descriptor goes to the real system. */
    method Readv(fd: int, lens: seq<nat>) returns (r: int, bufs: seq<seq<bv8>>)
      modifies this`files, this`sysCalls
      ensures fd !in old(files) ==>
        r == sys(SysReadv(fd, lens)) && sysCalls == old(sysCalls) + [SysReadv(fd, lens)] && files == old(files)
      ensures fd in old(files) ==> sysCalls == old(sysCalls) && ReadvResult(fd, lens, old(files), r, bufs)
    {
      if fd !in files {
        r := Forward(SysReadv(fd, lens));
        return r, [];
      }
      r, bufs := ReadvArchive(fd, lens);
    }

    /** The outcome of a readv on archive descriptor `fd`, from table `files0`:
        on failure -1 and the position the failed read was made at, otherwise
        the total, the buffers and the final position `ReadvFrom` gives. */
    ghost predicate ReadvResult(fd: int, lens: seq<nat>, files0: map<int, VFile>, r: int, bufs: seq<seq<bv8>>)
      requires fd in files0
      reads this`files
    {
      var f := files0[fd];
      match ReadvFrom(f, lens, FailsAt(fd))
      case ReadvFailed(at) => r == -1 && files == files0[fd := VFile(f.content, at)]
      case ReadvDone(total, p, b) => r == total && bufs == b && files == files0[fd := VFile(f.content, p)]
    }

    /** The loop of `enclose_io_readv` on an archive descriptor: read into
        each buffer in turn, stop at the first read that returns 0, and fail
        as a whole on the first read that fails. */
    method ReadvArchive(fd: int, lens: seq<nat>) returns (r: int, bufs: seq<seq<bv8>>)
      requires fd in files
      modifies this`files
      ensures ReadvResult(fd, lens, old(files), r, bufs)
    {
      ghost var f0 := files[fd];
      ghost var fails := FailsAt(fd);
      var total: nat := 0;
      bufs := [];
      var i := 0;
      while i < |lens|
        invariant 0 <= i <= |lens| && fd in files && files == old(files)[fd := files[fd]]
        invariant files[fd].content == f0.content
        invariant ReadvFrom(f0, lens, fails) == Prepend(total, bufs, ReadvFrom(files[fd], lens[i..], fails))
        decreases |lens| - i
      {
        ghost var f := files[fd];
        ReadvStep(f, lens, i, fails);
        var k, data := SquashRead(fd, lens[i]);
        if k == -1 {
          return -1, [];
        } else if k == 0 {
          assert bufs + [] == bufs;
          break;
        }
        PrependPrepend(total, bufs, k, [data], ReadvFrom(files[fd], lens[i + 1..], fails));
        total := total + k;
        bufs := bufs + [data];
        i := i + 1;
      }
      assert bufs + [] == bufs;
      r := total;
    }

    /** `enclose_io_close`: an archive descriptor is released. */
    method Close(fd: int) returns (r: int)
      modifies this`files, this`sysCalls
      ensures fd !in old(files) ==>
        r == sys(SysClose(fd)) && sysCalls == old(sysCalls) + [SysClose(fd)] && files == old(files)
      ensures fd in old(files) ==> r == 0 && sysCalls == old(sysCalls) && files == old(files) - {fd}
    {
      if fd in files {
        files := files - {fd};
        return 0;
      }
      r := Forward(SysClose(fd));
    }

    /** `enclose_io_fstat`. */
    method Fstat(fd: int) returns (r: int)
      modifies this`sysCalls
      ensures fd in files ==> r == archiveFstat(fd) && sysCalls == old(sysCalls)
      ensures fd !in files ==> r == sys(SysFstat(fd)) && sysCalls == old(sysCalls) + [SysFstat(fd)]
    {
      if fd in files {
        return archiveFstat(fd);
      }
      r := Forward(SysFstat(fd));
    }

    /** `enclose_io_closedir`, `_readdir`, `_telldir`, `_seekdir`,
        `_rewinddir` and `_dirfd`: an archive handle is served by the
        archive, and closing it releases it. */
    method DirCall(op: DirOp, dirp: int) returns (r: int)
      modifies this`openDirs, this`sysCalls
      ensures dirp in old(openDirs) ==>
        r == archiveDir(op, dirp) && sysCalls == old(sysCalls) &&
        openDirs == (if op == CloseDir then old(openDirs) - {dirp} else old(openDirs))
      ensures dirp !in old(openDirs) ==>
        r == sys(SysDir(op, dirp)) && sysCalls == old(sysCalls) + [SysDir(op, dirp)] && openDirs == old(openDirs)
    {
      if dirp in openDirs {
        r := archiveDir(op, dirp);
        if op == CloseDir {
          openDirs := openDirs - {dirp};
        }
        return;
      }
      r := Forward(SysDir(op, dirp));
    }
  }
}
