/**
 * The router's global state and the calls that read or change it: the
 * virtual working directory `enclose_io_cwd`, the lazily created shadow root
 * `mkdir_workdir`, and the calls `chdir`, `getcwd`, `getwd`, `mkdir`
 * (with its helper `enclose_io_mkdir_consult`), the creating branch of `open`,
 * `enclose_io_if` and `enclose_io_ifextract`.
 *
 * The archive and the operating system are oracles fixed when the router is
 * built; each call into the real file system is recorded in a ghost log.
 */
module Routing {
  import opened CStrings
  import opened Classifier
  import opened Overlay

  /** The codes this file stores in `errno` itself; `Unset` stands for any
      value the router did not write. */
  datatype Errno = Unset | ENOENT | EEXIST | ENOMEM

  /** A call into the real file system. */
  datatype OsCall = OsMkdir(path: string) | OsChdir(path: string) | OsOpen(path: string)

  /** What `enclose_io_getcwd` returns: a filled buffer, NULL after a failed
      allocation, or whatever the real `getcwd` returns. */
  datatype CwdResult = Filled(buf: array<char>) | NoMemory | FromOs

  /** What `enclose_io_ifextract` returns: the extracted real path of an
      intercepted path, or the path itself. */
  datatype Extracted = FromArchive(osPath: string) | Unchanged(path: string)

  /** What `enclose_io_open` does: return a descriptor, or hand the subject
      path to the lookup macro that tries the archive and the shadow tree. */
  datatype OpenOutcome = Descriptor(fd: int) | ViaLookup(subject: string)

  // ----- The virtual working directory as a value -----

  /** `enclose_io_chdir_helper` has a defined result: the copied prefix of
      `path` holds a character other than '/'. */
  predicate HelperDefined(path: string, pathLen: nat) {
    pathLen >= 1 && TrimTrailingSlashes(path[..Min(|path|, pathLen - 1)]) != []
  }

  /** The working directory `enclose_io_chdir_helper` stores for `path`: at
      most `pathLen - 1` characters of it, without trailing '/', plus one '/'. */
  function NormalizedCwd(path: string, pathLen: nat): (r: string)
    requires HelperDefined(path, pathLen)
    ensures 2 <= |r| <= pathLen && |r| - 1 <= |path| && r[|r| - 1] == '/' && r[|r| - 2] != '/'
    ensures r[..|r| - 1] == path[..|r| - 1]
    ensures forall i :: |r| - 1 <= i < Min(|path|, pathLen - 1) ==> path[i] == '/'
  {
    TrimTrailingSlashes(path[..Min(|path|, pathLen - 1)]) + "/"
  }

  /** A virtual path always leaves a non-empty directory behind. */
  lemma VirtualHelperDefined(path: string, pathLen: nat, platform: Platform)
    requires IsPath(path, platform) && pathLen >= 4
    ensures HelperDefined(path, pathLen)
  {
    VirtualHasNonSlash(path, platform);
    var s := path[..Min(|path|, pathLen - 1)];
    assert s[0] != '/' || s[1] != '/' || s[2] != '/';
  }

  /** The working directory stored for a virtual path is itself virtual. */
  lemma NormalizedCwdVirtual(path: string, pathLen: nat, platform: Platform)
    requires IsPath(path, platform) && pathLen >= 28
    ensures HelperDefined(path, pathLen)
    ensures IsPath(NormalizedCwd(path, pathLen), platform)
  {
    VirtualHelperDefined(path, pathLen, platform);
    ScopeNameShape();
    IsPathTable(path, platform);
    var m := Min(|path|, pathLen - 1);
    var s := path[..m];
    if m < |path| {
      SpelledTruncates(path, m, ScopeName, platform);
    } else {
      assert s == path;
    }
    var t := TrimTrailingSlashes(s);
    SpelledTrims(s, |t|, ScopeName, platform);
    SpelledExtends(t, t + "/", ScopeName, platform);
    IsPathTable(t + "/", platform);
  }

  /** What `enclose_io_getcwd` copies out of a non-empty working directory:
      one character less than it copies, at most `size - 1` with a caller's
      buffer of `size` characters. */
  function GetcwdText(cwd: string, size: Option<nat>): (r: string)
    requires |cwd| >= 1 && (size.Some? ==> size.value >= 2)
    ensures |r| < |cwd| && r == cwd[..|r|]
    ensures size.None? ==> |r| == |cwd| - 1
    ensures size.Some? ==> |r| + 2 <= size.value && (|r| + 2 == size.value || |r| == |cwd| - 1)
  {
    var m := if size.None? then |cwd| else Min(|cwd|, size.value - 1);
    cwd[..m - 1]
  }

  /** After a virtual `chdir` to a path that fits, `getcwd` with room enough
      gives the path back without its trailing '/'. */
  lemma {:induction false} ChdirThenGetcwd(path: string, pathLen: nat, size: Option<nat>)
    requires HelperDefined(path, pathLen) && |path| <= pathLen - 1
    requires size.Some? ==> size.value >= |NormalizedCwd(path, pathLen)| + 1
    ensures GetcwdText(NormalizedCwd(path, pathLen), size) == TrimTrailingSlashes(path)
  {
    var c := NormalizedCwd(path, pathLen);
    assert path[..Min(|path|, pathLen - 1)] == path;
    assert c[..|c| - 1] == TrimTrailingSlashes(path);
  }

  // ----- The calls `enclose_io_mkdir_consult` makes, and its result -----

  function MkdirCalls(dirs: seq<string>): (c: seq<OsCall>)
    ensures |c| == |dirs| && forall i :: 0 <= i < |dirs| ==> c[i] == OsMkdir(dirs[i])
  {
    seq(|dirs|, i requires 0 <= i < |dirs| => OsMkdir(dirs[i]))
  }

  lemma MkdirCallsSnoc(dirs: seq<string>, d: string)
    ensures MkdirCalls(dirs + [d]) == MkdirCalls(dirs) + [OsMkdir(d)]
  {
    var a, b := MkdirCalls(dirs + [d]), MkdirCalls(dirs) + [OsMkdir(d)];
    assert forall i :: 0 <= i < |a| ==> a[i] == b[i];
  }

  lemma LogAssoc(a: seq<OsCall>, b: seq<OsCall>, c: seq<OsCall>)
    ensures a + b + c == a + (b + c)
  {
  }

  /** The real `mkdir` calls of a plan, in order. */
  function ConsultCalls(plan: Consult): seq<OsCall> {
    match plan
    case OutOfScope => []
    case DupFailed(mirrors) => MkdirCalls(mirrors)
    case Create(mirrors, target) => MkdirCalls(mirrors) + [OsMkdir(target)]
  }

  /** `memmove` of the text after the marker at `h` over the marker, terminator included. */
  method StripMarker(a: array<char>, h: nat)
    requires h + |Marker| <= |CStr(a[..])| < a.Length
    modifies a
    ensures CStr(a[..]) == RemoveMarker(CStr(old(a[..])), h)
  {
    ghost var s := CStr(a[..]);
    var len := StrLen(a);
    var i := h;
    while i + |Marker| <= len
      invariant h <= i <= len - |Marker| + 1
      invariant a[..h] == s[..h]
      invariant forall k :: h <= k < i ==> a[k] == old(a[k + |Marker|])
      invariant forall k :: i <= k < a.Length ==> a[k] == old(a[k])
      decreases len - i
    {
      a[i] := a[i + |Marker|];
      i := i + 1;
    }
    var r := RemoveMarker(s, h);
    assert a[..len - |Marker|] == r by {
      forall k | 0 <= k < len - |Marker| ensures a[k] == r[k] {
        if k >= h {
          assert old(a[k + |Marker|]) == s[k + |Marker|];
        }
      }
    }
    CStrAt(a[..], len - |Marker|);
  }

  /** Copies `s` into a fresh buffer with its terminator. */
  method NewCString(s: string) returns (a: array<char>)
    requires NoNul(s)
    ensures fresh(a) && a.Length == |s| + 1 && CStr(a[..]) == s
  {
    a := new char[|s| + 1];
    forall i | 0 <= i < |s| {
      a[i] := s[i];
    }
    a[|s|] := NUL;
    CStrAt(a[..], |s|);
  }

  /** The body of `enclose_io_chdir_helper` on the buffer `cwd` of
      `pathLen + 1` characters: copy at most `pathLen - 1` characters of
      `path`, step back over trailing '/', then append '/' and the terminator. */
  method WriteCwd(cwd: array<char>, path: string, pathLen: nat)
    requires cwd.Length == pathLen + 1 && NoNul(path) && HelperDefined(path, pathLen)
    modifies cwd
    ensures CStr(cwd[..]) == NormalizedCwd(path, pathLen)
  {
    var n := |path|;
    if pathLen - 1 < n {
      n := pathLen - 1;
    }
    ghost var s := path[..n];
    ghost var t := TrimTrailingSlashes(s);
    ghost var k := |t| - 1;
    assert s[k] == t[k] != '/';
    forall i | 0 <= i < n {
      cwd[i] := path[i];
    }
    while cwd[n - 1] == '/'
      invariant k < n <= |s|
      invariant forall i :: n <= i < |s| ==> s[i] == '/'
      decreases n
    {
      n := n - 1;
    }
    TrimIs(s, n);
    cwd[n] := '/';
    cwd[n + 1] := NUL;
    assert cwd[..n] == s[..n];
    SlashTerminated(cwd[..], s[..n]);
  }

  /** The copy of `enclose_io_getcwd`: `n` characters of `src`, the last of
      them then overwritten by the terminator. */
  method CopyOut(src: array<char>, dst: array<char>, n: nat)
    requires src != dst && 1 <= n <= dst.Length && n <= |CStr(src[..])|
    modifies dst
    ensures CStr(dst[..]) == CStr(src[..])[..n - 1]
  {
    ghost var c := CStr(src[..]);
    forall i | 0 <= i < n {
      dst[i] := src[i];
    }
    dst[n - 1] := NUL;
    assert dst[..n - 1] == c[..n - 1];
    CStrAt(dst[..], n - 1);
  }

  /** The trailing-'/' loop of `enclose_io_mkdir_consult`: overwrite each
      trailing '/' with the terminator; returns the new length. */
  method TrimInPlace(path: array<char>) returns (n: nat)
    requires |CStr(path[..])| < path.Length && TrimTrailingSlashes(CStr(path[..])) != []
    modifies path
    ensures n < path.Length && path[..n] == TrimTrailingSlashes(CStr(old(path[..]))) && path[n] == NUL
  {
    ghost var s0 := CStr(path[..]);
    ghost var t := TrimTrailingSlashes(s0);
    ghost var k := |t| - 1;
    assert s0[k] == t[k] != '/';
    n := StrLen(path);
    while path[n - 1] == '/'
      invariant k < n <= |s0| && path[n] == NUL
      invariant forall i :: 0 <= i < n ==> path[i] == s0[i]
      invariant forall i :: n <= i < |s0| ==> s0[i] == '/'
      decreases n
    {
      path[n - 1] := NUL;
      n := n - 1;
    }
    TrimIs(s0, n);
    assert path[..n] == s0[..n];
  }

  /** The `strstr` for the marker in `enclose_io_mkdir_consult`, with the
      check that a '/' follows it. */
  method LocateScope(path: array<char>, n: nat) returns (r: Option<nat>)
    requires n < path.Length && path[n] == NUL
    ensures r == ScopedMarker(path[..n])
  {
    r := StrStr(path, n, Marker);
    FindSpec(path[..n], Marker);
    if r.Some? {
      CharAtPrefix(path[..], n, r.value + |Marker|);
      if path[r.value + |Marker|] != '/' {
        r := None;
      }
    }
  }

  /** `strdup` of the C string `path[..p]`, followed by the `memmove` that
      removes the marker at `h` from the copy. */
  method DupWithoutMarker(path: array<char>, p: nat, h: nat) returns (dup: array<char>)
    requires p < path.Length && path[p] == NUL && NoNul(path[..p]) && h + |Marker| <= p
    ensures fresh(dup) && CStr(dup[..]) == RemoveMarker(path[..p], h)
  {
    dup := new char[p + 1];
    forall i | 0 <= i <= p {
      dup[i] := path[i];
    }
    assert dup[..p] == path[..p];
    CStrAt(dup[..], p);
    StripMarker(dup, h);
  }

  class Router {
    const platform: Platform
    /** `SQUASHFS_PATH_LEN`: a path buffer holds this many characters and a terminator. */
    const pathLen: nat
    /** `MAXPATHLEN`, the buffer size `getwd` assumes. */
    const maxPathLen: nat
    /** `squash_stat` on the archive: the kind of the entry, or failure. */
    const archiveStat: string -> Option<FileKind>
    /** `squash_extract`: the real path an archive entry is extracted to. */
    const archiveExtract: string -> string
    /** Whether the real `stat`, `chdir` and `mkdir` of a path return 0. */
    const osStat: string -> bool
    const osChdir: string -> bool
    const osMkdir: string -> bool
    /** The descriptor the real `open` returns. */
    const osOpen: string -> int
    /** The name `squash_tmpf(squash_tmpdir(), NULL)` gives the shadow root. */
    const tmpName: string
    /** Whether `atexit` accepts the cleanup handler. */
    const atexitOk: bool
    /** Whether an allocation of that many bytes returns NULL. */
    const allocFails: nat -> bool

    /** `enclose_io_cwd`: empty, or the virtual working directory, ending with exactly one '/'. */
    var cwd: array<char>
    /** `mkdir_workdir`: the shadow root, once created. */
    var workdir: Option<string>
    var errno: Errno
    /** The calls made into the real file system so far. */
    ghost var osCalls: seq<OsCall>

    function Cwd(): string
      reads this`cwd, cwd
    {
      CStr(cwd[..])
    }

    /** The working directory buffer holds a terminated string that is empty
        or a virtual directory ending with exactly one '/'. */
    ghost predicate CwdValid()
      reads this`cwd, cwd
    {
      cwd.Length == pathLen + 1 && pathLen >= 28
      && |Cwd()| < cwd.Length
      && (Cwd() == [] || (IsPath(Cwd(), platform) && |Cwd()| >= 2 &&
                          Cwd()[|Cwd()| - 1] == '/' && Cwd()[|Cwd()| - 2] != '/'))
    }

    ghost predicate Valid()
      reads this`cwd, cwd, this`workdir
    {
      CwdValid() && maxPathLen >= 2 && WorkdirValid()
    }

    /** The shadow root, once made, is the temporary name, a plain C string
        without marker that fits the path buffer; on Windows it is never made. */
    ghost predicate WorkdirValid()
      reads this`workdir
    {
      NoNul(tmpName) && NoMarker(tmpName) && |tmpName| <= pathLen
      && (workdir.Some? ==> workdir.value == tmpName && platform == Posix)
    }

    /** The process starts with no virtual directory and no shadow root. */
    constructor (platform: Platform, pathLen: nat, maxPathLen: nat,
                 archiveStat: string -> Option<FileKind>, archiveExtract: string -> string,
                 osStat: string -> bool, osChdir: string -> bool, osMkdir: string -> bool,
                 osOpen: string -> int, tmpName: string, atexitOk: bool, allocFails: nat -> bool)
      requires pathLen >= 28 && maxPathLen >= 2
      requires NoNul(tmpName) && NoMarker(tmpName) && |tmpName| <= pathLen
      ensures Valid() && fresh(cwd)
      ensures Cwd() == [] && workdir == None && errno == Unset && osCalls == []
      ensures this.platform == platform && this.pathLen == pathLen && this.maxPathLen == maxPathLen
      ensures this.archiveStat == archiveStat && this.archiveExtract == archiveExtract
      ensures this.osStat == osStat && this.osChdir == osChdir && this.osMkdir == osMkdir
      ensures this.osOpen == osOpen && this.tmpName == tmpName && this.atexitOk == atexitOk
      ensures this.allocFails == allocFails
    {
      this.platform := platform;
      this.pathLen := pathLen;
      this.maxPathLen := maxPathLen;
      this.archiveStat := archiveStat;
      this.archiveExtract := archiveExtract;
      this.osStat := osStat;
      this.osChdir := osChdir;
      this.osMkdir := osMkdir;
      this.osOpen := osOpen;
      this.tmpName := tmpName;
      this.atexitOk := atexitOk;
      this.allocFails := allocFails;
      cwd := new char[pathLen + 1](_ => NUL);
      workdir := None;
      errno := Unset;
      osCalls := [];
      new;
      CStrAt(cwd[..], 0);
    }

    // ----- Routing decisions -----

    /** `enclose_io_if`: a relative path under a virtual directory, or a virtual path. */
    predicate Intercepts(path: string)
      reads this`cwd, cwd
    {
      (Cwd() != [] && CharAt(path, 0) != '/') || IsPath(path, platform)
    }

    /** The archive path an intercepted call works on: a relative path is
        appended to the working directory, within the buffer of `pathLen`. */
    function Subject(path: string): (r: Option<string>)
      reads this`cwd, cwd
      requires CwdValid()
      ensures r.Some? <==> Intercepts(path)
      ensures r.Some? ==> IsPath(r.value, platform)
      ensures r.Some? && !IsPath(path, platform) ==> Cwd() != [] && |r.value| <= pathLen
      ensures r.Some? && NoNul(path) ==> NoNul(r.value)
    {
      if Cwd() != [] && CharAt(path, 0) != '/' then
        var e := Cwd() + path[..Min(|path|, pathLen - |Cwd()|)];
        IsPathExtends(Cwd(), e, platform);
        Some(e)
      else if IsPath(path, platform) then Some(path)
      else None
    }

    /** `enclose_io_ifextract`: intercepted paths are extracted from the
        archive, all others pass through untouched. */
    function IfExtract(path: string): (r: Extracted)
      reads this`cwd, cwd
      requires CwdValid()
      ensures r == Unchanged(path) <==> !Intercepts(path)
      ensures r.FromArchive? ==> r.osPath == archiveExtract(Subject(path).value)
    {
      match Subject(path)
      case Some(e) => FromArchive(archiveExtract(e))
      case None => Unchanged(path)
    }

    /** The shadow-tree directory `enclose_io_chdir` enters, if the shadow root
        exists and the real `stat` finds the path's shadow location. */
    function ShadowDir(path: string): Option<string>
      reads this`workdir
      requires workdir.Some? ==> |workdir.value| <= pathLen
    {
      if workdir.None? then None
      else match ShadowPath(workdir.value, path, pathLen)
        case None => None
        case Some(t) => if osStat(t) then Some(t) else None
    }

    // ----- The working directory -----

    /** `enclose_io_chdir_helper`: store `path` as the virtual working directory. */
    method ChdirHelper(path: string)
      requires Valid() && NoNul(path) && IsPath(path, platform)
      modifies cwd
      ensures Valid()
      ensures HelperDefined(path, pathLen) && Cwd() == NormalizedCwd(path, pathLen)
    {
      NormalizedCwdVirtual(path, pathLen, platform);
      WriteCwd(cwd, path, pathLen);
    }

    /** `enclose_io_chdir`: the working directory changes only when it returns 0. */
    method Chdir(path: string) returns (ret: int)
      requires Valid() && NoNul(path)
      modifies cwd, this`errno, this`osCalls
      ensures Valid()
      ensures ret == 0 || ret == -1
      ensures ret != 0 ==> Cwd() == old(Cwd())
      ensures !IsPath(path, platform) ==>
        osCalls == old(osCalls) + [OsChdir(path)] && errno == old(errno) &&
        ret == (if osChdir(path) then 0 else -1) && (ret == 0 ==> Cwd() == [])
      ensures IsPath(path, platform) && ShadowDir(path).Some? ==>
        var t := ShadowDir(path).value;
        osCalls == old(osCalls) + [OsChdir(t)] && errno == old(errno) &&
        ret == (if osChdir(t) then 0 else -1) &&
        (ret == 0 ==> HelperDefined(path, pathLen) && Cwd() == NormalizedCwd(path, pathLen))
      ensures IsPath(path, platform) && ShadowDir(path).None? ==>
        osCalls == old(osCalls) &&
        ret == (if archiveStat(path) == Some(Directory) then 0 else -1) &&
        errno == (if archiveStat(path) == Some(NonDirectory) then ENOENT else old(errno)) &&
        (ret == 0 ==> HelperDefined(path, pathLen) && Cwd() == NormalizedCwd(path, pathLen))
    {
      if IsPath(path, platform) {
        if workdir.Some? {
          var shadow := ShadowPath(workdir.value, path, pathLen);
          if shadow.Some? && osStat(shadow.value) {
            osCalls := osCalls + [OsChdir(shadow.value)];
            if osChdir(shadow.value) {
              ChdirHelper(path);
              ret := 0;
            } else {
              ret := -1;
            }
            return;
          }
        }
        var st := archiveStat(path);
        if st.None? {
          return -1;
        }
        if st.value == Directory {
          ChdirHelper(path);
          return 0;
        }
        errno := ENOENT;
        return -1;
      } else {
        osCalls := osCalls + [OsChdir(path)];
        if osChdir(path) {
          cwd[0] := NUL;
          CStrAt(cwd[..], 0);
          ret := 0;
        } else {
          ret := -1;
        }
      }
    }

    /** `enclose_io_getcwd`: copy the virtual directory, without its final
        character, into the caller's buffer of `size` characters or a new one. */
    method Getcwd(buf: array?<char>, size: nat) returns (r: CwdResult)
      requires Valid()
      requires buf != null ==> buf != cwd && buf.Length >= size && size >= 2
      modifies buf, this`errno
      ensures Cwd() == old(Cwd())
      ensures old(Cwd()) == [] ==> r == FromOs && errno == old(errno)
      ensures old(Cwd()) != [] && buf == null ==>
        if allocFails(|Cwd()| + 1) then r == NoMemory && errno == ENOMEM
        else r.Filled? && fresh(r.buf) && CStr(r.buf[..]) == GetcwdText(Cwd(), None) && errno == old(errno)
      ensures old(Cwd()) != [] && buf != null ==>
        r == Filled(buf) && CStr(buf[..]) == GetcwdText(Cwd(), Some(size)) && errno == old(errno)
    {
      if cwd[0] != NUL {
        var n := StrLen(cwd);
        var out: array<char>;
        if buf == null {
          if allocFails(n + 1) {
            errno := ENOMEM;
            return NoMemory;
          }
          out := new char[n + 1];
        } else {
          out := buf;
          if size - 1 < n {
            n := size - 1;
          }
        }
        CopyOut(cwd, out, n);
        r := Filled(out);
      } else {
        r := FromOs;
      }
    }

    /** `enclose_io_getwd`: `getcwd` with a buffer of `MAXPATHLEN` characters. */
    method Getwd(buf: array?<char>) returns (r: CwdResult)
      requires Valid()
      requires buf != null ==> buf != cwd && buf.Length >= maxPathLen
      modifies buf, this`errno
      ensures Cwd() == old(Cwd())
      ensures old(Cwd()) == [] ==> r == FromOs && errno == old(errno)
      ensures old(Cwd()) != [] && buf == null ==>
        if allocFails(|Cwd()| + 1) then r == NoMemory && errno == ENOMEM
        else r.Filled? && fresh(r.buf) && CStr(r.buf[..]) == GetcwdText(Cwd(), None) && errno == old(errno)
      ensures old(Cwd()) != [] && buf != null ==>
        r == Filled(buf) && CStr(buf[..]) == GetcwdText(Cwd(), Some(maxPathLen)) && errno == old(errno)
    {
      r := Getcwd(buf, maxPathLen);
    }

    // ----- Directory creation in the shadow tree -----

    /** `enclose_io_mkdir_workdir` (POSIX only): create the shadow root on first use. */
    method MkdirWorkdir() returns (w: Option<string>)
      requires WorkdirValid() && platform == Posix
      modifies this`workdir, this`osCalls
      ensures WorkdirValid() && w == workdir
      ensures old(workdir).Some? ==> workdir == old(workdir) && osCalls == old(osCalls)
      ensures old(workdir).None? ==>
        osCalls == old(osCalls) + [OsMkdir(tmpName)] &&
        workdir == (if osMkdir(tmpName) && atexitOk then Some(tmpName) else None)
    {
      if workdir.None? {
        osCalls := osCalls + [OsMkdir(tmpName)];
        if !osMkdir(tmpName) || !atexitOk {
          workdir := None;
          return None;
        }
        workdir := Some(tmpName);
      }
      w := workdir;
    }

    /** What `enclose_io_mkdir_consult` returns for a plan. */
    function ConsultResult(plan: Consult): int
    {
      match plan
      case Create(_, target) => if osMkdir(target) then 0 else -1
      case _ => -1
    }

    /** The walk of `enclose_io_mkdir_consult` over the trimmed path `s` held
        in `path`, whose first marker is at `h` and is followed by '/': at each
        later '/' it cuts the path there, asks the archive about the prefix
        from the marker on, and while that is a directory creates its copy
        without the marker; it reports whether duplicating a prefix failed. */
    method MirrorDirs(path: array<char>, n: nat, h: nat, ghost s: string) returns (oom: bool)
      requires n < path.Length && path[..n] == s && NoNul(s) && path[n] == NUL
      requires h + |Marker| < n
      modifies path, this`osCalls
      ensures var w := MirrorWalk(s, h, archiveStat, allocFails, h + |Marker| + 1);
        oom == w.outOfMemory && osCalls == old(osCalls) + MkdirCalls(Mirrors(s, h, w.cuts))
      ensures !oom ==> path[..n] == s && path[n] == NUL
    {
      ghost var start := h + |Marker| + 1;
      ghost var done: seq<nat> := [];
      ghost var stopped := false;
      var p := h + |Marker| + 1;
      while path[p] != NUL
        invariant start <= p <= n && path[n] == NUL
        invariant forall i :: 0 <= i < n ==> path[i] == s[i]
        invariant forall i :: 0 <= i < |done| ==> h + |Marker| < done[i] < p
        invariant WalkSplit(s, h, archiveStat, allocFails, start, p, done)
        invariant osCalls == old(osCalls) + MkdirCalls(Mirrors(s, h, done))
        decreases n - p
      {
        if path[p] == '/' {
          path[p] := NUL;
          assert path[h..p] == s[h..p];
          WalkStop(s, h, archiveStat, allocFails, start, p, done);
          if IsArchiveDir(archiveStat, path[h..p]) {
            if allocFails(p + 1) {
              return true;
            }
            assert path[..p] == s[..p];
            var dup := DupWithoutMarker(path, p, h);
            WalkMirror(s, h, archiveStat, allocFails, start, p, done);
            MirrorsSnoc(s, h, done, p);
            MkdirCallsSnoc(Mirrors(s, h, done), CStr(dup[..]));
            osCalls := osCalls + [OsMkdir(CStr(dup[..]))];
            done := done + [p];
            path[p] := '/';
          } else {
            path[p] := '/';
            stopped := true;
            break;
          }
        } else {
          WalkSkip(s, h, archiveStat, allocFails, start, p, done);
        }
        p := p + 1;
      }
      if !stopped {
        assert p == n;
        WalkEnd(s, h, archiveStat, allocFails, start, done);
      }
      assert path[..n] == s;
      return false;
    }

    /** The end of `enclose_io_mkdir_consult`: remove the marker from the
        trimmed path `s` held in `path` and create what remains. */
    method CreateTarget(path: array<char>, n: nat, h: nat, ghost s: string) returns (ret: int)
      requires n < path.Length && path[..n] == s && NoNul(s) && path[n] == NUL
      requires h + |Marker| <= n
      modifies path, this`osCalls
      ensures CStr(path[..]) == RemoveMarker(s, h)
      ensures osCalls == old(osCalls) + [OsMkdir(RemoveMarker(s, h))]
      ensures ret == if osMkdir(RemoveMarker(s, h)) then 0 else -1
    {
      CStrAt(path[..], n);
      StripMarker(path, h);
      var target := CStr(path[..]);
      osCalls := osCalls + [OsMkdir(target)];
      ret := if osMkdir(target) then 0 else -1;
    }

    /** `enclose_io_mkdir_consult`: mirror the archive's directories along the
        path into the shadow tree, then create the path, working in place on
        the buffer that holds the C string `s0`. */
    method MkdirConsult(path: array<char>, ghost s0: string) returns (ret: int)
      requires CStr(path[..]) == s0 && |s0| < path.Length && TrimTrailingSlashes(s0) != []
      modifies path, this`errno, this`osCalls
      ensures var plan := ConsultPlan(s0, archiveStat, allocFails);
        osCalls == old(osCalls) + ConsultCalls(plan) && ret == ConsultResult(plan) &&
        errno == (if plan.OutOfScope? then ENOENT else old(errno)) &&
        (plan.Create? ==> CStr(path[..]) == plan.target)
    {
      var n := TrimInPlace(path);
      ghost var s := path[..n];
      var head := LocateScope(path, n);
      if head.None? {
        ConsultPlanOutOfScope(s0, s, archiveStat, allocFails);
        errno := ENOENT;
        return -1;
      }
      var h := head.value;
      ConsultPlanInScope(s0, s, h, archiveStat, allocFails);
      ghost var calls0 := osCalls;
      var oom := MirrorDirs(path, n, h, s);
      if oom {
        return -1;
      }
      ghost var calls1 := osCalls;
      ret := CreateTarget(path, n, h, s);
      LogAssoc(calls0, calls1[|calls0|..], [OsMkdir(RemoveMarker(s, h))]);
    }

    /** What consulting `root` + `e` leaves behind, from the call log `calls0`
        and error number `errno0`: ENOMEM when the buffer for it cannot be
        allocated, otherwise the outcome of the consult plan. */
    ghost predicate ConsultOutcome(root: string, e: string, calls0: seq<OsCall>, errno0: Errno, ret: int)
      reads this`errno, this`osCalls
    {
      (allocFails(|root| + |e| + 1) ==> ret == -1 && errno == ENOMEM && osCalls == calls0) &&
      (!allocFails(|root| + |e| + 1) ==>
        var plan := ConsultPlan(root + e, archiveStat, allocFails);
        osCalls == calls0 + ConsultCalls(plan) && ret == ConsultResult(plan) &&
        errno == (if plan.OutOfScope? then ENOENT else errno0))
    }

    /** The virtual branch of `enclose_io_mkdir` once the shadow root `root`
        exists: build root + path in a fresh buffer and consult it. */
    method ConsultUnder(root: string, e: string) returns (ret: int)
      requires NoNul(root) && NoNul(e) && |e| >= 3 && (e[0] != '/' || e[1] != '/' || e[2] != '/')
      modifies this`errno, this`osCalls
      ensures ConsultOutcome(root, e, old(osCalls), old(errno), ret)
    {
      if allocFails(|root| + |e| + 1) {
        errno := ENOMEM;
        return -1;
      }
      var full := root + e;
      assert full[|root| + 1] == e[1] && full[|root|] == e[0] && full[|root| + 2] == e[2];
      var buf := NewCString(full);
      ret := MkdirConsult(buf, full);
    }

    /** What the virtual branch of `enclose_io_mkdir` leaves behind for the
        virtual directory `e`, from the shadow root `workdir0`, the call log
        `calls0` and the error number `errno0` it started with: the root is
        made if missing (and kept only if both `mkdir` and `atexit` succeed);
        without a root the result is ENOENT, when root + `e` cannot be
        allocated ENOMEM, and otherwise whatever consulting root + `e` does. */
    ghost predicate VirtualMkdirOutcome(e: string, workdir0: Option<string>, calls0: seq<OsCall>, errno0: Errno, ret: int)
      reads this`workdir, this`errno, this`osCalls
    {
      var rootCalls := if workdir0.None? then [OsMkdir(tmpName)] else [];
      workdir == (if workdir0.Some? || (osMkdir(tmpName) && atexitOk) then Some(tmpName) else None) &&
      (workdir.None? ==> ret == -1 && errno == ENOENT && osCalls == calls0 + rootCalls) &&
      (workdir.Some? ==> ConsultOutcome(tmpName, e, calls0 + rootCalls, errno0, ret))
    }

    /** The branch of `enclose_io_mkdir` for a virtual directory `e` that the
        archive does not hold: create the shadow root if need be, then
        consult root + `e`. */
    method MkdirVirtual(e: string) returns (ret: int)
      requires WorkdirValid() && platform == Posix
      requires NoNul(e) && |e| >= 3 && (e[0] != '/' || e[1] != '/' || e[2] != '/')
      modifies this`workdir, this`errno, this`osCalls
      ensures WorkdirValid()
      ensures VirtualMkdirOutcome(e, old(workdir), old(osCalls), old(errno), ret)
    {
      var w := MkdirWorkdir();
      if w.None? {
        errno := ENOENT;
        return -1;
      }
      assert w.value == tmpName;
      ret := ConsultUnder(tmpName, e);
    }

    /** What `enclose_io_mkdir` leaves behind for `path`, whose archive path
        was `subject`: a real `mkdir` when it is not intercepted, EEXIST for a
        path the archive holds, and the virtual branch otherwise. */
    ghost predicate MkdirOutcome(path: string, subject: Option<string>, workdir0: Option<string>,
                                 calls0: seq<OsCall>, errno0: Errno, ret: int)
      reads this`workdir, this`errno, this`osCalls
    {
      match subject
      case None =>
        osCalls == calls0 + [OsMkdir(path)] && ret == (if osMkdir(path) then 0 else -1) &&
        workdir == workdir0 && errno == errno0
      case Some(e) =>
        if archiveStat(e).Some? then
          ret == -1 && errno == EEXIST && osCalls == calls0 && workdir == workdir0
        else VirtualMkdirOutcome(e, workdir0, calls0, errno0, ret)
    }

    /** `enclose_io_mkdir` once the path has been classified as `subject`. */
    method MkdirRouted(path: string, subject: Option<string>) returns (ret: int)
      requires WorkdirValid() && platform == Posix
      requires subject.Some? ==> var e := subject.value;
        NoNul(e) && |e| >= 3 && (e[0] != '/' || e[1] != '/' || e[2] != '/')
      modifies this`workdir, this`errno, this`osCalls
      ensures WorkdirValid()
      ensures MkdirOutcome(path, subject, old(workdir), old(osCalls), old(errno), ret)
    {
      if subject.None? {
        osCalls := osCalls + [OsMkdir(path)];
        return if osMkdir(path) then 0 else -1;
      }
      var e := subject.value;
      if archiveStat(e).Some? {
        errno := EEXIST;
        return -1;
      }
      ret := MkdirVirtual(e);
    }

    /** `enclose_io_mkdir` (POSIX only). */
    method Mkdir(path: string) returns (ret: int)
      requires Valid() && platform == Posix && NoNul(path)
      modifies this`workdir, this`errno, this`osCalls
      ensures Valid() && Cwd() == old(Cwd())
      ensures MkdirOutcome(path, old(Subject(path)), old(workdir), old(osCalls), old(errno), ret)
    {
      var subject := Subject(path);
      if subject.Some? {
        VirtualHasNonSlash(subject.value, platform);
      }
      ret := MkdirRouted(path, subject);
    }

    /** What `enclose_io_open` does with `pathname`, whose archive path was
        `subject`, from the call log `calls0` and error number `errno0`:
        a path it does not intercept goes to the real `open`; without O_CREAT
        an intercepted path goes to the lookup macro; with O_CREAT it is
        created in the shadow tree, and only when its shadow location has a
        marker followed by '/'. */
    ghost predicate OpenDone(pathname: string, creat: bool, subject: Option<string>,
                             calls0: seq<OsCall>, errno0: Errno, r: OpenOutcome)
      reads this`workdir, this`errno, this`osCalls
      requires WorkdirValid()
    {
      match subject
      case None =>
        r == Descriptor(osOpen(pathname)) && osCalls == calls0 + [OsOpen(pathname)] && errno == errno0
      case Some(e) =>
        if !creat then r == ViaLookup(e) && osCalls == calls0 && errno == errno0
        else
          var shadow := if workdir.Some? then ShadowPath(workdir.value, e, pathLen) else None;
          (shadow.Some? ==> r == Descriptor(osOpen(shadow.value)) &&
                            osCalls == calls0 + [OsOpen(shadow.value)] && errno == errno0) &&
          (shadow.None? ==> r == Descriptor(-1) && osCalls == calls0 && errno == ENOENT)
    }

    /** `enclose_io_open` once the path has been classified as `subject`. */
    method OpenRouted(pathname: string, creat: bool, subject: Option<string>) returns (r: OpenOutcome)
      requires WorkdirValid()
      modifies this`errno, this`osCalls
      ensures OpenDone(pathname, creat, subject, old(osCalls), old(errno), r)
    {
      if subject.None? {
        osCalls := osCalls + [OsOpen(pathname)];
        return Descriptor(osOpen(pathname));
      }
      if !creat {
        return ViaLookup(subject.value);
      }
      if workdir.Some? {
        var shadow := ShadowPath(workdir.value, subject.value, pathLen);
        if shadow.Some? {
          osCalls := osCalls + [OsOpen(shadow.value)];
          return Descriptor(osOpen(shadow.value));
        }
      }
      errno := ENOENT;
      return Descriptor(-1);
    }

    /** `enclose_io_open`. */
    method Open(pathname: string, creat: bool) returns (r: OpenOutcome)
      requires Valid()
      modifies this`errno, this`osCalls
      ensures Valid()
      ensures OpenDone(pathname, creat, old(Subject(pathname)), old(osCalls), old(errno), r)
    {
      var subject := Subject(pathname);
      r := OpenRouted(pathname, creat, subject);
    }
  }
}
