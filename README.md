# enclose_io router model

`node/deps/libsquash/sample/enclose_io_unix.c` is the routing layer of
libsquash's enclose.io sample. Every file-system call it wraps decides where
its path or descriptor lives, and forwards the call there. There are three
places a path can live:

- the embedded read-only archive, whose paths start with the marker
  `/__enclose_io_memfs__`;
- a writable shadow tree under a temporary directory (`mkdir_workdir`), where
  `mkdir` and `open(O_CREAT)` put new entries, with the marker removed from
  the path;
- the real file system.

The router also keeps a virtual working directory, `enclose_io_cwd`. While it
is set, relative paths are resolved against it in the archive.

The model has five modules:

- `CStrings` (`cstring.dfy`): the C string primitives the router relies on,
  with their C meaning. These are `strnlen`, `strncmp`, `strstr`, `strlen`,
  a C string held in a buffer, and trailing-`/` trimming.
- `Classifier` (`classifier.dfy`): `enclose_io_is_path` and
  `enclose_io_is_relative_w`, written as the C code's literal
  `strnlen`/`strncmp` tests. Lemmas prove them equal to plain tables of
  accepted prefix spellings.
- `Overlay` (`overlay.dfy`): the shadow overlay as values.
  - The shadow location of a virtual path (the inline construction in
    `enclose_io_chdir` and in the `O_CREAT` branch of `enclose_io_open`).
  - The walk of `enclose_io_mkdir_consult` as a plan: the real directories
    it mirrors, in order, and the directory it finally creates.
- `Routing` (`routing.dfy`): the global state as a class `Router`.
  - `cwd` is the buffer `enclose_io_cwd`, taken to be an `array<char>` of
    `SQUASHFS_PATH_LEN + 1` characters (the size of `sqfs_path` is not in
    the source; see "Left out").
  - `workdir` is the lazily created shadow root.
  - `errno` is the error code, and a ghost log records every call made into
    the real file system.
  - The calls modelled are `chdir` (with `enclose_io_chdir_helper`),
    `getcwd`, `getwd`, `mkdir`, `enclose_io_mkdir_consult` (in place on its
    buffer: trailing-`/` loop, walk, `memmove`), `enclose_io_mkdir_workdir`,
    `open`, `enclose_io_if` and `enclose_io_ifextract`.
- `Descriptors` (`descriptors.dfy`): the descriptor and directory-handle
  calls.
  - An archive descriptor is modelled as its content and its position.
  - Archive descriptors (`SQUASH_VALID_VFD`) and archive directory handles
    (`squash_find_entry`) are membership in a map and a set.
  - `read`, `lseek`, `close` and `fstat` are modelled, with the
    save/seek/read/restore of `pread` and the buffer loop of `readv`.
  - The directory-handle calls are `closedir`, `readdir`, `telldir`,
    `seekdir`, `rewinddir` and `dirfd`.

The archive (`squash_stat`, `squash_extract`, the results of the archive's
directory calls and `fstat`) and the operating system (`stat`, `chdir`,
`mkdir`, `open`, the forwarded descriptor calls) are oracles. They are given
to the constructor and fixed for the lifetime of the object. The same holds
for:

- `SQUASHFS_PATH_LEN` and `MAXPATHLEN`;
- the temporary name of the shadow root;
- whether `atexit` accepts the cleanup handler;
- whether an allocation of a given size fails.

## Model

| member | source | states |
|---|---|---|
| CStrings.StrNLenBound | node/deps/libsquash/sample/enclose_io_unix.c:731 | `strnlen(p, n) >= n` holds exactly when `p` has at least `n` characters and none of the first `n` is NUL |
| CStrings.StrNEqLiteral | node/deps/libsquash/sample/enclose_io_unix.c:732 | `strncmp(a, lit, n) == 0` against a literal holds exactly when the first `n` characters of `a` are those of the literal |
| CStrings.GuardedPrefixTest | node/deps/libsquash/sample/enclose_io_unix.c:731-732 | the `strnlen` guard followed by `strncmp` of a whole literal is exactly the test "the literal is a prefix" |
| CStrings.FindSpec | node/deps/libsquash/sample/enclose_io_unix.c:303 | `strstr` returns the first occurrence of the needle, and returns none only when the needle occurs nowhere |
| CStrings.StrStr | node/deps/libsquash/sample/enclose_io_unix.c:303 | the loop over a C buffer finds the same occurrence as `Find` on the buffer's string |
| CStrings.StrLen | node/deps/libsquash/sample/enclose_io_unix.c:299 | `strlen` returns the index of the first NUL, and the characters before it are the C string |
| CStrings.TrimIs | node/deps/libsquash/sample/enclose_io_unix.c:299-301 | when every character from `n` on is '/' and the one before `n` is not, trimming trailing '/' leaves exactly the first `n` characters |
| Classifier.IsPath | node/deps/libsquash/sample/enclose_io_unix.c:729-765 | the literal `strnlen`/`strncmp` cascade of `enclose_io_is_path` (and of `enclose_io_is_path_w`, 768-800): the bare spelling on every platform, and the drive and long-path spellings only on Windows; its meaning is stated by `IsPathPosix`, `IsPathWindows` and `IsPathTable` |
| Classifier.IsRelativeW | node/deps/libsquash/sample/enclose_io_unix.c:802-829 | the four literal tests of `enclose_io_is_relative_w`, in the code's order; its meaning is stated by `IsRelativeWSpec` |
| Classifier.IsPathPosix | node/deps/libsquash/sample/enclose_io_unix.c:729-739 | on POSIX a path is virtual iff it has at least 21 characters and its first 21 are the marker `/__enclose_io_memfs__` |
| Classifier.MarkerPrefixIsVirtual | node/deps/libsquash/sample/enclose_io_unix.c:729-739 | the marker followed by anything, such as `/__enclose_io_memfs__x`, is virtual: a prefix test, not a component test |
| Classifier.BareSpelling | node/deps/libsquash/sample/enclose_io_unix.c:731-739 | the first test accepts exactly a separator followed by the 20-character scope name |
| Classifier.DriveSpelling | node/deps/libsquash/sample/enclose_io_unix.c:741-747 | the drive test accepts exactly a non-NUL character, ':', a separator, then the scope name |
| Classifier.LongSpelling | node/deps/libsquash/sample/enclose_io_unix.c:748-753 | the long-path test accepts exactly `\\?\` or `//?/` followed by the scope name |
| Classifier.LongDriveSpelling | node/deps/libsquash/sample/enclose_io_unix.c:754-762 | the long drive test accepts exactly a long prefix, a drive character, ':', a separator, then the scope name, separators mixed as the code allows |
| Classifier.IsPathWindows | node/deps/libsquash/sample/enclose_io_unix.c:768-800 | on Windows (the narrow and the wide function alike) a path is virtual iff it has one of the four spellings of the table |
| Classifier.IsPathTable | node/deps/libsquash/sample/enclose_io_unix.c:729-765 | on each platform `IsPath` equals that platform's table of spellings |
| Classifier.IsRelativeWSpec | node/deps/libsquash/sample/enclose_io_unix.c:802-829 | a wide path is relative iff it neither starts with a separator nor is drive-qualified; the long-path tests never decide anything on their own |
| Classifier.VirtualHasNonSlash | node/deps/libsquash/sample/enclose_io_unix.c:729-765 | a virtual path has a character other than '/' among its first three |
| Classifier.IsPathExtends | node/deps/libsquash/sample/enclose_io_unix.c:729-765 | any extension of a virtual path is virtual |
| Classifier.IsPathTruncates | node/deps/libsquash/sample/enclose_io_unix.c:729-765 | a virtual path cut to 27 or more characters stays virtual |
| Classifier.IsPathTrims | node/deps/libsquash/sample/enclose_io_unix.c:729-765 | removing trailing '/' from a virtual path leaves it virtual |
| Overlay.ScopedMarkerSpec | node/deps/libsquash/sample/enclose_io_unix.c:303-307 | the scope search reports the first marker occurrence when '/' follows it; it reports none exactly when every marker followed by '/' comes after an earlier marker |
| Overlay.FirstMarkerIsPaths | node/deps/libsquash/sample/enclose_io_unix.c:480 | when the shadow root holds no marker and the path starts with it, `strstr` on root + path finds the path's own marker |
| Overlay.ShadowPath | node/deps/libsquash/sample/enclose_io_unix.c:472-486 | the shadow location of a path (the same construction as at 618-632): the root followed by the path cut to the buffer, with the first marker removed only when '/' follows it; it always fits the buffer with room for the marker, and an uncut path loses exactly the marker |
| Overlay.ShadowPathOfScoped | node/deps/libsquash/sample/enclose_io_unix.c:472-486 | a virtual path `marker/rest` that fits has the shadow location `root/rest` |
| Overlay.ShadowPathNeedsSeparator | node/deps/libsquash/sample/enclose_io_unix.c:480-481 | a path whose marker is followed by anything but '/' has no shadow location |
| Overlay.MirrorWalk | node/deps/libsquash/sample/enclose_io_unix.c:309-331 | the walk of the `for` loop from position `p`: every cut it reports lies between `p` and the end of the path; its meaning is stated by `MirrorWalkCuts`, `MirrorWalkAscending` and `MirrorWalkComplete` |
| Overlay.ConsultPlan | node/deps/libsquash/sample/enclose_io_unix.c:299-337 | what `enclose_io_mkdir_consult` does with a path: trim, find the scope, walk, then create the path without the marker; its meaning is stated by `ConsultPlanNested` and, for the in-place code, by `Routing.Router.MkdirConsult` |
| Overlay.MirrorWalkCuts | node/deps/libsquash/sample/enclose_io_unix.c:309-331 | each prefix the walk mirrors ends before a '/' past the first component after the marker, and the archive holds that marker-rooted prefix as a directory |
| Overlay.MirrorWalkAscending | node/deps/libsquash/sample/enclose_io_unix.c:309-331 | the mirrored prefixes are produced left to right |
| Overlay.MirrorWalkComplete | node/deps/libsquash/sample/enclose_io_unix.c:309-331 | a '/' is a cut of a walk that did not run out of memory iff the archive reports every marker-rooted prefix up to and including it as a directory; the walk stops at the first that is not |
| Overlay.MirrorIsParent | node/deps/libsquash/sample/enclose_io_unix.c:313-322 | the marker-free copy of a prefix that ends before a '/' is a parent directory of the final target |
| Overlay.MirrorsNested | node/deps/libsquash/sample/enclose_io_unix.c:309-337 | every mirrored directory is a proper ancestor of the target, and each is longer than the one before it |
| Overlay.ConsultPlanNested | node/deps/libsquash/sample/enclose_io_unix.c:299-337 | the real `mkdir` calls of a consult create ancestors of the target in order, from the shortest to the longest, then the target |
| Routing.NormalizedCwd | node/deps/libsquash/sample/enclose_io_unix.c:449-461 | the stored directory is the copied prefix of at most `SQUASHFS_PATH_LEN - 1` characters, without its trailing '/', followed by exactly one '/' |
| Routing.NormalizedCwdVirtual | node/deps/libsquash/sample/enclose_io_unix.c:449-461 | the directory stored for a virtual path is defined and itself virtual |
| Routing.GetcwdText | node/deps/libsquash/sample/enclose_io_unix.c:528-549 | getcwd copies one character less than `m`: `m` is the directory's length, or at most `size - 1` with a caller's buffer |
| Routing.ChdirThenGetcwd | node/deps/libsquash/sample/enclose_io_unix.c:449-461 | after a virtual chdir to a path that fits, getcwd with room enough returns the path without its trailing '/' |
| Routing.WriteCwd | node/deps/libsquash/sample/enclose_io_unix.c:451-460 | the copy, the step back over trailing '/' and the appended '/' and terminator leave `NormalizedCwd` in the buffer |
| Routing.CopyOut | node/deps/libsquash/sample/enclose_io_unix.c:546-548 | the copied buffer holds the first `n - 1` characters of the working directory |
| Routing.TrimInPlace | node/deps/libsquash/sample/enclose_io_unix.c:299-301 | overwriting trailing '/' with the terminator leaves the trimmed path in the buffer |
| Routing.LocateScope | node/deps/libsquash/sample/enclose_io_unix.c:303-304 | the buffer search finds the first marker when '/' follows it, as `ScopedMarker` specifies |
| Routing.StripMarker | node/deps/libsquash/sample/enclose_io_unix.c:332-336 | the `memmove` leaves the path with the marker removed |
| Routing.DupWithoutMarker | node/deps/libsquash/sample/enclose_io_unix.c:313-321 | the duplicate of the cut path, with its marker removed, is a fresh buffer |
| Routing.NewCString | node/deps/libsquash/sample/enclose_io_unix.c:367-368 | `strcpy` then `strcat` into a buffer of the summed length plus one: a fresh buffer holding the C string root + path |
| Routing.Router.Subject | node/deps/libsquash/sample/enclose_io_unix.c:421-430 | a path is intercepted iff it is relative under a virtual directory or is itself virtual; its archive path is then virtual and, when relative, fits the buffer |
| Routing.Router.IfExtract | node/deps/libsquash/sample/enclose_io_unix.c:432-447 | an intercepted path is replaced by the extraction of its archive path, and every other path passes through unchanged |
| Routing.Router.Intercepts | node/deps/libsquash/sample/enclose_io_unix.c:421-430 | `enclose_io_if`: a path is routed away from the real file system when it is relative (does not start with '/') under a non-empty virtual directory, or when it is virtual; `Subject` proves its archive path exists exactly then |
| Routing.Router.ShadowDir | node/deps/libsquash/sample/enclose_io_unix.c:466-494 | the shadow branch of `enclose_io_chdir`: taken only when the shadow root exists, the path has a shadow location and the real `stat` finds it; `Chdir` states what happens in each case |
| Routing.Router.ChdirHelper | node/deps/libsquash/sample/enclose_io_unix.c:449-461 | the working directory becomes `NormalizedCwd(path)` and stays a virtual directory |
| Routing.Router.Chdir | node/deps/libsquash/sample/enclose_io_unix.c:463-526 | see the detail after this table |
| Routing.Router.Getcwd | node/deps/libsquash/sample/enclose_io_unix.c:528-553 | without a virtual directory the real getcwd answers; otherwise the caller's buffer, or a fresh one, holds `GetcwdText`, or the call gives NULL with ENOMEM when allocation fails |
| Routing.Router.Getwd | node/deps/libsquash/sample/enclose_io_unix.c:555-558 | getwd is getcwd with a buffer of `MAXPATHLEN`: the real getcwd without a virtual directory; otherwise the caller's buffer holds `GetcwdText` for that size, or with no buffer a fresh one holds the whole directory without its final '/', or the result is NULL with ENOMEM when allocation fails |
| Routing.Router.MkdirWorkdir | node/deps/libsquash/sample/enclose_io_unix.c:34-52 | (POSIX only) the shadow root is created once, by one real mkdir; it is kept only when both mkdir and atexit succeed, and otherwise stays unset |
| Routing.Router.MirrorDirs | node/deps/libsquash/sample/enclose_io_unix.c:309-331 | the in-place walk issues exactly the real mkdir calls of `MirrorWalk` in order, reports a failed duplication, and otherwise restores the path |
| Routing.Router.CreateTarget | node/deps/libsquash/sample/enclose_io_unix.c:332-337 | the last step removes the marker and returns the real mkdir of what remains |
| Routing.Router.MkdirConsult | node/deps/libsquash/sample/enclose_io_unix.c:291-338 | see the detail after this table |
| Routing.Router.ConsultUnder | node/deps/libsquash/sample/enclose_io_unix.c:362-371 | root + path is built when its allocation succeeds, and ENOMEM is given with no call otherwise; the consult of it follows |
| Routing.Router.MkdirVirtual | node/deps/libsquash/sample/enclose_io_unix.c:357-371 | without a shadow root the result is ENOENT; otherwise root + path is consulted (`VirtualMkdirOutcome`) |
| Routing.Router.MkdirRouted | node/deps/libsquash/sample/enclose_io_unix.c:340-403 | see the detail after this table |
| Routing.Router.Mkdir | node/deps/libsquash/sample/enclose_io_unix.c:340-403 | as `MkdirRouted` for the classification `Subject(path)` of the path; the working directory is unchanged |
| Routing.Router.OpenRouted | node/deps/libsquash/sample/enclose_io_unix.c:592-700 | see the detail after this table |
| Routing.Router.Open | node/deps/libsquash/sample/enclose_io_unix.c:592-700 | as `OpenRouted` for the classification `Subject(pathname)` |
| Descriptors.ReadCount | node/deps/libsquash/sample/enclose_io_unix.c:711-718 | a read of `n` bytes delivers at most `n`; it delivers none iff `n` is 0 or the position is at or past the end; otherwise it delivers `n` or all that remains |
| Descriptors.SeekTarget | node/deps/libsquash/sample/enclose_io_unix.c:720-727 | a seek fails iff its target from the start, the position or the end is negative |
| Descriptors.SeekCurZero | node/deps/libsquash/sample/enclose_io_unix.c:219 | `lseek(d, 0, SEEK_CUR)` reports the current position and does not move it |
| Descriptors.ReadvFrom | node/deps/libsquash/sample/enclose_io_unix.c:241-255 | the loop of `enclose_io_readv` as a function: buffer by buffer, failing as a whole on a failed read, stopping at a read of 0; its meaning is stated by `ReadvContents` and `ReadvStopsAtZero` |
| Descriptors.ReadvContents | node/deps/libsquash/sample/enclose_io_unix.c:241-255 | see the detail after this table |
| Descriptors.ReadvStopsAtZero | node/deps/libsquash/sample/enclose_io_unix.c:249-250 | a successful readv that fills fewer buffers than it was given stopped at a read that returned 0: at the end of the content, or at an empty buffer |
| Descriptors.Files.SquashRead | node/deps/libsquash/sample/enclose_io_unix.c:714 | the archive read (`squash_read`, whose source is not part of this model) under the assumed semantics: fails in place, or delivers `ReadBytes` and advances the position by `ReadCount` |
| Descriptors.Files.SquashLseek | node/deps/libsquash/sample/enclose_io_unix.c:723 | the archive seek (`squash_lseek`, whose source is not part of this model) under the assumed semantics: fails in place on a negative target, otherwise moves there and returns it |
| Descriptors.Files.Read | node/deps/libsquash/sample/enclose_io_unix.c:711-718 | an archive read delivers `ReadBytes`, moves the position by the count or fails with -1 in place; any other descriptor is forwarded |
| Descriptors.Files.Lseek | node/deps/libsquash/sample/enclose_io_unix.c:720-727 | an archive seek moves to `SeekTarget` and returns it, or fails with -1 in place; any other descriptor is forwarded |
| Descriptors.Files.Pread | node/deps/libsquash/sample/enclose_io_unix.c:214-237 | see the detail after this table |
| Descriptors.Files.ReadvArchive | node/deps/libsquash/sample/enclose_io_unix.c:241-255 | the accumulation loop returns exactly what `ReadvFrom` specifies, and leaves the descriptor where that says |
| Descriptors.Files.Readv | node/deps/libsquash/sample/enclose_io_unix.c:239-259 | an archive descriptor is read as `ReadvFrom` specifies, and any other descriptor is forwarded to the real readv |
| Descriptors.Files.Close | node/deps/libsquash/sample/enclose_io_unix.c:702-709 | closing an archive descriptor releases it and returns 0; any other descriptor is forwarded |
| Descriptors.Files.Fstat | node/deps/libsquash/sample/enclose_io_unix.c:583-590 | an archive descriptor is answered by the archive and any other by the real fstat |
| Descriptors.Files.DirCall | node/deps/libsquash/sample/enclose_io_unix.c:127-185 | an archive handle is served by the archive, and closing it releases it; any other handle is forwarded |

The rows above that say "see the detail after this table" state the
following.

- `Routing.Router.Chdir`: the working directory changes only when chdir
  returns 0.
  - A non-virtual path is chdir'ed for real. On success the working
    directory is emptied.
  - A virtual path that has a shadow directory found by stat is chdir'ed
    there.
  - Otherwise, an archive directory gives 0 and sets the working directory
    to `NormalizedCwd(path)`.
  - A failed archive stat gives -1.
  - A non-directory in the archive gives -1 with ENOENT.
- `Routing.Router.MkdirConsult`: the real mkdir calls are exactly those of
  `ConsultPlan`, in order, and so is the result.
  - When the first marker is missing or not followed by '/', the result is
    -1 with ENOENT and no call.
  - A failed duplication gives -1.
  - Otherwise the buffer ends up holding the target.
- `Routing.Router.MkdirRouted`:
  - A path that is not intercepted gets a real mkdir.
  - A path the archive already holds gets EEXIST and nothing is created.
  - Otherwise the result is that of `VirtualMkdirOutcome`: ENOENT without a
    shadow root, ENOMEM when the buffer cannot be allocated, and otherwise
    the consult.
- `Routing.Router.OpenRouted`:
  - A path that is not intercepted goes to the real open.
  - Without O_CREAT, the archive path goes to the lookup.
  - With O_CREAT, the shadow location is opened for real.
  - With no shadow root, or no marker followed by '/', the result is -1 with
    ENOENT.
- `Descriptors.ReadvContents`: a successful readv returns the number of bytes
  delivered.
  - The buffers hold the content from the old position to the new one, in
    order.
  - None of the buffers is empty, none holds more than its request, and
    there are no more of them than were given.
- `Descriptors.Files.Pread`:
  - A negative offset fails with -1.
  - A successful read at `offset` returns its count and bytes, and the
    descriptor position is back where it was.
  - A failed read returns -1 and leaves the descriptor at `offset`, not
    restored.
  - Any other descriptor is forwarded.

## Left out

- Windows error plumbing: `enclose_io_dos_return` is the identity on the
  platforms modelled, and `ENCLOSE_IO_SET_LAST_ERROR` is not modelled.
- The path dispatchers `stat`, `lstat`, `readlink`, `opendir` and
  `scandir` forward through the lookup macro
  `ENCLOSE_IO_CONSIDER_MKDIR_WORKDIR_RETURN`. The macro is not part of this
  model. `Open` stops at the same point: without O_CREAT it returns
  `ViaLookup` with the archive path. `enclose_io_dlopen` is `dlopen` of
  `enclose_io_ifextract(path)`, modelled by `IfExtract`; the real `dlopen`
  itself is a foreign call.
- `enclose_io_access` is not modelled. It passes the address of its stat
  buffer as the access mode.
- The variadic `mode` of `open` and `mkdir`, and the `select`/`compar`
  callbacks of `scandir`: modes and callbacks are not modelled.
- The `nftw`/`atexit` removal of the shadow tree at exit is I/O. Only
  whether `atexit` accepts the handler is modelled.
- The mutex in `enclose_io_mkdir_workdir` is concurrency. `MkdirWorkdir`
  models the sequential behaviour. The two failure paths that return
  without unlocking are not modelled.
- Routing.Router.Subject: the expansion of a relative path by
  `ENCLOSE_IO_GEN_EXPANDED_NAME` is assumed to be the working directory
  followed by the path, cut to the buffer.
- Routing.Router.MkdirWorkdir: the shadow root's name is a constant
  (`tmpName`) rather than a fresh `squash_tmpf` name per process.
- Routing.Router.Chdir: the `errno` that a failed `squash_stat` or real
  `chdir` sets is not modelled. `Errno.Unset` stands for any value the
  router itself did not write.
- Routing.Router.ChdirHelper: requires a virtual path. On a path of only
  '/' the C code reads `enclose_io_cwd[-1]`, and the helper is called only
  with virtual paths.
- Routing.Router.Getcwd: requires `size >= 2` with a caller's buffer. With
  a smaller size `size - 1` underflows in the C code.
- Routing.Router.MkdirConsult: requires the trimmed path to be non-empty.
  The guard `strlen(path) - 1 >= 0` is always true for `size_t`, so the C
  loop would index `path[-1]` on a path of only '/'. A path that reaches
  this call is shadow root + a virtual path, and every virtual path has a
  character other than '/' among its first three (`VirtualHasNonSlash`), so
  the trimmed path is never empty there.
- Routing.Router.Mkdir: modelled on POSIX only. The C function is compiled
  only there, and so is `enclose_io_mkdir_workdir`; on Windows the shadow
  root is never made (`WorkdirValid`).
- The size of `sqfs_path` (`SQUASHFS_PATH_LEN`) is not in the source. The
  model assumes a working-directory buffer of `SQUASHFS_PATH_LEN + 1`
  characters, with `SQUASHFS_PATH_LEN >= 28`. This keeps the writes of
  `enclose_io_chdir_helper` (the '/' and the terminator) in bounds, and the
  terminator written after the shadow path in `chdir` and `open` is not
  modelled as a buffer write at all.
- The classifier is modelled on `char` sequences. `enclose_io_is_path_w`
  and `enclose_io_is_relative_w` are the same tests over `wchar_t`. Wide
  character encoding is not modelled.
- Descriptors.Files.Read: the semantics of `squash_read` are assumed. It
  either fails, as an oracle says, leaving the position, or delivers
  `min(n, remaining)` bytes.
- Descriptors.Files.Lseek: `squash_lseek` is assumed to fail exactly when
  the target is negative. Seeking past the end is allowed.
- Descriptors.Files.Pread: the first `squash_lseek(d, 0, SEEK_CUR)` cannot
  fail under that assumption, so its failure branch is not reachable in the
  model.
- Descriptors.Files.Pread: the save, seek, read and restore are one
  sequential method. Another thread using the same descriptor between the
  seeks, which could observe or move the position, is not modelled.
- Descriptors.Files.Close: `squash_close` is assumed to release the
  descriptor and return 0.
- Descriptors.Files.Fstat and Descriptors.Files.DirCall: the archive's
  results are oracles. What a directory handle reads is not modelled.
- The bytes read from real descriptors are not modelled. A forwarded read
  returns no data in the model, only the oracle's count.
- Integers are unbounded. `ssize_t`/`off_t` overflow of a position or a
  readv total is not modelled.
