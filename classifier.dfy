/**
 * The path classifier: does a path name the embedded archive's namespace?
 * `IsPath` follows the C code's `strnlen`/`strncmp` tests literally; the
 * lemmas prove it equal to a plain table of prefix spellings.
 */
module Classifier {
  import opened CStrings

  /** The platform the router was compiled for (`_WIN32` or not). */
  datatype Platform = Posix | Windows

  /** The scope marker `enclose_io_mkdir_scope`: it does not end with a separator. */
  const Marker: string := "/__enclose_io_memfs__"

  /** The marker's name without its leading separator. */
  const ScopeName: string := "__enclose_io_memfs__"

  /** `enclose_io_is_path` (and, on Windows, its wide twin `enclose_io_is_path_w`). */
  predicate IsPath(p: string, platform: Platform) {
    (StrNLen(p, 21) >= 21 &&
      (StrNEq(p, "/" + ScopeName, 21) || (platform == Windows && StrNEq(p, "\\" + ScopeName, 21))))
    || (platform == Windows && IsWindowsQualifiedPath(p))
  }

  /** The drive-letter and long-path spellings, tried only on Windows. */
  predicate IsWindowsQualifiedPath(p: string) {
    (StrNLen(p, 23) >= 23 &&
      (StrNEq(Offset(p, 1), ":/" + ScopeName, 22) || StrNEq(Offset(p, 1), ":\\" + ScopeName, 22)))
    || (StrNLen(p, 24) >= 24 &&
      (StrNEq(p, "\\\\?\\" + ScopeName, 24) || StrNEq(p, "//?/" + ScopeName, 24)))
    || (StrNLen(p, 27) >= 27 &&
      (StrNEq(p, "\\\\?\\", 4) || StrNEq(p, "//?/", 4)) &&
      (StrNEq(Offset(p, 5), ":\\" + ScopeName, 22) || StrNEq(Offset(p, 5), ":/" + ScopeName, 22)))
  }

  /** `enclose_io_is_relative_w`: not rooted, not drive-qualified, not a long path. */
  predicate IsRelativeW(p: string) {
    if CharAt(p, 0) == '\\' || CharAt(p, 0) == '/' then false
    else if StrNLen(p, 3) >= 3 && (StrNEq(Offset(p, 1), ":\\", 2) || StrNEq(Offset(p, 1), ":/", 2)) then false
    else if StrNLen(p, 4) >= 4 && (StrNEq(p, "\\\\?\\", 4) || StrNEq(p, "//?/", 4)) then false
    else if StrNLen(p, 7) >= 7 &&
      ((StrNEq(p, "\\\\?\\", 4) && StrNEq(Offset(p, 5), ":\\", 2)) ||
       (StrNEq(p, "//?/", 4) && StrNEq(Offset(p, 5), ":/", 2))) then false
    else true
  }

  // ----- Reference definitions: the accepted spellings as a table of prefixes -----

  predicate IsSep(c: char) { c == '/' || c == '\\' }

  predicate IsLongPrefix(q: string) { q == "\\\\?\\" || q == "//?/" }

  /** The spellings of a virtual path on Windows, as a table. */
  predicate WindowsSpelling(p: string) {
    WindowsSpellingOf(p, ScopeName)
  }

  /** The table for any scope name of 20 characters. */
  predicate WindowsSpellingOf(p: string, name: string) {
    // "\__enclose_io_memfs__" or "/__enclose_io_memfs__"
    (|p| >= 21 && IsSep(p[0]) && p[1..21] == name)
    // "C:\__enclose_io_memfs__", "C:/__enclose_io_memfs__"
    || (|p| >= 23 && p[0] != NUL && p[1] == ':' && IsSep(p[2]) && p[3..23] == name)
    // "\\?\__enclose_io_memfs__", "//?/__enclose_io_memfs__"
    || (|p| >= 24 && IsLongPrefix(p[..4]) && p[4..24] == name)
    // "\\?\C:\__enclose_io_memfs__" and its mixed-separator variants
    || (|p| >= 27 && IsLongPrefix(p[..4]) && p[4] != NUL && p[5] == ':' && IsSep(p[6]) && p[7..27] == name)
  }

  /** The POSIX table: the separator '/' followed by the scope name. */
  predicate PosixSpellingOf(p: string, name: string) {
    |p| >= 21 && p[0] == '/' && p[1..21] == name
  }

  /** A virtual path, by the tables. */
  predicate SpelledVirtual(p: string, name: string, platform: Platform) {
    if platform == Posix then PosixSpellingOf(p, name) else WindowsSpellingOf(p, name)
  }

  /** On POSIX a path is virtual iff it starts with the 21 characters of the marker:
      a prefix test, so "/__enclose_io_memfs__x" is virtual too. */
  lemma IsPathPosix(p: string)
    ensures IsPath(p, Posix) <==> |p| >= 21 && p[..21] == Marker
  {
    ScopeNameShape();
    NoNulConcat("/", ScopeName);
    assert Marker == "/" + ScopeName;
    GuardedPrefixTest(p, Marker);
  }

  /** The marker followed by anything, even without a separator, classifies as virtual. */
  lemma MarkerPrefixIsVirtual(rest: string)
    ensures IsPath(Marker + rest, Posix)
  {
    IsPathPosix(Marker + rest);
    assert (Marker + rest)[..21] == Marker;
  }

  /** A one-character literal prefix is a test of the first character. */
  lemma OneCharPrefix(p: string, c: char)
    requires |p| >= 1
    ensures p[..1] == [c] <==> p[0] == c
  {
    assert p[..1] == [p[0]];
  }

  lemma ScopeNameShape()
    ensures NoNul(ScopeName) && |ScopeName| == 20
    ensures ScopeName[0] == '_' && ScopeName[19] == '_'
    ensures Marker == "/" + ScopeName
  {
  }

  // The spelling lemmas are proved for any 20-character name, so that the
  // solver never unfolds the marker's characters.

  lemma BareSpelling(p: string, name: string)
    requires NoNul(name) && |name| == 20
    ensures (StrNLen(p, 21) >= 21 &&
      (StrNEq(p, "/" + name, 21) || StrNEq(p, "\\" + name, 21)))
      <==> (|p| >= 21 && IsSep(p[0]) && p[1..21] == name)
  {
    NoNulConcat("/", name);
    NoNulConcat("\\", name);
    GuardedPrefixTest(p, "/" + name);
    GuardedPrefixTest(p, "\\" + name);
    if |p| >= 21 {
      SplitPrefix(p, "/", name);
      SplitPrefix(p, "\\", name);
      OneCharPrefix(p, '/');
      OneCharPrefix(p, '\\');
    }
  }

  lemma DriveSpelling(p: string, name: string)
    requires NoNul(name) && |name| == 20
    ensures (StrNLen(p, 23) >= 23 &&
      (StrNEq(Offset(p, 1), ":/" + name, 22) || StrNEq(Offset(p, 1), ":\\" + name, 22)))
      <==> (|p| >= 23 && p[0] != NUL && p[1] == ':' && IsSep(p[2]) && p[3..23] == name)
  {
    NoNulConcat(":/", name);
    NoNulConcat(":\\", name);
    StrNLenBound(p, 23);
    if |p| >= 23 {
      var q := p[1..];
      HasPrefixTest(q, ":/" + name);
      HasPrefixTest(q, ":\\" + name);
      SplitPrefix(q, ":/", name);
      SplitPrefix(q, ":\\", name);
      assert q[..2] == [p[1], p[2]];
      assert q[2..22] == p[3..23];
      assert p[..23] == [p[0]] + q[..22];
    }
  }

  lemma LongSpelling(p: string, name: string)
    requires NoNul(name) && |name| == 20
    ensures (StrNLen(p, 24) >= 24 &&
      (StrNEq(p, "\\\\?\\" + name, 24) || StrNEq(p, "//?/" + name, 24)))
      <==> (|p| >= 24 && IsLongPrefix(p[..4]) && p[4..24] == name)
  {
    NoNulConcat("\\\\?\\", name);
    NoNulConcat("//?/", name);
    GuardedPrefixTest(p, "\\\\?\\" + name);
    GuardedPrefixTest(p, "//?/" + name);
    if |p| >= 24 {
      SplitPrefix(p, "\\\\?\\", name);
      SplitPrefix(p, "//?/", name);
    }
  }

  lemma LongDriveSpelling(p: string, name: string)
    requires NoNul(name) && |name| == 20
    ensures (StrNLen(p, 27) >= 27 &&
      (StrNEq(p, "\\\\?\\", 4) || StrNEq(p, "//?/", 4)) &&
      (StrNEq(Offset(p, 5), ":\\" + name, 22) || StrNEq(Offset(p, 5), ":/" + name, 22)))
      <==> (|p| >= 27 && IsLongPrefix(p[..4]) && p[4] != NUL && p[5] == ':' && IsSep(p[6]) && p[7..27] == name)
  {
    NoNulConcat(":/", name);
    NoNulConcat(":\\", name);
    StrNLenBound(p, 27);
    HasPrefixTest(p, "\\\\?\\");
    HasPrefixTest(p, "//?/");
    if |p| >= 27 {
      var q := p[5..];
      HasPrefixTest(q, ":/" + name);
      HasPrefixTest(q, ":\\" + name);
      SplitPrefix(q, ":/", name);
      SplitPrefix(q, ":\\", name);
      assert q[..2] == [p[5], p[6]];
      assert q[2..22] == p[7..27];
      assert p[..27] == p[..4] + [p[4]] + q[..22];
    }
  }

  /** On Windows the classifier accepts exactly the spellings of the table. */
  lemma IsPathWindows(p: string)
    ensures IsPath(p, Windows) <==> WindowsSpelling(p)
  {
    ScopeNameShape();
    BareSpelling(p, ScopeName);
    DriveSpelling(p, ScopeName);
    LongSpelling(p, ScopeName);
    LongDriveSpelling(p, ScopeName);
  }

  /** A wide path is relative iff it neither starts with a separator nor with a
      drive prefix "X:" plus separator; the long-path tests of the C code never
      decide, because a long path already starts with a separator. */
  lemma IsRelativeWSpec(p: string)
    ensures IsRelativeW(p) <==>
      !(|p| >= 1 && IsSep(p[0])) && !(|p| >= 3 && p[0] != NUL && p[1] == ':' && IsSep(p[2]))
  {
    StrNLenBound(p, 3);
    if |p| >= 3 {
      var q := p[1..];
      HasPrefixTest(q, ":\\");
      HasPrefixTest(q, ":/");
      assert q[..2] == [p[1], p[2]];
      assert p[..3] == [p[0], p[1], p[2]];
    }
    HasPrefixTest(p, "\\\\?\\");
    HasPrefixTest(p, "//?/");
    if |p| >= 4 {
      assert p[..4][0] == p[0];
    }
  }

  /** On either platform the classifier accepts exactly the spellings of the table. */
  lemma IsPathTable(p: string, platform: Platform)
    ensures IsPath(p, platform) <==> SpelledVirtual(p, ScopeName, platform)
  {
    ScopeNameShape();
    if platform == Posix {
      IsPathPosix(p);
      if |p| >= 21 {
        SplitPrefix(p, "/", ScopeName);
        OneCharPrefix(p, '/');
      }
    } else {
      IsPathWindows(p);
    }
  }

  // ----- Which edits of a virtual path keep it virtual -----
  // Proved on the tables, for any 20-character scope name.

  lemma SpelledHasNonSlash(p: string, name: string, platform: Platform)
    requires |name| == 20 && name[0] != '/'
    requires SpelledVirtual(p, name, platform)
    ensures |p| >= 3 && (p[0] != '/' || p[1] != '/' || p[2] != '/')
  {
    if |p| >= 21 && p[1..21] == name {
      assert p[1] == p[1..21][0];
    } else if |p| >= 24 && IsLongPrefix(p[..4]) {
      assert p[0] == p[..4][0] && p[2] == p[..4][2];
    }
  }

  lemma {:induction false} SpelledExtends(p: string, q: string, name: string, platform: Platform)
    requires SpelledVirtual(p, name, platform) && |p| <= |q| && q[..|p|] == p
    ensures SpelledVirtual(q, name, platform)
  {
    forall i | 0 <= i < |p| ensures q[i] == p[i] { assert q[i] == q[..|p|][i]; }
    if |p| >= 21 {
      assert q[1..21] == p[1..21];
    }
    if |p| >= 23 {
      assert q[3..23] == p[3..23];
    }
    if |p| >= 24 {
      assert q[..4] == p[..4] && q[4..24] == p[4..24];
    }
    if |p| >= 27 {
      assert q[7..27] == p[7..27];
    }
  }

  lemma {:induction false} SpelledTruncates(p: string, j: nat, name: string, platform: Platform)
    requires SpelledVirtual(p, name, platform) && 27 <= j <= |p|
    ensures SpelledVirtual(p[..j], name, platform)
  {
    var q := p[..j];
    assert q[1..21] == p[1..21] && q[3..23] == p[3..23];
    assert q[..4] == p[..4] && q[4..24] == p[4..24] && q[7..27] == p[7..27];
  }

  /** A trailing run of '/' cannot reach into a copy of the name at `lo`,
      whose last character is not '/'. */
  lemma TrimKeepsName(p: string, j: nat, name: string, lo: nat)
    requires |name| == 20 && name[19] != '/'
    requires lo + 20 <= |p| && p[lo..lo + 20] == name && j <= |p|
    requires forall i :: j <= i < |p| ==> p[i] == '/'
    ensures lo + 20 <= j && p[..j][lo..lo + 20] == name
  {
    assert p[lo + 19] == p[lo..lo + 20][19];
  }

  lemma {:induction false} SpelledTrims(p: string, j: nat, name: string, platform: Platform)
    requires |name| == 20 && name[19] != '/'
    requires SpelledVirtual(p, name, platform) && j <= |p|
    requires forall i :: j <= i < |p| ==> p[i] == '/'
    ensures SpelledVirtual(p[..j], name, platform)
  {
    var q := p[..j];
    if |p| >= 21 && IsSep(p[0]) && p[1..21] == name {
      TrimKeepsName(p, j, name, 1);
    } else if |p| >= 23 && p[0] != NUL && p[1] == ':' && IsSep(p[2]) && p[3..23] == name {
      TrimKeepsName(p, j, name, 3);
    } else if |p| >= 24 && IsLongPrefix(p[..4]) && p[4..24] == name {
      TrimKeepsName(p, j, name, 4);
      assert q[..4] == p[..4];
    } else {
      assert |p| >= 27 && IsLongPrefix(p[..4]) && p[7..27] == name;
      TrimKeepsName(p, j, name, 7);
      assert q[..4] == p[..4];
    }
  }

  /** Every virtual path has a character other than '/' among its first three. */
  lemma VirtualHasNonSlash(p: string, platform: Platform)
    requires IsPath(p, platform)
    ensures |p| >= 3 && (p[0] != '/' || p[1] != '/' || p[2] != '/')
  {
    ScopeNameShape();
    IsPathTable(p, platform);
    SpelledHasNonSlash(p, ScopeName, platform);
  }

  /** Appending to a virtual path keeps it virtual: the classifier reads a prefix only. */
  lemma IsPathExtends(p: string, q: string, platform: Platform)
    requires IsPath(p, platform) && |p| <= |q| && q[..|p|] == p
    ensures IsPath(q, platform)
  {
    IsPathTable(p, platform);
    IsPathTable(q, platform);
    SpelledExtends(p, q, ScopeName, platform);
  }

  /** Cutting a virtual path at or after its 27th character keeps it virtual. */
  lemma IsPathTruncates(p: string, j: nat, platform: Platform)
    requires IsPath(p, platform) && 27 <= j <= |p|
    ensures IsPath(p[..j], platform)
  {
    IsPathTable(p, platform);
    IsPathTable(p[..j], platform);
    SpelledTruncates(p, j, ScopeName, platform);
  }

  /** Removing trailing '/' from a virtual path keeps it virtual: every spelling
      ends with the scope name, whose last character is not '/'. */
  lemma IsPathTrims(p: string, j: nat, platform: Platform)
    requires IsPath(p, platform) && j <= |p|
    requires forall i :: j <= i < |p| ==> p[i] == '/'
    ensures IsPath(p[..j], platform)
  {
    ScopeNameShape();
    IsPathTable(p, platform);
    IsPathTable(p[..j], platform);
    SpelledTrims(p, j, ScopeName, platform);
  }
}
