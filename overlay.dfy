/**
 * The shadow overlay as values: where a virtual path lives inside the
 * writable shadow tree, and which real directories `mkdir` creates when it
 * mirrors the archive's directory skeleton into that tree.
 */
module Overlay {
  import opened CStrings
  import opened Classifier

  /** What the archive's `squash_stat` reports about a path it holds. */
  datatype FileKind = Directory | NonDirectory

  /** `0 == squash_stat(fs, q, &buf) && S_ISDIR(buf.st_mode)`. */
  predicate IsArchiveDir(stat: string -> Option<FileKind>, q: string) {
    stat(q) == Some(Directory)
  }

  /** True when the marker does not occur anywhere in `s`. */
  predicate NoMarker(s: string) {
    Find(s, Marker).None?
  }

  /** `memmove` that deletes the marker found at index `h`. */
  function RemoveMarker(s: string, h: nat): (r: string)
    requires h + |Marker| <= |s|
    ensures |r| == |s| - |Marker|
  {
    s[..h] + s[h + |Marker|..]
  }

  // ----- The shadow path of `enclose_io_chdir` and `enclose_io_open` -----

  /** The shadow-tree location of `path`: the shadow root followed by `path`,
      cut to the `pathLen` characters of the buffer, with the first marker
      removed, provided a '/' follows that marker. */
  function ShadowPath(root: string, path: string, pathLen: nat): (r: Option<string>)
    requires |root| <= pathLen
    ensures r.Some? ==> |r.value| + |Marker| <= pathLen
    ensures r.Some? && |root| + |path| <= pathLen ==> |r.value| + |Marker| == |root| + |path|
  {
    var s := root + path[..Min(|path|, pathLen - |root|)];
    match ScopedMarker(s)
    case None => None
    case Some(h) => Some(RemoveMarker(s, h))
  }

  /** The position of the first marker of `s` when a '/' follows it; `None`
      when there is no marker or the first one is not followed by '/'
      (see `ScopedMarkerSpec`). */
  function ScopedMarker(s: string): (r: Option<nat>)
    ensures r.Some? ==> r.value + |Marker| < |s| && s[r.value + |Marker|] == '/'
  {
    match Find(s, Marker)
    case None => None
    case Some(h) => if CharAt(s, h + |Marker|) == '/' then Some(h) else None
  }

  /** `ScopedMarker` finds the first marker, and finds none exactly when
      every marker followed by '/' comes after an earlier marker. */
  lemma ScopedMarkerSpec(s: string)
    ensures var r := ScopedMarker(s);
      (r.Some? ==> OccursAt(s, Marker, r.value) && forall j :: 0 <= j < r.value ==> !OccursAt(s, Marker, j))
      && (r.None? ==> forall j :: 0 <= j && OccursAt(s, Marker, j) && CharAt(s, j + |Marker|) == '/' ==>
            exists k :: 0 <= k < j && OccursAt(s, Marker, k))
  {
    FindSpec(s, Marker);
    var f := Find(s, Marker);
    if ScopedMarker(s).None? {
      forall j | 0 <= j && OccursAt(s, Marker, j) && CharAt(s, j + |Marker|) == '/'
        ensures exists k :: 0 <= k < j && OccursAt(s, Marker, k)
      {
        assert f.Some? && f.value != j;
        assert f.value < j;
      }
    }
  }

  /** The only '/' of the marker is its first character. */
  lemma MarkerSlashes()
    ensures |Marker| == 21 && Marker[0] == '/'
    ensures forall k :: 1 <= k < |Marker| ==> Marker[k] != '/'
  {
    assert Marker == "/" + ScopeName;
    assert forall k :: 0 <= k < |ScopeName| ==> ScopeName[k] != '/';
  }

  /** An occurrence of the marker holds no '/' after its first character. */
  lemma MarkerInterior(s: string, j: nat)
    ensures OccursAt(s, Marker, j) ==> forall i :: j < i < j + |Marker| ==> s[i] != '/'
  {
    MarkerSlashes();
    if OccursAt(s, Marker, j) {
      forall i | j < i < j + |Marker|
        ensures s[i] != '/'
      {
        assert s[i] == s[j..j + |Marker|][i - j];
      }
    }
  }

  /** When the root holds no marker and the path starts with one, the first
      marker of `root + path` is the path's own. */
  lemma {:induction false} FirstMarkerIsPaths(root: string, path: string)
    requires NoMarker(root)
    requires |path| >= |Marker| && path[..|Marker|] == Marker
    ensures Find(root + path, Marker) == Some(|root|)
  {
    var s := root + path;
    MarkerSlashes();
    FindSpec(root, Marker);
    assert s[|root|..|root| + |Marker|] == Marker;
    forall j | 0 <= j < |root|
      ensures !OccursAt(s, Marker, j)
    {
      if j + |Marker| <= |root| {
        assert !OccursAt(root, Marker, j);
        assert s[j..j + |Marker|] == root[j..j + |Marker|];
      } else {
        MarkerInterior(s, j);
        assert s[|root|] == path[..|Marker|][0] == '/';
      }
    }
    assert OccursAt(s, Marker, |root|);
    FindIsFirst(s, Marker, |root|);
  }

  /** A virtual path `marker/rest` lives at `root/rest` in the shadow tree. */
  lemma ShadowPathOfScoped(root: string, rest: string, pathLen: nat)
    requires NoMarker(root)
    requires |root| + |Marker| + 1 + |rest| <= pathLen
    ensures ShadowPath(root, Marker + "/" + rest, pathLen) == Some(root + "/" + rest)
  {
    MarkerSlashes();
    var path := Marker + "/" + rest;
    var s := root + path;
    assert path[..Min(|path|, pathLen - |root|)] == path;
    assert path[..|Marker|] == Marker;
    FirstMarkerIsPaths(root, path);
    assert CharAt(s, |root| + |Marker|) == '/';
    assert s[..|root|] == root;
    assert s[|root| + |Marker|..] == "/" + rest;
    assert RemoveMarker(s, |root|) == root + "/" + rest;
  }

  /** A path that continues the marker with anything but '/' has no shadow path. */
  lemma ShadowPathNeedsSeparator(root: string, rest: string, pathLen: nat)
    requires NoMarker(root)
    requires rest == [] || rest[0] != '/'
    requires |root| + |Marker| + |rest| <= pathLen
    ensures ShadowPath(root, Marker + rest, pathLen) == None
  {
    var path := Marker + rest;
    assert path[..Min(|path|, pathLen - |root|)] == path;
    assert path[..|Marker|] == Marker;
    FirstMarkerIsPaths(root, path);
    if rest != [] {
      assert (root + path)[|root| + |Marker|] == rest[0];
    }
  }

  // ----- The walk of `enclose_io_mkdir_consult` -----

  /** The walk's outcome: the positions of the '/' at which a prefix was
      mirrored, in order, and whether duplicating a prefix ran out of memory. */
  datatype Walk = Walk(cuts: seq<nat>, outOfMemory: bool)

  /** The walk over the trimmed path `s` whose marker is at `h`, from position
      `p` on: at each '/' it asks the archive whether the marker-rooted prefix
      before it is a directory; while it is, the marker-free prefix is created
      in the shadow tree; at the first that is not, the walk stops. */
  function MirrorWalk(s: string, h: nat, stat: string -> Option<FileKind>, allocFails: nat -> bool, p: nat): (w: Walk)
    requires h + |Marker| < p <= |s|
    ensures forall i :: 0 <= i < |w.cuts| ==> p <= w.cuts[i] < |s|
    decreases |s| - p
  {
    if p == |s| then Walk([], false)
    else if s[p] != '/' then MirrorWalk(s, h, stat, allocFails, p + 1)
    else if !IsArchiveDir(stat, s[h..p]) then Walk([], false)
    else if allocFails(p + 1) then Walk([], true)
    else
      var w := MirrorWalk(s, h, stat, allocFails, p + 1);
      Walk([p] + w.cuts, w.outOfMemory)
  }

  /** Every cut is a '/' whose marker-rooted prefix the archive holds as a directory. */
  ghost predicate CutsAtDirs(s: string, h: nat, stat: string -> Option<FileKind>, cuts: seq<nat>) {
    forall i :: 0 <= i < |cuts| ==> h < cuts[i] < |s| && s[cuts[i]] == '/' && IsArchiveDir(stat, s[h..cuts[i]])
  }

  predicate Ascending(cuts: seq<nat>) {
    forall i, j :: 0 <= i < j < |cuts| ==> cuts[i] < cuts[j]
  }

  lemma CutsCons(s: string, h: nat, stat: string -> Option<FileKind>, p: nat, cuts: seq<nat>)
    requires h < p < |s| && s[p] == '/' && IsArchiveDir(stat, s[h..p])
    requires CutsAtDirs(s, h, stat, cuts)
    ensures CutsAtDirs(s, h, stat, [p] + cuts)
  {
    var c := [p] + cuts;
    assert forall i :: 1 <= i < |c| ==> c[i] == cuts[i - 1];
  }

  lemma AscendingCons(p: nat, cuts: seq<nat>)
    requires Ascending(cuts) && forall i :: 0 <= i < |cuts| ==> p < cuts[i]
    ensures Ascending([p] + cuts)
  {
    var c := [p] + cuts;
    assert forall i :: 1 <= i < |c| ==> c[i] == cuts[i - 1];
  }

  /** The walk cuts only at '/' whose marker-rooted prefix the archive holds
      as a directory. */
  lemma {:induction false} MirrorWalkCuts(s: string, h: nat, stat: string -> Option<FileKind>,
                                          allocFails: nat -> bool, p: nat)
    requires h + |Marker| < p <= |s|
    ensures CutsAtDirs(s, h, stat, MirrorWalk(s, h, stat, allocFails, p).cuts)
    decreases |s| - p
  {
    var w := MirrorWalk(s, h, stat, allocFails, p);
    if p == |s| {
      assert w.cuts == [];
    } else if s[p] != '/' {
      MirrorWalkCuts(s, h, stat, allocFails, p + 1);
      assert w == MirrorWalk(s, h, stat, allocFails, p + 1);
    } else if !IsArchiveDir(stat, s[h..p]) || allocFails(p + 1) {
      assert w.cuts == [];
    } else {
      var w' := MirrorWalk(s, h, stat, allocFails, p + 1);
      MirrorWalkCuts(s, h, stat, allocFails, p + 1);
      assert w.cuts == [p] + w'.cuts;
      CutsCons(s, h, stat, p, w'.cuts);
    }
  }

  /** The walk cuts each '/' at most once, from left to right. */
  lemma {:induction false} MirrorWalkAscending(s: string, h: nat, stat: string -> Option<FileKind>,
                                               allocFails: nat -> bool, p: nat)
    requires h + |Marker| < p <= |s|
    ensures Ascending(MirrorWalk(s, h, stat, allocFails, p).cuts)
    decreases |s| - p
  {
    var w := MirrorWalk(s, h, stat, allocFails, p);
    if p == |s| {
      assert w.cuts == [];
    } else if s[p] != '/' {
      MirrorWalkAscending(s, h, stat, allocFails, p + 1);
      assert w == MirrorWalk(s, h, stat, allocFails, p + 1);
    } else if !IsArchiveDir(stat, s[h..p]) || allocFails(p + 1) {
      assert w.cuts == [];
    } else {
      var w' := MirrorWalk(s, h, stat, allocFails, p + 1);
      MirrorWalkAscending(s, h, stat, allocFails, p + 1);
      assert w.cuts == [p] + w'.cuts;
      AscendingCons(p, w'.cuts);
    }
  }

  /** Every '/' from `p` to `q` ends a marker-rooted prefix the archive holds as a directory. */
  ghost predicate DirsUpTo(s: string, h: nat, stat: string -> Option<FileKind>, p: nat, q: nat)
    requires h <= p && q < |s|
  {
    forall k :: p <= k <= q && s[k] == '/' ==> IsArchiveDir(stat, s[h..k])
  }

  /** Without an allocation failure, the walk mirrors the prefix ending at a '/'
      iff the archive holds a directory at every '/' from the start up to it. */
  lemma {:induction false} MirrorWalkComplete(s: string, h: nat, stat: string -> Option<FileKind>,
                                              allocFails: nat -> bool, p: nat, q: nat)
    requires h + |Marker| < p <= q < |s| && s[q] == '/'
    requires !MirrorWalk(s, h, stat, allocFails, p).outOfMemory
    ensures q in MirrorWalk(s, h, stat, allocFails, p).cuts <==> DirsUpTo(s, h, stat, p, q)
    decreases |s| - p
  {
    var w := MirrorWalk(s, h, stat, allocFails, p);
    if s[p] != '/' {
      assert w == MirrorWalk(s, h, stat, allocFails, p + 1);
      MirrorWalkComplete(s, h, stat, allocFails, p + 1, q);
      assert DirsUpTo(s, h, stat, p, q) <==> DirsUpTo(s, h, stat, p + 1, q);
    } else if !IsArchiveDir(stat, s[h..p]) {
      assert w.cuts == [];
      assert !DirsUpTo(s, h, stat, p, q);
    } else if q > p {
      var w' := MirrorWalk(s, h, stat, allocFails, p + 1);
      assert w.cuts == [p] + w'.cuts;
      assert q in w.cuts <==> q in w'.cuts;
      MirrorWalkComplete(s, h, stat, allocFails, p + 1, q);
      assert DirsUpTo(s, h, stat, p, q) <==> DirsUpTo(s, h, stat, p + 1, q);
    } else {
      assert w.cuts[0] == p;
    }
  }

  /** The walk from `start` is the cuts `done` already made followed by the
      walk from `p`. */
  ghost predicate WalkSplit(s: string, h: nat, stat: string -> Option<FileKind>, allocFails: nat -> bool,
                            start: nat, p: nat, done: seq<nat>)
    requires h + |Marker| < start <= p <= |s|
  {
    var w := MirrorWalk(s, h, stat, allocFails, p);
    MirrorWalk(s, h, stat, allocFails, start) == Walk(done + w.cuts, w.outOfMemory)
  }

  lemma WalkSkip(s: string, h: nat, stat: string -> Option<FileKind>, allocFails: nat -> bool,
                 start: nat, p: nat, done: seq<nat>)
    requires h + |Marker| < start <= p < |s| && s[p] != '/'
    requires WalkSplit(s, h, stat, allocFails, start, p, done)
    ensures WalkSplit(s, h, stat, allocFails, start, p + 1, done)
  {
  }

  lemma WalkMirror(s: string, h: nat, stat: string -> Option<FileKind>, allocFails: nat -> bool,
                   start: nat, p: nat, done: seq<nat>)
    requires h + |Marker| < start <= p < |s| && s[p] == '/'
    requires IsArchiveDir(stat, s[h..p]) && !allocFails(p + 1)
    requires WalkSplit(s, h, stat, allocFails, start, p, done)
    ensures WalkSplit(s, h, stat, allocFails, start, p + 1, done + [p])
  {
    var w := MirrorWalk(s, h, stat, allocFails, p + 1);
    assert done + [p] + w.cuts == done + ([p] + w.cuts);
  }

  lemma WalkStop(s: string, h: nat, stat: string -> Option<FileKind>, allocFails: nat -> bool,
                 start: nat, p: nat, done: seq<nat>)
    requires h + |Marker| < start <= p < |s| && s[p] == '/'
    requires WalkSplit(s, h, stat, allocFails, start, p, done)
    ensures !IsArchiveDir(stat, s[h..p]) ==> MirrorWalk(s, h, stat, allocFails, start) == Walk(done, false)
    ensures IsArchiveDir(stat, s[h..p]) && allocFails(p + 1) ==>
      MirrorWalk(s, h, stat, allocFails, start) == Walk(done, true)
  {
    assert done + [] == done;
  }

  lemma WalkEnd(s: string, h: nat, stat: string -> Option<FileKind>, allocFails: nat -> bool,
                start: nat, done: seq<nat>)
    requires h + |Marker| < start <= |s|
    requires WalkSplit(s, h, stat, allocFails, start, |s|, done)
    ensures MirrorWalk(s, h, stat, allocFails, start) == Walk(done, false)
  {
    assert done + [] == done;
  }

  /** The directories a walk creates, in the order it creates them. */
  function Mirrors(s: string, h: nat, cuts: seq<nat>): (m: seq<string>)
    requires forall i :: 0 <= i < |cuts| ==> h + |Marker| <= cuts[i] <= |s|
    ensures |m| == |cuts|
  {
    seq(|cuts|, i requires 0 <= i < |cuts| => RemoveMarker(s[..cuts[i]], h))
  }

  /** Mirroring one more prefix appends one directory. */
  lemma MirrorsSnoc(s: string, h: nat, cuts: seq<nat>, p: nat)
    requires forall i :: 0 <= i < |cuts| ==> h + |Marker| <= cuts[i] <= |s|
    requires h + |Marker| <= p <= |s|
    ensures Mirrors(s, h, cuts + [p]) == Mirrors(s, h, cuts) + [RemoveMarker(s[..p], h)]
  {
    var c := cuts + [p];
    assert forall i :: 0 <= i < |cuts| ==> c[i] == cuts[i];
  }

  /** The directory mirrored at a '/' is a parent of the final directory. */
  lemma MirrorIsParent(s: string, h: nat, q: nat)
    requires h + |Marker| < q < |s| && s[q] == '/'
    ensures RemoveMarker(s[..q], h) == RemoveMarker(s, h)[..q - |Marker|]
    ensures RemoveMarker(s, h)[q - |Marker|] == '/'
  {
    assert s[..q][..h] == s[..h];
    assert s[..q][h + |Marker|..] == s[h + |Marker|..q];
  }

  /** What `enclose_io_mkdir_consult` does with a path. */
  datatype Consult =
    | OutOfScope                                       // ENOENT, nothing created
    | DupFailed(mirrors: seq<string>)                  // -1 after creating `mirrors`
    | Create(mirrors: seq<string>, target: string)     // creates `mirrors`, then `target`

  /** The plan of `enclose_io_mkdir_consult` for `path`: trim trailing '/',
      find the first marker, which must be followed by '/', walk, and finally
      create the whole path with the marker removed. */
  function ConsultPlan(path: string, stat: string -> Option<FileKind>, allocFails: nat -> bool): Consult
  {
    var s := TrimTrailingSlashes(path);
    match ScopedMarker(s)
    case None => OutOfScope
    case Some(h) =>
      var w := MirrorWalk(s, h, stat, allocFails, h + |Marker| + 1);
      var m := Mirrors(s, h, w.cuts);
      if w.outOfMemory then DupFailed(m) else Create(m, RemoveMarker(s, h))
  }

  /** The plan of a path whose trimmed form `s` has its first marker at `h`,
      followed by '/'. */
  lemma ConsultPlanInScope(path: string, s: string, h: nat, stat: string -> Option<FileKind>,
                           allocFails: nat -> bool)
    requires s == TrimTrailingSlashes(path) && ScopedMarker(s) == Some(h)
    ensures var w := MirrorWalk(s, h, stat, allocFails, h + |Marker| + 1);
      ConsultPlan(path, stat, allocFails) ==
        if w.outOfMemory then DupFailed(Mirrors(s, h, w.cuts)) else Create(Mirrors(s, h, w.cuts), RemoveMarker(s, h))
  {
  }

  /** The plan of a path whose trimmed form `s` has no marker followed by '/'. */
  lemma ConsultPlanOutOfScope(path: string, s: string, stat: string -> Option<FileKind>,
                              allocFails: nat -> bool)
    requires s == TrimTrailingSlashes(path) && ScopedMarker(s).None?
    ensures ConsultPlan(path, stat, allocFails) == OutOfScope
  {
  }

  /** Prefixes cut at ascending '/' positions after the marker are proper
      parents of the whole marker-free path, and grow strictly. */
  lemma MirrorsNested(s: string, h: nat, cuts: seq<nat>)
    requires h + |Marker| <= |s|
    requires forall i :: 0 <= i < |cuts| ==> h + |Marker| < cuts[i] < |s| && s[cuts[i]] == '/'
    requires forall i, j :: 0 <= i < j < |cuts| ==> cuts[i] < cuts[j]
    ensures var m, t := Mirrors(s, h, cuts), RemoveMarker(s, h);
      forall i :: 0 <= i < |m| ==> |m[i]| < |t| && t[..|m[i]|] == m[i] && t[|m[i]|] == '/'
    ensures var m := Mirrors(s, h, cuts);
      forall i, j :: 0 <= i < j < |m| ==> |m[i]| < |m[j]|
  {
    var m, t := Mirrors(s, h, cuts), RemoveMarker(s, h);
    assert forall i :: 0 <= i < |m| ==> |m[i]| == cuts[i] - |Marker|;
    forall i | 0 <= i < |m|
      ensures |m[i]| < |t| && t[..|m[i]|] == m[i] && t[|m[i]|] == '/'
    {
      MirrorIsParent(s, h, cuts[i]);
    }
  }

  /** Every directory the plan mirrors is a proper parent of the next one and
      of the final directory, so parents are always created before children. */
  lemma ConsultPlanNested(path: string, stat: string -> Option<FileKind>, allocFails: nat -> bool)
    ensures var r := ConsultPlan(path, stat, allocFails);
      r.Create? ==> forall i :: 0 <= i < |r.mirrors| ==>
        |r.mirrors[i]| < |r.target| && r.target[..|r.mirrors[i]|] == r.mirrors[i] && r.target[|r.mirrors[i]|] == '/'
    ensures var r := ConsultPlan(path, stat, allocFails);
      !r.OutOfScope? ==> forall i, j :: 0 <= i < j < |r.mirrors| ==> |r.mirrors[i]| < |r.mirrors[j]|
  {
    var s := TrimTrailingSlashes(path);
    var f := ScopedMarker(s);
    if f.Some? {
      var h := f.value;
      var w := MirrorWalk(s, h, stat, allocFails, h + |Marker| + 1);
      MirrorWalkCuts(s, h, stat, allocFails, h + |Marker| + 1);
      MirrorWalkAscending(s, h, stat, allocFails, h + |Marker| + 1);
      MirrorsNested(s, h, w.cuts);
      var r := ConsultPlan(path, stat, allocFails);
      assert r.mirrors == Mirrors(s, h, w.cuts);
      assert r.Create? ==> r.target == RemoveMarker(s, h);
    }
  }
}
