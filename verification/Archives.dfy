/** Packing and unpacking as the source does it, and what a round trip gives back. */
module Archives {
  import opened Wrappers
  import opened ArchiveModel

  const DEFAULT_MAX_SIZE: int := 10 * 1024 * 1024 * 1024

  function FilesOf(entries: seq<Entry>): seq<Entry>
  {
    if entries == [] then []
    else FilesOf(entries[..|entries| - 1]) +
         if entries[|entries| - 1].content.F? then [entries[|entries| - 1]] else []
  }

  lemma FilesOfOne(e: Entry)
    ensures FilesOf([e]) == if e.content.F? then [e] else []
  {
    assert [e][..0] == [];
  }

  /** The files, in the order of the entries. */
  lemma {:induction false} FilesOfConcat(a: seq<Entry>, b: seq<Entry>)
    ensures FilesOf(a + b) == FilesOf(a) + FilesOf(b)
    decreases |b|
  {
    if b == [] {
      assert a + b == a;
    } else {
      var n := |b| - 1;
      var last := if b[n].content.F? then [b[n]] else [];
      assert (a + b)[..|a + b| - 1] == a + b[..n] && (a + b)[|a + b| - 1] == b[n];
      FilesOfConcat(a, b[..n]);
      assert FilesOf(a) + FilesOf(b[..n]) + last == FilesOf(a) + (FilesOf(b[..n]) + last);
    }
  }

  lemma FilesOfSnoc(entries: seq<Entry>, i: nat)
    requires i < |entries|
    ensures FilesOf(entries[..i + 1]) ==
            if entries[i].content.F? then FilesOf(entries[..i]) + [entries[i]] else FilesOf(entries[..i])
  {
    assert entries[..i + 1][..i] == entries[..i];
  }

  lemma PackOneMore(walk: seq<Entry>, i: nat, limit: int)
    requires i < |walk|
    ensures PackAll(walk[..i + 1], limit) == Pack(PackAll(walk[..i], limit), walk[i], limit)
  {
    assert walk[..i + 1] == walk[..i] + [walk[i]];
    PackAllSnoc(walk[..i], walk[i], limit);
  }

  /** The walk's callbacks of CompressAndSplitFiles, over the entries the walk visits. */
  method CompressAndSplitFiles(walk: seq<Entry>, limit: int) returns (parts: seq<seq<Entry>>)
    ensures parts == Parts(walk, if limit > 10737418240 then 10737418240 else limit)
    ensures parts != [] && Flatten(parts) == walk
    ensures forall i :: 0 <= i < |parts| - 1 ==>
              FullPart(parts[i], if limit > 10737418240 then 10737418240 else limit)
  {
    var maxSize := if limit > DEFAULT_MAX_SIZE then DEFAULT_MAX_SIZE else limit;
    var current: seq<Entry> := [];
    var currentSize := 0;
    parts := [];
    for i := 0 to |walk|
      invariant currentSize >= 0 && PackAll(walk[..i], maxSize) == Packer(parts, current, currentSize)
    {
      PackOneMore(walk, i, maxSize);
      current := current + [walk[i]];
      if walk[i].content.F? {
        currentSize := currentSize + |walk[i].content.data|;
        if currentSize >= maxSize {
          parts, current, currentSize := parts + [current], [], 0;
        }
      }
    }
    assert walk[..|walk|] == walk;
    parts := parts + [current];
    PartsAreJustFull(walk, maxSize);
  }

  /** ZipDirAndSplit: directories are skipped and the limit is taken as it is. */
  method ZipDirAndSplit(walk: seq<Entry>, maxSize: int) returns (parts: seq<seq<Entry>>)
    ensures parts == Parts(FilesOf(walk), maxSize)
    ensures parts != [] && Flatten(parts) == FilesOf(walk)
    ensures forall i :: 0 <= i < |parts| - 1 ==> FullPart(parts[i], maxSize)
  {
    var current: seq<Entry> := [];
    var currentSize := 0;
    parts := [];
    for i := 0 to |walk|
      invariant currentSize >= 0
      invariant PackAll(FilesOf(walk[..i]), maxSize) == Packer(parts, current, currentSize)
    {
      FilesOfSnoc(walk, i);
      if walk[i].content.F? {
        PackAllSnoc(FilesOf(walk[..i]), walk[i], maxSize);
        current := current + [walk[i]];
        currentSize := currentSize + |walk[i].content.data|;
        if currentSize >= maxSize {
          parts, current, currentSize := parts + [current], [], 0;
        }
      }
    }
    assert walk[..|walk|] == walk;
    parts := parts + [current];
    PartsAreJustFull(FilesOf(walk), maxSize);
  }

  /** The destination, which need not exist. */
  class Destination {
    var files: Fs

    constructor (start: Fs)
      ensures files == start
    {
      files := start;
    }

    /** Fails exactly at a file on the way, and otherwise adds just the missing directories. */
    method MkdirAll(p: Path) returns (ok: bool)
      modifies this
      ensures (files, ok) == ArchiveModel.MkdirAll(old(files), p)
      ensures old(Rooted(files)) ==>
                && Rooted(files) && (ok <==> Clear(old(files), p))
                && if ok then WithAncestors(old(files), p, files) else files == old(files)
      decreases |p|
    {
      if Rooted(files) {
        MkdirAllMakesAncestors(files, p);
      }
      if p in files {
        return files[p].D?;
      }
      ok := true;
      if p != [] {
        ok := MkdirAll(Parent(p));
      }
      if ok {
        files := files[p := D];
      }
    }

    /** Writes a file exactly where its directory exists and no directory is in the way; nothing else changes. */
    method Create(p: Path, data: seq<byte>) returns (ok: bool)
      modifies this
      ensures ok <==> (p == [] || (Parent(p) in old(files) && old(files)[Parent(p)] == D))
                      && !(p in old(files) && old(files)[p] == D)
      ensures ok ==> p in files && files[p] == F(data)
      ensures forall q :: !ok || q != p ==>
                (q in files <==> q in old(files)) && (q in files ==> files[q] == old(files)[q])
      ensures (files, ok) == ArchiveModel.Create(old(files), p, data)
      ensures old(Rooted(files)) ==> Rooted(files)
    {
      if Rooted(files) {
        CreateKeepsRooted(files, p, data);
      }
      if p != [] && (Parent(p) !in files || files[Parent(p)].F?) {
        return false;
      }
      if p in files && files[p].D? {
        return false;
      }
      files := files[p := F(data)];
      ok := true;
    }

    /** MkdirAll on the directory above a file, which for the destination itself is outside of it. */
    method MkdirAbove(p: Path) returns (ok: bool)
      modifies this
      ensures (files, ok) == ArchiveModel.MkdirAbove(old(files), p)
    {
      ok := true;
      if p != [] {
        ok := MkdirAll(Parent(p));
      }
    }

    method DecompressTarGz(entries: seq<Entry>) returns (ok: bool)
      modifies this
      ensures (files, ok) == Unpack(old(files), entries, false)
      ensures old(Rooted(files)) ==> Rooted(files)
    {
      if Rooted(files) {
        UnpackKeepsRooted(files, entries, false);
      }
      var i := 0;
      while i < |entries|
        invariant 0 <= i <= |entries|
        invariant ExtractAll(old(files), entries, false) == ExtractAll(files, entries[i..], false)
      {
        match entries[i].content {
          case D =>
            var _ := MkdirAll(entries[i].path);
          case F(data) =>
            var _ := MkdirAbove(entries[i].path);
            var created := Create(entries[i].path, data);
            if !created {
              return false;
            }
        }
        assert entries[i..][1..] == entries[i + 1..];
        i := i + 1;
      }
      ok := true;
    }

    /** One entry of a zip archive. */
    method UnzipEntry(e: Entry) returns (ok: bool)
      modifies this
      ensures (files, ok) == Extract(old(files), e, true)
    {
      match e.content
      case D => ok := MkdirAll(e.path);
      case F(data) =>
        ok := MkdirAbove(e.path);
        if ok {
          ok := Create(e.path, data);
        }
    }

    method UnzipDir(entries: seq<Entry>) returns (ok: bool)
      modifies this
      ensures (files, ok) == Unpack(old(files), entries, true)
      ensures old(Rooted(files)) ==> Rooted(files)
    {
      if Rooted(files) {
        UnpackKeepsRooted(files, entries, true);
      }
      ok := MkdirAll([]);
      if !ok {
        return;
      }
      ghost var start := files;
      var i := 0;
      while i < |entries|
        invariant 0 <= i <= |entries|
        invariant ExtractAll(start, entries, true) == ExtractAll(files, entries[i..], true)
      {
        var made := UnzipEntry(entries[i]);
        if !made {
          return false;
        }
        assert entries[i..][1..] == entries[i + 1..];
        i := i + 1;
      }
      ok := true;
    }
  }

  // ---------- Round trips ----------

  lemma {:induction false} FlattenMembers(parts: seq<seq<Entry>>, e: Entry)
    ensures e in Flatten(parts) <==> exists part <- parts :: e in part
  {
    if parts != [] {
      var front, last := parts[..|parts| - 1], parts[|parts| - 1];
      FlattenMembers(front, e);
      assert parts == front + [last];
    }
  }

  /** Nothing lies below the destination yet: it is absent, an empty directory or a file. */
  ghost predicate Bare(start: Fs)
  {
    forall p <- start :: p == []
  }

  ghost predicate HasEntryBelow(entries: seq<Entry>, p: Path)
  {
    exists e <- entries :: p <= e.path
  }

  /** What unpacking entries of a tree, cut into parts in any way and order, puts at the destination. */
  lemma UnpackedParts(
      start: Fs, n: Node, entries: seq<Entry>, limit: int, parts: seq<seq<Entry>>, strict: bool)
    requires Within(start, n) && (strict ==> n.Dir?) && forall e <- entries :: Lookup(n, e.path) == Some(e.content)
    requires forall part :: part in parts <==> part in Parts(entries, limit)
    ensures var (fs, ok) := UnpackParts(start, parts, strict);
            && ok && Within(fs, n)
            && forall p :: p in fs <==> p in start || (strict && p == []) || HasEntryBelow(entries, p)
  {
    PartsAreJustFull(entries, limit);
    assert Parts(entries, limit)[0] in parts;
    forall part <- parts, e <- part
      ensures e in entries
    {
      FlattenMembers(Parts(entries, limit), e);
    }
    UnpackPartsStaysWithin(start, parts, n, strict);
    var fs := UnpackParts(start, parts, strict).0;
    forall e <- entries
      ensures e.path in fs
    {
      FlattenMembers(Parts(entries, limit), e);
    }
    forall p | HasEntryBelow(entries, p)
      ensures p in fs
    {
      var e :| e in entries && p <= e.path;
      PrefixesArePresent(fs, n, p, e.path);
    }
  }

  lemma {:induction false} PrefixesArePresent(fs: Fs, n: Node, p: Path, q: Path)
    requires Within(fs, n) && q in fs && p <= q
    ensures p in fs
    decreases |q|
  {
    if p != q {
      assert p <= Parent(q);
      PrefixesArePresent(fs, n, p, Parent(q));
    }
  }

  /** From nothing, or from a root of its own kind, unpacking the walk of a tree gives the tree. */
  lemma UnpackedWalk(start: Fs, n: Node, limit: int, parts: seq<seq<Entry>>)
    requires WellFormed(n) && Within(start, n) && Bare(start)
    requires forall part :: part in parts <==> part in Parts(Walk(n, []), limit)
    ensures var (fs, ok) := UnpackParts(start, parts, false); ok && Pictures(fs, n)
  {
    WalkIsTree(n);
    UnpackedParts(start, n, Walk(n, []), limit, parts, false);
    var fs := UnpackParts(start, parts, false).0;
    forall p
      ensures Lookup(n, p) == if p in fs then Some(fs[p]) else None
    {
      if Lookup(n, p).Some? {
        assert Entry(p, Lookup(n, p).value) in Walk(n, []);
      }
    }
  }

  /** A root of the other kind stays what it is. */
  lemma OtherKindStays(start: Fs, n: Node, limit: int, parts: seq<seq<Entry>>)
    requires WellFormed(n) && Bare(start) && [] in start && (start[[]].D? <==> n.File?)
    requires forall part :: part in parts <==> part in Parts(Walk(n, []), limit)
    ensures !Pictures(UnpackParts(start, parts, false).0, n)
  {
    WalkIsTree(n);
    PartsAreJustFull(Walk(n, []), limit);
    forall part <- parts, e <- part
      ensures Lookup(n, e.path) == Some(e.content)
    {
      FlattenMembers(Parts(Walk(n, []), limit), e);
    }
    UnpackPartsKeepsRooted(start, parts, false);
    assert n.Dir? ==> forall part <- parts :: NoFileAtTop(part);
    assert Lookup(n, []) == Some(ContentOf(n));
  }

  /**
   Packing a tree and unpacking its parts in any order recreates exactly the tree if and only if
   the destination is absent or is of the tree's own kind: a directory for a directory, a file for
   a file. A single file packed this way is lost in a directory that exists.
   */
  lemma TarRoundTrip(start: Fs, n: Node, limit: int, parts: seq<seq<Entry>>)
    requires WellFormed(n) && Bare(start)
    requires forall part :: part in parts <==> part in Parts(Walk(n, []), limit)
    ensures var (fs, ok) := UnpackParts(start, parts, false);
            ok && Pictures(fs, n) <==> [] !in start || (start[[]].D? <==> n.Dir?)
  {
    if [] in start && (start[[]].D? <==> n.File?) {
      OtherKindStays(start, n, limit, parts);
    } else if n.File? && [] in start {
      UnpackedFile(start, n, limit, parts);
    } else {
      UnpackedWalk(start, n, limit, parts);
    }
  }

  /** A file in the place of the destination is overwritten. */
  lemma UnpackedFile(start: Fs, n: Node, limit: int, parts: seq<seq<Entry>>)
    requires n.File? && Bare(start) && [] in start && start[[]].F?
    requires forall part :: part in parts <==> part in Parts(Walk(n, []), limit)
    ensures var (fs, ok) := UnpackParts(start, parts, false); ok && Pictures(fs, n)
  {
    var entry := Entry([], F(n.data));
    assert Walk(n, []) == [entry];
    PartsAreJustFull([entry], limit);
    forall part <- parts, e <- part
      ensures e == entry
    {
      FlattenMembers(Parts([entry], limit), e);
    }
    FlattenMembers(Parts([entry], limit), entry);
    OverwriteParts(start, parts, n.data);
    var fs := UnpackParts(start, parts, false).0;
    assert fs == map[[] := F(n.data)];
  }

  lemma {:induction false} Overwrite(fs: Fs, entries: seq<Entry>, data: seq<byte>)
    requires Bare(fs) && [] in fs && fs[[]].F? && forall e <- entries :: e == Entry([], F(data))
    ensures ExtractAll(fs, entries, false) == (if entries == [] then fs else map[[] := F(data)], true)
    decreases |entries|
  {
    if entries != [] {
      assert entries[0] in entries;
      assert fs[[] := F(data)] == map[[] := F(data)];
      assert Extract(fs, entries[0], false) == (map[[] := F(data)], true);
      assert forall e <- entries[1..] :: e in entries;
      Overwrite(map[[] := F(data)], entries[1..], data);
    }
  }

  lemma {:induction false} OverwriteParts(fs: Fs, parts: seq<seq<Entry>>, data: seq<byte>)
    requires Bare(fs) && [] in fs && fs[[]].F? && forall part <- parts, e <- part :: e == Entry([], F(data))
    ensures var (fs', ok) := UnpackParts(fs, parts, false);
            && ok && (fs' == fs || fs' == map[[] := F(data)])
            && ((exists part <- parts :: part != []) ==> fs' == map[[] := F(data)])
    decreases |parts|
  {
    if parts != [] {
      assert parts[0] in parts;
      Overwrite(fs, parts[0], data);
      var fs' := Unpack(fs, parts[0], false).0;
      assert forall part <- parts[1..] :: part in parts;
      OverwriteParts(fs', parts[1..], data);
      assert forall part <- parts :: part == parts[0] || part in parts[1..];
    }
  }

  lemma WalkIsTree(n: Node)
    requires WellFormed(n)
    ensures forall e: Entry :: e in Walk(n, []) <==> Lookup(n, e.path) == Some(e.content)
  {
    forall e: Entry
      ensures e in Walk(n, []) <==> Lookup(n, e.path) == Some(e.content)
    {
      WalkListsTree(n, [], e);
      assert e.path[0..] == e.path;
    }
  }

  lemma {:induction false} FilesOfMembers(entries: seq<Entry>, e: Entry)
    ensures e in FilesOf(entries) <==> e in entries && e.content.F?
  {
    if entries != [] {
      FilesOfMembers(entries[..|entries| - 1], e);
      assert entries == entries[..|entries| - 1] + [entries[|entries| - 1]];
    }
  }

  ghost predicate HasFileBelow(n: Node, p: Path)
  {
    exists q :: p <= q && Lookup(n, q).Some? && Lookup(n, q).value.F?
  }

  lemma FilesOfWalk(n: Node)
    requires WellFormed(n)
    ensures forall e: Entry :: e in FilesOf(Walk(n, [])) <==> Lookup(n, e.path) == Some(e.content) && e.content.F?
  {
    WalkIsTree(n);
    forall e: Entry
      ensures e in FilesOf(Walk(n, [])) <==> Lookup(n, e.path) == Some(e.content) && e.content.F?
    {
      FilesOfMembers(Walk(n, []), e);
    }
  }

  lemma FileBelowIsEntry(n: Node, p: Path)
    requires WellFormed(n)
    ensures HasFileBelow(n, p) <==> HasEntryBelow(FilesOf(Walk(n, [])), p)
  {
    FilesOfWalk(n);
    if HasFileBelow(n, p) {
      var q :| p <= q && Lookup(n, q).Some? && Lookup(n, q).value.F?;
      assert Entry(q, Lookup(n, q).value) in FilesOf(Walk(n, []));
    }
  }

  /** What the zip parts of a directory unpack to: every file and the directories above files. */
  lemma ZipContents(start: Fs, n: Node, limit: int, parts: seq<seq<Entry>>)
    requires WellFormed(n) && n.Dir? && (start == ABSENT || start == EMPTY_DIR)
    requires forall part :: part in parts <==> part in Parts(FilesOf(Walk(n, [])), limit)
    ensures var (fs, ok) := UnpackParts(start, parts, true);
            ok && Within(fs, n) && forall p :: p in fs <==> p == [] || HasFileBelow(n, p)
  {
    FilesOfWalk(n);
    UnpackedParts(start, n, FilesOf(Walk(n, [])), limit, parts, true);
    var fs := UnpackParts(start, parts, true).0;
    forall p
      ensures p in fs <==> p == [] || HasFileBelow(n, p)
    {
      FileBelowIsEntry(n, p);
    }
  }

  /** With those contents a directory is recreated if and only if nothing in it is an empty directory. */
  lemma PicturedIfFilesBelow(fs: Fs, n: Node)
    requires Within(fs, n) && n.Dir? && forall p :: p in fs <==> p == [] || HasFileBelow(n, p)
    ensures Pictures(fs, n) <==> forall p :: p != [] && Lookup(n, p) == Some(D) ==> HasFileBelow(n, p)
  {
    if forall p :: p != [] && Lookup(n, p) == Some(D) ==> HasFileBelow(n, p) {
      forall p
        ensures Lookup(n, p) == if p in fs then Some(fs[p]) else None
      {
        if Lookup(n, p).Some? && Lookup(n, p).value.F? {
          assert p <= p;
        }
      }
    }
  }

  /** UnzipDir fails where a file is in the destination's place, and otherwise makes it a directory. */
  lemma UnzippedTop(start: Fs, parts: seq<seq<Entry>>)
    requires Rooted(start) && parts != []
    ensures var (fs, ok) := UnpackParts(start, parts, true);
            if [] in start && start[[]].F? then !ok else [] in fs && fs[[]] == D
  {
    UnpackKeepsRooted(start, parts[0], true);
    if !([] in start && start[[]].F?) {
      UnpackPartsKeepsRooted(Unpack(start, parts[0], true).0, parts[1..], true);
    }
  }

  /**
   The zip round trip gives back every file and the directories above files; so it recreates a
   directory exactly when every directory inside it has a file somewhere below, where the destination
   is absent or an empty directory. A single file never comes back, since the destination is made first.
   */
  lemma ZipRoundTrip(start: Fs, n: Node, limit: int, parts: seq<seq<Entry>>)
    requires WellFormed(n) && Bare(start)
    requires forall part :: part in parts <==> part in Parts(FilesOf(Walk(n, [])), limit)
    ensures var (fs, ok) := UnpackParts(start, parts, true);
            ok && Pictures(fs, n) <==>
              && ([] !in start || start[[]].D?)
              && n.Dir? && forall p :: p != [] && Lookup(n, p) == Some(D) ==> HasFileBelow(n, p)
  {
    assert Parts(FilesOf(Walk(n, [])), limit)[0] in parts;
    UnzippedTop(start, parts);
    if n.File? {
      DirectoryIsNoFile(UnpackParts(start, parts, true).0, n);
    } else if [] !in start || start[[]].D? {
      BareStarts(start);
      ZipOfDirectory(start, n, limit, parts);
    }
  }

  lemma DirectoryIsNoFile(fs: Fs, n: Node)
    requires n.File?
    ensures [] in fs && fs[[]] == D ==> !Pictures(fs, n)
  {
    assert Lookup(n, []) != Some(D);
  }

  lemma BareStarts(start: Fs)
    requires Bare(start)
    ensures [] !in start ==> start == ABSENT
    ensures [] in start && start[[]].D? ==> start == EMPTY_DIR
  {
  }

  lemma ZipOfDirectory(start: Fs, n: Node, limit: int, parts: seq<seq<Entry>>)
    requires WellFormed(n) && n.Dir? && (start == ABSENT || start == EMPTY_DIR)
    requires forall part :: part in parts <==> part in Parts(FilesOf(Walk(n, [])), limit)
    ensures var (fs, ok) := UnpackParts(start, parts, true);
            ok && Pictures(fs, n) <==> forall p :: p != [] && Lookup(n, p) == Some(D) ==> HasFileBelow(n, p)
  {
    ZipContents(start, n, limit, parts);
    PicturedIfFilesBelow(UnpackParts(start, parts, true).0, n);
  }

  /** A tree with nothing but one node below its root is walked as the root and then that node. */
  lemma WalkOfOnlyChild(n: Node, base: string)
    ensures Walk(Dir(Cons(base, n, Nil)), []) == [Entry([], D)] + Walk(n, [base])
  {
    assert [] + [base] == [base];
    assert WalkAll(Cons(base, n, Nil), []) == Walk(n, [base]) + WalkAll(Nil, []);
    assert Walk(n, [base]) + [] == Walk(n, [base]);
  }

  /** Entries of a tree that hold all of it but the root, and something of it, unpacked, are the tree. */
  lemma UnpackedTree(start: Fs, top: Node, entries: seq<Entry>)
    requires top.Dir? && entries != [] && (start == ABSENT || start == EMPTY_DIR)
    requires forall e: Entry :: e in [Entry([], D)] + entries <==> Lookup(top, e.path) == Some(e.content)
    ensures var (fs, ok) := Unpack(start, entries, false); ok && Pictures(fs, top)
  {
    forall e <- entries
      ensures Lookup(top, e.path) == Some(e.content)
    {
      assert e in [Entry([], D)] + entries;
    }
    ExtractAllStaysWithin(start, entries, top, false);
    var fs := ExtractAll(start, entries, false).0;
    PrefixesArePresent(fs, top, [], entries[0].path);
    forall p
      ensures Lookup(top, p) == if p in fs then Some(fs[p]) else None
    {
      if Lookup(top, p).Some? {
        assert Entry(p, Lookup(top, p).value) in [Entry([], D)] + entries;
      }
    }
  }

  /** Keeping the top-level name makes the round trip exact for files as well as directories. */
  lemma BaseRoundTrip(start: Fs, n: Node, base: string)
    requires WellFormed(n) && (start == ABSENT || start == EMPTY_DIR)
    ensures var (fs, ok) := Unpack(start, Walk(n, [base]), false);
            ok && Pictures(fs, Dir(Cons(base, n, Nil)))
  {
    var top := Dir(Cons(base, n, Nil));
    WalkIsTree(top);
    WalkOfOnlyChild(n, base);
    UnpackedTree(start, top, Walk(n, [base]));
  }
}
