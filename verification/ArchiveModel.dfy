/** Directory trees, the archives packed from them, and the directories unpacked from those. */
module ArchiveModel {
  import opened Arithmetic
  import opened Wrappers

  newtype byte = x: int | 0 <= x < 256

  type Path = seq<string>   // names from the root down; [] is the root, "." to filepath.Rel

  datatype Node = File(data: seq<byte>) | Dir(children: Children)
  datatype Children = Nil | Cons(name: string, node: Node, rest: Children)

  datatype Content = D | F(data: seq<byte>)
  datatype Entry = Entry(path: Path, content: Content)

  // ---------- Trees ----------

  function Names(cs: Children): set<string>
  {
    match cs
    case Nil => {}
    case Cons(name, _, rest) => {name} + Names(rest)
  }

  ghost predicate WellFormed(n: Node)
  {
    n.Dir? ==> WellFormedAll(n.children)
  }

  ghost predicate WellFormedAll(cs: Children)
  {
    cs.Cons? ==> cs.name !in Names(cs.rest) && WellFormed(cs.node) && WellFormedAll(cs.rest)
  }

  function ContentOf(n: Node): Content
  {
    match n
    case File(data) => F(data)
    case Dir(_) => D
  }

  /** What a tree has at a path. */
  function Lookup(n: Node, p: Path): Option<Content>
    decreases n
  {
    if p == [] then Some(ContentOf(n))
    else match n
      case File(_) => None
      case Dir(cs) => LookupIn(cs, p)
  }

  function LookupIn(cs: Children, p: Path): Option<Content>
    requires p != []
    decreases cs
  {
    match cs
    case Nil => None
    case Cons(name, node, rest) => if name == p[0] then Lookup(node, p[1..]) else LookupIn(rest, p)
  }

  /** filepath.Walk: each node before its children. */
  function Walk(n: Node, at: Path): seq<Entry>
    decreases n
  {
    [Entry(at, ContentOf(n))] + if n.Dir? then WalkAll(n.children, at) else []
  }

  function WalkAll(cs: Children, at: Path): seq<Entry>
    decreases cs
  {
    match cs
    case Nil => []
    case Cons(name, node, rest) => Walk(node, at + [name]) + WalkAll(rest, at)
  }

  lemma LookupNeedsName(cs: Children, p: Path)
    requires p != [] && LookupIn(cs, p).Some?
    ensures p[0] in Names(cs)
  {
  }

  /** The walk lists exactly what the tree has, each thing under its own path. */
  lemma {:induction false} WalkListsTree(n: Node, at: Path, e: Entry)
    requires WellFormed(n)
    ensures e in Walk(n, at) <==> at <= e.path && Lookup(n, e.path[|at|..]) == Some(e.content)
    decreases n
  {
    if n.Dir? {
      WalkAllListsTree(n.children, at, e);
    }
    if at <= e.path && |e.path| == |at| {
      assert e.path == at;
    }
  }

  lemma {:induction false} WalkAllListsTree(cs: Children, at: Path, e: Entry)
    requires WellFormedAll(cs)
    ensures e in WalkAll(cs, at) <==>
            at < e.path && LookupIn(cs, e.path[|at|..]) == Some(e.content)
    decreases cs
  {
    if cs.Cons? {
      WalkListsTree(cs.node, at + [cs.name], e);
      WalkAllListsTree(cs.rest, at, e);
      if at < e.path {
        var p := e.path[|at|..];
        assert e.path[|at| + 1..] == p[1..];
        assert at + [cs.name] <= e.path ==> e.path[|at|] == (at + [cs.name])[|at|];
        if cs.name == p[0] {
          assert at + [cs.name] <= e.path;
          if LookupIn(cs.rest, p).Some? {
            LookupNeedsName(cs.rest, p);
          }
        }
      }
    }
  }

  /** The walk lists everything once, and a directory before what is in it. */
  ghost predicate InOrder(entries: seq<Entry>)
  {
    forall i, j :: 0 <= i < j < |entries| ==> !(entries[j].path <= entries[i].path)
  }

  lemma {:induction false} WalkIsInOrder(n: Node, at: Path)
    requires WellFormed(n)
    ensures InOrder(Walk(n, at))
    decreases n
  {
    if n.Dir? {
      WalkAllIsInOrder(n.children, at);
      forall e <- WalkAll(n.children, at)
        ensures !(e.path <= at)
      {
        WalkAllListsTree(n.children, at, e);
      }
    }
  }

  lemma {:induction false} WalkAllIsInOrder(cs: Children, at: Path)
    requires WellFormedAll(cs)
    ensures InOrder(WalkAll(cs, at))
    decreases cs
  {
    if cs.Cons? {
      WalkIsInOrder(cs.node, at + [cs.name]);
      WalkAllIsInOrder(cs.rest, at);
      forall x <- Walk(cs.node, at + [cs.name]), y <- WalkAll(cs.rest, at)
        ensures !(y.path <= x.path)
      {
        WalkListsTree(cs.node, at + [cs.name], x);
        WalkAllListsTree(cs.rest, at, y);
        var p := y.path[|at|..];
        LookupNeedsName(cs.rest, p);
        assert x.path[|at|] == (at + [cs.name])[|at|];
        assert y.path[|at|] == p[0] != cs.name;
      }
    }
  }

  /** Each child is walked in its place: the walk of a directory is that of its children, one after the other. */
  lemma WalkGoesDown(name: string, node: Node, rest: Children, at: Path)
    ensures Walk(Dir(Nil), at) == [Entry(at, D)]
    ensures Walk(Dir(Cons(name, node, rest)), at) ==
            [Entry(at, D)] + Walk(node, at + [name]) + Walk(Dir(rest), at)[1..]
  {
    assert WalkAll(Nil, at) == [] && [Entry(at, D)] + [] == [Entry(at, D)];
    assert Walk(Dir(rest), at)[1..] == WalkAll(rest, at);
    assert WalkAll(Cons(name, node, rest), at) == Walk(node, at + [name]) + WalkAll(rest, at);
    assert [Entry(at, D)] + (Walk(node, at + [name]) + WalkAll(rest, at))
           == [Entry(at, D)] + Walk(node, at + [name]) + WalkAll(rest, at);
  }

  function Parent(p: Path): Path
  {
    if p == [] then [] else p[..|p| - 1]
  }

  lemma {:induction false} ParentIsDir(n: Node, p: Path)
    requires p != [] && Lookup(n, p).Some?
    ensures Lookup(n, Parent(p)) == Some(D)
    decreases n, 0
  {
    ParentIsDirIn(n.children, p);
  }

  lemma {:induction false} ParentIsDirIn(cs: Children, p: Path)
    requires p != [] && LookupIn(cs, p).Some?
    ensures |p| > 1 ==> LookupIn(cs, Parent(p)) == Some(D)
    decreases cs, 1
  {
    if |p| > 1 {
      if cs.name == p[0] {
        assert Parent(p)[1..] == Parent(p[1..]);
        ParentIsDir(cs.node, p[1..]);
      } else {
        ParentIsDirIn(cs.rest, p);
      }
    }
  }

  // ---------- Packing ----------

  function Size(entries: seq<Entry>): nat
  {
    if entries == [] then 0
    else (match entries[0].content case D => 0 case F(data) => |data|) + Size(entries[1..])
  }

  lemma {:induction false} SizeOfConcat(a: seq<Entry>, b: seq<Entry>)
    ensures Size(a + b) == Size(a) + Size(b)
  {
    if a == [] {
      assert a + b == b;
    } else {
      assert (a + b)[1..] == a[1..] + b;
      SizeOfConcat(a[1..], b);
    }
  }

  function Flatten(parts: seq<seq<Entry>>): seq<Entry>
  {
    if parts == [] then [] else Flatten(parts[..|parts| - 1]) + parts[|parts| - 1]
  }

  function CountFiles(entries: seq<Entry>): nat
  {
    if entries == [] then 0 else (if entries[0].content.F? then 1 else 0) + CountFiles(entries[1..])
  }

  /** The finished parts, the part being written and the size counted for it. */
  datatype Packer = Packer(done: seq<seq<Entry>>, current: seq<Entry>, currentSize: nat)

  function Pack(k: Packer, e: Entry, limit: int): Packer
  {
    var current := k.current + [e];
    match e.content
    case D => k.(current := current)
    case F(data) =>
      var size := k.currentSize + |data|;
      if size >= limit then Packer(k.done + [current], [], 0) else k.(current := current, currentSize := size)
  }

  function PackAll(entries: seq<Entry>, limit: int): Packer
  {
    if entries == [] then Packer([], [], 0)
    else Pack(PackAll(entries[..|entries| - 1], limit), entries[|entries| - 1], limit)
  }

  function Parts(entries: seq<Entry>, limit: int): seq<seq<Entry>>
  {
    var k := PackAll(entries, limit);
    k.done + [k.current]
  }

  /** A part that was closed: its last entry is the file that took it to the limit. */
  ghost predicate FullPart(part: seq<Entry>, limit: int)
  {
    && part != [] && part[|part| - 1].content.F?
    && limit <= Size(part)
    && (limit > 0 ==> Size(part[..|part| - 1]) < limit)
    && (limit <= 0 ==> CountFiles(part) == 1)
  }

  ghost predicate Packed(k: Packer, entries: seq<Entry>, limit: int)
  {
    Flatten(k.done) + k.current == entries && Counted(k, limit) && AllFull(k.done, limit)
  }

  /** The part being written is not full yet, and its size is counted. */
  ghost predicate Counted(k: Packer, limit: int)
  {
    && k.currentSize == Size(k.current)
    && (limit > 0 ==> k.currentSize < limit)
    && (limit <= 0 ==> CountFiles(k.current) == 0)
  }

  ghost predicate AllFull(parts: seq<seq<Entry>>, limit: int)
  {
    forall part <- parts :: FullPart(part, limit)
  }

  lemma {:induction false} CountOfConcat(a: seq<Entry>, b: seq<Entry>)
    ensures CountFiles(a + b) == CountFiles(a) + CountFiles(b)
  {
    if a == [] {
      assert a + b == b;
    } else {
      assert (a + b)[1..] == a[1..] + b;
      CountOfConcat(a[1..], b);
    }
  }

  lemma CountedSnoc(entries: seq<Entry>, e: Entry)
    ensures Size(entries + [e]) == Size(entries) + (match e.content case D => 0 case F(data) => |data|)
    ensures CountFiles(entries + [e]) == CountFiles(entries) + if e.content.F? then 1 else 0
  {
    SizeOfConcat(entries, [e]);
    CountOfConcat(entries, [e]);
    assert [e][1..] == [];
  }

  lemma PackKeepsOrder(k: Packer, e: Entry, limit: int)
    ensures var k' := Pack(k, e, limit); Flatten(k'.done) + k'.current == Flatten(k.done) + k.current + [e]
  {
  }

  /** The part that a file closes is just full. */
  lemma ClosedPartIsFull(k: Packer, e: Entry, limit: int)
    requires Counted(k, limit) && e.content.F? && k.currentSize + |e.content.data| >= limit
    ensures FullPart(k.current + [e], limit)
  {
    var part := k.current + [e];
    CountedSnoc(k.current, e);
    assert part[..|part| - 1] == k.current;
  }

  lemma PackKeepsCounted(k: Packer, e: Entry, limit: int)
    requires Counted(k, limit)
    ensures Counted(Pack(k, e, limit), limit)
  {
    CountedSnoc(k.current, e);
  }

  lemma PackKeepsFull(k: Packer, e: Entry, limit: int)
    requires Counted(k, limit) && AllFull(k.done, limit)
    ensures AllFull(Pack(k, e, limit).done, limit)
  {
    if e.content.F? && k.currentSize + |e.content.data| >= limit {
      ClosedPartIsFull(k, e, limit);
    }
  }

  lemma {:induction false} PackingInvariant(entries: seq<Entry>, limit: int)
    ensures Packed(PackAll(entries, limit), entries, limit)
  {
    if entries != [] {
      var n := |entries| - 1;
      PackingInvariant(entries[..n], limit);
      var k := PackAll(entries[..n], limit);
      PackKeepsOrder(k, entries[n], limit);
      PackKeepsCounted(k, entries[n], limit);
      PackKeepsFull(k, entries[n], limit);
      assert entries[..n] + [entries[n]] == entries;
    }
  }

  /** Packing one more entry is one more step. */
  lemma PackAllSnoc(entries: seq<Entry>, e: Entry, limit: int)
    ensures PackAll(entries + [e], limit) == Pack(PackAll(entries, limit), e, limit)
  {
  }

  lemma {:induction false} SizeOfParts(parts: seq<seq<Entry>>, limit: int)
    requires forall part <- parts :: limit <= Size(part)
    ensures |parts| * limit <= Size(Flatten(parts))
  {
    if parts != [] {
      var n := |parts| - 1;
      SizeOfParts(parts[..n], limit);
      SizeOfConcat(Flatten(parts[..n]), parts[n]);
      assert parts[n] in parts;
      OneMore(n, limit);
    }
  }

  lemma {:induction false} FilesOfParts(parts: seq<seq<Entry>>)
    requires forall part <- parts :: CountFiles(part) == 1
    ensures CountFiles(Flatten(parts)) == |parts|
  {
    if parts != [] {
      FilesOfParts(parts[..|parts| - 1]);
      CountOfConcat(Flatten(parts[..|parts| - 1]), parts[|parts| - 1]);
    }
  }

  /** The parts in order are the entries; every part but the last is just full, which bounds their number. */
  lemma PartsAreJustFull(entries: seq<Entry>, limit: int)
    ensures var parts := Parts(entries, limit);
            && parts != [] && Flatten(parts) == entries
            && (forall i :: 0 <= i < |parts| - 1 ==> FullPart(parts[i], limit))
            && (limit > 0 ==> Size(parts[|parts| - 1]) < limit && (|parts| - 1) * limit <= Size(entries))
            && (limit <= 0 ==> |parts| - 1 == CountFiles(entries))
  {
    PackingInvariant(entries, limit);
    var k := PackAll(entries, limit);
    var parts := Parts(entries, limit);
    assert parts[..|parts| - 1] == k.done;
    SizeOfParts(k.done, limit);
    SizeOfConcat(Flatten(k.done), k.current);
    if limit <= 0 {
      FilesOfParts(k.done);
      CountOfConcat(Flatten(k.done), k.current);
    }
  }

  // ---------- Unpacking ----------

  /** What is at a destination, its own path being []. */
  type Fs = map<Path, Content>

  const ABSENT: Fs := map[]
  const EMPTY_DIR: Fs := map[[] := D]

  /** os.MkdirAll below the destination. */
  function MkdirAll(fs: Fs, p: Path): (Fs, bool)
    decreases |p|
  {
    if p in fs then (fs, fs[p].D?)
    else if p == [] then (fs[p := D], true)
    else
      var (fs', ok) := MkdirAll(fs, Parent(p));
      if ok then (fs'[p := D], true) else (fs', false)
  }

  /** os.Create and a copy into it; the directory above the destination is there. */
  function Create(fs: Fs, p: Path, data: seq<byte>): (Fs, bool)
  {
    if p != [] && (Parent(p) !in fs || fs[Parent(p)].F?) then (fs, false)
    else if p in fs && fs[p].D? then (fs, false)
    else (fs[p := F(data)], true)
  }

  /** The directory above a file; above the destination itself it is outside, and made without fail. */
  function MkdirAbove(fs: Fs, p: Path): (Fs, bool)
  {
    if p == [] then (fs, true) else MkdirAll(fs, Parent(p))
  }

  /** DecompressTarGz ignores what MkdirAll returns; UnzipDir does not. */
  function Extract(fs: Fs, e: Entry, strict: bool): (Fs, bool)
  {
    match e.content
    case D =>
      var (fs', ok) := MkdirAll(fs, e.path); (fs', ok || !strict)
    case F(data) =>
      var (fs', ok) := MkdirAbove(fs, e.path);
      if strict && !ok then (fs', false) else Create(fs', e.path, data)
  }

  function ExtractAll(fs: Fs, entries: seq<Entry>, strict: bool): (Fs, bool)
    decreases |entries|
  {
    if entries == [] then (fs, true)
    else
      var (fs', ok) := Extract(fs, entries[0], strict);
      if ok then ExtractAll(fs', entries[1..], strict) else (fs', false)
  }

  /** Entries are extracted in their order, and none after the first that fails. */
  lemma {:induction false} ExtractAllInOrder(fs: Fs, a: seq<Entry>, b: seq<Entry>, e: Entry, strict: bool)
    ensures ExtractAll(fs, [], strict) == (fs, true)
    ensures ExtractAll(fs, [e], strict) == Extract(fs, e, strict)
    ensures var (fs', ok) := ExtractAll(fs, a, strict);
            ExtractAll(fs, a + b, strict) == if ok then ExtractAll(fs', b, strict) else (fs', false)
    decreases |a|
  {
    assert [e][1..] == [];
    if a == [] {
      assert a + b == b;
    } else {
      assert (a + b)[1..] == a[1..] + b;
      ExtractAllInOrder(Extract(fs, a[0], strict).0, a[1..], b, e, strict);
    }
  }

  /** One archive: UnzipDir makes its destination first, DecompressTarGz does not. */
  function Unpack(fs: Fs, entries: seq<Entry>, strict: bool): (Fs, bool)
  {
    var (fs', ok) := if strict then MkdirAll(fs, []) else (fs, true);
    if ok then ExtractAll(fs', entries, strict) else (fs', false)
  }

  function UnpackParts(fs: Fs, parts: seq<seq<Entry>>, strict: bool): (Fs, bool)
    decreases |parts|
  {
    if parts == [] then (fs, true)
    else
      var (fs', ok) := Unpack(fs, parts[0], strict);
      if ok then UnpackParts(fs', parts[1..], strict) else (fs', false)
  }

  /** So are parts; UnzipDir makes the destination before the entries of each. */
  lemma PartsInOrder(fs: Fs, part: seq<Entry>, rest: seq<seq<Entry>>)
    ensures forall strict :: UnpackParts(fs, [], strict) == (fs, true)
    ensures var (fs', ok) := ExtractAll(fs, part, false);
            UnpackParts(fs, [part] + rest, false) == if ok then UnpackParts(fs', rest, false) else (fs', false)
    ensures var (made, done) := MkdirAll(fs, []);
            var (fs', ok) := ExtractAll(made, part, true);
            UnpackParts(fs, [part] + rest, true) ==
            if !done then (made, false) else if ok then UnpackParts(fs', rest, true) else (fs', false)
  {
    assert ([part] + rest)[1..] == rest;
  }

  /** A file system: everything but the destination itself lies in a directory. */
  ghost predicate Rooted(fs: Fs)
  {
    forall p <- fs :: p != [] ==> Parent(p) in fs && fs[Parent(p)] == D
  }

  /** No file is on the way to a path. */
  ghost predicate Clear(fs: Fs, p: Path)
  {
    forall q <- fs :: q <= p ==> fs[q] == D
  }

  /** A path and the directories above it were added where they were missing. */
  ghost predicate WithAncestors(fs: Fs, p: Path, fs': Fs)
  {
    && (forall q :: q in fs' <==> q in fs || q <= p)
    && (forall q <- fs' :: fs'[q] == if q in fs then fs[q] else D)
  }

  lemma PrefixOfParent(q: Path, p: Path)
    requires p != []
    ensures q <= p <==> q == p || q <= Parent(p)
  {
  }

  lemma ClearOfParent(fs: Fs, p: Path)
    requires p !in fs && p != []
    ensures Clear(fs, p) <==> Clear(fs, Parent(p))
  {
    forall q <- fs
      ensures q <= p <==> q <= Parent(p)
    {
      PrefixOfParent(q, p);
    }
  }

  lemma AddBelow(fs: Fs, p: Path, fs': Fs)
    requires p != [] && p !in fs && Rooted(fs') && WithAncestors(fs, Parent(p), fs')
    requires Parent(p) in fs' && fs'[Parent(p)] == D
    ensures Rooted(fs'[p := D]) && WithAncestors(fs, p, fs'[p := D])
  {
    forall q
      ensures q in fs'[p := D] <==> q in fs || q <= p
    {
      PrefixOfParent(q, p);
    }
  }

  lemma DirIsClear(fs: Fs, p: Path)
    requires Rooted(fs) && p in fs && fs[p] == D
    ensures Clear(fs, p) && WithAncestors(fs, p, fs)
  {
    forall q | q <= p
      ensures q in fs && fs[q] == D
    {
      AncestorsAreDirs(fs, q, p);
    }
  }

  /** Making directories fails exactly at a file on the way, and otherwise adds just what is missing. */
  lemma {:induction false} MkdirAllMakesAncestors(fs: Fs, p: Path)
    requires Rooted(fs)
    ensures var (fs', ok) := MkdirAll(fs, p);
            Rooted(fs') && (ok <==> Clear(fs, p)) && if ok then WithAncestors(fs, p, fs') else fs' == fs
    decreases |p|
  {
    if p !in fs {
      if p != [] {
        MkdirAllMakesAncestors(fs, Parent(p));
        ClearOfParent(fs, p);
        if Clear(fs, p) {
          AddBelow(fs, p, MkdirAll(fs, Parent(p)).0);
        }
      }
    } else if fs[p] == D {
      DirIsClear(fs, p);
    }
  }

  lemma {:induction false} AncestorsAreDirs(fs: Fs, q: Path, p: Path)
    requires Rooted(fs) && p in fs && q <= p && fs[p] == D
    ensures q in fs && fs[q] == D
    decreases |p|
  {
    if q != p {
      assert q <= Parent(p);
      AncestorsAreDirs(fs, q, Parent(p));
    }
  }

  /** Writing a file leaves a file system, since no file lies under a file. */
  lemma CreateKeepsRooted(fs: Fs, p: Path, data: seq<byte>)
    requires Rooted(fs)
    ensures Rooted(Create(fs, p, data).0)
  {
  }

  /** No entry is a file at the destination's own path. */
  ghost predicate NoFileAtTop(entries: seq<Entry>)
  {
    forall e <- entries :: e.path == [] ==> e.content.D?
  }

  /** What is at the destination's own path stays, unless one file overwrites another. */
  ghost predicate SameTop(fs: Fs, fs': Fs)
  {
    [] in fs ==> [] in fs' && fs'[[]] == fs[[]]
  }

  lemma ExtractKeepsRooted(fs: Fs, e: Entry, strict: bool)
    requires Rooted(fs)
    ensures Rooted(Extract(fs, e, strict).0)
    ensures ([] in fs && fs[[]].D?) || NoFileAtTop([e]) ==> SameTop(fs, Extract(fs, e, strict).0)
  {
    assert e in [e];
    MkdirAllMakesAncestors(fs, e.path);
    MkdirAllMakesAncestors(fs, Parent(e.path));
    if e.content.F? {
      CreateKeepsRooted(MkdirAbove(fs, e.path).0, e.path, e.content.data);
    }
  }

  lemma {:induction false} ExtractAllKeepsRooted(fs: Fs, entries: seq<Entry>, strict: bool)
    requires Rooted(fs)
    ensures Rooted(ExtractAll(fs, entries, strict).0)
    ensures ([] in fs && fs[[]].D?) || NoFileAtTop(entries) ==> SameTop(fs, ExtractAll(fs, entries, strict).0)
    decreases |entries|
  {
    if entries != [] {
      ExtractKeepsRooted(fs, entries[0], strict);
      ExtractAllKeepsRooted(Extract(fs, entries[0], strict).0, entries[1..], strict);
    }
  }

  lemma UnpackKeepsRooted(fs: Fs, entries: seq<Entry>, strict: bool)
    requires Rooted(fs)
    ensures Rooted(Unpack(fs, entries, strict).0)
    ensures ([] in fs && fs[[]].D?) || NoFileAtTop(entries) ==> SameTop(fs, Unpack(fs, entries, strict).0)
    ensures strict ==> var fs' := Unpack(fs, entries, strict).0; [] in fs' && ([] !in fs ==> fs'[[]] == D)
    ensures strict && [] in fs && fs[[]].F? ==> !Unpack(fs, entries, strict).1
  {
    ExtractAllKeepsRooted(fs, entries, strict);
    MkdirAllMakesAncestors(fs, []);
    ExtractAllKeepsRooted(MkdirAll(fs, []).0, entries, strict);
  }

  lemma {:induction false} UnpackPartsKeepsRooted(fs: Fs, parts: seq<seq<Entry>>, strict: bool)
    requires Rooted(fs)
    ensures Rooted(UnpackParts(fs, parts, strict).0)
    ensures ([] in fs && fs[[]].D?) || (forall part <- parts :: NoFileAtTop(part)) ==>
              SameTop(fs, UnpackParts(fs, parts, strict).0)
    decreases |parts|
  {
    if parts != [] {
      UnpackKeepsRooted(fs, parts[0], strict);
      UnpackPartsKeepsRooted(Unpack(fs, parts[0], strict).0, parts[1..], strict);
    }
  }

  /** A directory entry with a file in the way: DecompressTarGz goes on as if nothing was, UnzipDir stops. */
  lemma FileInTheWay(fs: Fs, p: Path)
    requires Rooted(fs) && !Clear(fs, p)
    ensures Extract(fs, Entry(p, D), false) == (fs, true) && Extract(fs, Entry(p, D), true) == (fs, false)
  {
    MkdirAllMakesAncestors(fs, p);
  }

  /** A file entry with a file in the way of its directory: both stop. */
  lemma FileAboveFile(fs: Fs, p: Path, data: seq<byte>, strict: bool)
    requires Rooted(fs) && p != [] && !Clear(fs, Parent(p))
    ensures Extract(fs, Entry(p, F(data)), strict) == (fs, false)
  {
    MkdirAllMakesAncestors(fs, Parent(p));
    if Parent(p) in fs && fs[Parent(p)] == D {
      DirIsClear(fs, Parent(p));
    }
  }

  /** fs holds part of the tree, with the directories above everything it holds. */
  ghost predicate Within(fs: Fs, n: Node)
  {
    forall p <- fs :: Lookup(n, p) == Some(fs[p]) && Parent(p) in fs
  }

  ghost predicate Extends(fs: Fs, fs': Fs)
  {
    forall p <- fs :: p in fs'
  }

  ghost predicate Pictures(fs: Fs, n: Node)
  {
    forall p :: Lookup(n, p) == if p in fs then Some(fs[p]) else None
  }

  lemma {:induction false} MkdirAllStaysWithin(fs: Fs, p: Path, n: Node)
    requires Within(fs, n) && Lookup(n, p) == Some(D)
    ensures MkdirAll(fs, p).1 && Within(MkdirAll(fs, p).0, n)
    ensures Extends(fs, MkdirAll(fs, p).0) && p in MkdirAll(fs, p).0
    ensures forall q <- MkdirAll(fs, p).0 :: q in fs || q <= p
    decreases |p|
  {
    if p !in fs && p != [] {
      ParentIsDir(n, p);
      MkdirAllStaysWithin(fs, Parent(p), n);
    }
  }

  /** A path that is new is the entry's own or one of the directories above it. */
  lemma ExtractStaysWithin(fs: Fs, e: Entry, n: Node, strict: bool)
    requires Within(fs, n) && Lookup(n, e.path) == Some(e.content)
    ensures var (fs', ok) := Extract(fs, e, strict);
            && ok && Within(fs', n) && Extends(fs, fs') && e.path in fs'
            && forall q <- fs' :: q in fs || q <= e.path
  {
    if e.content.D? {
      MkdirAllStaysWithin(fs, e.path, n);
    } else if e.path != [] {
      ParentIsDir(n, e.path);
      MkdirAllStaysWithin(fs, Parent(e.path), n);
    }
  }

  lemma {:induction false} ExtractAllStaysWithin(fs: Fs, entries: seq<Entry>, n: Node, strict: bool)
    requires Within(fs, n)
    requires forall e <- entries :: Lookup(n, e.path) == Some(e.content)
    ensures var (fs', ok) := ExtractAll(fs, entries, strict);
            && ok && Within(fs', n) && Extends(fs, fs')
            && (forall e <- entries :: e.path in fs')
            && (forall q <- fs' :: q in fs || exists e <- entries :: q <= e.path)
    decreases |entries|
  {
    if entries != [] {
      ExtractStaysWithin(fs, entries[0], n, strict);
      ExtractAllStaysWithin(Extract(fs, entries[0], strict).0, entries[1..], n, strict);
    }
  }

  lemma UnpackStaysWithin(fs: Fs, entries: seq<Entry>, n: Node, strict: bool)
    requires Within(fs, n) && (strict ==> n.Dir?)
    requires forall e <- entries :: Lookup(n, e.path) == Some(e.content)
    ensures var (fs', ok) := Unpack(fs, entries, strict);
            && ok && Within(fs', n) && Extends(fs, fs') && (strict ==> [] in fs')
            && (forall e <- entries :: e.path in fs')
            && (forall q <- fs' :: q in fs || (strict && q == []) || exists e <- entries :: q <= e.path)
  {
    if strict {
      MkdirAllStaysWithin(fs, [], n);
      ExtractAllStaysWithin(MkdirAll(fs, []).0, entries, n, strict);
    } else {
      ExtractAllStaysWithin(fs, entries, n, strict);
    }
  }

  lemma {:induction false} UnpackPartsStaysWithin(fs: Fs, parts: seq<seq<Entry>>, n: Node, strict: bool)
    requires Within(fs, n) && (strict ==> n.Dir?)
    requires forall part <- parts, e <- part :: Lookup(n, e.path) == Some(e.content)
    ensures var (fs', ok) := UnpackParts(fs, parts, strict);
            && ok && Within(fs', n) && Extends(fs, fs') && (strict && parts != [] ==> [] in fs')
            && (forall part <- parts, e <- part :: e.path in fs')
            && (forall q <- fs' :: q in fs || (strict && q == []) || exists part <- parts, e <- part :: q <= e.path)
    decreases |parts|
  {
    if parts != [] {
      UnpackStaysWithin(fs, parts[0], n, strict);
      UnpackPartsStaysWithin(Unpack(fs, parts[0], strict).0, parts[1..], n, strict);
    }
  }
}
