/** Where the name of an archive entry leads: filepath.Join with an absolute destination. */
module EntryNames {
  import opened Text
  import opened ArchiveModel

  /** One part of a name, as filepath.Clean takes it. */
  function Stepped(p: Path, part: string): Path
  {
    if part == "" || part == "." then p else if part == ".." then Parent(p) else p + [part]
  }

  function Cleaned(base: Path, parts: seq<string>): Path
  {
    if parts == [] then base else Stepped(Cleaned(base, parts[..|parts| - 1]), parts[|parts| - 1])
  }

  function Target(destination: Path, name: string): Path
  {
    Cleaned(destination, Split(name, '/'))
  }

  /** A name by itself: how far it leads up, and the names below that. */
  datatype Relative = Relative(ups: nat, names: Path)

  function Next(r: Relative, part: string): Relative
  {
    if part == "" || part == "." then r
    else if part == ".." then
      if r.names == [] then r.(ups := r.ups + 1) else r.(names := Parent(r.names))
    else r.(names := r.names + [part])
  }

  function RelativeTo(parts: seq<string>): Relative
  {
    if parts == [] then Relative(0, []) else Next(RelativeTo(parts[..|parts| - 1]), parts[|parts| - 1])
  }

  /** A path some steps up, which end at the root. */
  function Up(p: Path, k: nat): Path
  {
    if k <= |p| then p[..|p| - k] else []
  }

  lemma {:induction false} CleanedIsRelative(base: Path, parts: seq<string>)
    ensures var r := RelativeTo(parts); Cleaned(base, parts) == Up(base, r.ups) + r.names
  {
    if parts != [] {
      var front, part := parts[..|parts| - 1], parts[|parts| - 1];
      CleanedIsRelative(base, front);
      var r := RelativeTo(front);
      var up := Up(base, r.ups);
      if part == ".." {
        if r.names == [] {
          assert up + [] == up && Parent(up) == Up(base, r.ups + 1);
        } else {
          assert Parent(up + r.names) == up + Parent(r.names);
        }
      } else if part != "" && part != "." {
        assert up + r.names + [part] == up + (r.names + [part]);
      }
    }
  }

  /** A name leads below a destination exactly if it comes down again the way it went up. */
  lemma TargetIsBelowExactly(destination: Path, name: string)
    ensures var r := RelativeTo(Split(name, '/'));
            destination <= Target(destination, name) <==> destination[|Up(destination, r.ups)|..] <= r.names
  {
    var r := RelativeTo(Split(name, '/'));
    CleanedIsRelative(destination, Split(name, '/'));
    var up := Up(destination, r.ups);
    assert destination == up + destination[|up|..];
    assert (up + r.names)[|up|..] == r.names;
  }

  /** It leads below every destination exactly if it goes up no further than it came down before. */
  lemma AlwaysBelowExactly(name: string)
    ensures var r := RelativeTo(Split(name, '/'));
            && ((forall destination :: destination <= Target(destination, name)) <==> r.ups == 0)
            && (r.ups == 0 ==> forall destination :: Target(destination, name) == destination + r.names)
  {
    var r := RelativeTo(Split(name, '/'));
    forall destination | r.ups == 0
      ensures Target(destination, name) == destination + r.names
    {
      CleanedIsRelative(destination, Split(name, '/'));
    }
    if r.ups > 0 {
      var other := if r.names == [] then "" else r.names[0] + "x";
      TargetIsBelowExactly([other], name);
      assert Up([other], r.ups) == [] && [other][0..] == [other];
      assert r.names != [] ==> |other| == |r.names[0]| + 1;
      assert !([other] <= Target([other], name));
    }
  }

  /** The names that the archivers write lead to the paths they were written for. */
  lemma {:induction false} WrittenNameIsPath(path: Path)
    requires forall part <- path :: part != "" && part != "." && part != ".."
    ensures RelativeTo(path) == Relative(0, path)
  {
    if path != [] {
      var front, part := path[..|path| - 1], path[|path| - 1];
      assert path == front + [part];
      assert part in path && forall p <- front :: p in path;
      WrittenNameIsPath(front);
    }
  }

  /** A tree's entry, named by its path or by "." at the root, is extracted at that path. */
  lemma NamesRoundTrip(destination: Path, path: Path)
    requires forall part <- path :: part != "" && part != "." && part != ".." && Free(part, '/')
    ensures Target(destination, if path == [] then "." else Join(path, "/")) == destination + path
  {
    if path == [] {
      SplitFree(".", '/');
      CleanedIsRelative(destination, ["."]);
      assert ["."][..0] == [] && destination + [] == destination;
    } else {
      SplitJoin(path, '/');
      WrittenNameIsPath(path);
      CleanedIsRelative(destination, path);
    }
  }

  /**
   How a name is cleaned, from the left: "." and nothing are dropped, ".." leaves the directory, which at
   the root stays the root, and any other part goes down, so that the ".." after it takes it back.
   */
  lemma {:induction false} CleanedFromLeft(base: Path, part: string, rest: seq<string>)
    ensures Cleaned(base, []) == base
    ensures part == "." || part == "" ==> Cleaned(base, [part] + rest) == Cleaned(base, rest)
    ensures Cleaned([], [".."] + rest) == Cleaned([], rest)
    ensures part != "" && part != "." && part != ".." ==>
              Cleaned(base, [part, ".."] + rest) == Cleaned(base, rest) == Cleaned(base + [part], [".."] + rest)
              && Cleaned(base, [part] + rest) == Cleaned(base + [part], rest)
  {
    CleanedConcat(base, [part], rest);
    CleanedConcat([], [".."], rest);
    CleanedConcat(base + [part], [".."], rest);
    CleanedConcat(base, [part, ".."], rest);
    assert [part, ".."][..1] == [part];
    assert Parent(base + [part]) == base;
  }

  lemma {:induction false} CleanedConcat(base: Path, a: seq<string>, b: seq<string>)
    ensures Cleaned(base, a + b) == Cleaned(Cleaned(base, a), b)
    decreases |b|
  {
    if b == [] {
      assert a + b == a;
    } else {
      assert (a + b)[..|a + b| - 1] == a + b[..|b| - 1];
      CleanedConcat(base, a, b[..|b| - 1]);
    }
  }
}
