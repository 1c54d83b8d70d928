/** `_safe_relpath` of `api/bundle.py`: which entry names of a bundle are accepted, and where they lead. */
module SafePath {
  import opened Wrappers
  import opened Segments

  type Path = seq<string>

  datatype PathRefusal = Backslash | Colon | Absolute | DotDot

  predicate IsComponent(part: string) { part != "" && part != "." }

  /** The components a POSIX path keeps: empty ones and `.` are dropped. */
  function Components(parts: seq<string>): Path {
    if parts == [] then []
    else (if IsComponent(parts[0]) then [parts[0]] else []) + Components(parts[1..])
  }

  function SafeRelpath(name: string): Result<Path, PathRefusal> {
    if name == "" || name == "." || name == "./" then Ok([])
    else if '\\' in name then Err(Backslash)
    else if ':' in name then Err(Colon)
    else if name[0] == '/' then Err(Absolute)
    else
      var path := Components(Split(name));
      if ".." in path then Err(DotDot) else Ok(path)
  }

  /** `str(path)` */
  function Print(path: Path): string { if path == [] then "." else Join(path) }

  /** What an accepted path is made of. */
  predicate IsSafePart(part: string) {
    IsComponent(part) && part != ".." && '/' !in part && '\\' !in part && ':' !in part
  }

  predicate IsSafePath(path: Path) {
    forall i :: 0 <= i < |path| ==> IsSafePart(path[i])
  }

  lemma {:induction false} ComponentsAreParts(parts: seq<string>)
    ensures forall part :: part in Components(parts) <==> part in parts && IsComponent(part)
  {
    if parts != [] {
      ComponentsAreParts(parts[1..]);
    }
  }

  lemma {:induction false} SplitHasOnlyItsCharacters(name: string, c: char)
    requires c !in name
    ensures forall i :: 0 <= i < |Split(name)| ==> c !in Split(name)[i]
  {
    if name != "" {
      SplitHasOnlyItsCharacters(name[1..], c);
    }
  }

  /** Every accepted name has only safe components. */
  lemma AcceptedNamesAreSafe(name: string)
    requires SafeRelpath(name).Ok?
    ensures IsSafePath(SafeRelpath(name).value)
  {
    if name != "" && name != "." && name != "./" {
      SplitHasOnlyItsCharacters(name, '\\');
      SplitHasOnlyItsCharacters(name, ':');
      SplitHasNoSlash(name);
      ComponentsAreParts(Split(name));
      var path := SafeRelpath(name).value;
      forall i | 0 <= i < |path| ensures IsSafePart(path[i]) {
        assert path[i] in Components(Split(name));
      }
    }
  }

  /** What else a name is refused for comes before its components. */
  lemma NameIsRefusedIff(name: string)
    ensures SafeRelpath(name) == Err(Backslash) <==> '\\' in name
    ensures SafeRelpath(name) == Err(Colon) <==> '\\' !in name && ':' in name
    ensures SafeRelpath(name) == Err(Absolute) <==>
            '\\' !in name && ':' !in name && name != "" && name[0] == '/'
  {
  }

  /** Exactly which names are accepted: relative ones without a backslash, a colon or a component that goes up. */
  lemma NameIsAcceptedIff(name: string)
    ensures SafeRelpath(name).Ok?
            <==> '\\' !in name && ':' !in name && (name == "" || name[0] != '/') && ".." !in Split(name)
  {
    ComponentsAreParts(Split(name));
    if name == "" || name == "." || name == "./" {
      NamesWithoutComponents();
      assert ".." !in Components(Split(name));
    }
  }

  lemma {:induction false} ComponentsOfConcat(a: seq<string>, b: seq<string>)
    ensures Components(a + b) == Components(a) + Components(b)
  {
    if a == [] {
      assert a + b == b;
    } else {
      assert (a + b)[1..] == a[1..] + b;
      ComponentsOfConcat(a[1..], b);
    }
  }

  lemma JoinedNameIsAccepted(a: string, b: string)
    requires a != "" && SafeRelpath(a).Ok? && SafeRelpath(b).Ok?
    ensures SafeRelpath(a + "/" + b).Ok?
  {
    var name := a + "/" + b;
    NameIsAcceptedIff(a);
    NameIsAcceptedIff(b);
    NameIsAcceptedIff(name);
    SplitOfAppend(a, b);
    assert name[0] == a[0];
  }

  /** Names joined by a slash lead where one and then the other leads. */
  lemma PathOfJoinedNames(a: string, b: string)
    requires a != "" && SafeRelpath(a).Ok? && SafeRelpath(b).Ok?
    ensures SafeRelpath(a + "/" + b) == Ok(SafeRelpath(a).value + SafeRelpath(b).value)
  {
    JoinedNameIsAccepted(a, b);
    PathIsItsComponents(a);
    PathIsItsComponents(b);
    PathIsItsComponents(a + "/" + b);
    SplitOfAppend(a, b);
    ComponentsOfConcat(Split(a), Split(b));
  }

  lemma PathIsItsComponents(name: string)
    requires SafeRelpath(name).Ok?
    ensures SafeRelpath(name).value == Components(Split(name))
  {
    NamesWithoutComponents();
  }

  lemma ComponentsOfOne(part: string)
    ensures Components([part]) == if IsComponent(part) then [part] else []
  {
    assert [part][1..] == [];
  }

  /** One component is itself, unless it is empty or a dot. */
  lemma PathOfOneName(name: string)
    requires SafeRelpath(name).Ok? && '/' !in name
    ensures SafeRelpath(name).value == if name == "" || name == "." then [] else [name]
  {
    PathIsItsComponents(name);
    SplitOfSegment(name);
    ComponentsOfOne(name);
  }

  lemma {:induction false} ComponentsOfComponents(parts: seq<string>)
    requires forall i :: 0 <= i < |parts| ==> IsComponent(parts[i])
    ensures Components(parts) == parts
  {
    if parts != [] {
      ComponentsOfComponents(parts[1..]);
    }
  }

  /** Printing a safe path and parsing it again is the identity. */
  lemma PrintParses(path: Path)
    requires IsSafePath(path)
    ensures SafeRelpath(Print(path)) == Ok(path)
  {
    if path != [] {
      SafePathDescends(path);
      JoinHasNoChar(path, '\\');
      JoinHasNoChar(path, ':');
      SplitOfJoin(path);
      ComponentsOfComponents(path);
      NamesWithoutComponents();
      JoinBegins(path);
    }
  }

  lemma JoinBegins(path: Path)
    requires path != [] && path[0] != ""
    ensures Join(path) != "" && Join(path)[0] == path[0][0]
  {
  }

  lemma NamesWithoutComponents()
    ensures Components(Split("")) == Components(Split(".")) == Components(Split("./")) == []
  {
    SplitOfSegment(".");
    SplitOfAppend(".", "");
    assert "." + "/" + "" == "./";
    assert ["."] + [""] == [".", ""];
    assert [".", ""][1..] == [""];
  }

  /** Where a path leads: `.` and empty components stay, `..` goes up, and the root is its own parent. */
  function Resolve(parts: seq<string>): Path {
    if parts == [] then []
    else
      var before, part := Resolve(parts[..|parts| - 1]), parts[|parts| - 1];
      if !IsComponent(part) then before
      else if part != ".." then before + [part]
      else if before == [] then [] else before[..|before| - 1]
  }

  /** Going down into a component and up again leads back; the root is its own parent. */
  lemma DownAndUp(path: seq<string>, part: string)
    requires IsComponent(part) && part != ".."
    ensures Resolve(path + [part]) == Resolve(path) + [part]
    ensures Resolve(path + [part] + [".."]) == Resolve(path)
    ensures Resolve([".."]) == Resolve([]) == []
    ensures Resolve(path + ["."]) == Resolve(path + [""]) == Resolve(path)
  {
    var down := path + [part];
    assert down[..|down| - 1] == path && (down + [".."])[..|down|] == down;
    assert (path + ["."])[..|path|] == path && (path + [""])[..|path|] == path;
    assert Resolve([".."][..0]) == [];
  }

  /** Nowhere does the path stay or go up. */
  predicate Descends(path: Path) {
    forall i :: 0 <= i < |path| ==> IsComponent(path[i]) && path[i] != ".."
  }

  lemma SafePathDescends(path: Path)
    requires IsSafePath(path)
    ensures Descends(path)
  {
    forall i | 0 <= i < |path| ensures IsComponent(path[i]) && path[i] != ".." {
      assert IsSafePart(path[i]);
    }
  }

  /** Joined to any root, a path that descends, as every safe one does, leads to itself below that root. */
  lemma {:induction false} SafePathStaysBelow(root: seq<string>, path: Path)
    requires Descends(path)
    ensures Resolve(root + path) == Resolve(root) + path
  {
    if path == [] {
      assert root + path == root;
    } else {
      var n := |path| - 1;
      assert (root + path)[..|root + path| - 1] == root + path[..n];
      SafePathStaysBelow(root, path[..n]);
      assert path == path[..n] + [path[n]];
    }
  }
}
