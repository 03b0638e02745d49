/** Archive entry names as paths: how a name splits into components, which names are safe to
    join under a root, and where a name leads. */
module BackupPaths {
  import opened Text

  /** A path as its component names, from the file system's root. */
  type Path = seq<string>

  datatype Component = RootDir | CurDir | ParentDir | Normal(name: string)

  predicate IsAbsolute(name: string) {
    name != "" && name[0] == '/'
  }

  /** Empty parts and inner dots vanish. */
  function Body(parts: seq<string>): (r: seq<Component>)
    ensures forall c <- r :: c.ParentDir? || c.Normal?
    ensures ParentDir in r <==> ".." in parts
  {
    if parts == [] then []
    else
      var rest := Body(parts[1..]);
      if parts[0] == "" || parts[0] == "." then rest
      else if parts[0] == ".." then [ParentDir] + rest
      else [Normal(parts[0])] + rest
  }

  /** `Path::components` on Unix. */
  function Components(name: string): seq<Component> {
    var parts := Split(name, '/');
    (if IsAbsolute(name) then [RootDir] else if parts[0] == "." then [CurDir] else []) + Body(parts)
  }

  /** The name ends in a slash, or in a slash and a dot: it can only name a directory. */
  predicate NamesDirectory(name: string) {
    var parts := Split(name, '/');
    parts[|parts| - 1] == "" || parts[|parts| - 1] == "."
  }

  predicate IsSafeEntryName(name: string) {
    !IsAbsolute(name) && forall c <- Components(name) :: c.Normal? || c.CurDir?
  }

  /** Where the components lead from `at`, read one by one. */
  function Follow(at: Path, components: seq<Component>): Path
    decreases |components|
  {
    if components == [] then at
    else
      var next := match components[0]
        case RootDir => []
        case CurDir => at
        case ParentDir => if at == [] then [] else at[..|at| - 1]
        case Normal(n) => at + [n];
      Follow(next, components[1..])
  }

  /** `root.join(name)` */
  function Target(root: Path, name: string): Path {
    Follow(root, Components(name))
  }

  function Normals(components: seq<Component>): Path {
    if components == [] then []
    else if components[0].Normal? then [components[0].name] + Normals(components[1..])
    else Normals(components[1..])
  }

  /** The path below the root that a safe name stands for. */
  function Relative(name: string): Path {
    Normals(Components(name))
  }

  lemma {:induction false} FollowNormals(at: Path, components: seq<Component>)
    requires forall c <- components :: c.Normal? || c.CurDir?
    ensures Follow(at, components) == at + Normals(components)
    decreases |components|
  {
    if components != [] {
      var first := components[0];
      FollowNormals(if first.Normal? then at + [first.name] else at, components[1..]);
      if first.Normal? {
        assert at + Normals(components) == at + [first.name] + Normals(components[1..]);
      }
    }
  }

  /** A safe name leads to a path at or below the root; the safe names are exactly the relative
      ones without a `..` part. */
  lemma SafeNamesStayInside(root: Path, name: string)
    ensures IsSafeEntryName(name) <==> !IsAbsolute(name) && ".." !in Split(name, '/')
    ensures IsSafeEntryName(name) ==> Target(root, name) == root + Relative(name)
  {
    var parts := Split(name, '/');
    if IsSafeEntryName(name) {
      FollowNormals(root, Components(name));
      assert ".." in parts ==> ParentDir in Components(name);
    } else if !IsAbsolute(name) && ".." !in parts {
      assert forall c <- Components(name) :: c.CurDir? || c in Body(parts);
    }
  }

  lemma TwoParts(first: string, other: string)
    requires '/' !in first && first != "." && IsPathName(other)
    ensures Components(first + "/" + other) ==
      (if first == "" then [RootDir] else if first == ".." then [ParentDir] else [Normal(first)]) + [Normal(other)]
  {
    SplitOfJoined([first, other], '/');
    assert [first, other][1..] == [other] && [other][1..] == [];
    assert Join([first, other], '/') == first + "/" + other;
    assert Body([other]) == [Normal(other)];
  }

  /** Unsafe names can lead outside: anywhere, or upwards. */
  lemma UnsafeNamesEscape(root: Path, other: string)
    requires root != [] && IsPathName(other)
    ensures Target(root, "/" + other) == [other] && !IsSafeEntryName("/" + other)
    ensures Target(root, "../" + other) == root[..|root| - 1] + [other] && !IsSafeEntryName("../" + other)
  {
    TwoParts("", other);
    TwoParts("..", other);
    var rooted, upward := [RootDir, Normal(other)], [ParentDir, Normal(other)];
    assert rooted[1..] == upward[1..] == [Normal(other)];
    assert Follow(root, rooted) == Follow([], [Normal(other)]) == [other];
    assert Follow(root, upward) == Follow(root[..|root| - 1], [Normal(other)]) == root[..|root| - 1] + [other] by {
      assert [Normal(other)][1..] == [];
    }
    assert "" + "/" + other == "/" + other && ".." + "/" + other == "../" + other;
    assert [RootDir] + [Normal(other)] == rooted && [ParentDir] + [Normal(other)] == upward;
    assert upward[0] in upward && rooted[0] in rooted;
  }

  /** A name a directory can list. */
  predicate IsPathName(name: string) {
    name != "" && name != "." && name != ".." && '/' !in name
  }

  predicate IsPath(path: Path) {
    path != [] && forall name <- path :: IsPathName(name)
  }

  /** The name an exported file is archived under. */
  function NameOf(path: Path): string
    requires path != []
  {
    Join(path, '/')
  }

  function AsNormals(path: Path): seq<Component> {
    seq(|path|, i requires 0 <= i < |path| => Normal(path[i]))
  }

  lemma {:induction false} BodyOfPath(path: Path)
    requires forall name <- path :: IsPathName(name)
    ensures Body(path) == AsNormals(path) && Normals(AsNormals(path)) == path
  {
    if path != [] {
      assert path[0] in path;
      BodyOfPath(path[1..]);
      assert AsNormals(path) == [Normal(path[0])] + AsNormals(path[1..]);
      assert AsNormals(path)[1..] == AsNormals(path[1..]);
    }
  }

  /** The names an export writes are safe, and lead back to the very path below the new root. */
  lemma NamesLeadBack(root: Path, path: Path)
    requires IsPath(path)
    ensures IsSafeEntryName(NameOf(path)) && !NamesDirectory(NameOf(path))
    ensures Components(NameOf(path)) == AsNormals(path)
    ensures Target(root, NameOf(path)) == root + path
  {
    var name := NameOf(path);
    assert path[0] in path && path[|path| - 1] in path;
    SplitOfJoined(path, '/');
    BodyOfPath(path);
    assert name[0] == path[0][0];
    assert Components(name) == AsNormals(path);
    FollowNormals(root, Components(name));
  }

  lemma AsNormalsInjective(p: Path, q: Path)
    requires AsNormals(p) == AsNormals(q)
    ensures p == q
  {
    assert forall i :: 0 <= i < |p| ==> AsNormals(p)[i] == Normal(p[i]);
    assert forall i :: 0 <= i < |q| ==> AsNormals(q)[i] == Normal(q[i]);
  }
}
