/** Archiving a directory tree, and what importing the archive into another root yields. */
module BackupExport {
  import opened Text
  import opened BackupPaths
  import opened BackupRestore
  import opened BackupOverlay

  /** What a directory listing shows; `Other` is a symlink, a socket, a device. */
  datatype Node = File(contents: Bytes) | Dir(entries: seq<DirEntry>) | Other

  datatype DirEntry = DirEntry(name: string, node: Node)

  const SOCKET: Path := ["state", "runtime.sock"]

  predicate IsExcluded(relative: Path) {
    relative == SOCKET || ["logs"] <= relative
  }

  /** Names are proper and distinct in every directory. */
  predicate IsTree(dir: seq<DirEntry>) {
    && (forall i, j :: 0 <= i < j < |dir| ==> dir[i].name != dir[j].name)
    && (forall e <- dir :: IsPathName(e.name) && (e.node.Dir? ==> IsTree(e.node.entries)))
  }

  /** The contents of the regular file at a path of the tree. */
  function FileAt(dir: seq<DirEntry>, path: Path): (r: Option<Bytes>)
    ensures r.Some? ==> path != [] && exists e <- dir :: e.name == path[0]
    decreases dir
  {
    if dir == [] || path == [] then None
    else
      var last := dir[|dir| - 1];
      if last.name != path[0] then FileAt(dir[..|dir| - 1], path)
      else
        match last.node
        case File(contents) => if |path| == 1 then Some(contents) else None
        case Dir(entries) => FileAt(entries, path[1..])
        case Other => None
  }

  /** The files of one listing, those of its directories included. */
  function Archived(relative: Path, dir: seq<DirEntry>): (items: seq<Item>)
    ensures forall item <- items :: item.path != []
    decreases dir, 1
  {
    if dir == [] then []
    else Archived(relative, dir[..|dir| - 1]) + ArchivedEntry(relative, dir[|dir| - 1])
  }

  function ArchivedEntry(relative: Path, e: DirEntry): (items: seq<Item>)
    ensures forall item <- items :: item.path != []
    decreases e, 0
  {
    var path := relative + [e.name];
    if IsExcluded(path) then []
    else
      match e.node
      case File(contents) => [Item(path, contents)]
      case Dir(entries) => Archived(path, entries)
      case Other => []
  }

  class TarBuilder {
    var entries: seq<Entry>

    constructor ()
      ensures entries == []
    {
      entries := [];
    }

    method AddDirRecursive(relative: Path, dir: seq<DirEntry>)
      modifies this
      ensures entries == old(entries) + ArchiveOf(Archived(relative, dir))
      decreases dir
    {
      for i := 0 to |dir|
        invariant entries == old(entries) + ArchiveOf(Archived(relative, dir[..i]))
      {
        var e := dir[i];
        var path := relative + [e.name];
        assert dir[..i + 1][..i] == dir[..i];
        ArchiveAdds(Archived(relative, dir[..i]), ArchivedEntry(relative, e));
        if IsExcluded(path) {
          continue;
        }
        match e.node {
          case Dir(children) => AddDirRecursive(path, children);
          case File(contents) =>
            assert ArchiveOf([Item(path, contents)]) == [Entry(NameOf(path), contents)];
            entries := entries + [Entry(NameOf(path), contents)];
          case Other =>
        }
      }
      assert dir[..|dir|] == dir;
    }
  }

  lemma ArchiveAdds(a: seq<Item>, b: seq<Item>)
    requires forall item <- a + b :: item.path != []
    requires forall item <- a :: item.path != []
    requires forall item <- b :: item.path != []
    ensures ArchiveOf(a + b) == ArchiveOf(a) + ArchiveOf(b)
  {
  }

  function Exported(dir: seq<DirEntry>, manifest: Bytes): seq<Entry> {
    ArchiveOf(Archived([], dir)) + [Entry(MANIFEST, manifest)]
  }

  method Export(dir: seq<DirEntry>, manifest: Bytes) returns (archive: seq<Entry>)
    ensures archive == Exported(dir, manifest)
  {
    var builder := new TarBuilder();
    builder.AddDirRecursive([], dir);
    archive := builder.entries + [Entry(MANIFEST, manifest)];
  }

  // ---- what is archived ------------------------------------------------------------

  /** No directory on the way, from the `n`th on, and not the file itself, is excluded. */
  predicate VisibleFrom(n: nat, path: Path) {
    forall k :: n < k <= |path| ==> !IsExcluded(path[..k])
  }

  /** Hidden are the logs and the socket, and whatever would be inside them; nothing else. */
  lemma VisibleExactly(path: Path)
    ensures VisibleFrom(0, path) <==> path == [] || (path[0] != "logs" && !(["state", "runtime.sock"] <= path))
  {
    if path != [] {
      assert ["logs"] <= path[..1] <==> path[0] == "logs";
      assert |path| >= 2 ==> (["state", "runtime.sock"] <= path <==> path[..2] == SOCKET);
      forall k | 0 < k <= |path|
          ensures IsExcluded(path[..k]) ==> path[0] == "logs" || ["state", "runtime.sock"] <= path {
        assert path[..k][0] == path[0];
      }
    }
  }

  lemma {:induction false} ArchivedSound(relative: Path, dir: seq<DirEntry>, item: Item)
    requires item in Archived(relative, dir) && IsTree(dir)
    ensures relative <= item.path && FileAt(dir, item.path[|relative|..]) == Some(item.contents)
    ensures VisibleFrom(|relative|, item.path)
    ensures forall name <- item.path[|relative|..] :: IsPathName(name)
    decreases dir
  {
    var front, last := dir[..|dir| - 1], dir[|dir| - 1];
    if item in Archived(relative, front) {
      ArchivedSound(relative, front, item);
      var e :| e in front && e.name == item.path[|relative|];
      assert e.name != last.name;
    } else {
      var path := relative + [last.name];
      assert item in ArchivedEntry(relative, last) && last in dir;
      if last.node.Dir? {
        ArchivedSound(path, last.node.entries, item);
        assert item.path[|relative|] == path[|relative|];
        assert item.path[|relative|..][1..] == item.path[|path|..];
        assert item.path[..|path|] == path;
      } else {
        assert item.path == path && path[|relative|..] == [last.name] && path[..|path|] == path;
      }
    }
  }

  lemma {:induction false} ArchivedComplete(relative: Path, dir: seq<DirEntry>, path: Path)
    requires FileAt(dir, path).Some? && VisibleFrom(|relative|, relative + path)
    ensures Item(relative + path, FileAt(dir, path).value) in Archived(relative, dir)
    decreases dir
  {
    var front, last := dir[..|dir| - 1], dir[|dir| - 1];
    if last.name != path[0] {
      ArchivedComplete(relative, front, path);
    } else {
      var inner := relative + [last.name];
      assert (relative + path)[..|inner|] == inner;
      assert inner + path[1..] == relative + path;
      if last.node.Dir? {
        ArchivedComplete(inner, last.node.entries, path[1..]);
      } else {
        assert path == [last.name];
      }
    }
  }

  /** The archive holds exactly the tree's regular files outside the excluded places, with
      their contents. */
  lemma ArchiveExactly(dir: seq<DirEntry>, path: Path, contents: Bytes)
    requires IsTree(dir)
    ensures Item(path, contents) in Archived([], dir) <==> FileAt(dir, path) == Some(contents) && VisibleFrom(0, path)
  {
    assert [] + path == path && path[0..] == path;
    if Item(path, contents) in Archived([], dir) {
      ArchivedSound([], dir, Item(path, contents));
    } else if FileAt(dir, path) == Some(contents) && VisibleFrom(0, path) {
      ArchivedComplete([], dir, path);
    }
  }

  /** No archived path is equal to another or inside it. */
  lemma {:induction false} ArchivedSeparate(relative: Path, dir: seq<DirEntry>, i: nat, j: nat)
    requires IsTree(dir) && i < |Archived(relative, dir)| && j < |Archived(relative, dir)| && i != j
    ensures !(Archived(relative, dir)[i].path <= Archived(relative, dir)[j].path)
    decreases dir
  {
    hide Archived, ArchivedEntry, IsPathName;
    ArchivedParts(relative, dir);
    var front, last := dir[..|dir| - 1], dir[|dir| - 1];
    assert dir == front + [last];
    var a, b := Archived(relative, front), ArchivedEntry(relative, last);
    var n := |a|;
    if i < n && j < n {
      ArchivedSeparate(relative, front, i, j);
    } else if i >= n && j >= n {
      ManyFromDirectory(relative, last);
      ArchivedSeparate(relative + [last.name], last.node.entries, i - n, j - n);
    } else if i < n {
      NamesDiffer(relative, front, last, a[i], b[j - n]);
    } else {
      NamesDiffer(relative, front, last, a[j], b[i - n]);
    }
  }

  lemma ArchivedParts(relative: Path, dir: seq<DirEntry>)
    requires Archived(relative, dir) != []
    ensures dir != [] && Archived(relative, dir)
        == Archived(relative, dir[..|dir| - 1]) + ArchivedEntry(relative, dir[|dir| - 1])
  {
  }

  lemma ManyFromDirectory(relative: Path, e: DirEntry)
    requires |ArchivedEntry(relative, e)| > 1
    ensures e.node.Dir? && ArchivedEntry(relative, e) == Archived(relative + [e.name], e.node.entries)
  {
  }

  lemma EntryName(relative: Path, e: DirEntry, item: Item)
    requires item in ArchivedEntry(relative, e) && (e.node.Dir? ==> IsTree(e.node.entries))
    ensures |item.path| > |relative| && item.path[|relative|] == e.name && relative <= item.path
  {
    var path := relative + [e.name];
    if e.node.Dir? {
      ArchivedSound(path, e.node.entries, item);
      assert item.path[|relative|] == path[|relative|];
    }
  }

  lemma NamesDiffer(relative: Path, front: seq<DirEntry>, last: DirEntry, a: Item, b: Item)
    requires IsTree(front + [last]) && a in Archived(relative, front) && b in ArchivedEntry(relative, last)
    ensures !(a.path <= b.path) && !(b.path <= a.path)
  {
    var dir := front + [last];
    assert dir[|front|] == last && last in dir;
    assert forall i :: 0 <= i < |front| ==> front[i] == dir[i] && front[i].name != last.name && front[i] in dir;
    ArchivedSound(relative, front, a);
    EntryName(relative, last, b);
    var e :| e in front && e.name == a.path[|relative|];
  }

  // ---- export, then import ---------------------------------------------------------

  /** The files of a tree, to be restored below a root. */
  function PlanOf(root: Path, dir: seq<DirEntry>, times: seq<string>): Plan {
    Plan(root, Archived([], dir), times)
  }

  predicate SameLength(times: seq<string>) {
    forall i, j :: 0 <= i < |times| && 0 <= j < |times| ==> |times[i]| == |times[j]|
  }

  lemma PlanIsWellFormed(root: Path, dir: seq<DirEntry>, times: seq<string>)
    requires IsTree(dir) && |times| == |Archived([], dir)| && SameLength(times)
    ensures WellFormed(PlanOf(root, dir, times))
  {
    var plan := PlanOf(root, dir, times);
    forall i | 0 <= i < |plan.items| ensures plan.items[i].path != [] {
      assert plan.items[i] in plan.items;
    }
    forall i, j | 0 <= i < |plan.items| && 0 <= j < |plan.items| && i != j
      ensures !(TargetOf(plan, i) <= TargetOf(plan, j))
    {
      ArchivedSeparate([], dir, i, j);
      PrefixBelow(root, plan.items[i].path, plan.items[j].path);
    }
  }

  lemma PrefixBelow(root: Path, p: Path, q: Path)
    ensures root + p <= root + q <==> p <= q
    ensures root + p == root + q <==> p == q
  {
    assert (root + p)[|root|..] == p && (root + q)[|root|..] == q;
    if root + p <= root + q {
      assert p == (root + q)[..|root| + |p|][|root|..] == q[..|p|];
    }
  }

  lemma PlanIsListed(dir: seq<DirEntry>)
    requires IsTree(dir) && FileAt(dir, [MANIFEST]).None?
    ensures Listed(Archived([], dir))
  {
    forall item | item in Archived([], dir) ensures IsPath(item.path) && item.path != [MANIFEST] {
      ArchivedSound([], dir, item);
      assert item.path[0..] == item.path;
    }
  }

  lemma ManifestName()
    ensures IsSafeEntryName(MANIFEST) && IsManifest(MANIFEST)
  {
    hide IsSafeEntryName, Components, Normals, NamesDirectory, Target;
    NamesLeadBack([], [MANIFEST]);
    assert AsNormals([MANIFEST]) == [Normal(MANIFEST)] && NameOf([MANIFEST]) == MANIFEST;
  }

  /** Importing a tree's export below another root lays the tree's files over it, adds the
      manifest's secrets, and reports every file restored. */
  lemma ImportOfExport(root: Path, dir: seq<DirEntry>, manifest: Bytes, secrets: map<string, string>,
                       times: seq<string>, parse: ManifestParser, p: Progress)
    requires IsTree(dir) && FileAt(dir, [MANIFEST]).None? && parse(manifest) == Some(secrets)
    requires |times| == |Archived([], dir)| + 1 && SameLength(times)
    requires Sized(PlanOf(root, dir, times[..|times| - 1])) && Fits(PlanOf(root, dir, times[..|times| - 1]), p.fs)
    ensures var plan := PlanOf(root, dir, times[..|times| - 1]);
      var result := Imported(root, Exported(dir, manifest), times, false, parse, p);
      && result.Some? && Overlaid(plan, p.fs, result.value.fs, |plan.items|)
      && result.value.secrets == p.secrets + secrets
      && result.value.report == p.report + AllRestored(plan.items)
  {
    hide Archived, Fits, Overlaid, IsSafeEntryName, IsManifest, Separate, Sized;
    var n := |times| - 1;
    var plan := PlanOf(root, dir, times[..n]);
    PlanIsWellFormed(root, dir, times[..n]);
    PlanIsListed(dir);
    var archive := Exported(dir, manifest);
    assert archive[..n] == ArchiveOf(plan.items) && archive[..n] == archive[..n][..n];
    assert ArchiveOf(plan.items)[..n] == ArchiveOf(plan.items) && plan.times[..n] == plan.times;
    assert AllRestored(plan.items)[..n] == AllRestored(plan.items);
    ImportingOverlays(plan, parse, p, n);
    RestoringOverlays(plan, p.fs, n);
    ManifestName();
  }

  /** `x` is where a visible regular file of the tree arrives. */
  predicate Arrives(root: Path, dir: seq<DirEntry>, x: Path) {
    root <= x && FileAt(dir, x[|root|..]).Some? && VisibleFrom(0, x[|root|..])
  }

  /** In the tree's terms, for every path of the disk: every visible regular file arrives with
      its bytes; a file it overwrites is kept under the backup name; every other file, below the
      root or anywhere else, stays as it was. */
  lemma OverlayOfTree(root: Path, dir: seq<DirEntry>, times: seq<string>, before: Fs, after: Fs, x: Path)
    requires IsTree(dir) && |times| == |Archived([], dir)|
    requires Sized(PlanOf(root, dir, times)) && Overlaid(PlanOf(root, dir, times), before, after, |Archived([], dir)|)
    ensures Arrives(root, dir, x) ==>
      && x in after.files && Some(after.files[x]) == FileAt(dir, x[|root|..])
      && (x in before.files ==> exists now <- times ::
            x != [] && BackupPath(x, now) in after.files && after.files[BackupPath(x, now)] == before.files[x])
    ensures x in before.files && !Arrives(root, dir, x) ==> x in after.files && after.files[x] == before.files[x]
  {
    hide VisibleFrom;
    var plan := PlanOf(root, dir, times);
    if Arrives(root, dir, x) {
      var path := x[|root|..];
      ArchiveExactly(dir, path, FileAt(dir, path).value);
      var i :| 0 <= i < |plan.items| && plan.items[i] == Item(path, FileAt(dir, path).value);
      assert TargetOf(plan, i) == root + path == x;
      if x in before.files {
        assert BackupOf(plan, i) == BackupPath(x, times[i]) && times[i] in times;
      }
    } else if x in before.files {
      forall i | 0 <= i < |plan.items| ensures TargetOf(plan, i) != x {
        var item := plan.items[i];
        assert item in plan.items;
        ArchiveExactly(dir, item.path, item.contents);
        assert (root + item.path)[|root|..] == item.path;
      }
    }
  }

  /** A root with nothing below it, and no file on the way to it, takes any tree; it then holds
      exactly the tree's visible files. */
  lemma EmptyRootGetsACopy(root: Path, dir: seq<DirEntry>, times: seq<string>, before: Fs)
    requires IsTree(dir) && |times| == |Archived([], dir)| && SameLength(times)
    requires !FileOnWay(before, root) && forall x :: Below(root, x) ==> x !in before.files && x !in before.dirs
    ensures WellFormed(PlanOf(root, dir, times)) && Fits(PlanOf(root, dir, times), before)
    ensures forall path ::
      root + path in RestoredAll(PlanOf(root, dir, times), before, |times|).files
      <==> FileAt(dir, path).Some? && VisibleFrom(0, path)
  {
    var plan := PlanOf(root, dir, times);
    hide Separate, Fits, FileOnWay, Below, VisibleFrom;
    PlanIsWellFormed(root, dir, times);
    EmptyRootFits(plan, before);
    RestoringOverlays(plan, before, |times|);
    var after := RestoredAll(plan, before, |times|);
    forall path ensures root + path in after.files <==> FileAt(dir, path).Some? && VisibleFrom(0, path) {
      CopyHolds(root, dir, times, before, after, path);
    }
  }

  lemma CopyHolds(root: Path, dir: seq<DirEntry>, times: seq<string>, before: Fs, after: Fs, path: Path)
    requires IsTree(dir) && |times| == |Archived([], dir)|
    requires Sized(PlanOf(root, dir, times)) && Overlaid(PlanOf(root, dir, times), before, after, |times|)
    requires !FileOnWay(before, root) && forall x :: Below(root, x) ==> x !in before.files && x !in before.dirs
    ensures root + path in after.files <==> FileAt(dir, path).Some? && VisibleFrom(0, path)
  {
    hide Overlaid, FileOnWay, Below, VisibleFrom;
    var plan := PlanOf(root, dir, times);
    OverlayOfTree(root, dir, times, before, after, root + path);
    assert (root + path)[|root|..] == path;
    if root + path in after.files {
      NothingElseBelow(plan, before, after, path);
      var i :| 0 <= i < |plan.items| && plan.items[i].path == path;
      assert plan.items[i] in plan.items;
      ArchiveExactly(dir, path, plan.items[i].contents);
    }
  }

  lemma EmptyRootFits(plan: Plan, before: Fs)
    requires Sized(plan) && !FileOnWay(before, plan.root)
    requires forall x :: Below(plan.root, x) ==> x !in before.files && x !in before.dirs
    ensures Fits(plan, before)
    ensures forall i :: 0 <= i < |plan.items| ==> TargetOf(plan, i) !in before.files
  {
    forall i | 0 <= i < |plan.items|
      ensures !FileOnWay(before, ParentOf(plan, i)) && TargetOf(plan, i) !in before.dirs
          && TargetOf(plan, i) !in before.files
    {
      var target, parent := TargetOf(plan, i), ParentOf(plan, i);
      assert Below(plan.root, target);
      forall k | 0 <= k <= |parent| ensures parent[..k] !in before.files {
        if k <= |plan.root| {
          assert parent[..k] == plan.root[..k];
        } else {
          assert parent[..k][..|plan.root|] == plan.root;
          assert Below(plan.root, parent[..k]);
        }
      }
    }
  }

  /** When nothing was below the root, what is there afterwards is a file of the plan. */
  lemma NothingElseBelow(plan: Plan, before: Fs, after: Fs, path: Path)
    requires Sized(plan) && Overlaid(plan, before, after, |plan.items|) && plan.root + path in after.files
    requires !FileOnWay(before, plan.root)
    requires forall x :: Below(plan.root, x) ==> x !in before.files && x !in before.dirs
    ensures exists i :: 0 <= i < |plan.items| && plan.items[i].path == path
  {
    var x := plan.root + path;
    EmptyRootFits(plan, before);
    assert plan.root[..|plan.root|] == plan.root && plan.root !in before.files;
    assert path == [] ==> x == plan.root;
    assert path != [] ==> Below(plan.root, x);
    var i :| 0 <= i < |plan.items| && TargetOf(plan, i) == x;
    assert plan.items[i].path == x[|plan.root|..] == path;
  }
}
