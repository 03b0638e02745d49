/** Restoring an archive onto a disk, one entry at a time. An archive may come from anywhere. */
module BackupRestore {
  import opened Text
  import opened BackupPaths

  datatype Entry = Entry(name: string, contents: Bytes)

  datatype ReportItem = ReportItem(path: string, success: bool)

  datatype Fs = Fs(files: map<Path, Bytes>, dirs: set<Path>)

  datatype Error = BadManifest

  /** The disk, the keychain and the report so far. */
  datatype Progress = Progress(fs: Fs, secrets: map<string, string>, report: seq<ReportItem>)

  /** How a secrets manifest is read. */
  type ManifestParser = Bytes -> Option<map<string, string>>

  const MANIFEST: string := "__singlecli_secrets__.toml"

  predicate IsManifest(name: string) {
    Components(name) == [Normal(MANIFEST)]
  }

  /** `{path}.bak-{timestamp}` */
  function BackupPath(path: Path, now: string): Path
    requires path != []
  {
    path[..|path| - 1] + [path[|path| - 1] + ".bak-" + now]
  }

  function Prefixes(path: Path): set<Path> {
    set k | 0 <= k <= |path| :: path[..k]
  }

  predicate FileOnWay(fs: Fs, path: Path) {
    exists k :: 0 <= k <= |path| && path[..k] in fs.files
  }

  /** `create_dir_all`: fails, changing nothing, when a file is on the way. */
  function WithDirs(fs: Fs, path: Path): Fs {
    if FileOnWay(fs, path) then fs else fs.(dirs := fs.dirs + Prefixes(path))
  }

  /** Can this file be written? What is on the way and at the target decides. */
  predicate Restores(fs: Fs, target: Path, namesDirectory: bool, now: string) {
    && target != [] && !namesDirectory
    && !FileOnWay(fs, target[..|target| - 1])
    && target !in fs.dirs && target !in Prefixes(target[..|target| - 1])
    && (target in fs.files ==> BackupPath(target, now) !in fs.dirs + Prefixes(target[..|target| - 1]))
  }

  function WithFile(fs: Fs, target: Path, contents: Bytes, now: string): Fs
    requires target != []
  {
    var kept := if target in fs.files then fs.files[BackupPath(target, now) := fs.files[target]] else fs.files;
    fs.(files := kept[target := contents])
  }

  /** `restore_one_file`: all or nothing, but for directories on the way. */
  function Restored(fs: Fs, target: Path, namesDirectory: bool, contents: Bytes, now: string): Fs {
    if target == [] then fs
    else
      var prepared := WithDirs(fs, target[..|target| - 1]);
      if Restores(fs, target, namesDirectory, now) then WithFile(prepared, target, contents, now) else prepared
  }

  /** One entry of an archive; nothing when a manifest does not parse. */
  function Step(root: Path, e: Entry, now: string, dryRun: bool, parse: ManifestParser, p: Progress): Option<Progress> {
    if !IsSafeEntryName(e.name) then Some(p.(report := p.report + [ReportItem(e.name, false)]))
    else if IsManifest(e.name) then
      match parse(e.contents)
      case None => None
      case Some(manifest) => Some(if dryRun then p else p.(secrets := p.secrets + manifest))
    else if dryRun then Some(p.(report := p.report + [ReportItem(e.name, true)]))
    else
      var target := Target(root, e.name);
      var ok := Restores(p.fs, target, NamesDirectory(e.name), now);
      Some(p.(fs := Restored(p.fs, target, NamesDirectory(e.name), e.contents, now),
              report := p.report + [ReportItem(e.name, ok)]))
  }

  /** The whole archive; `times[i]` is the clock when entry `i` is restored. */
  function Imported(root: Path, archive: seq<Entry>, times: seq<string>, dryRun: bool, parse: ManifestParser,
                    p: Progress): Option<Progress>
    requires |times| == |archive|
  {
    if archive == [] then Some(p)
    else
      var n := |archive| - 1;
      match Imported(root, archive[..n], times[..n], dryRun, parse, p)
      case None => None
      case Some(q) => Step(root, archive[n], times[n], dryRun, parse, q)
  }

  /** Where an import stands when it ends: done, or in front of a manifest that does not parse. */
  function Reached(root: Path, archive: seq<Entry>, times: seq<string>, dryRun: bool, parse: ManifestParser,
                   p: Progress): Progress
    requires |times| == |archive|
  {
    if archive == [] then p
    else
      var n := |archive| - 1;
      match Imported(root, archive[..n], times[..n], dryRun, parse, p)
      case None => Reached(root, archive[..n], times[..n], dryRun, parse, p)
      case Some(q) =>
        match Step(root, archive[n], times[n], dryRun, parse, q)
        case None => q
        case Some(next) => next
  }

  // ---- the disk --------------------------------------------------------------------

  class Disk {
    var files: map<Path, Bytes>
    var dirs: set<Path>
    var secrets: map<string, string>

    function State(): Fs
      reads this
    {
      Fs(files, dirs)
    }

    method CreateDirAll(path: Path) returns (ok: bool)
      modifies this`dirs
      ensures State() == WithDirs(old(State()), path)
      ensures ok == !FileOnWay(old(State()), path)
    {
      ok := !FileOnWay(State(), path);
      if ok {
        dirs := dirs + Prefixes(path);
      }
    }

    /** Copies a file that is about to be overwritten; a directory cannot be copied. */
    method BackupFileBeforeWrite(path: Path, now: string) returns (ok: bool)
      requires path != []
      modifies this`files
      ensures ok == (path !in dirs && (path in old(files) ==> BackupPath(path, now) !in dirs))
      ensures files == if ok && path in old(files) then old(files)[BackupPath(path, now) := old(files)[path]]
          else old(files)
    {
      if path in dirs {
        return false;
      }
      if path !in files {
        return true;
      }
      var backup := BackupPath(path, now);
      ok := backup !in dirs;
      if ok {
        files := files[backup := files[path]];
      }
    }

    method RestoreOneFile(target: Path, namesDirectory: bool, contents: Bytes, now: string) returns (ok: bool)
      modifies this`files, this`dirs
      ensures State() == Restored(old(State()), target, namesDirectory, contents, now)
      ensures ok == Restores(old(State()), target, namesDirectory, now)
    {
      if target == [] {
        return false;
      }
      ok := CreateDirAll(target[..|target| - 1]);
      if !ok {
        return;
      }
      if namesDirectory {
        return false;          // neither copied as a file nor written as one
      }
      ok := BackupFileBeforeWrite(target, now);
      if !ok {
        return;
      }
      files := files[target := contents];
    }

    method Import(root: Path, archive: seq<Entry>, times: seq<string>, dryRun: bool, parse: ManifestParser)
      returns (r: Result<seq<ReportItem>, Error>)
      requires |times| == |archive|
      modifies this
      ensures var start := Progress(old(State()), old(secrets), []);
        var end := Reached(root, archive, times, dryRun, parse, start);
        && State() == end.fs && secrets == end.secrets
        && r == (if Imported(root, archive, times, dryRun, parse, start).Some? then Ok(end.report)
             else Err(BadManifest))
      ensures SameOutside(root, old(State()), State())
    {
      var report := [];
      ghost var start := Progress(State(), secrets, []);
      ImportStaysBelowRoot(root, archive, times, dryRun, parse, start);
      for i := 0 to |archive|
        invariant Imported(root, archive[..i], times[..i], dryRun, parse, start)
            == Some(Progress(State(), secrets, report))
      {
        var e, now := archive[i], times[i];
        assert archive[..i + 1][..i] == archive[..i] && times[..i + 1][..i] == times[..i];
        if !IsSafeEntryName(e.name) {
          report := report + [ReportItem(e.name, false)];
          continue;
        }
        if IsManifest(e.name) {
          match parse(e.contents) {
            case None =>
              StopsHere(root, archive, times, dryRun, parse, start, i + 1);
              return Err(BadManifest);
            case Some(manifest) =>
              if !dryRun {
                secrets := secrets + manifest;
              }
          }
          continue;
        }
        var target := Target(root, e.name);
        if dryRun {
          report := report + [ReportItem(e.name, true)];
          continue;
        }
        var ok := RestoreOneFile(target, NamesDirectory(e.name), e.contents, now);
        report := report + [ReportItem(e.name, ok)];
      }
      assert archive[..|archive|] == archive && times[..|archive|] == times;
      DoneReached(root, archive, times, dryRun, parse, start);
      r := Ok(report);
    }
  }

  lemma DoneReached(root: Path, archive: seq<Entry>, times: seq<string>, dryRun: bool, parse: ManifestParser,
                    p: Progress)
    requires |times| == |archive| && Imported(root, archive, times, dryRun, parse, p).Some?
    ensures Imported(root, archive, times, dryRun, parse, p) == Some(Reached(root, archive, times, dryRun, parse, p))
  {
    hide Step;
  }

  /** After a manifest that does not parse, nothing more happens. */
  lemma {:induction false} StopsHere(root: Path, archive: seq<Entry>, times: seq<string>, dryRun: bool,
                                     parse: ManifestParser, p: Progress, k: nat)
    requires |times| == |archive| && k <= |archive|
    requires Imported(root, archive[..k], times[..k], dryRun, parse, p).None?
    ensures Imported(root, archive, times, dryRun, parse, p).None?
    ensures Reached(root, archive, times, dryRun, parse, p) == Reached(root, archive[..k], times[..k], dryRun, parse, p)
    decreases |archive|
  {
    hide Step;
    var n := |archive| - 1;
    if k == |archive| {
      assert archive[..k] == archive && times[..k] == times;
    } else {
      assert archive[..n][..k] == archive[..k] && times[..n][..k] == times[..k];
      StopsHere(root, archive[..n], times[..n], dryRun, parse, p, k);
    }
  }

  // ---- nothing outside the root ----------------------------------------------------

  /** `x` is strictly below `root`. */
  predicate Below(root: Path, x: Path) {
    root <= x && x != root
  }

  /** No file outside the root differs, and no directory but on the way to it. */
  ghost predicate SameOutside(root: Path, a: Fs, b: Fs) {
    && (forall x :: !Below(root, x) ==> (x in a.files <==> x in b.files))
    && (forall x :: !Below(root, x) && x in a.files && x in b.files ==> a.files[x] == b.files[x])
    && (forall x :: x in a.dirs ==> x in b.dirs)
    && (forall x :: x in b.dirs && x !in a.dirs ==> x <= root || Below(root, x))
  }

  lemma RestoredBelow(root: Path, fs: Fs, rel: Path, namesDirectory: bool, contents: Bytes, now: string)
    requires rel != [] || namesDirectory
    ensures SameOutside(root, fs, Restored(fs, root + rel, namesDirectory, contents, now))
  {
    var target := root + rel;
    var next := Restored(fs, target, namesDirectory, contents, now);
    if target != [] {
      var parent := target[..|target| - 1];
      forall x | x in Prefixes(parent) ensures x <= root || Below(root, x) {
        if |x| > |root| {
          assert x[..|root|] == target[..|root|] == root;
        } else {
          assert x == root[..|x|];
        }
      }
      if rel != [] {
        assert target[..|root|] == root;
        var backup := BackupPath(target, now);
        assert backup[..|root|] == target[..|root|];
        assert root <= backup && |backup| == |target|;
      }
    }
  }

  /** A safe name that stands for the root itself names a directory. */
  lemma RootNameIsDirectory(name: string)
    requires IsSafeEntryName(name) && Relative(name) == []
    ensures NamesDirectory(name)
  {
    var parts := Split(name, '/');
    var last := parts[|parts| - 1];
    if !NamesDirectory(name) {
      SafeNamesStayInside([], name);
      assert last in parts && last != "..";
      LastPartIsNormal(parts);
      assert Normal(last) in Components(name);
      NormalsHas(Components(name), last);
    }
  }

  lemma {:induction false} LastPartIsNormal(parts: seq<string>)
    requires parts != []
    requires var last := parts[|parts| - 1]; last != "" && last != "." && last != ".."
    ensures Normal(parts[|parts| - 1]) in Body(parts)
  {
    if |parts| > 1 {
      LastPartIsNormal(parts[1..]);
    }
  }

  lemma {:induction false} NormalsHas(components: seq<Component>, name: string)
    requires Normal(name) in components
    ensures name in Normals(components)
  {
    if components[0] != Normal(name) {
      NormalsHas(components[1..], name);
    }
  }

  lemma SameAsItself(root: Path, fs: Fs)
    ensures SameOutside(root, fs, fs)
  {
  }

  lemma SameThrough(root: Path, a: Fs, b: Fs, c: Fs)
    requires SameOutside(root, a, b) && SameOutside(root, b, c)
    ensures SameOutside(root, a, c)
  {
    hide Below;
  }

  /** Whatever the archive, hostile ones and unreadable manifests included: importing it changes
      no file that is not strictly below the root, and makes no directory but below the root or
      on the way to it. A dry run changes nothing. */
  lemma {:induction false} ImportStaysBelowRoot(root: Path, archive: seq<Entry>, times: seq<string>, dryRun: bool,
                                                parse: ManifestParser, p: Progress)
    requires |times| == |archive|
    ensures var end := Reached(root, archive, times, dryRun, parse, p);
      SameOutside(root, p.fs, end.fs) && (dryRun ==> end.fs == p.fs && end.secrets == p.secrets)
    decreases |archive|
  {
    hide Step, SameOutside;
    SameAsItself(root, p.fs);
    if archive != [] {
      var n := |archive| - 1;
      ImportStaysBelowRoot(root, archive[..n], times[..n], dryRun, parse, p);
      if Imported(root, archive[..n], times[..n], dryRun, parse, p).Some? {
        DoneReached(root, archive[..n], times[..n], dryRun, parse, p);
        var q := Reached(root, archive[..n], times[..n], dryRun, parse, p);
        StepStaysBelowRoot(root, archive[n], times[n], dryRun, parse, q);
        var next := Step(root, archive[n], times[n], dryRun, parse, q);
        if next.Some? {
          SameThrough(root, p.fs, q.fs, next.value.fs);
        }
      }
    }
  }

  lemma StepStaysBelowRoot(root: Path, e: Entry, now: string, dryRun: bool, parse: ManifestParser, q: Progress)
    ensures var next := Step(root, e, now, dryRun, parse, q);
      next.Some? ==>
        SameOutside(root, q.fs, next.value.fs) && (dryRun ==> next.value.fs == q.fs && next.value.secrets == q.secrets)
  {
    hide IsSafeEntryName, IsManifest, Restored, NamesDirectory, SameOutside;
    SameAsItself(root, q.fs);
    if IsSafeEntryName(e.name) {
      SafeNamesStayInside(root, e.name);
      if Relative(e.name) == [] {
        RootNameIsDirectory(e.name);
      }
      RestoredBelow(root, q.fs, Relative(e.name), NamesDirectory(e.name), e.contents, now);
    }
  }
}
