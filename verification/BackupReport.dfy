/** What an import reports: one item for each entry but a manifest, in the archive's order, and each
    tells exactly whether its entry was restored. */
module BackupReport {
  import opened Text
  import opened BackupPaths
  import opened BackupRestore

  /** A file can be put at `target`: it is no root, its name asks for no directory, no file is where
      a directory must be, no directory where it must go itself, and none, if a file is there, where
      the copy of that must go. */
  predicate CanStand(fs: Fs, target: Path, namesDirectory: bool, now: string) {
    && target != [] && !namesDirectory
    && (forall k :: 0 <= k < |target| ==> target[..k] !in fs.files)
    && target !in fs.dirs
    && (target in fs.files ==> target[..|target| - 1] + [target[|target| - 1] + ".bak-" + now] !in fs.dirs)
  }

  lemma RestoresExactly(fs: Fs, target: Path, namesDirectory: bool, now: string)
    ensures Restores(fs, target, namesDirectory, now) <==> CanStand(fs, target, namesDirectory, now)
  {
    if target != [] {
      var parent := target[..|target| - 1];
      assert forall k :: 0 <= k <= |parent| ==> parent[..k] == target[..k];
      assert forall x <- Prefixes(parent) :: |x| < |target|;
      assert FileOnWay(fs, parent) <==> exists k :: 0 <= k < |target| && target[..k] in fs.files;
    }
  }

  /** What restoring one file leaves: on success its bytes at its path, the bytes it replaces at the
      stamped name, and the directories on its way; on failure every file as it was, and no new
      directory if a file is on the way. */
  lemma RestoredExactly(fs: Fs, target: Path, namesDirectory: bool, contents: Bytes, now: string)
    ensures var next := Restored(fs, target, namesDirectory, contents, now);
      if CanStand(fs, target, namesDirectory, now) then
        var backup := target[..|target| - 1] + [target[|target| - 1] + ".bak-" + now];
        && next.dirs == fs.dirs + (set k | 0 <= k < |target| :: target[..k])
        && next.files == if target in fs.files then fs.files[backup := fs.files[target]][target := contents]
                         else fs.files[target := contents]
      else
        && next.files == fs.files
        && next.dirs == if target == [] || exists k :: 0 <= k < |target| && target[..k] in fs.files then fs.dirs
                        else fs.dirs + (set k | 0 <= k < |target| :: target[..k])
  {
    RestoresExactly(fs, target, namesDirectory, now);
    if target != [] {
      var parent := target[..|target| - 1];
      assert forall k :: 0 <= k <= |parent| ==> parent[..k] == target[..k];
      assert Prefixes(parent) == set k | 0 <= k < |target| :: target[..k];
    }
  }

  // ---- the report ------------------------------------------------------------------

  /** Every entry gets an item but a manifest. */
  predicate GetsItem(e: Entry) {
    !IsSafeEntryName(e.name) || Components(e.name) != [Normal("__singlecli_secrets__.toml")]
  }

  /** A plain name reads as itself; with a dot and a slash in front it leads to the same place, but
      is never taken for a manifest. */
  lemma DottedNameIsFile(name: string, root: Path, contents: Bytes)
    requires '/' !in name && name != "" && name != "." && name != ".."
    ensures Components(name) == [Normal(name)] && Target(root, "./" + name) == Target(root, name)
    ensures IsSafeEntryName("./" + name) && GetsItem(Entry("./" + name, contents))
  {
    PartsOfDotted(name);
    assert [".", name][1..] == [name] && [name][1..] == [];
    assert Body([name]) == [Normal(name)] && Body([".", name]) == [Normal(name)];
    assert Components("./" + name) == [CurDir, Normal(name)];
    assert [CurDir, Normal(name)][1..] == [Normal(name)];
  }

  lemma PartsOfDotted(name: string)
    requires '/' !in name
    ensures Split(name, '/') == [name] && Split("./" + name, '/') == [".", name]
  {
    assert Join([name], '/') == name;
    SplitOfJoined([name], '/');
    assert [".", name][1..] == [name];
    assert Join([".", name], '/') == "." + ['/'] + name == "./" + name;
    SplitOfJoined([".", name], '/');
  }

  function Items(archive: seq<Entry>): nat {
    if archive == [] then 0
    else Items(archive[..|archive| - 1]) + if GetsItem(archive[|archive| - 1]) then 1 else 0
  }

  /** An unsafe name never succeeds; a dry run takes any other to succeed. */
  predicate Succeeds(root: Path, fs: Fs, e: Entry, now: string, dryRun: bool) {
    IsSafeEntryName(e.name)
    && (dryRun || CanStand(fs, Target(root, e.name), NamesDirectory(e.name), now))
  }

  lemma StepReports(root: Path, e: Entry, now: string, dryRun: bool, parse: ManifestParser, p: Progress)
    requires Step(root, e, now, dryRun, parse, p).Some?
    ensures Step(root, e, now, dryRun, parse, p).value.report
      == p.report + if GetsItem(e) then [ReportItem(e.name, Succeeds(root, p.fs, e, now, dryRun))] else []
  {
    hide IsSafeEntryName, Components, CanStand, Restores, Restored;
    RestoresExactly(p.fs, Target(root, e.name), NamesDirectory(e.name), now);
  }

  /** An import stops at a manifest that cannot be read, and nowhere else; one that can adds its
      secrets, unless it is a dry run; nothing else touches the secrets, and a dry run no file. */
  lemma StepKeepsSecrets(root: Path, e: Entry, now: string, dryRun: bool, parse: ManifestParser, p: Progress)
    ensures var next := Step(root, e, now, dryRun, parse, p);
      && (next.None? <==> !GetsItem(e) && parse(e.contents).None?)
      && (next.Some? ==>
            next.value.secrets == if GetsItem(e) || dryRun then p.secrets else p.secrets + parse(e.contents).value)
      && (next.Some? && (dryRun || !GetsItem(e) || !IsSafeEntryName(e.name)) ==> next.value.fs == p.fs)
      && (next.Some? && !dryRun && GetsItem(e) && IsSafeEntryName(e.name) ==>
            next.value.fs == Restored(p.fs, Target(root, e.name), NamesDirectory(e.name), e.contents, now))
  {
    hide IsSafeEntryName, Components, Restores, Restored;
  }

  /** In every import, of any archive: the item of entry `i` names it, and says that it succeeded
      exactly if it could be put where it leads on the disk as it was when its turn came. */
  lemma {:induction false} ReportExactly(root: Path, archive: seq<Entry>, times: seq<string>, dryRun: bool,
                                         parse: ManifestParser, p: Progress, i: nat)
    requires |times| == |archive| && i < |archive| && GetsItem(archive[i])
    requires Imported(root, archive, times, dryRun, parse, p).Some?
    ensures Imported(root, archive[..i], times[..i], dryRun, parse, p).Some?
    ensures var before := Imported(root, archive[..i], times[..i], dryRun, parse, p).value;
      var report := Imported(root, archive, times, dryRun, parse, p).value.report;
      && |report| == |p.report| + Items(archive) && Items(archive[..i]) < Items(archive)
      && report[|p.report| + Items(archive[..i])]
           == ReportItem(archive[i].name, Succeeds(root, before.fs, archive[i], times[i], dryRun))
  {
    hide GetsItem, Step, Succeeds;
    var n := |archive| - 1;
    var before := Imported(root, archive[..n], times[..n], dryRun, parse, p).value;
    StepReports(root, archive[n], times[n], dryRun, parse, before);
    ReportLength(root, archive[..n], times[..n], dryRun, parse, p);
    if i < n {
      ReportExactly(root, archive[..n], times[..n], dryRun, parse, p, i);
      assert archive[..n][..i] == archive[..i] && times[..n][..i] == times[..i];
    }
  }

  lemma {:induction false} ReportLength(root: Path, archive: seq<Entry>, times: seq<string>, dryRun: bool,
                                        parse: ManifestParser, p: Progress)
    requires |times| == |archive| && Imported(root, archive, times, dryRun, parse, p).Some?
    ensures |Imported(root, archive, times, dryRun, parse, p).value.report| == |p.report| + Items(archive)
  {
    hide GetsItem, Step, Succeeds;
    if archive != [] {
      var n := |archive| - 1;
      ReportLength(root, archive[..n], times[..n], dryRun, parse, p);
      StepReports(root, archive[n], times[n], dryRun, parse,
                  Imported(root, archive[..n], times[..n], dryRun, parse, p).value);
    }
  }

  /** Where an import ends: past its last entry, or in front of the first manifest that cannot be
      read, with everything before it done. */
  lemma {:induction false} ReachedExactly(root: Path, archive: seq<Entry>, times: seq<string>, dryRun: bool,
                                          parse: ManifestParser, p: Progress) returns (i: nat)
    requires |times| == |archive|
    ensures i <= |archive| && Imported(root, archive[..i], times[..i], dryRun, parse, p).Some?
    ensures Reached(root, archive, times, dryRun, parse, p)
      == Imported(root, archive[..i], times[..i], dryRun, parse, p).value
    ensures if i == |archive| then Imported(root, archive, times, dryRun, parse, p).Some?
      else !GetsItem(archive[i]) && parse(archive[i].contents).None?
           && Imported(root, archive, times, dryRun, parse, p).None?
  {
    hide GetsItem, Step;
    assert archive[..|archive|] == archive && times[..|times|] == times;
    i := 0;
    if archive != [] {
      var n := |archive| - 1;
      i := ReachedExactly(root, archive[..n], times[..n], dryRun, parse, p);
      assert archive[..n][..i] == archive[..i] && times[..n][..i] == times[..i];
      if i == n {
        var q := Imported(root, archive[..n], times[..n], dryRun, parse, p).value;
        StepKeepsSecrets(root, archive[n], times[n], dryRun, parse, q);
        if Step(root, archive[n], times[n], dryRun, parse, q).Some? {
          i := |archive|;
        }
      }
    }
  }
}
