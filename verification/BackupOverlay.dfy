/** Importing well-behaved files is an overlay: each file arrives, each file overwritten is kept
    under a backup name, and nothing else changes. */
module BackupOverlay {
  import opened Text
  import opened BackupPaths
  import opened BackupRestore

  datatype Item = Item(path: Path, contents: Bytes)

  /** Files to restore, each at its clock reading. */
  datatype Plan = Plan(root: Path, items: seq<Item>, times: seq<string>)

  function TargetOf(plan: Plan, i: nat): Path
    requires i < |plan.items|
  {
    plan.root + plan.items[i].path
  }

  function ParentOf(plan: Plan, i: nat): Path
    requires i < |plan.items| && plan.items[i].path != []
  {
    var target := TargetOf(plan, i);
    target[..|target| - 1]
  }

  function BackupOf(plan: Plan, i: nat): Path
    requires i < |plan.items| && plan.items[i].path != [] && |plan.times| == |plan.items|
  {
    BackupPath(TargetOf(plan, i), plan.times[i])
  }

  ghost predicate Sized(plan: Plan) {
    && |plan.times| == |plan.items|
    && (forall i :: 0 <= i < |plan.items| ==> plan.items[i].path != [])
  }

  /** No path equal to another or inside it, and time stamps of one length. */
  ghost predicate Separate(plan: Plan) {
    && (forall i, j :: 0 <= i < |plan.items| && 0 <= j < |plan.items| && i != j ==>
          !(TargetOf(plan, i) <= TargetOf(plan, j)))
    && (forall i, j :: 0 <= i < |plan.times| && 0 <= j < |plan.times| ==> |plan.times[i]| == |plan.times[j]|)
  }

  ghost predicate WellFormed(plan: Plan) {
    Sized(plan) && Separate(plan)
  }

  /** No file of the disk is in the way of a directory, no directory in the place of a file, and
      the backup names are fresh, on the disk and in the plan. */
  ghost predicate Fits(plan: Plan, fs: Fs)
    requires Sized(plan)
  {
    && (forall i :: 0 <= i < |plan.items| ==> !FileOnWay(fs, ParentOf(plan, i)) && TargetOf(plan, i) !in fs.dirs)
    && (forall i :: 0 <= i < |plan.items| && TargetOf(plan, i) in fs.files ==>
          BackupOf(plan, i) !in fs.files && BackupOf(plan, i) !in fs.dirs)
    && (forall i, j :: 0 <= i < |plan.items| && 0 <= j < |plan.items| && TargetOf(plan, i) in fs.files ==>
          !(BackupOf(plan, i) <= TargetOf(plan, j)))
  }

  /** `x` is a file of the plan's first `n`. */
  ghost predicate IsTarget(plan: Plan, n: nat, x: Path)
    requires n <= |plan.items|
  {
    exists i :: 0 <= i < n && TargetOf(plan, i) == x
  }

  /** `x` is where the old contents of one of the plan's first `n` files went. */
  ghost predicate IsBackup(plan: Plan, before: Fs, n: nat, x: Path)
    requires Sized(plan) && n <= |plan.items|
  {
    exists i :: 0 <= i < n && TargetOf(plan, i) in before.files && BackupOf(plan, i) == x
  }

  ghost predicate IsOnWay(plan: Plan, n: nat, x: Path)
    requires Sized(plan) && n <= |plan.items|
  {
    exists i :: 0 <= i < n && x in Prefixes(ParentOf(plan, i))
  }

  /** Each of the first `n` files is there. */
  ghost predicate Arrived(plan: Plan, after: Fs, n: nat)
    requires Sized(plan) && n <= |plan.items|
  {
    forall i :: 0 <= i < n ==>
        TargetOf(plan, i) in after.files && after.files[TargetOf(plan, i)] == plan.items[i].contents
  }

  /** The old bytes of each overwritten file are at its backup name. */
  ghost predicate OldKept(plan: Plan, before: Fs, after: Fs, n: nat)
    requires Sized(plan) && n <= |plan.items|
  {
    forall i :: 0 <= i < n && TargetOf(plan, i) in before.files ==>
      BackupOf(plan, i) in after.files && after.files[BackupOf(plan, i)] == before.files[TargetOf(plan, i)]
  }

  /** There are no other new files, and every other file is as it was. */
  ghost predicate OthersSame(plan: Plan, before: Fs, after: Fs, n: nat)
    requires Sized(plan) && n <= |plan.items|
  {
    && (forall x :: x in after.files <==> x in before.files || IsTarget(plan, n, x) || IsBackup(plan, before, n, x))
    && (forall x :: x in before.files && x in after.files && !IsTarget(plan, n, x) ==>
         after.files[x] == before.files[x])
  }

  /** The only new directories are those on the way. */
  ghost predicate DirsOnWay(plan: Plan, before: Fs, after: Fs, n: nat)
    requires Sized(plan) && n <= |plan.items|
  {
    forall x :: x in after.dirs <==> x in before.dirs || IsOnWay(plan, n, x)
  }

  /** The first `n` files of the plan laid over the disk. */
  ghost predicate Overlaid(plan: Plan, before: Fs, after: Fs, n: nat)
    requires Sized(plan) && n <= |plan.items|
  {
    && Arrived(plan, after, n) && OldKept(plan, before, after, n)
    && OthersSame(plan, before, after, n) && DirsOnWay(plan, before, after, n)
  }

  lemma BackupsDiffer(plan: Plan, i: nat, j: nat)
    requires WellFormed(plan) && i < |plan.items| && j < |plan.items| && i != j
    ensures BackupOf(plan, i) != BackupOf(plan, j)
  {
    hide BackupPath;
    if BackupOf(plan, i) == BackupOf(plan, j) {
      SameBackupSamePath(TargetOf(plan, i), TargetOf(plan, j), plan.times[i], plan.times[j]);
    }
  }

  /** Time stamps being equally long, a backup name tells whose it is. */
  lemma SameBackupSamePath(p: Path, q: Path, s: string, t: string)
    requires p != [] && q != [] && |s| == |t| && BackupPath(p, s) == BackupPath(q, t)
    ensures p == q
  {
    var n := |p| - 1;
    assert BackupPath(p, s)[..n] == p[..n] && BackupPath(q, t)[..n] == q[..n];
    var a, b := p[n] + ".bak-" + s, q[n] + ".bak-" + t;
    assert BackupPath(p, s)[n] == a && BackupPath(q, t)[n] == b;
    assert a[..|p[n]|] == p[n] && b[..|q[n]|] == q[n] && |p[n]| == |q[n]|;
    assert p == p[..n] + [p[n]] && q == q[..n] + [q[n]];
  }

  lemma OnWayIsPrefix(plan: Plan, i: nat, x: Path)
    requires WellFormed(plan) && i < |plan.items| && x in Prefixes(ParentOf(plan, i))
    ensures x <= TargetOf(plan, i) && x != TargetOf(plan, i)
  {
    var target := TargetOf(plan, i);
    assert x == target[..|x|];
  }

  lemma StartIsFree(plan: Plan, before: Fs, n: nat, x: Path)
    requires WellFormed(plan) && Fits(plan, before) && n < |plan.items|
    requires x <= TargetOf(plan, n) && x != TargetOf(plan, n)
    ensures x !in before.files
  {
    hide Separate, BackupPath;
    var target, parent := TargetOf(plan, n), ParentOf(plan, n);
    assert !FileOnWay(before, parent);
    assert x == target[..|x|] == parent[..|x|];
  }

  /** Nothing laid down so far stands on the way to the next file, or in its place. */
  lemma WayIsFree(plan: Plan, before: Fs, n: nat, x: Path)
    requires WellFormed(plan) && Fits(plan, before) && n < |plan.items| && x <= TargetOf(plan, n)
    ensures !IsTarget(plan, n, x) && !IsBackup(plan, before, n, x)
  {
    hide BackupPath, BackupOf, ParentOf, TargetOf, FileOnWay;
  }

  /** What stands at the next file's place is what stood there at the start, and nothing is in
      its way. */
  lemma NextFits(plan: Plan, before: Fs, fs: Fs, n: nat)
    requires WellFormed(plan) && Fits(plan, before) && n < |plan.items| && Overlaid(plan, before, fs, n)
    ensures Restores(fs, TargetOf(plan, n), false, plan.times[n])
    ensures TargetOf(plan, n) in fs.files <==> TargetOf(plan, n) in before.files
    ensures TargetOf(plan, n) in fs.files ==> fs.files[TargetOf(plan, n)] == before.files[TargetOf(plan, n)]
  {
    hide BackupPath, Separate, Prefixes, IsTarget, IsBackup, Arrived, OldKept;
    var target, parent := TargetOf(plan, n), ParentOf(plan, n);
    WayIsFree(plan, before, n, target);
    forall k | 0 <= k <= |parent| ensures parent[..k] !in fs.files {
      assert parent[..k] == target[..k];
      WayIsFree(plan, before, n, target[..k]);
      StartIsFree(plan, before, n, target[..k]);
    }
    NotOnWay(plan, before, n, n);
    forall i | 0 <= i < n
      ensures target !in Prefixes(ParentOf(plan, i))
      ensures target in before.files ==> BackupOf(plan, n) !in Prefixes(ParentOf(plan, i))
    {
      NotOnWay(plan, before, n, i);
    }
  }

  lemma NotOnWay(plan: Plan, before: Fs, n: nat, i: nat)
    requires WellFormed(plan) && Fits(plan, before) && n < |plan.items| && i < |plan.items|
    ensures TargetOf(plan, n) !in Prefixes(ParentOf(plan, i))
    ensures TargetOf(plan, n) in before.files ==> BackupOf(plan, n) !in Prefixes(ParentOf(plan, i))
  {
    hide BackupPath, FileOnWay, Prefixes;
    if TargetOf(plan, n) in Prefixes(ParentOf(plan, i)) {
      OnWayIsPrefix(plan, i, TargetOf(plan, n));
    }
    if TargetOf(plan, n) in before.files && BackupOf(plan, n) in Prefixes(ParentOf(plan, i)) {
      OnWayIsPrefix(plan, i, BackupOf(plan, n));
    }
  }

  /** `next` is `fs` with file `n` of the plan restored. */
  ghost predicate IsNext(plan: Plan, before: Fs, fs: Fs, next: Fs, n: nat)
    requires Sized(plan) && n < |plan.items|
  {
    var target, backup := TargetOf(plan, n), BackupOf(plan, n);
    && (target in fs.files <==> target in before.files)
    && (target in before.files ==> backup !in before.files && backup != target)
    && next.files == (if target in before.files then fs.files[backup := before.files[target]] else fs.files)
         [target := plan.items[n].contents]
    && next.dirs == fs.dirs + Prefixes(ParentOf(plan, n))
    && (forall i :: 0 <= i < n ==> TargetOf(plan, i) != target && BackupOf(plan, i) != backup)
    && (forall i :: 0 <= i < n && target in before.files ==> TargetOf(plan, i) != backup)
    && (forall i :: 0 <= i < n && TargetOf(plan, i) in before.files ==> BackupOf(plan, i) != target)
  }

  lemma RestoredIsNext(plan: Plan, before: Fs, fs: Fs, n: nat)
    requires WellFormed(plan) && Fits(plan, before) && n < |plan.items| && Overlaid(plan, before, fs, n)
    ensures IsNext(plan, before, fs, Restored(fs, TargetOf(plan, n), false, plan.items[n].contents, plan.times[n]), n)
  {
    hide BackupPath, Overlaid, FileOnWay;
    NextFits(plan, before, fs, n);
    forall i | 0 <= i < n ensures BackupOf(plan, i) != BackupOf(plan, n) {
      BackupsDiffer(plan, i, n);
    }
  }

  lemma NextArrived(plan: Plan, before: Fs, fs: Fs, next: Fs, n: nat)
    requires Sized(plan) && n < |plan.items| && IsNext(plan, before, fs, next, n)
    requires Arrived(plan, fs, n) && OldKept(plan, before, fs, n)
    ensures Arrived(plan, next, n + 1) && OldKept(plan, before, next, n + 1)
  {
    hide BackupPath, TargetOf, BackupOf, Prefixes;
  }

  lemma NextOthersSame(plan: Plan, before: Fs, fs: Fs, next: Fs, n: nat)
    requires Sized(plan) && n < |plan.items| && IsNext(plan, before, fs, next, n)
    requires OthersSame(plan, before, fs, n) && DirsOnWay(plan, before, fs, n)
    ensures OthersSame(plan, before, next, n + 1) && DirsOnWay(plan, before, next, n + 1)
  {
    hide BackupPath, TargetOf, BackupOf, ParentOf, Prefixes;
    var target, backup := TargetOf(plan, n), BackupOf(plan, n);
    assert forall x :: IsTarget(plan, n + 1, x) <==> IsTarget(plan, n, x) || x == target;
    assert forall x ::
      IsBackup(plan, before, n + 1, x) <==> IsBackup(plan, before, n, x) || (target in before.files && x == backup);
    assert forall x :: IsOnWay(plan, n + 1, x) <==> IsOnWay(plan, n, x) || x in Prefixes(ParentOf(plan, n));
  }

  lemma RestoreNext(plan: Plan, before: Fs, fs: Fs, n: nat)
    requires WellFormed(plan) && Fits(plan, before) && n < |plan.items| && Overlaid(plan, before, fs, n)
    ensures Restores(fs, TargetOf(plan, n), false, plan.times[n])
    ensures Overlaid(plan, before, Restored(fs, TargetOf(plan, n), false, plan.items[n].contents, plan.times[n]), n + 1)
  {
    hide BackupPath, TargetOf, Separate, Fits, IsNext, Arrived, OldKept, OthersSame, DirsOnWay, Restored, Restores;
    NextFits(plan, before, fs, n);
    RestoredIsNext(plan, before, fs, n);
    var next := Restored(fs, TargetOf(plan, n), false, plan.items[n].contents, plan.times[n]);
    NextArrived(plan, before, fs, next, n);
    NextOthersSame(plan, before, fs, next, n);
  }

  /** Restoring a plan's files in turn. */
  function RestoredAll(plan: Plan, fs: Fs, n: nat): Fs
    requires n <= |plan.items| == |plan.times|
  {
    if n == 0 then fs
    else Restored(RestoredAll(plan, fs, n - 1), TargetOf(plan, n - 1), false, plan.items[n - 1].contents,
        plan.times[n - 1])
  }

  lemma NothingLaid(plan: Plan, fs: Fs)
    requires Sized(plan)
    ensures Overlaid(plan, fs, fs, 0)
  {
  }

  lemma {:induction false} RestoringOverlays(plan: Plan, fs: Fs, n: nat)
    requires WellFormed(plan) && Fits(plan, fs) && n <= |plan.items|
    ensures Overlaid(plan, fs, RestoredAll(plan, fs, n), n)
    ensures forall i :: 0 <= i < n ==> Restores(RestoredAll(plan, fs, i), TargetOf(plan, i), false, plan.times[i])
  {
    hide Restores, Restored, Separate, Fits, Overlaid, TargetOf;
    if n == 0 {
      NothingLaid(plan, fs);
    } else {
      RestoringOverlays(plan, fs, n - 1);
      RestoreNext(plan, fs, RestoredAll(plan, fs, n - 1), n - 1);
    }
  }

  // ---- an archive of such files ----------------------------------------------------

  function ArchiveOf(items: seq<Item>): (archive: seq<Entry>)
    requires forall item <- items :: item.path != []
    ensures |archive| == |items|
  {
    seq(|items|, i requires 0 <= i < |items| => Entry(NameOf(items[i].path), items[i].contents))
  }

  function AllRestored(items: seq<Item>): (report: seq<ReportItem>)
    requires forall item <- items :: item.path != []
    ensures |report| == |items|
  {
    seq(|items|, i requires 0 <= i < |items| => ReportItem(NameOf(items[i].path), true))
  }

  /** Names of listed files, none of them the manifest's. */
  ghost predicate Listed(items: seq<Item>) {
    forall item <- items :: IsPath(item.path) && item.path != [MANIFEST]
  }

  lemma ListedItem(root: Path, item: Item)
    requires IsPath(item.path) && item.path != [MANIFEST]
    ensures IsSafeEntryName(NameOf(item.path)) && !NamesDirectory(NameOf(item.path)) && !IsManifest(NameOf(item.path))
    ensures Target(root, NameOf(item.path)) == root + item.path
  {
    NamesLeadBack(root, item.path);
    assert AsNormals([MANIFEST]) == [Normal(MANIFEST)];
    if IsManifest(NameOf(item.path)) {
      AsNormalsInjective(item.path, [MANIFEST]);
    }
  }

  /** The progress after the first `n` entries. */
  function ProgressAfter(plan: Plan, p: Progress, n: nat): Progress
    requires n <= |plan.items| && Sized(plan)
  {
    p.(fs := RestoredAll(plan, p.fs, n), report := p.report + AllRestored(plan.items)[..n])
  }

  lemma {:induction false} ImportingOverlays(plan: Plan, parse: ManifestParser, p: Progress, n: nat)
    requires WellFormed(plan) && Fits(plan, p.fs) && Listed(plan.items) && n <= |plan.items|
    ensures Imported(plan.root, ArchiveOf(plan.items)[..n], plan.times[..n], false, parse, p)
        == Some(ProgressAfter(plan, p, n))
  {
    hide Fits, Separate, Overlaid, Step, Imported, ProgressAfter, Listed, Restores, RestoredAll, TargetOf, ArchiveOf;
    if n == 0 {
      ImportedNothing(plan, parse, p);
    } else {
      ImportingOverlays(plan, parse, p, n - 1);
      RestoringOverlays(plan, p.fs, n);
      StepRestores(plan, parse, p, n - 1);
      ImportedNext(plan.root, ArchiveOf(plan.items), plan.times, n - 1, parse, p);
    }
  }

  lemma ImportedNothing(plan: Plan, parse: ManifestParser, p: Progress)
    requires Sized(plan)
    ensures Imported(plan.root, ArchiveOf(plan.items)[..0], plan.times[..0], false, parse, p)
        == Some(ProgressAfter(plan, p, 0))
  {
    assert p.report + AllRestored(plan.items)[..0] == p.report;
  }

  lemma OneMoreItem(before: seq<ReportItem>, report: seq<ReportItem>, n: nat)
    requires n < |report|
    ensures before + report[..n + 1] == before + report[..n] + [report[n]]
  {
    assert report[..n + 1] == report[..n] + [report[n]];
  }

  lemma ImportedNext(root: Path, archive: seq<Entry>, times: seq<string>, n: nat, parse: ManifestParser, p: Progress)
    requires n < |archive| == |times|
    ensures Imported(root, archive[..n + 1], times[..n + 1], false, parse, p)
      == match Imported(root, archive[..n], times[..n], false, parse, p)
         case None => None
         case Some(q) => Step(root, archive[n], times[n], false, parse, q)
  {
    hide Step;
    assert archive[..n + 1][..n] == archive[..n] && times[..n + 1][..n] == times[..n];
  }

  lemma StepRestores(plan: Plan, parse: ManifestParser, p: Progress, i: nat)
    requires Sized(plan) && Listed(plan.items) && i < |plan.items|
    requires Restores(RestoredAll(plan, p.fs, i), TargetOf(plan, i), false, plan.times[i])
    ensures Step(plan.root, ArchiveOf(plan.items)[i], plan.times[i], false, parse, ProgressAfter(plan, p, i))
        == Some(ProgressAfter(plan, p, i + 1))
  {
    hide Restores, Restored, IsSafeEntryName, NamesDirectory, IsManifest, NameOf, Target, IsPath;
    var item := plan.items[i];
    assert item in plan.items;
    ListedItem(plan.root, item);
    OneMoreItem(p.report, AllRestored(plan.items), i);
  }
}
