/** When an import loses what it overwrites: backup names carry the time to the second only, so
    a backup can itself be overwritten. */
module BackupLoss {
  import opened Text
  import opened BackupPaths
  import opened BackupRestore

  // ---- one file --------------------------------------------------------------------

  /** Every file but the target is as it was, and the target's old bytes are at its backup name. */
  ghost predicate OldBytesKept(before: Fs, after: Fs, target: Path, now: string)
    requires target in before.files && target != []
  {
    && (forall x :: x in before.files && x != target ==> x in after.files && after.files[x] == before.files[x])
    && BackupPath(target, now) in after.files && after.files[BackupPath(target, now)] == before.files[target]
  }

  /** The backup name is free, or holds the very bytes to be kept. */
  predicate BackupFits(fs: Fs, target: Path, now: string)
    requires target in fs.files && target != []
  {
    var backup := BackupPath(target, now);
    backup !in fs.files || fs.files[backup] == fs.files[target]
  }

  lemma BackupIsElsewhere(target: Path, now: string)
    requires target != []
    ensures BackupPath(target, now) != target
  {
    assert |BackupPath(target, now)[|target| - 1]| > |target[|target| - 1]|;
  }

  /** Overwriting a file loses nothing exactly if its backup name is free or holds the same. */
  lemma OverwriteKeepsExactly(fs: Fs, target: Path, contents: Bytes, now: string)
    requires Restores(fs, target, false, now) && target in fs.files
    ensures OldBytesKept(fs, Restored(fs, target, false, contents, now), target, now) <==> BackupFits(fs, target, now)
  {
    hide BackupPath, FileOnWay;
    BackupIsElsewhere(target, now);
  }

  // ---- a whole import --------------------------------------------------------------

  /** The entry overwrites a file that is on the disk. */
  predicate Overwrites(root: Path, fs: Fs, e: Entry, now: string) {
    && IsSafeEntryName(e.name) && !IsManifest(e.name)
    && Restores(fs, Target(root, e.name), NamesDirectory(e.name), now) && Target(root, e.name) in fs.files
  }

  ghost predicate FilesStay(before: Fs, after: Fs) {
    forall x :: x in before.files ==> x in after.files && after.files[x] == before.files[x]
  }

  /** What one entry does loses nothing that was on the disk. */
  ghost predicate LosesNothing(root: Path, before: Fs, e: Entry, now: string, after: Fs) {
    if Overwrites(root, before, e, now) then OldBytesKept(before, after, Target(root, e.name), now)
    else FilesStay(before, after)
  }

  predicate Fits(root: Path, fs: Fs, e: Entry, now: string) {
    Overwrites(root, fs, e, now) ==> BackupFits(fs, Target(root, e.name), now)
  }

  lemma StepLosesNothingExactly(root: Path, e: Entry, now: string, parse: ManifestParser, p: Progress)
    requires Step(root, e, now, false, parse, p).Some?
    ensures LosesNothing(root, p.fs, e, now, Step(root, e, now, false, parse, p).value.fs) <==> Fits(root, p.fs, e, now)
  {
    hide IsSafeEntryName, IsManifest, NamesDirectory, Target, BackupPath, OldBytesKept, BackupFits;
    if Overwrites(root, p.fs, e, now) {
      OverwriteKeepsExactly(p.fs, Target(root, e.name), e.contents, now);
    } else if IsSafeEntryName(e.name) && !IsManifest(e.name) {
      NewFileKeepsAll(p.fs, Target(root, e.name), NamesDirectory(e.name), e.contents, now);
    }
  }

  lemma NewFileKeepsAll(fs: Fs, target: Path, namesDirectory: bool, contents: Bytes, now: string)
    requires !(Restores(fs, target, namesDirectory, now) && target in fs.files)
    ensures FilesStay(fs, Restored(fs, target, namesDirectory, contents, now))
  {
    hide BackupPath, FileOnWay;
  }

  /** The progress before entry `i`. */
  function At(root: Path, archive: seq<Entry>, times: seq<string>, parse: ManifestParser, p: Progress,
              i: nat): Option<Progress>
    requires |times| == |archive| && i <= |archive|
  {
    Imported(root, archive[..i], times[..i], false, parse, p)
  }

  lemma AtNext(root: Path, archive: seq<Entry>, times: seq<string>, parse: ManifestParser, p: Progress, i: nat)
    requires |times| == |archive| && i < |archive|
    ensures At(root, archive, times, parse, p, i + 1) ==
      match At(root, archive, times, parse, p, i)
      case None => None
      case Some(q) => Step(root, archive[i], times[i], false, parse, q)
  {
    hide Step;
    assert archive[..i + 1][..i] == archive[..i] && times[..i + 1][..i] == times[..i];
  }

  /** The import reaches entry `i` and gets past it. */
  predicate Passes(root: Path, archive: seq<Entry>, times: seq<string>, parse: ManifestParser, p: Progress, i: nat)
    requires |times| == |archive| && i < |archive|
  {
    At(root, archive, times, parse, p, i).Some? && At(root, archive, times, parse, p, i + 1).Some?
  }

  /** Up to entry `n`, no entry loses anything. */
  ghost predicate ImportLosesNothing(root: Path, archive: seq<Entry>, times: seq<string>, parse: ManifestParser,
                                     p: Progress, n: nat)
    requires |times| == |archive| && n <= |archive|
  {
    forall i :: 0 <= i < n && Passes(root, archive, times, parse, p, i) ==>
      LosesNothing(root, At(root, archive, times, parse, p, i).value.fs, archive[i], times[i],
          At(root, archive, times, parse, p, i + 1).value.fs)
  }

  /** Up to entry `n`, every entry that overwrites a file finds its backup name fitting. */
  ghost predicate BackupsFit(root: Path, archive: seq<Entry>, times: seq<string>, parse: ManifestParser, p: Progress,
                             n: nat)
    requires |times| == |archive| && n <= |archive|
  {
    forall i :: 0 <= i < n && Passes(root, archive, times, parse, p, i) ==>
      Fits(root, At(root, archive, times, parse, p, i).value.fs, archive[i], times[i])
  }

  /** An import loses nothing that it overwrites exactly when every entry that overwrites a file
      finds its backup name free or holding the same bytes. */
  lemma ImportLosesNothingExactly(root: Path, archive: seq<Entry>, times: seq<string>, parse: ManifestParser,
                                  p: Progress, n: nat)
    requires |times| == |archive| && n <= |archive|
    ensures ImportLosesNothing(root, archive, times, parse, p, n) <==> BackupsFit(root, archive, times, parse, p, n)
  {
    hide Step, At, LosesNothing, Fits;
    forall i | 0 <= i < n && Passes(root, archive, times, parse, p, i)
      ensures LosesNothing(root, At(root, archive, times, parse, p, i).value.fs, archive[i], times[i],
          At(root, archive, times, parse, p, i + 1).value.fs)
        <==> Fits(root, At(root, archive, times, parse, p, i).value.fs, archive[i], times[i])
    {
      AtNext(root, archive, times, parse, p, i);
      StepLosesNothingExactly(root, archive[i], times[i], parse, At(root, archive, times, parse, p, i).value);
    }
  }

  lemma BytesStay(root: Path, before: Fs, e: Entry, now: string, after: Fs)
    requires LosesNothing(root, before, e, now, after)
    ensures before.files.Values <= after.files.Values
  {
    hide IsSafeEntryName, IsManifest, NamesDirectory, Target, BackupPath;
    forall v | v in before.files.Values ensures v in after.files.Values {
      var x :| x in before.files && before.files[x] == v;
      if Overwrites(root, before, e, now) && x == Target(root, e.name) {
        assert after.files[BackupPath(x, now)] == v;
      } else {
        assert after.files[x] == v;
      }
    }
  }

  /** Then whatever bytes any file had, before the import or at any point of it, some file still
      has at the end. */
  lemma {:induction false} FittingImportKeepsAllBytes(root: Path, archive: seq<Entry>, times: seq<string>,
                                                      parse: ManifestParser, p: Progress, i: nat, n: nat)
    requires |times| == |archive| && i <= n <= |archive| && At(root, archive, times, parse, p, n).Some?
    requires BackupsFit(root, archive, times, parse, p, n)
    ensures At(root, archive, times, parse, p, i).Some?
    ensures At(root, archive, times, parse, p, i).value.fs.files.Values
         <= At(root, archive, times, parse, p, n).value.fs.files.Values
    decreases n
  {
    hide Step, At, LosesNothing, Fits;
    if i < n {
      AtNext(root, archive, times, parse, p, n - 1);
      FittingImportKeepsAllBytes(root, archive, times, parse, p, i, n - 1);
      var q := At(root, archive, times, parse, p, n - 1).value;
      StepLosesNothingExactly(root, archive[n - 1], times[n - 1], parse, q);
      BytesStay(root, q.fs, archive[n - 1], times[n - 1], At(root, archive, times, parse, p, n).value.fs);
    }
  }

  // ---- the same second -------------------------------------------------------------

  /** One file below an existing root. */
  function OneFile(root: Path, name: string, contents: Bytes): map<Path, Bytes> {
    map[root + [name] := contents]
  }

  /** Two entries for that file. */
  function TwoEntries(name: string, first: Bytes, second: Bytes): seq<Entry> {
    [Entry(name, first), Entry(name, second)]
  }

  function OnDisk(root: Path, files: map<Path, Bytes>, report: seq<ReportItem>): Progress {
    Progress(Fs(files, Prefixes(root)), map[], report)
  }

  /** An archive with two entries for one file, restored in the same second: the import reports
      both restored, the second backup overwrites the first, and the bytes that were on the disk
      before are gone. */
  lemma SameSecondLosesBackup(root: Path, name: string, was: Bytes, first: Bytes, second: Bytes, now: string,
                              parse: ManifestParser)
    requires IsPathName(name) && name != MANIFEST
    ensures Imported(root, TwoEntries(name, first, second), [now, now], false, parse,
        OnDisk(root, OneFile(root, name, was), []))
      == Some(OnDisk(root, map[root + [name] := second, BackupPath(root + [name], now) := first],
                     [ReportItem(name, true), ReportItem(name, true)]))
  {
    hide Step, BackupPath, At, Overwrites, Prefixes;
    var target, archive := root + [name], TwoEntries(name, first, second);
    var start := OnDisk(root, OneFile(root, name, was), []);
    FirstOfTwo(root, name, was, first, second, now, parse);
    var once := OneFile(root, name, was)[BackupPath(target, now) := was][target := first];
    PlainStep(root, name, second, now, parse, OnDisk(root, once, [ReportItem(name, true)]), once);
    BackupIsElsewhere(target, now);
    TwiceWritten(target, BackupPath(target, now), was, first, second);
    assert [ReportItem(name, true)] + [ReportItem(name, true)] == [ReportItem(name, true), ReportItem(name, true)];
    AtNext(root, archive, [now, now], parse, start, 1);
    AtEnd(root, archive, [now, now], parse, start);
  }

  lemma TwiceWritten(target: Path, backup: Path, was: Bytes, first: Bytes, second: Bytes)
    requires target != backup
    ensures map[target := was][backup := was][target := first][backup := first][target := second]
        == map[target := second, backup := first]
  {
  }

  lemma FirstOfTwo(root: Path, name: string, was: Bytes, first: Bytes, second: Bytes, now: string,
                   parse: ManifestParser)
    requires IsPathName(name) && name != MANIFEST
    ensures var target, files := root + [name], OneFile(root, name, was);
      var once := files[BackupPath(target, now) := was][target := first];
      && At(root, TwoEntries(name, first, second), [now, now], parse, OnDisk(root, files, []), 1)
           == Some(OnDisk(root, once, [ReportItem(name, true)]))
      && once[target] == first && forall x :: x in once ==> |x| == |root| + 1
  {
    hide Step, BackupPath, At, Overwrites;
    var target, files := root + [name], OneFile(root, name, was);
    var start := OnDisk(root, files, []);
    PlainStep(root, name, first, now, parse, start, files);
    assert [] + [ReportItem(name, true)] == [ReportItem(name, true)];
    AtStart(root, TwoEntries(name, first, second), [now, now], parse, start);
    AtNext(root, TwoEntries(name, first, second), [now, now], parse, start, 0);
  }

  /** That import is one that loses something, unless the bytes lost were those of the first
      entry. */
  lemma SameSecondFitsExactly(root: Path, name: string, was: Bytes, first: Bytes, second: Bytes, now: string,
                              parse: ManifestParser)
    requires IsPathName(name) && name != MANIFEST
    ensures var start := OnDisk(root, OneFile(root, name, was), []);
      BackupsFit(root, TwoEntries(name, first, second), [now, now], parse, start, 2) <==> was == first
  {
    hide Step, BackupPath, At, Fits, Overwrites;
    var target, archive := root + [name], TwoEntries(name, first, second);
    var start := OnDisk(root, OneFile(root, name, was), []);
    var once := OneFile(root, name, was)[BackupPath(target, now) := was][target := first];
    var middle := OnDisk(root, once, [ReportItem(name, true)]);
    BackupIsElsewhere(target, now);
    FirstOfTwo(root, name, was, first, second, now, parse);
    SameSecondLosesBackup(root, name, was, first, second, now, parse);
    AtStart(root, archive, [now, now], parse, start);
    AtEnd(root, archive, [now, now], parse, start);
    SecondFits(root, archive, [now, now], parse, start, middle);
    PlainStep(root, name, first, now, parse, start, OneFile(root, name, was));
    PlainStep(root, name, second, now, parse, middle, once);
    FitsPlain(root, start.fs, Entry(name, first), now);
    FitsPlain(root, middle.fs, Entry(name, second), now);
  }

  lemma AtStart(root: Path, archive: seq<Entry>, times: seq<string>, parse: ManifestParser, p: Progress)
    requires |times| == |archive|
    ensures At(root, archive, times, parse, p, 0) == Some(p)
  {
  }

  lemma AtEnd(root: Path, archive: seq<Entry>, times: seq<string>, parse: ManifestParser, p: Progress)
    requires |times| == |archive|
    ensures At(root, archive, times, parse, p, |archive|) == Imported(root, archive, times, false, parse, p)
  {
    assert archive[..|archive|] == archive && times[..|archive|] == times;
  }

  lemma FitsPlain(root: Path, fs: Fs, e: Entry, now: string)
    requires Overwrites(root, fs, e, now)
    ensures Target(root, e.name) != [] && Target(root, e.name) in fs.files
    ensures Fits(root, fs, e, now) <==> BackupFits(fs, Target(root, e.name), now)
  {
  }

  /** Overwriting a file right below the root, which has no directory in its place. */
  lemma PlainStep(root: Path, name: string, contents: Bytes, now: string, parse: ManifestParser, p: Progress,
                  files: map<Path, Bytes>)
    requires IsPathName(name) && name != MANIFEST && root + [name] in files
    requires p.fs == Fs(files, Prefixes(root)) && forall x :: x in files ==> |x| == |root| + 1
    ensures var target := root + [name];
      && Overwrites(root, p.fs, Entry(name, contents), now) && Target(root, name) == target
      && Step(root, Entry(name, contents), now, false, parse, p) == Some(Progress(
           Fs(files[BackupPath(target, now) := files[target]][target := contents], Prefixes(root)),
           p.secrets, p.report + [ReportItem(name, true)]))
      && forall x :: x in files[BackupPath(target, now) := files[target]] ==> |x| == |root| + 1
  {
    hide IsSafeEntryName, NamesDirectory, Target, Components;
    var target := root + [name];
    NamesLeadBack(root, [name]);
    assert NameOf([name]) == name;
    if IsManifest(name) {
      assert AsNormals([MANIFEST]) == [Normal(MANIFEST)];
      AsNormalsInjective([name], [MANIFEST]);
    }
    assert target[..|target| - 1] == root;
    forall k | 0 <= k <= |root| ensures root[..k] !in files {
      assert |root[..k]| <= |root|;
    }
    assert forall x :: x in Prefixes(root) ==> |x| <= |root|;
    assert Prefixes(root) + Prefixes(root) == Prefixes(root);
  }

  lemma SecondFits(root: Path, archive: seq<Entry>, times: seq<string>, parse: ManifestParser, p: Progress,
                   middle: Progress)
    requires |archive| == |times| == 2
    requires At(root, archive, times, parse, p, 0) == Some(p) && At(root, archive, times, parse, p, 1) == Some(middle)
    requires At(root, archive, times, parse, p, 2).Some?
    ensures BackupsFit(root, archive, times, parse, p, 2)
      <==> Fits(root, p.fs, archive[0], times[0]) && Fits(root, middle.fs, archive[1], times[1])
  {
    hide At, Fits;
  }
}
