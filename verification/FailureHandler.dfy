/** Snapshots of a slice directory and the rollback to the newest of them. */
module FailureHandler {
  import opened Sequences
  import opened PortableNaming

  type Path = string

  /** A slice's state as the YAML loader returns it. */
  type SliceState = string

  datatype Strategy = StateOnly | Full

  datatype Snapshot = Snapshot(
    stageId: string, timestamp: Date, sliceState: SliceState, filesBackup: map<Path, string>, existingFiles: seq<Path>)

  datatype Outcome = RolledBack(name: string) | NoSnapshots | InvalidName | SliceNotFound

  // ----- directories -----

  predicate InDir(p: Path, dir: Path) {
    dir + "/" <= p
  }

  /** A path is in a directory when it goes on from it with a slash; a directory of a longer name is another one. */
  lemma InDirIff(p: Path, dir: Path)
    ensures InDir(p, dir) <==> |p| > |dir| && p[..|dir|] == dir && p[|dir|] == '/'
    ensures forall c, rest :: c != '/' ==> !InDir(dir + [c] + rest, dir)
  {
    assert (dir + "/")[..|dir|] == dir && (dir + "/")[|dir|] == '/';
    if |p| > |dir| {
      assert p[..|dir| + 1] == p[..|dir|] + [p[|dir|]];
    }
    forall c, rest | c != '/' ensures !InDir(dir + [c] + rest, dir) {
      assert (dir + [c] + rest)[|dir|] == c && (dir + "/")[|dir|] == '/';
    }
  }

  function SliceFile(sliceDir: Path): Path {
    sliceDir + "/slice.yaml"
  }

  ghost function FilesIn(files: map<Path, string>, dir: Path): map<Path, string> {
    map p | p in files && InDir(p, dir) :: files[p]
  }

  ghost function FilesOutside(files: map<Path, string>, dir: Path): map<Path, string> {
    map p | p in files && !InDir(p, dir) :: files[p]
  }

  /** What a copy of a file holds when `sliceContent`, if given, stands in for the slice file. */
  function CopyOf(files: map<Path, string>, sliceFile: Path, sliceContent: Option<string>, p: Path): string
    requires p in files
  {
    if p == sliceFile && sliceContent.Some? then sliceContent.value else files[p]
  }

  lemma CopiedAll(files: map<Path, string>, sliceDir: Path, sliceContent: Option<string>, copies: map<Path, string>)
    requires SliceFile(sliceDir) in files && copies.Keys == FilesIn(files, sliceDir).Keys
    requires forall p :: p in copies ==> p in files && copies[p] == CopyOf(files, SliceFile(sliceDir), sliceContent, p)
    ensures copies == if sliceContent.Some? then FilesIn(files, sliceDir)[SliceFile(sliceDir) := sliceContent.value]
                      else FilesIn(files, sliceDir)
  {
    assert InDir(SliceFile(sliceDir), sliceDir);
    assert SliceFile(sliceDir) in FilesIn(files, sliceDir);
  }

  lemma InFiles(files: map<Path, string>, dir: Path, found: seq<Path>)
    requires Elements(found) == FilesIn(files, dir).Keys
    ensures forall p :: p in found ==> p in files
  {
    assert forall p :: p in found ==> p in Elements(found);
  }

  // ----- which snapshot is the latest -----

  /** What the names are sorted by. */
  function SortKey(name: string): string {
    if MatchesSnapshotName(name) then TimestampOf(name) else ""
  }

  /** First of the names when sorted by falling key. */
  ghost predicate IsLatest(names: seq<string>, name: string) {
    name in names && forall n :: n in names ==> !StringLess(SortKey(name), SortKey(n))
  }

  function Excluded(name: string, excludeStageId: Option<string>): bool {
    excludeStageId.Some? && excludeStageId.value != "" && excludeStageId.value + "-" <= name
  }

  /** The day and time of a timestamp, without the milliseconds. */
  function Stamp(d: Date): string
    requires FourDigitYear(d)
  {
    DayDigits(d) + "T" + TimeDigits(d)
  }

  lemma NameBegins(segment: string, d: Date)
    requires ValidDate(d) && FourDigitYear(d)
    ensures |Stamp(d)| == 15 && segment + "-" + Stamp(d) + "-" <= BuildSnapshotName(segment, d)
  {
    FixedColumns(d);
    assert BuildSnapshotName(segment, d)
        == segment + "-" + Stamp(d) + "-" + (Digits(d.millis, 3) + "ms" + EXTENSION);
  }

  /** No hyphen stands in a snapshot name behind the stage, except before the stamp and before the milliseconds. */
  lemma HyphensOfName(segment: string, d: Date, k: nat)
    requires ValidDate(d) && FourDigitYear(d) && |segment| <= k < |BuildSnapshotName(segment, d)|
    ensures BuildSnapshotName(segment, d)[k] == '-' <==> k == |segment| || k == |segment| + 16
  {
    FixedColumns(d);
    var name := BuildSnapshotName(segment, d);
    var rest := DayDigits(d) + "T" + TimeDigits(d) + "-" + Digits(d.millis, 3) + "ms" + EXTENSION;
    assert name == segment + "-" + rest;
    assert AllDigits(DayDigits(d)) && AllDigits(TimeDigits(d)) && AllDigits(Digits(d.millis, 3));
    if k > |segment| {
      var i := k - |segment| - 1;
      assert name[k] == rest[i];
      assert i < 8 ==> IsDigit(rest[i]);
      assert 9 <= i < 15 ==> IsDigit(rest[i]);
      assert 16 <= i < 19 ==> IsDigit(rest[i]);
    }
  }

  /**
   * Excluding a stage excludes the snapshots whose stage is named so, but also those whose stage name
   * goes on with a hyphen.
   */
  lemma ExcludedIff(excluded: string, segment: string, d: Date)
    requires ValidDate(d) && FourDigitYear(d)
    ensures Excluded(BuildSnapshotName(segment, d), Some(excluded)) <==>
            excluded != "" && (excluded == segment || excluded + "-" <= segment || excluded == segment + "-" + Stamp(d))
  {
    hide BuildSnapshotName, Stamp, ToPortableTimestamp;
    var name, e := BuildSnapshotName(segment, d), excluded + "-";
    NameBegins(segment, d);
    if |excluded| < |segment| {
      assert name[..|segment|] == segment;
      assert e <= name <==> e <= segment;
    } else if e <= name {
      HyphensOfName(segment, d, |excluded|);
      assert name[|excluded|] == e[|excluded|] == '-';
      assert excluded == name[..|excluded|];
    }
  }

  /** Excluding "design" hides the snapshots of "design-review" as well. */
  lemma ExclusionHidesOther(d: Date)
    requires ValidDate(d) && FourDigitYear(d)
    ensures Excluded(BuildSnapshotName("design-review", d), Some("design"))
  {
    ExcludedIff("design", "design-review", d);
    assert "design-review"[..7] == "design-";
  }

  /** A stored snapshot: named after its stage and time, and a copy of the files of the directory. */
  ghost predicate WellFormedSnapshot(name: string, s: Snapshot, segment: string -> string, sliceDir: Path) {
    && segment(s.stageId) != "" && ValidDate(s.timestamp) && FourDigitYear(s.timestamp)
    && name == BuildSnapshotName(segment(s.stageId), s.timestamp)
    && Elements(s.existingFiles) == s.filesBackup.Keys
    && (forall p :: p in s.filesBackup ==> InDir(p, sliceDir))
  }

  lemma LatestSortsByTime(name: string, s: Snapshot, other: string, t: Snapshot, segment: string -> string, sliceDir: Path)
    requires WellFormedSnapshot(name, s, segment, sliceDir) && WellFormedSnapshot(other, t, segment, sliceDir)
    ensures StringLess(SortKey(name), SortKey(other)) <==> Earlier(s.timestamp, t.timestamp)
    ensures MatchesSnapshotName(name)
  {
    SnapshotNameParses(segment(s.stageId), s.timestamp);
    SnapshotNameParses(segment(t.stageId), t.timestamp);
    NamesSortByTime(s.timestamp, t.timestamp);
  }

  /** Files that are not named as snapshots come last. */
  lemma SnapshotBeatsOthers(name: string, s: Snapshot, other: string, segment: string -> string, sliceDir: Path)
    requires WellFormedSnapshot(name, s, segment, sliceDir) && !MatchesSnapshotName(other)
    ensures StringLess(SortKey(other), SortKey(name))
  {
    LatestSortsByTime(name, s, name, s, segment, sliceDir);
  }

  lemma {:induction false} LessTransitive(a: string, b: string, c: string)
    ensures StringLess(a, b) && !StringLess(c, b) ==> StringLess(a, c)
    ensures !StringLess(a, b) && !StringLess(b, c) ==> !StringLess(a, c)
  {
    if a != "" && b != "" && c != "" {
      LessTransitive(a[1..], b[1..], c[1..]);
    }
  }

  /** The files of one workspace and the snapshots of one of its slices. */
  class Handler {
    const strategy: Strategy
    const enabled: bool
    /** `toPortableSegment` */
    const segment: string -> string
    /** `yaml.load` and `yaml.dump` */
    const load: string -> SliceState
    const dump: SliceState -> string

    var files: map<Path, string>
    var snapshotFiles: map<string, Snapshot>
    /** The snapshots of this session, by stage. */
    var snapshots: map<string, Snapshot>

    constructor (strategy: Strategy, enabled: bool, segment: string -> string,
                 load: string -> SliceState, dump: SliceState -> string, files: map<Path, string>)
      ensures this.strategy == strategy && this.enabled == enabled && this.segment == segment
      ensures this.load == load && this.dump == dump && this.files == files && snapshotFiles == map[] && snapshots == map[]
    {
      this.strategy, this.enabled, this.segment, this.load, this.dump := strategy, enabled, segment, load, dump;
      this.files, snapshotFiles, snapshots := files, map[], map[];
    }

    ghost predicate SnapshotsOf(sliceDir: Path)
      reads this
    {
      forall n :: n in snapshotFiles ==> WellFormedSnapshot(n, snapshotFiles[n], segment, sliceDir)
    }

    /** Every file under a directory, in some order. */
    method GetSliceFiles(sliceDir: Path) returns (found: seq<Path>)
      ensures Distinct(found) && Elements(found) == FilesIn(files, sliceDir).Keys
    {
      var rest := set p | p in files && InDir(p, sliceDir);
      found := [];
      while rest != {}
        invariant Distinct(found) && Elements(found) !! rest
        invariant Elements(found) + rest == FilesIn(files, sliceDir).Keys
        decreases rest
      {
        var p :| p in rest;
        assert p !in Elements(found);
        assert Elements(found + [p]) == Elements(found) + {p};
        found, rest := found + [p], rest - {p};
      }
    }

    /** Reads every file of the directory, with `sliceContent`, if given, in place of `slice.yaml`. */
    method CopyFiles(sliceDir: Path, sliceContent: Option<string>)
      returns (filesBackup: map<Path, string>, existingFiles: seq<Path>)
      requires SliceFile(sliceDir) in files
      ensures Elements(existingFiles) == filesBackup.Keys
      ensures filesBackup == if sliceContent.Some? then FilesIn(files, sliceDir)[SliceFile(sliceDir) := sliceContent.value]
                             else FilesIn(files, sliceDir)
    {
      hide FilesIn;
      var sliceFile := SliceFile(sliceDir);
      var found := GetSliceFiles(sliceDir);
      assert forall p :: p in found ==> p in files by {
        InFiles(files, sliceDir, found);
      }
      filesBackup, existingFiles := map[], [];
      for k := 0 to |found|
        invariant existingFiles == found[..k] && filesBackup.Keys == Elements(found[..k])
        invariant forall p :: p in filesBackup ==> p in files && filesBackup[p] == CopyOf(files, sliceFile, sliceContent, p)
      {
        assert found[..k + 1] == found[..k] + [found[k]];
        var content := if found[k] == sliceFile && sliceContent.Some? then sliceContent.value else files[found[k]];
        filesBackup := filesBackup[found[k] := content];
        existingFiles := existingFiles + [found[k]];
      }
      assert found[..|found|] == found;
      CopiedAll(files, sliceDir, sliceContent, filesBackup);
    }

    /** What a snapshot taken now holds. `stateOverride` stands in for the state in `slice.yaml`. */
    ghost predicate Captures(s: Snapshot, sliceDir: Path, stageId: string, stateOverride: Option<SliceState>, now: Date)
      requires SliceFile(sliceDir) in files
      reads this
    {
      && s.stageId == stageId && s.timestamp == now
      && s.sliceState == stateOverride.GetOr(load(files[SliceFile(sliceDir)]))
      && Elements(s.existingFiles) == s.filesBackup.Keys
      && s.filesBackup == if strategy.StateOnly? then map[]
                          else if stateOverride.Some? then FilesIn(files, sliceDir)[SliceFile(sliceDir) := dump(s.sliceState)]
                          else FilesIn(files, sliceDir)
    }

    method CreateSnapshot(sliceDir: Path, stageId: string, stateOverride: Option<SliceState>, now: Date)
      requires SliceFile(sliceDir) in files
      modifies this`snapshotFiles, this`snapshots
      ensures !enabled ==> snapshotFiles == old(snapshotFiles) && snapshots == old(snapshots)
      ensures enabled ==>
                && stageId in snapshots && Captures(snapshots[stageId], sliceDir, stageId, stateOverride, now)
                && snapshots == old(snapshots)[stageId := snapshots[stageId]]
                && snapshotFiles == old(snapshotFiles)[BuildSnapshotName(segment(stageId), now) := snapshots[stageId]]
      ensures old(SnapshotsOf(sliceDir)) && segment(stageId) != "" && ValidDate(now) && FourDigitYear(now) ==>
                SnapshotsOf(sliceDir)
    {
      if !enabled {
        return;
      }
      var sliceFile := SliceFile(sliceDir);
      assert InDir(sliceFile, sliceDir);
      var sliceState := stateOverride.GetOr(load(files[sliceFile]));
      var filesBackup: map<Path, string>, existingFiles: seq<Path> := map[], [];
      if strategy.Full? {
        filesBackup, existingFiles := CopyFiles(sliceDir, if stateOverride.Some? then Some(dump(sliceState)) else None);
      }
      var snapshot := Snapshot(stageId, now, sliceState, filesBackup, existingFiles);
      snapshotFiles := snapshotFiles[BuildSnapshotName(segment(stageId), now) := snapshot];
      snapshots := snapshots[stageId := snapshot];
    }

    /**
     * The rollback from memory. It writes the files of the snapshot back but deletes none, so the
     * directory is as in the snapshot if and only if no file has come into it since.
     */
    method Rollback(sliceDir: Path, stageId: string)
      modifies this`files
      ensures stageId !in snapshots ==> files == old(files)
      ensures stageId in snapshots && strategy.StateOnly? ==>
                files == old(files)[sliceDir + "/slice.yaml" := dump(snapshots[stageId].sliceState)]
      ensures stageId in snapshots && strategy.Full? ==>
                files == old(files)[sliceDir + "/slice.yaml" := dump(snapshots[stageId].sliceState)] + snapshots[stageId].filesBackup
      ensures stageId in snapshots && strategy.Full? && SliceFile(sliceDir) in snapshots[stageId].filesBackup
              && (forall p :: p in snapshots[stageId].filesBackup ==> InDir(p, sliceDir)) ==>
                (FilesIn(files, sliceDir) == snapshots[stageId].filesBackup <==>
                 FilesIn(old(files), sliceDir).Keys <= snapshots[stageId].filesBackup.Keys)
    {
      if stageId !in snapshots {
        return;
      }
      var snapshot := snapshots[stageId];
      files := files[SliceFile(sliceDir) := dump(snapshot.sliceState)];
      if strategy.Full? {
        WriteBack(snapshot.filesBackup);
        assert FilesIn(files, sliceDir).Keys == set p | p in files && InDir(p, sliceDir);
        if forall p :: p in snapshot.filesBackup ==> InDir(p, sliceDir) {
          assert forall p :: p in snapshot.filesBackup ==> p in FilesIn(files, sliceDir) && FilesIn(files, sliceDir)[p] == snapshot.filesBackup[p];
          assert forall p :: p in FilesIn(old(files), sliceDir) ==> p in FilesIn(files, sliceDir);
        }
      }
    }

    /** The file names sorted by falling key, their first. */
    method PickLatest(names: seq<string>) returns (latest: string)
      requires names != []
      ensures IsLatest(names, latest)
    {
      latest := names[0];
      NotLess(SortKey(latest));
      for k := 1 to |names|
        invariant IsLatest(names[..k], latest)
      {
        assert names[..k + 1] == names[..k] + [names[k]];
        if StringLess(SortKey(latest), SortKey(names[k])) {
          forall n | n in names[..k] ensures !StringLess(SortKey(names[k]), SortKey(n)) {
            LessTransitive(SortKey(latest), SortKey(names[k]), SortKey(n));
            LessTransitive(SortKey(names[k]), SortKey(latest), SortKey(n));
            NotBoth(SortKey(latest), SortKey(names[k]));
          }
          latest := names[k];
          NotLess(SortKey(latest));
        }
      }
      assert names[..|names|] == names;
    }

    /**
     * Restores the newest snapshot. `listing` is the snapshot directory as listed, other files that
     * are not named as snapshots included; `sliceDir` is the directory where the slice's file is
     * found, if it is.
     */
    method RollbackToLatest(sliceDir: Option<Path>, listing: seq<string>, excludeStageId: Option<string>)
      returns (outcome: Outcome)
      requires forall n :: n in listing && n !in snapshotFiles ==> !MatchesSnapshotName(n)
      requires forall n :: n in snapshotFiles ==> n in listing
      requires sliceDir.Some? ==> SnapshotsOf(sliceDir.value)
      modifies this`files
      ensures outcome.NoSnapshots? <==> forall n :: n in listing ==> Excluded(n, excludeStageId)
      ensures !outcome.RolledBack? ==> files == old(files)
      ensures sliceDir.Some? ==>
                (outcome.RolledBack? <==> exists n :: n in snapshotFiles && !Excluded(n, excludeStageId))
      ensures sliceDir.Some? ==> !outcome.SliceNotFound?
      ensures outcome.RolledBack? ==>
                && sliceDir.Some?
                && outcome.name in snapshotFiles && !Excluded(outcome.name, excludeStageId)
                && (forall n :: n in snapshotFiles && !Excluded(n, excludeStageId) ==>
                      !Earlier(snapshotFiles[outcome.name].timestamp, snapshotFiles[n].timestamp))
                && FilesOutside(files, sliceDir.value) == FilesOutside(old(files), sliceDir.value)
                && (forall p :: p in old(files) && !(sliceDir.value + "/" <= p) ==> p in files && files[p] == old(files)[p])
                && (strategy.Full? ==> FilesIn(files, sliceDir.value) == snapshotFiles[outcome.name].filesBackup)
                && (strategy.StateOnly? ==>
                      files == old(files)[sliceDir.value + "/slice.yaml" := dump(snapshotFiles[outcome.name].sliceState)])
    {
      hide FilesIn, FilesOutside, WellFormedSnapshot, MatchesSnapshotName, Earlier, StringLess, Excluded;
      var names := Included(listing, excludeStageId);
      if names == [] {
        return NoSnapshots;
      }
      var latest := PickLatest(names);
      if !MatchesSnapshotName(latest) {
        if sliceDir.Some? {
          forall n | n in snapshotFiles && !Excluded(n, excludeStageId) ensures false {
            SnapshotBeatsOthers(n, snapshotFiles[n], latest, segment, sliceDir.value);
          }
        }
        return InvalidName;
      }
      var stageId, portableTimestamp := StageOf(latest), TimestampOf(latest);
      SnapshotNameReassembles(latest);
      var snapshot := snapshotFiles[stageId + "-" + portableTimestamp + EXTENSION];
      if sliceDir.None? {
        return SliceNotFound;
      }
      forall n | n in snapshotFiles && !Excluded(n, excludeStageId)
        ensures !Earlier(snapshot.timestamp, snapshotFiles[n].timestamp)
      {
        LatestSortsByTime(latest, snapshot, n, snapshotFiles[n], segment, sliceDir.value);
      }
      RestoreFiles(sliceDir.value, snapshot, latest);
      SameOutside(old(files), files, sliceDir.value);
      outcome := RolledBack(latest);
    }

    method RestoreFiles(sliceDir: Path, snapshot: Snapshot, ghost name: string)
      requires WellFormedSnapshot(name, snapshot, segment, sliceDir)
      modifies this`files
      ensures FilesOutside(files, sliceDir) == FilesOutside(old(files), sliceDir)
      ensures strategy.Full? ==> FilesIn(files, sliceDir) == snapshot.filesBackup
      ensures strategy.StateOnly? ==> files == old(files)[SliceFile(sliceDir) := dump(snapshot.sliceState)]
    {
      hide FilesIn, FilesOutside;
      var sliceFile := SliceFile(sliceDir);
      assert InDir(sliceFile, sliceDir);
      OutsideUntouched(files, sliceFile, dump(snapshot.sliceState), sliceDir);
      files := files[sliceFile := dump(snapshot.sliceState)];
      if strategy.Full? {
        var currentFiles := GetSliceFiles(sliceDir);
        DeleteNewFiles(sliceDir, currentFiles, snapshot.existingFiles);
        WriteBack(snapshot.filesBackup);
        Restored(old(files), sliceFile, dump(snapshot.sliceState), sliceDir, snapshot.filesBackup, snapshot.existingFiles);
      }
    }

    /** Removes the current files of the directory that are not in the snapshot. */
    method DeleteNewFiles(sliceDir: Path, currentFiles: seq<Path>, existingFiles: seq<Path>)
      requires Elements(currentFiles) == FilesIn(files, sliceDir).Keys
      modifies this`files
      ensures files == map p | p in old(files) && (!InDir(p, sliceDir) || p in existingFiles) :: old(files)[p]
    {
      for k := 0 to |currentFiles|
        invariant files == map p | p in old(files) && (p !in currentFiles[..k] || p in existingFiles) :: old(files)[p]
      {
        assert currentFiles[..k + 1] == currentFiles[..k] + [currentFiles[k]];
        if currentFiles[k] !in existingFiles {
          files := files - {currentFiles[k]};
        }
      }
      assert currentFiles[..|currentFiles|] == currentFiles;
      assert forall p :: p in old(files) ==> (InDir(p, sliceDir) <==> p in Elements(currentFiles));
    }

    method WriteBack(filesBackup: map<Path, string>)
      modifies this`files
      ensures files == old(files) + filesBackup
    {
      var rest := filesBackup.Keys;
      while rest != {}
        invariant rest <= filesBackup.Keys
        invariant files == old(files) + (filesBackup - rest)
        decreases rest
      {
        var p :| p in rest;
        files := files[p := filesBackup[p]];
        rest := rest - {p};
      }
      assert filesBackup - rest == filesBackup;
    }
  }

  /**
   * A stage that fails is undone: a snapshot before it and a rollback after it bring the directory back,
   * whatever the stage has done to the files, and leave what it did elsewhere.
   */
  method UndoStage(handler: Handler, sliceDir: Path, stageId: string, stateOverride: Option<SliceState>, now: Date,
                   changed: map<Path, string>, listing: seq<string>)
    requires handler.enabled && SliceFile(sliceDir) in handler.files && handler.SnapshotsOf(sliceDir)
    requires handler.segment(stageId) != "" && ValidDate(now) && FourDigitYear(now)
    requires forall n :: n in handler.snapshotFiles ==> n in listing && Earlier(handler.snapshotFiles[n].timestamp, now)
    requires forall n :: n in listing && n !in handler.snapshotFiles ==> !MatchesSnapshotName(n)
    modifies handler
    ensures handler.strategy.Full? ==>
              FilesIn(handler.files, sliceDir) ==
              if stateOverride.Some? then FilesIn(old(handler.files), sliceDir)[sliceDir + "/slice.yaml" := handler.dump(stateOverride.value)]
              else FilesIn(old(handler.files), sliceDir)
    ensures handler.strategy.StateOnly? ==>
              handler.files == changed[sliceDir + "/slice.yaml" :=
                handler.dump(stateOverride.GetOr(handler.load(old(handler.files)[sliceDir + "/slice.yaml"])))]
    ensures FilesOutside(handler.files, sliceDir) == FilesOutside(changed, sliceDir)
  {
    hide FilesIn, FilesOutside, WellFormedSnapshot, MatchesSnapshotName, Earlier, BuildSnapshotName;
    handler.CreateSnapshot(sliceDir, stageId, stateOverride, now);
    ghost var name := BuildSnapshotName(handler.segment(stageId), now);
    handler.files := changed;
    var outcome := handler.RollbackToLatest(Some(sliceDir), listing + [BuildSnapshotName(handler.segment(stageId), now)], None);
    assert !Excluded(name, None);
    assert outcome.RolledBack?;
    assert outcome.name == name;
  }

  lemma SameOutside(before: map<Path, string>, after: map<Path, string>, dir: Path)
    requires FilesOutside(after, dir) == FilesOutside(before, dir)
    ensures forall p :: p in before && !(dir + "/" <= p) ==> p in after && after[p] == before[p]
  {
    forall p | p in before && !(dir + "/" <= p) ensures p in after && after[p] == before[p] {
      assert p in FilesOutside(before, dir);
      assert p in FilesOutside(after, dir) && FilesOutside(after, dir)[p] == FilesOutside(before, dir)[p];
    }
  }

  lemma OutsideUntouched(files: map<Path, string>, p: Path, content: string, dir: Path)
    requires InDir(p, dir)
    ensures FilesOutside(files[p := content], dir) == FilesOutside(files, dir)
  {
  }

  /** Writing the state, deleting what is not in the snapshot and writing the snapshot back restores the directory. */
  lemma Restored(files: map<Path, string>, sliceFile: Path, content: string, dir: Path,
                 backup: map<Path, string>, existing: seq<Path>)
    requires InDir(sliceFile, dir) && Elements(existing) == backup.Keys
    requires forall p :: p in backup ==> InDir(p, dir)
    ensures
      var written := files[sliceFile := content];
      var after := (map p | p in written && (!InDir(p, dir) || p in existing) :: written[p]) + backup;
      FilesIn(after, dir) == backup && FilesOutside(after, dir) == FilesOutside(files, dir)
  {
    assert forall p :: p in existing <==> p in Elements(existing);
  }

  function Included(listing: seq<string>, excludeStageId: Option<string>): (r: seq<string>)
    ensures forall n :: n in r <==> n in listing && !Excluded(n, excludeStageId)
    ensures r == [] ==> forall n :: n in listing ==> Excluded(n, excludeStageId)
  {
    if listing == [] then []
    else (if Excluded(listing[0], excludeStageId) then [] else [listing[0]]) + Included(listing[1..], excludeStageId)
  }

  lemma {:induction false} NotBoth(a: string, b: string)
    ensures StringLess(a, b) ==> !StringLess(b, a)
  {
    if a != "" && b != "" {
      NotBoth(a[1..], b[1..]);
    }
  }
}
