/**
 * Pipeline stages as programs over files: what a run in the given order leaves, and exactly when
 * running them level after level, in any order inside a level, leaves the same.
 */
module StageRuns {
  import opened Sequences
  import opened Walks

  type File = string
  type Files = map<File, string>

  datatype StageConfig = StageConfig(id: Id, inputs: seq<File>, outputs: seq<File>)

  /** The files after a stage, and whether it succeeded. */
  datatype StageOutcome = StageOutcome(files: Files, success: bool)

  /** The body of a stage: an arbitrary function of the files it finds. */
  type Runner = (StageConfig, Files) -> StageOutcome

  // ----- files -----

  ghost predicate SameAt(a: Files, b: Files, f: File) {
    (f in a <==> f in b) && (f in a ==> a[f] == b[f])
  }

  ghost predicate AgreeOn(fs: seq<File>, a: Files, b: Files) {
    forall f :: f in fs ==> SameAt(a, b, f)
  }

  /** `files` with what `written` has at `outputs`. */
  function Overlay(files: Files, outputs: seq<File>, written: Files): Files {
    map f | f in files.Keys + written.Keys && (if f in outputs then f in written else f in files)
      :: if f in outputs then written[f] else files[f]
  }

  lemma SameEverywhere(a: Files, b: Files)
    requires forall f :: SameAt(a, b, f)
    ensures a == b
  {
    assert forall f :: f in a ==> SameAt(a, b, f);
    assert forall f :: f in b ==> SameAt(a, b, f);
  }

  // ----- what is asked of the stages -----

  /** The stage writes nothing but its outputs, and these and its success depend on its inputs only. */
  ghost predicate TouchesDeclaredOnly(run: Runner, stage: StageConfig) {
    && (forall files, f :: f !in stage.outputs ==> SameAt(run(stage, files).files, files, f))
    && (forall a, b :: AgreeOn(stage.inputs, a, b) ==>
          run(stage, a).success == run(stage, b).success &&
          AgreeOn(stage.outputs, run(stage, a).files, run(stage, b).files))
  }

  function Ids(stages: seq<StageConfig>): (r: seq<Id>)
    ensures |r| == |stages|
    ensures forall i :: 0 <= i < |r| ==> r[i] == stages[i].id
  {
    seq(|stages|, i requires 0 <= i < |stages| => stages[i].id)
  }

  ghost predicate UniqueIds(stages: seq<StageConfig>) {
    forall i, j :: 0 <= i < j < |stages| ==> stages[i].id != stages[j].id
  }

  /** The later stage reads what the earlier one writes. */
  predicate Feeds(producer: StageConfig, consumer: StageConfig) {
    exists f :: f in producer.outputs && f in consumer.inputs
  }

  // ----- the run in the given order -----

  /** The files after the first `k` stages, failed or not. */
  function After(run: Runner, stages: seq<StageConfig>, files: Files, k: nat): Files
    requires k <= |stages|
  {
    if k == 0 then files else run(stages[k - 1], After(run, stages, files, k - 1)).files
  }

  predicate SucceedsAt(run: Runner, stages: seq<StageConfig>, files: Files, i: nat)
    requires i < |stages|
  {
    run(stages[i], After(run, stages, files, i)).success
  }

  ghost predicate SerialSucceeds(run: Runner, stages: seq<StageConfig>, files: Files) {
    forall i :: 0 <= i < |stages| ==> SucceedsAt(run, stages, files, i)
  }

  /** The serial pipeline: stage after stage, up to the first that fails. */
  method RunSerially(run: Runner, stages: seq<StageConfig>, files0: Files) returns (files: Files, failed: Option<Id>)
    ensures failed.None? <==> SerialSucceeds(run, stages, files0)
    ensures failed.None? ==> files == After(run, stages, files0, |stages|)
    ensures failed.Some? ==>
              exists i :: 0 <= i < |stages| && failed.value == stages[i].id && !SucceedsAt(run, stages, files0, i) &&
                          files == After(run, stages, files0, i + 1)
  {
    files := files0;
    for i := 0 to |stages|
      invariant files == After(run, stages, files0, i)
      invariant forall k :: 0 <= k < i ==> SucceedsAt(run, stages, files0, k)
    {
      var outcome := run(stages[i], files);
      files := outcome.files;
      if !outcome.success {
        assert !SucceedsAt(run, stages, files0, i);
        return files, Some(stages[i].id);
      }
    }
    failed := None;
  }

  // ----- levels -----

  ghost predicate Writes(stages: seq<StageConfig>, w: int, f: File) {
    0 <= w < |stages| && f in stages[w].outputs
  }

  /** Stage `s` is the last before stage `i` that writes `f`. */
  ghost predicate IsSource(stages: seq<StageConfig>, i: nat, f: File, s: int) {
    s < i && Writes(stages, s, f) && forall v :: s < v < i ==> !Writes(stages, v, f)
  }

  /** What `w` writes to `f` is overwritten in time by the one that stage `i` is to read it from. */
  ghost predicate Overwritten(stages: seq<StageConfig>, levels: seq<nat>, i: nat, f: File, w: nat)
    requires |levels| == |stages| && w < |stages|
  {
    exists s :: IsSource(stages, i, f, s) && levels[w] < levels[s]
  }

  /** Every stage runs on a higher level than those that feed it. */
  ghost predicate FeedersFirst(stages: seq<StageConfig>, levels: seq<nat>)
    requires |levels| == |stages|
  {
    forall i, j :: 0 <= i < j < |stages| && Feeds(stages[i], stages[j]) ==> levels[i] < levels[j]
  }

  /** No other writer of `f` can come between stage `i` and the stage it is to read `f` from. */
  ghost predicate SourceKept(stages: seq<StageConfig>, levels: seq<nat>, i: nat, f: File, w: nat)
    requires |levels| == |stages| && i < |stages| && w < |stages|
  {
    levels[i] < levels[w] || IsSource(stages, i, f, w) || Overwritten(stages, levels, i, f, w)
  }

  /** The last writer of `f` in the given order is the last one level after level. */
  ghost predicate LastKept(stages: seq<StageConfig>, levels: seq<nat>, f: File, w: nat)
    requires |levels| == |stages| && w < |stages|
  {
    IsSource(stages, |stages|, f, w) || Overwritten(stages, levels, |stages|, f, w)
  }

  ghost predicate SourcesKept(stages: seq<StageConfig>, levels: seq<nat>)
    requires |levels| == |stages|
  {
    forall i, w, f :: 0 <= i < |stages| && Writes(stages, w, f) && w != i && f in stages[i].inputs ==>
      SourceKept(stages, levels, i, f, w)
  }

  ghost predicate LastsKept(stages: seq<StageConfig>, levels: seq<nat>)
    requires |levels| == |stages|
  {
    forall w, f :: Writes(stages, w, f) ==> LastKept(stages, levels, f, w)
  }

  /** A condition on the declared files: every stage, and the end, finds each file as in the given order. */
  ghost predicate Undisturbed(stages: seq<StageConfig>, levels: seq<nat>)
    requires |levels| == |stages|
  {
    SourcesKept(stages, levels) && LastsKept(stages, levels)
  }

  ghost predicate WellBehaved(run: Runner, stages: seq<StageConfig>, levels: seq<nat>)
    requires |levels| == |stages|
  {
    && UniqueIds(stages)
    && FeedersFirst(stages, levels) && Undisturbed(stages, levels)
    && forall i :: 0 <= i < |stages| ==> TouchesDeclaredOnly(run, stages[i])
  }

  lemma {:induction false} LastWriter(stages: seq<StageConfig>, i: nat, f: File) returns (s: int)
    requires i <= |stages|
    ensures -1 <= s < i
    ensures s == -1 ==> forall v :: 0 <= v < i ==> !Writes(stages, v, f)
    ensures s >= 0 ==> IsSource(stages, i, f, s)
  {
    if i == 0 {
      s := -1;
    } else if Writes(stages, i - 1, f) {
      s := i - 1;
    } else {
      s := LastWriter(stages, i - 1, f);
    }
  }

  /** A file that no stage between `lo` and `hi` writes stays as it is. */
  lemma {:induction false} Unwritten(run: Runner, stages: seq<StageConfig>, files: Files, lo: nat, hi: nat, f: File)
    requires lo <= hi <= |stages|
    requires forall i :: lo <= i < hi ==> TouchesDeclaredOnly(run, stages[i])
    requires forall i :: lo <= i < hi ==> !Writes(stages, i, f)
    ensures SameAt(After(run, stages, files, lo), After(run, stages, files, hi), f)
    decreases hi - lo
  {
    if lo < hi {
      Unwritten(run, stages, files, lo, hi - 1, f);
      assert TouchesDeclaredOnly(run, stages[hi - 1]) && !Writes(stages, hi - 1, f);
    }
  }

  // ----- runs level after level -----

  ghost predicate DoneWriter(stages: seq<StageConfig>, done: set<Id>, f: File, w: int) {
    Writes(stages, w, f) && stages[w].id in done
  }

  /** Of the stages of `done` that write `f`, stage `w` alone is on the highest level. */
  ghost predicate Topmost(stages: seq<StageConfig>, levels: seq<nat>, done: set<Id>, f: File, w: int)
    requires |levels| == |stages|
  {
    && DoneWriter(stages, done, f, w)
    && forall v :: DoneWriter(stages, done, f, v) && v != w ==> levels[v] < levels[w]
  }

  ghost predicate MergedAt(run: Runner, stages: seq<StageConfig>, levels: seq<nat>, initial: Files,
                           done: set<Id>, files: Files, f: File)
    requires |levels| == |stages|
  {
    && (forall w :: Topmost(stages, levels, done, f, w) ==> SameAt(files, After(run, stages, initial, w + 1), f))
    && ((forall w :: !DoneWriter(stages, done, f, w)) ==> SameAt(files, initial, f))
  }

  /**
   * Each file is as its topmost writer of `done` leaves it in the given order, if there is one, and as
   * it was if none has written it.
   */
  ghost predicate Merged(run: Runner, stages: seq<StageConfig>, levels: seq<nat>, initial: Files,
                         done: set<Id>, files: Files)
    requires |levels| == |stages|
  {
    forall f :: MergedAt(run, stages, levels, initial, done, files, f)
  }

  /** All lower levels are done, and no higher one has begun. */
  ghost predicate AtLevel(stages: seq<StageConfig>, levels: seq<nat>, done: set<Id>, d: nat)
    requires |levels| == |stages|
  {
    forall k :: 0 <= k < |stages| ==>
      (levels[k] < d ==> stages[k].id in done) && (stages[k].id in done ==> levels[k] <= d)
  }

  /** The one writer that stage `i` is to read `f` from is the topmost one when its level has come. */
  lemma SourceIsTopmost(run: Runner, stages: seq<StageConfig>, levels: seq<nat>, done: set<Id>, i: nat, f: File, s: int)
    requires |levels| == |stages| && WellBehaved(run, stages, levels)
    requires i < |stages| && f in stages[i].inputs
    requires stages[i].id !in done && AtLevel(stages, levels, done, levels[i])
    requires -1 <= s < i && (s >= 0 ==> IsSource(stages, i, f, s))
    requires s == -1 ==> forall v :: 0 <= v < i ==> !Writes(stages, v, f)
    ensures s >= 0 ==> Topmost(stages, levels, done, f, s)
    ensures s == -1 ==> forall w :: !DoneWriter(stages, done, f, w)
  {
    hide TouchesDeclaredOnly, UniqueIds;
    if s >= 0 {
      assert Feeds(stages[s], stages[i]);
    }
    forall w | DoneWriter(stages, done, f, w) && w != s ensures s >= 0 && levels[w] < levels[s] {
      assert SourceKept(stages, levels, i, f, w);
    }
  }

  /** A stage whose level has come finds the same inputs as in the given order. */
  lemma SameInputs(run: Runner, stages: seq<StageConfig>, levels: seq<nat>, initial: Files,
                   done: set<Id>, files: Files, i: nat)
    requires |levels| == |stages| && WellBehaved(run, stages, levels)
    requires Merged(run, stages, levels, initial, done, files)
    requires i < |stages| && stages[i].id !in done && AtLevel(stages, levels, done, levels[i])
    ensures AgreeOn(stages[i].inputs, files, After(run, stages, initial, i))
  {
    hide TouchesDeclaredOnly, UniqueIds, Undisturbed, FeedersFirst, Topmost, DoneWriter, AtLevel;
    forall f | f in stages[i].inputs ensures SameAt(files, After(run, stages, initial, i), f) {
      assert MergedAt(run, stages, levels, initial, done, files, f);
      var s := LastWriter(stages, i, f);
      SourceIsTopmost(run, stages, levels, done, i, f, s);
      Unwritten(run, stages, initial, s + 1, i, f);
    }
  }

  /** So it succeeds or fails as there, and writes what it writes there. */
  lemma SameOutcome(run: Runner, stages: seq<StageConfig>, levels: seq<nat>, initial: Files,
                    done: set<Id>, files: Files, i: nat)
    requires |levels| == |stages| && WellBehaved(run, stages, levels)
    requires Merged(run, stages, levels, initial, done, files)
    requires i < |stages| && stages[i].id !in done && AtLevel(stages, levels, done, levels[i])
    ensures run(stages[i], files).success == SucceedsAt(run, stages, initial, i)
    ensures AgreeOn(stages[i].outputs, run(stages[i], files).files, After(run, stages, initial, i + 1))
  {
    SameInputs(run, stages, levels, initial, done, files, i);
    assert TouchesDeclaredOnly(run, stages[i]);
  }

  lemma MoreWriters(stages: seq<StageConfig>, done: set<Id>, i: nat, f: File)
    requires UniqueIds(stages) && i < |stages|
    ensures forall w :: DoneWriter(stages, done + {stages[i].id}, f, w) <==>
                        DoneWriter(stages, done, f, w) || (w == i && Writes(stages, i, f))
  {
  }

  lemma OutputMerged(run: Runner, stages: seq<StageConfig>, levels: seq<nat>, initial: Files,
                     done: set<Id>, files: Files, i: nat, f: File)
    requires |levels| == |stages| && UniqueIds(stages) && Writes(stages, i, f)
    requires AtLevel(stages, levels, done, levels[i])
    requires SameAt(files, After(run, stages, initial, i + 1), f)
    ensures MergedAt(run, stages, levels, initial, done + {stages[i].id}, files, f)
  {
    hide After, UniqueIds, SameAt;
    MoreWriters(stages, done, i, f);
    forall w | Topmost(stages, levels, done + {stages[i].id}, f, w) ensures w == i {
      assert DoneWriter(stages, done, f, w) || w == i;
    }
  }

  lemma OtherFileMerged(run: Runner, stages: seq<StageConfig>, levels: seq<nat>, initial: Files,
                        done: set<Id>, files: Files, after: Files, i: nat, f: File)
    requires |levels| == |stages| && UniqueIds(stages) && i < |stages| && !Writes(stages, i, f)
    requires MergedAt(run, stages, levels, initial, done, files, f) && SameAt(after, files, f)
    ensures MergedAt(run, stages, levels, initial, done + {stages[i].id}, after, f)
  {
    hide After, UniqueIds;
    MoreWriters(stages, done, i, f);
    forall w | Topmost(stages, levels, done + {stages[i].id}, f, w) ensures Topmost(stages, levels, done, f, w) {
    }
  }

  /** Putting a stage's outputs in place keeps the files merged. */
  lemma FinishKeepsMerged(run: Runner, stages: seq<StageConfig>, levels: seq<nat>, initial: Files,
                          done: set<Id>, files: Files, i: nat, written: Files)
    requires |levels| == |stages| && UniqueIds(stages) && i < |stages|
    requires Merged(run, stages, levels, initial, done, files)
    requires AtLevel(stages, levels, done, levels[i])
    requires AgreeOn(stages[i].outputs, written, After(run, stages, initial, i + 1))
    ensures Merged(run, stages, levels, initial, done + {stages[i].id}, Overlay(files, stages[i].outputs, written))
  {
    hide After, UniqueIds, AtLevel, MergedAt;
    var after := Overlay(files, stages[i].outputs, written);
    forall f ensures MergedAt(run, stages, levels, initial, done + {stages[i].id}, after, f) {
      if f in stages[i].outputs {
        OutputMerged(run, stages, levels, initial, done, after, i, f);
      } else {
        OtherFileMerged(run, stages, levels, initial, done, files, after, i, f);
      }
    }
  }

  /** With all stages done, the files are those the given order leaves. */
  lemma AllDone(run: Runner, stages: seq<StageConfig>, levels: seq<nat>, initial: Files, done: set<Id>, files: Files)
    requires |levels| == |stages| && WellBehaved(run, stages, levels)
    requires Merged(run, stages, levels, initial, done, files)
    requires forall i :: 0 <= i < |stages| ==> stages[i].id in done
    ensures files == After(run, stages, initial, |stages|)
  {
    hide TouchesDeclaredOnly, UniqueIds, FeedersFirst;
    forall f ensures SameAt(files, After(run, stages, initial, |stages|), f) {
      assert MergedAt(run, stages, levels, initial, done, files, f);
      var s := LastWriter(stages, |stages|, f);
      forall w | DoneWriter(stages, done, f, w) && w != s ensures s >= 0 && levels[w] < levels[s] {
        assert LastKept(stages, levels, f, w);
      }
      if s >= 0 {
        assert DoneWriter(stages, done, f, s);
        assert Topmost(stages, levels, done, f, s);
      }
      Unwritten(run, stages, initial, s + 1, |stages|, f);
    }
    SameEverywhere(files, After(run, stages, initial, |stages|));
  }
}
