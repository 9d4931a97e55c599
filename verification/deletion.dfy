/** The guarded deletion flows: `delete_category` removes the files of one
    category bucket, `delete_by_ext` those of the scan whose extension key
    matches an argument. Both may narrow the list by age, both ask the
    operator first, and both try every removal in turn, counting what was
    removed and reporting what was not. The clock, the operator's answer and
    the file system are inputs here: `now` in whole seconds, the answer line
    as typed, and a `FileSystem` object standing for `os.remove`. */
module Deletion {
  import opened Options
  import opened Text
  import opened Paths
  import opened Classifier
  import opened Entries
  import opened Aggregator

  const SecondsPerDay: int := 86400

  // ---------------------------------------------------------------------
  // The confirmation gate

  /** The test `confirm` applies to the answer line: stripped of surrounding
      whitespace and lower-cased, it must be `y` or `yes`. */
  predicate Affirmative(answer: string) {
    IsYes(Lower(Strip(answer)))
  }

  predicate IsYes(a: string) {
    a == "y" || a == "yes"
  }

  /** `answer[i..j]` is `y` or `yes` in any case, with only whitespace
      before and after it. */
  predicate PaddedYes(answer: string, i: int, j: int) {
    && 0 <= i < j <= |answer|
    && (forall k :: 0 <= k < i ==> IsSpace(answer[k]))
    && (forall k :: j <= k < |answer| ==> IsSpace(answer[k]))
    && IsYes(Lower(answer[i..j]))
  }

  /** An answer is affirmative exactly when it is `y` or `yes`, in any case,
      with only whitespace around it. */
  lemma AffirmativeSpec(answer: string)
    ensures Affirmative(answer) <==> exists i, j :: PaddedYes(answer, i, j)
  {
    if Affirmative(answer) {
      StripSpec(answer);
      var r := Strip(answer);
      var i, j := Lead(answer), Lead(answer) + |r|;
      assert answer[i..j] == r;
      assert PaddedYes(answer, i, j);
    }
    if exists i, j :: PaddedYes(answer, i, j) {
      var i, j :| PaddedYes(answer, i, j);
      PaddedYesIsStripped(answer, i, j);
    }
  }

  /** The padding around a `y`/`yes` is exactly what stripping removes. */
  lemma PaddedYesIsStripped(answer: string, i: int, j: int)
    requires PaddedYes(answer, i, j)
    ensures Strip(answer) == answer[i..j]
  {
    var core := answer[i..j];
    assert LowerChar(core[0]) == Lower(core)[0];
    assert LowerChar(core[|core| - 1]) == Lower(core)[|core| - 1];
    StripOfPadded(answer, i, j);
  }

  /** `y` and `yes`, each letter in either case, confirm without padding:
      `Y`, `YES`, `yEs`. */
  lemma AnyCaseYesConfirms(answer: string)
    requires |answer| == 1 || |answer| == 3
    requires LowerChar(answer[0]) == 'y'
    requires |answer| == 3 ==> LowerChar(answer[1]) == 'e' && LowerChar(answer[2]) == 's'
    ensures Affirmative(answer)
  {
    var l := Lower(answer);
    assert l[0] == 'y';
    if |answer| == 1 {
      assert l == "y";
    } else {
      assert l[1] == 'e' && l[2] == 's';
      assert l == "yes";
    }
    AffirmativeUnpadded(answer);
  }

  /** An answer with no whitespace at either end confirms exactly when it
      is `y` or `yes` in any case. */
  lemma AffirmativeUnpadded(answer: string)
    requires answer == [] || (!IsSpace(answer[0]) && !IsSpace(answer[|answer| - 1]))
    ensures Affirmative(answer) <==> IsYes(Lower(answer))
  {
    StripTrimmed(answer);
    assert Affirmative(answer) == IsYes(Lower(Strip(answer)));
  }

  /** An unpadded answer of any length other than one or three declines:
      an empty line, a prefix `ye`, or `yes` with a space inside. */
  lemma WrongLengthDeclines(answer: string)
    requires answer == [] || (!IsSpace(answer[0]) && !IsSpace(answer[|answer| - 1]))
    requires |answer| != 1 && |answer| != 3
    ensures !Affirmative(answer)
  {
    var l := Lower(answer);
    YesLength(l);
    assert !IsYes(l);
    AffirmativeUnpadded(answer);
  }

  lemma YesLength(a: string)
    ensures IsYes(a) ==> |a| == 1 || |a| == 3
  {
  }

  /** An unpadded answer that does not start with `y` or `Y` declines:
      `n`, `no`, `nope`, as the prompt's `[y/N]` suggests. */
  lemma OtherInitialDeclines(answer: string)
    requires answer != [] && !IsSpace(answer[0]) && !IsSpace(answer[|answer| - 1])
    requires LowerChar(answer[0]) != 'y'
    ensures !Affirmative(answer)
  {
    var l := Lower(answer);
    YesInitial(l);
    AffirmativeUnpadded(answer);
  }

  lemma YesInitial(a: string)
    ensures IsYes(a) ==> a[0] == 'y'
  {
  }

  // ---------------------------------------------------------------------
  // Selecting what to delete

  /** The entries modified strictly before `cutoff`, in their order. */
  function Older(es: seq<Entry>, cutoff: int): seq<Entry> {
    if es == [] then []
    else
      var e := es[|es| - 1];
      Older(es[..|es| - 1], cutoff) + (if e.mtime < cutoff then [e] else [])
  }

  lemma {:induction false} OlderSpec(es: seq<Entry>, cutoff: int)
    ensures forall e :: e in Older(es, cutoff) <==> e in es && e.mtime < cutoff
    ensures |Older(es, cutoff)| <= |es|
  {
    if es != [] {
      var init, e := es[..|es| - 1], es[|es| - 1];
      assert es == init + [e];
      OlderSpec(init, cutoff);
    }
  }

  /** The age filter never adds bytes: what it keeps weighs at most what
      it was given. */
  lemma {:induction false} OlderBytes(es: seq<Entry>, cutoff: int)
    ensures TotalSize(Older(es, cutoff)) <= TotalSize(es)
  {
    if es != [] {
      var init, e := es[..|es| - 1], es[|es| - 1];
      OlderBytes(init, cutoff);
      assert TotalSize(es) == TotalSize(init) + e.size;
      if e.mtime < cutoff {
        assert Older(es, cutoff) == Older(init, cutoff) + [e];
        TotalSizeAppend(Older(init, cutoff), e);
      } else {
        assert Older(es, cutoff) == Older(init, cutoff) + [];
        assert Older(init, cutoff) + [] == Older(init, cutoff);
      }
    }
  }

  /** The list of `delete_category` is drawn from its bucket: never longer,
      never heavier. */
  lemma CategoryPlanBounds(paths: seq<Entry>, minAgeDays: Option<int>, now: int)
    ensures |CategoryPlan(paths, minAgeDays, now)| <= |paths|
    ensures TotalSize(CategoryPlan(paths, minAgeDays, now)) <= TotalSize(paths)
  {
    if minAgeDays.Some? {
      OlderSpec(paths, now - minAgeDays.value * SecondsPerDay);
      OlderBytes(paths, now - minAgeDays.value * SecondsPerDay);
    }
  }

  lemma OlderAppend(es: seq<Entry>, e: Entry, cutoff: int)
    ensures Older(es + [e], cutoff) == Older(es, cutoff) + (if e.mtime < cutoff then [e] else [])
  {
    assert (es + [e])[..|es|] == es;
  }

  /** `delete_category`'s list: with an age limit of `d` days (zero
      included), the entries modified before `now - d * 86400`; without
      one, all of them. */
  function CategoryPlan(paths: seq<Entry>, minAgeDays: Option<int>, now: int): seq<Entry> {
    match minAgeDays
    case None => paths
    case Some(d) => Older(paths, now - d * SecondsPerDay)
  }

  /** The candidates of `delete_by_ext`: the scanned entries whose extension
      key equals the normalised argument, in scan order. */
  function ExtCandidates(es: seq<Entry>, ext: string): seq<Entry> {
    if es == [] then []
    else
      var e := es[|es| - 1];
      ExtCandidates(es[..|es| - 1], ext) + (if ExtOf(e.path) == NormaliseExt(ext) then [e] else [])
  }

  /** The candidates are exactly the scanned entries with the normalised
      extension, and never more than the scan. */
  lemma {:induction false} ExtCandidatesSpec(es: seq<Entry>, ext: string)
    ensures forall e :: e in ExtCandidates(es, ext) <==> e in es && ExtOf(e.path) == NormaliseExt(ext)
    ensures |ExtCandidates(es, ext)| <= |es|
  {
    if es != [] {
      var init, e := es[..|es| - 1], es[|es| - 1];
      assert es == init + [e];
      ExtCandidatesSpec(init, ext);
    }
  }

  /** `delete_by_ext`'s cutoff: computed only for a truthy day count, that
      is, one that is present and non-zero. */
  function ExtCutoff(minAgeDays: Option<int>, now: int): Option<int> {
    match minAgeDays
    case Some(d) => if d != 0 then Some(now - d * SecondsPerDay) else None
    case None => None
  }

  /** Whether `delete_by_ext`'s loop skips a candidate: the cutoff must be
      truthy (present and non-zero) and the file not older than it. */
  predicate Skipped(cutoff: Option<int>, e: Entry) {
    cutoff.Some? && cutoff.value != 0 && e.mtime >= cutoff.value
  }

  /** The candidates `delete_by_ext`'s loop does not skip, in order. */
  function ExtPlan(cands: seq<Entry>, cutoff: Option<int>): seq<Entry> {
    if cands == [] then []
    else
      var e := cands[|cands| - 1];
      ExtPlan(cands[..|cands| - 1], cutoff) + (if Skipped(cutoff, e) then [] else [e])
  }

  /** The loop's filter is the age filter for a truthy cutoff and no filter
      otherwise. */
  lemma {:induction false} ExtPlanSpec(cands: seq<Entry>, cutoff: Option<int>)
    ensures cutoff.Some? && cutoff.value != 0 ==> ExtPlan(cands, cutoff) == Older(cands, cutoff.value)
    ensures cutoff.None? || cutoff.value == 0 ==> ExtPlan(cands, cutoff) == cands
  {
    if cands != [] {
      var init := cands[..|cands| - 1];
      ExtPlanSpec(init, cutoff);
      assert init + [cands[|cands| - 1]] == cands;
    }
  }

  lemma ExtPlanAppend(cands: seq<Entry>, e: Entry, cutoff: Option<int>)
    ensures ExtPlan(cands + [e], cutoff) == ExtPlan(cands, cutoff) + (if Skipped(cutoff, e) then [] else [e])
  {
    assert (cands + [e])[..|cands|] == cands;
  }

  // ---------------------------------------------------------------------
  // The removal loop

  /** What a removal loop has done so far: files removed, bytes freed, the
      entries whose removal failed (each reported and skipped), and the
      files still present. */
  datatype Sweep = Sweep(deleted: nat, freed: nat, failed: seq<Entry>, files: set<Path>)

  /** `os.remove` succeeds on a present, unlocked file. */
  predicate Removable(files: set<Path>, locked: set<Path>, p: Path) {
    p in files && p !in locked
  }

  /** The reference removal loop over `plan`, starting from the files
      `files`, with `locked` the files whose removal fails. */
  function RemoveAll(plan: seq<Entry>, files: set<Path>, locked: set<Path>): Sweep {
    if plan == [] then Sweep(0, 0, [], files)
    else
      var w := RemoveAll(plan[..|plan| - 1], files, locked);
      var e := plan[|plan| - 1];
      if Removable(w.files, locked, e.path)
      then Sweep(w.deleted + 1, w.freed + e.size, w.failed, w.files - {e.path})
      else Sweep(w.deleted, w.freed, w.failed + [e], w.files)
  }

  lemma RemoveAllAppend(plan: seq<Entry>, e: Entry, files: set<Path>, locked: set<Path>)
    ensures var w := RemoveAll(plan, files, locked);
      RemoveAll(plan + [e], files, locked)
        == if Removable(w.files, locked, e.path)
           then Sweep(w.deleted + 1, w.freed + e.size, w.failed, w.files - {e.path})
           else Sweep(w.deleted, w.freed, w.failed + [e], w.files)
  {
    assert (plan + [e])[..|plan|] == plan;
  }

  /** Every planned removal either succeeds or is reported: the successes and
      the failures together account for the whole plan, in count and in
      bytes. So at most the plan's files and bytes are removed. */
  lemma {:induction false} RemoveAllAccounts(plan: seq<Entry>, files: set<Path>, locked: set<Path>)
    ensures var w := RemoveAll(plan, files, locked);
      w.deleted + |w.failed| == |plan| && w.freed + TotalSize(w.failed) == TotalSize(plan)
  {
    if plan != [] {
      var init, e := plan[..|plan| - 1], plan[|plan| - 1];
      assert plan == init + [e];
      RemoveAllAccounts(init, files, locked);
      TotalSizeAppend(init, e);
      TotalSizeAppend(RemoveAll(init, files, locked).failed, e);
    }
  }

  /** The files left are the files before, less the planned ones that could
      be removed: nothing outside the plan is touched. */
  lemma {:induction false} RemoveAllFiles(plan: seq<Entry>, files: set<Path>, locked: set<Path>)
    ensures RemoveAll(plan, files, locked).files == files - (PathSet(plan) - locked)
  {
    if plan != [] {
      var init, e := plan[..|plan| - 1], plan[|plan| - 1];
      assert plan == init + [e];
      RemoveAllFiles(init, files, locked);
      PathSetAppend(init, e);
    }
  }

  /** A file the loop removed was present, unlocked and planned. */
  lemma {:induction false} RemovedWasPlanned(plan: seq<Entry>, files: set<Path>, locked: set<Path>, p: Path)
    requires p in files && p !in RemoveAll(plan, files, locked).files
    ensures p !in locked
    ensures exists i :: 0 <= i < |plan| && plan[i].path == p
  {
    var init, e := plan[..|plan| - 1], plan[|plan| - 1];
    if p !in RemoveAll(init, files, locked).files {
      RemovedWasPlanned(init, files, locked, p);
      var i :| 0 <= i < |init| && init[i].path == p;
      assert plan[i] == init[i];
    } else {
      assert e.path == p;
    }
  }

  lemma PathSetAppend(es: seq<Entry>, e: Entry)
    ensures PathSet(es + [e]) == PathSet(es) + {e.path}
  {
  }

  /** When the planned files are distinct, present and unlocked, every
      removal succeeds and the whole plan is freed. */
  lemma {:induction false} RemoveAllSucceeds(plan: seq<Entry>, files: set<Path>, locked: set<Path>)
    requires forall i :: 0 <= i < |plan| ==> Removable(files, locked, plan[i].path)
    requires forall i, j :: 0 <= i < j < |plan| ==> plan[i].path != plan[j].path
    ensures var w := RemoveAll(plan, files, locked);
      w.deleted == |plan| && w.freed == TotalSize(plan) && w.failed == []
  {
    if plan != [] {
      var init, e := plan[..|plan| - 1], plan[|plan| - 1];
      assert plan == init + [e];
      RemoveAllSucceeds(init, files, locked);
      RemoveAllFiles(init, files, locked);
      TotalSizeAppend(init, e);
      assert e.path !in PathSet(init);
    }
  }

  // ---------------------------------------------------------------------
  // The file system

  /** The files `os.remove` acts on. A removal succeeds when the file is
      present and not locked (held open, read-only, not permitted); any
      other removal raises, which the flows catch. */
  class FileSystem {
    var files: set<Path>
    const locked: set<Path>

    constructor(files: set<Path>, locked: set<Path>)
      ensures this.files == files && this.locked == locked
    {
      this.files := files;
      this.locked := locked;
    }

    /** `os.remove(path)`: on success the file is gone; on failure nothing
        changes. */
    method Remove(p: Path) returns (ok: bool)
      modifies this
      ensures ok == Removable(old(files), locked, p)
      ensures files == if ok then old(files) - {p} else old(files)
    {
      ok := p in files && p !in locked;
      if ok {
        files := files - {p};
      }
    }
  }

  // ---------------------------------------------------------------------
  // The two flows

  /** What a deletion flow reports: whether it asked the operator, and the
      removal loop's result (nothing removed when it did not ask or was
      refused). */
  datatype Outcome = Outcome(prompted: bool, sweep: Sweep)

  function Untouched(files: set<Path>): Sweep {
    Sweep(0, 0, [], files)
  }

  /** The reference `delete_category`: it always asks, even when the age
      filter left nothing; a refusal removes nothing. */
  function CategoryDeletion(paths: seq<Entry>, minAgeDays: Option<int>, now: int, confirmed: bool,
                            files: set<Path>, locked: set<Path>): Outcome {
    var plan := CategoryPlan(paths, minAgeDays, now);
    if confirmed then Outcome(true, RemoveAll(plan, files, locked))
    else Outcome(true, Untouched(files))
  }

  /** The reference `delete_by_ext`: no candidates means no question; the
      age cutoff applies only inside the loop, after the answer. */
  function ExtDeletion(es: seq<Entry>, ext: string, minAgeDays: Option<int>, now: int, confirmed: bool,
                       files: set<Path>, locked: set<Path>): Outcome {
    var cands := ExtCandidates(es, ext);
    if cands == [] then Outcome(false, Untouched(files))
    else if !confirmed then Outcome(true, Untouched(files))
    else Outcome(true, RemoveAll(ExtPlan(cands, ExtCutoff(minAgeDays, now)), files, locked))
  }

  /** One removal attempt of either loop: remove the entry's file, counting
      it on success and reporting it on failure. */
  method TryRemove(fs: FileSystem, e: Entry, deleted: nat, freed: nat, failed: seq<Entry>)
    returns (deleted': nat, freed': nat, failed': seq<Entry>)
    modifies fs
    ensures var w := if Removable(old(fs.files), fs.locked, e.path)
                     then Sweep(deleted + 1, freed + e.size, failed, old(fs.files) - {e.path})
                     else Sweep(deleted, freed, failed + [e], old(fs.files));
      Sweep(deleted', freed', failed', fs.files) == w
  {
    var ok := fs.Remove(e.path);
    deleted', freed', failed' := deleted, freed, failed;
    if ok {
      deleted' := deleted + 1;
      freed' := freed + e.size;
    } else {
      failed' := failed + [e];
    }
  }

  /** `delete_category(paths, min_age_days)`, where `answer` is the line
      the operator types at the prompt. */
  method DeleteCategory(fs: FileSystem, paths: seq<Entry>, minAgeDays: Option<int>, now: int, answer: string)
    returns (deleted: nat, freed: nat, failed: seq<Entry>)
    modifies fs
    ensures CategoryDeletion(paths, minAgeDays, now, Affirmative(answer), old(fs.files), fs.locked).sweep
         == Sweep(deleted, freed, failed, fs.files)
  {
    var toDelete := CategoryPlan(paths, minAgeDays, now);
    if !Affirmative(answer) {
      return 0, 0, [];
    }
    deleted, freed, failed := 0, 0, [];
    var i := 0;
    while i < |toDelete|
      invariant 0 <= i <= |toDelete|
      invariant RemoveAll(toDelete[..i], old(fs.files), fs.locked) == Sweep(deleted, freed, failed, fs.files)
    {
      var e := toDelete[i];
      RemoveAllAppend(toDelete[..i], e, old(fs.files), fs.locked);
      deleted, freed, failed := TryRemove(fs, e, deleted, freed, failed);
      PrefixNext(toDelete, i);
      i := i + 1;
    }
    assert toDelete[..i] == toDelete;
  }

  /** `delete_by_ext(root, ext, min_age_days)` over the scan `es`, asking
      with `answer` the line the operator types at the prompt; `prompted`
      says whether the question was asked. */
  method DeleteByExt(fs: FileSystem, es: seq<Entry>, ext: string, minAgeDays: Option<int>, now: int, answer: string)
    returns (prompted: bool, deleted: nat, freed: nat, failed: seq<Entry>)
    modifies fs
    ensures ExtDeletion(es, ext, minAgeDays, now, Affirmative(answer), old(fs.files), fs.locked)
         == Outcome(prompted, Sweep(deleted, freed, failed, fs.files))
  {
    var candidates := ExtCandidates(es, ext);
    if candidates == [] {
      return false, 0, 0, [];
    }
    prompted := true;
    if !Affirmative(answer) {
      return prompted, 0, 0, [];
    }
    deleted, freed, failed := RemoveOlder(fs, candidates, ExtCutoff(minAgeDays, now));
  }

  /** `delete_by_ext`'s removal loop: skip the candidates that are not older
      than a truthy cutoff, and try to remove the others. */
  method RemoveOlder(fs: FileSystem, candidates: seq<Entry>, cutoff: Option<int>)
    returns (deleted: nat, freed: nat, failed: seq<Entry>)
    modifies fs
    ensures RemoveAll(ExtPlan(candidates, cutoff), old(fs.files), fs.locked) == Sweep(deleted, freed, failed, fs.files)
  {
    deleted, freed, failed := 0, 0, [];
    var i := 0;
    while i < |candidates|
      invariant 0 <= i <= |candidates|
      invariant RemoveAll(ExtPlan(candidates[..i], cutoff), old(fs.files), fs.locked)
             == Sweep(deleted, freed, failed, fs.files)
    {
      ExtPlanNext(candidates, i, cutoff);
      deleted, freed, failed := VisitCandidate(fs, candidates[i], cutoff, deleted, freed, failed,
                                               ExtPlan(candidates[..i], cutoff), old(fs.files));
      i := i + 1;
    }
    assert candidates[..i] == candidates;
  }

  /** The plan of the loop of `delete_by_ext` after one more candidate. */
  lemma ExtPlanNext(candidates: seq<Entry>, i: nat, cutoff: Option<int>)
    requires i < |candidates|
    ensures ExtPlan(candidates[..i + 1], cutoff)
         == ExtPlan(candidates[..i], cutoff) + (if Skipped(cutoff, candidates[i]) then [] else [candidates[i]])
  {
    PrefixNext(candidates, i);
    ExtPlanAppend(candidates[..i], candidates[i], cutoff);
  }

  /** One iteration of the loop of `delete_by_ext`: a skipped candidate is
      passed over, any other is tried for removal. Starting from the sweep
      of `plan`, the result is the sweep of the plan extended accordingly. */
  method VisitCandidate(fs: FileSystem, c: Entry, cutoff: Option<int>, deleted: nat, freed: nat,
                        failed: seq<Entry>, ghost plan: seq<Entry>, ghost files: set<Path>)
    returns (deleted': nat, freed': nat, failed': seq<Entry>)
    modifies fs
    requires RemoveAll(plan, files, fs.locked) == Sweep(deleted, freed, failed, fs.files)
    ensures RemoveAll(plan + (if Skipped(cutoff, c) then [] else [c]), files, fs.locked)
         == Sweep(deleted', freed', failed', fs.files)
  {
    if Skipped(cutoff, c) {
      assert plan + [] == plan;
      deleted', freed', failed' := deleted, freed, failed;
    } else {
      RemoveAllAppend(plan, c, files, fs.locked);
      deleted', freed', failed' := TryRemove(fs, c, deleted, freed, failed);
    }
  }

  // ---------------------------------------------------------------------
  // What the flows promise

  /** A refusal removes nothing and reports `(0, 0)`, in both flows. */
  lemma RefusalIsHarmless(es: seq<Entry>, paths: seq<Entry>, ext: string, minAgeDays: Option<int>, now: int,
                          files: set<Path>, locked: set<Path>)
    ensures CategoryDeletion(paths, minAgeDays, now, false, files, locked).sweep == Sweep(0, 0, [], files)
    ensures ExtDeletion(es, ext, minAgeDays, now, false, files, locked).sweep == Sweep(0, 0, [], files)
  {
  }

  /** `delete_category` asks even when its age filter leaves nothing. */
  lemma CategoryAlwaysAsks(paths: seq<Entry>, minAgeDays: Option<int>, now: int, confirmed: bool,
                           files: set<Path>, locked: set<Path>)
    ensures CategoryDeletion(paths, minAgeDays, now, confirmed, files, locked).prompted
  {
  }

  /** `delete_by_ext` asks exactly when some scanned file has the
      normalised extension, whatever the age limit. */
  lemma ExtAsksIffCandidates(es: seq<Entry>, ext: string, minAgeDays: Option<int>, now: int, confirmed: bool,
                             files: set<Path>, locked: set<Path>)
    ensures ExtDeletion(es, ext, minAgeDays, now, confirmed, files, locked).prompted
        <==> exists e :: e in es && ExtOf(e.path) == NormaliseExt(ext)
  {
    ExtCandidatesSpec(es, ext);
    var cands := ExtCandidates(es, ext);
    if cands != [] {
      assert cands[0] in cands;
    }
  }

  /** Without candidates `delete_by_ext` neither asks nor removes anything. */
  lemma ExtNoCandidates(es: seq<Entry>, ext: string, minAgeDays: Option<int>, now: int, confirmed: bool,
                        files: set<Path>, locked: set<Path>)
    requires forall e :: e in es ==> ExtOf(e.path) != NormaliseExt(ext)
    ensures ExtDeletion(es, ext, minAgeDays, now, confirmed, files, locked) == Outcome(false, Sweep(0, 0, [], files))
  {
    ExtCandidatesSpec(es, ext);
    NonEmptyHasHead(ExtCandidates(es, ext));
  }

  lemma NonEmptyHasHead(s: seq<Entry>)
    ensures s != [] ==> s[0] in s
  {
  }

  /** With an age limit of `d` days, `delete_category` removes only files of
      entries modified before `now - d * 86400`; zero days is a real limit
      (files from the future or from this very second are kept). */
  lemma CategoryAgeSafety(paths: seq<Entry>, d: int, now: int, confirmed: bool,
                          files: set<Path>, locked: set<Path>, p: Path)
    requires p in files && p !in CategoryDeletion(paths, Some(d), now, confirmed, files, locked).sweep.files
    ensures exists e :: e in paths && e.path == p && e.mtime < now - d * SecondsPerDay
  {
    var cutoff := now - d * SecondsPerDay;
    var plan := Older(paths, cutoff);
    var w := RemoveAll(plan, files, locked);
    assert CategoryDeletion(paths, Some(d), now, confirmed, files, locked).sweep.files
        == if confirmed then w.files else files;
    RemovedWasPlanned(plan, files, locked, p);
    var i :| 0 <= i < |plan| && plan[i].path == p;
    OlderSpec(paths, cutoff);
    assert plan[i] in plan;
  }

  /** Without an age limit `delete_category` plans the whole bucket. */
  lemma CategoryNoLimit(paths: seq<Entry>, now: int)
    ensures CategoryPlan(paths, None, now) == paths
  {
  }

  /** With a truthy age limit of `d` days and a non-zero cutoff,
      `delete_by_ext` removes only files of matching entries modified before
      `now - d * 86400`. */
  lemma ExtAgeSafety(es: seq<Entry>, ext: string, d: int, now: int, confirmed: bool,
                     files: set<Path>, locked: set<Path>, p: Path)
    requires d != 0 && now - d * SecondsPerDay != 0
    requires p in files && p !in ExtDeletion(es, ext, Some(d), now, confirmed, files, locked).sweep.files
    ensures exists e :: e in es && e.path == p && ExtOf(e.path) == NormaliseExt(ext)
                        && e.mtime < now - d * SecondsPerDay
  {
    var cands := ExtCandidates(es, ext);
    var cutoff := now - d * SecondsPerDay;
    var plan := Older(cands, cutoff);
    ExtPlanSpec(cands, Some(cutoff));
    var w := RemoveAll(plan, files, locked);
    assert ExtDeletion(es, ext, Some(d), now, confirmed, files, locked).sweep.files
        == if cands != [] && confirmed then w.files else files;
    RemovedWasPlanned(plan, files, locked, p);
    var i :| 0 <= i < |plan| && plan[i].path == p;
    OlderSpec(cands, cutoff);
    assert plan[i] in plan;
    ExtCandidatesSpec(es, ext);
  }

  /** Whatever the age limit, `delete_by_ext` removes only files of scanned
      entries whose extension key is the normalised argument. */
  lemma ExtRemovesOnlyCandidates(es: seq<Entry>, ext: string, minAgeDays: Option<int>, now: int,
                                 confirmed: bool, files: set<Path>, locked: set<Path>, p: Path)
    requires p in files && p !in ExtDeletion(es, ext, minAgeDays, now, confirmed, files, locked).sweep.files
    ensures exists e :: e in es && e.path == p && ExtOf(e.path) == NormaliseExt(ext)
  {
    var cands := ExtCandidates(es, ext);
    var cutoff := ExtCutoff(minAgeDays, now);
    var plan := ExtPlan(cands, cutoff);
    var w := RemoveAll(plan, files, locked);
    assert ExtDeletion(es, ext, minAgeDays, now, confirmed, files, locked).sweep.files
        == if cands != [] && confirmed then w.files else files;
    RemovedWasPlanned(plan, files, locked, p);
    var i :| 0 <= i < |plan| && plan[i].path == p;
    assert plan[i] in plan;
    ExtPlanSpec(cands, cutoff);
    if cutoff.Some? && cutoff.value != 0 {
      OlderSpec(cands, cutoff.value);
    }
    ExtCandidatesSpec(es, ext);
  }

  /** A day count of zero (or none) means no age limit for `delete_by_ext`:
      every candidate is planned. */
  lemma ExtZeroDaysIsNoLimit(cands: seq<Entry>, now: int)
    ensures ExtPlan(cands, ExtCutoff(Some(0), now)) == cands
    ensures ExtPlan(cands, ExtCutoff(None, now)) == cands
  {
    ExtPlanSpec(cands, None);
  }

  /** The truthiness test on the cutoff itself: when `now - d * 86400` is
      exactly zero the loop skips nothing, so a matching file is removed
      whatever its modification time, even one newer than the cutoff. */
  lemma ExtZeroCutoffRemovesAnyAge(e: Entry, ext: string, d: int, locked: set<Path>)
    requires ExtOf(e.path) == NormaliseExt(ext) && d != 0 && e.path !in locked
    ensures ExtDeletion([e], ext, Some(d), d * SecondsPerDay, true, {e.path}, locked).sweep.files == {}
  {
    var cands := ExtCandidates([e], ext);
    assert [e][..0] == [];
    assert ExtCandidates([], ext) == [];
    assert cands == [] + [e];
    assert ExtCutoff(Some(d), d * SecondsPerDay) == Some(0);
    ExtPlanSpec(cands, Some(0));
    var w0 := RemoveAll([], {e.path}, locked);
    assert w0.files == {e.path};
    assert Removable(w0.files, locked, e.path);
    RemoveAllAppend([], e, {e.path}, locked);
    assert [] + [e] == [e];
  }

  /** The accounting of either flow: removals and reported failures add up
      to the planned entries, in count and in bytes. */
  lemma CategoryAccounts(paths: seq<Entry>, minAgeDays: Option<int>, now: int, confirmed: bool,
                         files: set<Path>, locked: set<Path>)
    ensures var w := CategoryDeletion(paths, minAgeDays, now, confirmed, files, locked).sweep;
      var plan := CategoryPlan(paths, minAgeDays, now);
      w.deleted + |w.failed| <= |plan| && w.freed + TotalSize(w.failed) <= TotalSize(plan)
      && (confirmed ==> w.deleted + |w.failed| == |plan| && w.freed + TotalSize(w.failed) == TotalSize(plan))
      && w.deleted <= |paths| && w.freed <= TotalSize(paths)
  {
    RemoveAllAccounts(CategoryPlan(paths, minAgeDays, now), files, locked);
    CategoryPlanBounds(paths, minAgeDays, now);
  }

  lemma ExtAccounts(es: seq<Entry>, ext: string, minAgeDays: Option<int>, now: int, confirmed: bool,
                    files: set<Path>, locked: set<Path>)
    ensures var w := ExtDeletion(es, ext, minAgeDays, now, confirmed, files, locked).sweep;
      var plan := ExtPlan(ExtCandidates(es, ext), ExtCutoff(minAgeDays, now));
      w.deleted + |w.failed| <= |plan| && w.freed + TotalSize(w.failed) <= TotalSize(plan)
      && w.deleted <= |ExtCandidates(es, ext)| && w.freed <= TotalSize(ExtCandidates(es, ext))
  {
    var cands := ExtCandidates(es, ext);
    var cutoff := ExtCutoff(minAgeDays, now);
    RemoveAllAccounts(ExtPlan(cands, cutoff), files, locked);
    ExtPlanSpec(cands, cutoff);
    if cutoff.Some? && cutoff.value != 0 {
      OlderSpec(cands, cutoff.value);
      OlderBytes(cands, cutoff.value);
    }
  }

  /** `delete_category` removes only files its list names. */
  lemma CategoryRemovesOnlyListed(paths: seq<Entry>, minAgeDays: Option<int>, now: int, confirmed: bool,
                                  files: set<Path>, locked: set<Path>, p: Path)
    requires p in files && p !in CategoryDeletion(paths, minAgeDays, now, confirmed, files, locked).sweep.files
    ensures exists e :: e in paths && e.path == p
  {
    var plan := CategoryPlan(paths, minAgeDays, now);
    var w := RemoveAll(plan, files, locked);
    assert CategoryDeletion(paths, minAgeDays, now, confirmed, files, locked).sweep.files
        == if confirmed then w.files else files;
    RemovedWasPlanned(plan, files, locked, p);
    var i :| 0 <= i < |plan| && plan[i].path == p;
    assert plan[i] in plan;
    if minAgeDays.Some? {
      OlderSpec(paths, now - minAgeDays.value * SecondsPerDay);
    }
  }

  /** Deleting the list the pass kept for category `c` removes only files
      of the scan that the classifier files under `c`. */
  lemma CategoryDeletionStaysInCategory(es: seq<Entry>, c: Category, minAgeDays: Option<int>, now: int,
                                        confirmed: bool, files: set<Path>, locked: set<Path>, p: Path)
    requires p in files
    requires p !in CategoryDeletion(CategoryPaths(es)[c], minAgeDays, now, confirmed, files, locked).sweep.files
    ensures exists e :: e in es && e.path == p && CategoryOf(p) == c
  {
    CategorySpec(es);
    CategoryRemovesOnlyListed(Bucket(es, c), minAgeDays, now, confirmed, files, locked, p);
    BucketSpec(es, c);
  }
}
