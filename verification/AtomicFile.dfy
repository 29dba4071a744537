/**
 * Replacing a file through a temporary file and a rename: one write from start to end, and any
 * number of concurrent writers of one process, each free to fail or crash at any step.
 */
module AtomicFile {
  import opened Bytes
  import Decimal

  // A path without a final name, such as one ending in "..", has None.
  datatype Path = Path(directory: string, name: Option<string>)

  type Files = map<Path, Bytes>

  function TempName(name: Option<string>, id: nat): string {
    match name
    case None => ".veyora-tmp-" + Decimal.Print(id)
    case Some(n) => "." + n + ".veyora-tmp-" + Decimal.Print(id)
  }

  // Next to the target.
  function TempPath(target: Path, id: nat): Path {
    Path(target.directory, Some(TempName(target.name, id)))
  }

  lemma NoDashAfter(y: string, b: string, k: nat)
    requires Decimal.AllDigits(b) && |y| < k <= |y| + |b|
    ensures (y + "-" + b)[k] != '-'
  {
    assert (y + "-" + b)[k] == b[k - |y| - 1];
  }

  lemma SameNumeral(x: string, a: string, y: string, b: string)
    requires Decimal.AllDigits(a) && Decimal.AllDigits(b) && x + "-" + a == y + "-" + b
    ensures a == b
  {
    assert (x + "-" + a)[|x|] == '-' && (y + "-" + b)[|y|] == '-';
    if |x| > |y| {
      NoDashAfter(y, b, |x|);
    } else if |y| > |x| {
      NoDashAfter(x, a, |y|);
    } else {
      assert (x + "-" + a)[|x| + 1..] == a && (y + "-" + b)[|y| + 1..] == b;
    }
  }

  lemma TempNameSplits(name: Option<string>, id: nat) returns (before: string)
    ensures TempName(name, id) == before + "-" + Decimal.Print(id)
  {
    before := match name case None => ".veyora-tmp" case Some(n) => "." + n + ".veyora-tmp";
    match name {
      case None => assert ".veyora-tmp" + "-" == ".veyora-tmp-";
      case Some(n) => assert "." + n + ".veyora-tmp-" == "." + n + ".veyora-tmp" + "-";
    }
  }

  // A temporary name is longer than its target's.
  lemma TempIsNotTarget(target: Path, id: nat)
    ensures TempPath(target, id) != target
  {
    if target.name.Some? {
      assert |TempName(target.name, id)| > |target.name.value|;
    }
  }

  // Temporary names with different numbers differ, whatever their targets.
  lemma TempPathsDiffer(t: Path, id: nat, u: Path, other: nat)
    requires TempPath(t, id) == TempPath(u, other)
    ensures id == other
  {
    var x := TempNameSplits(t.name, id);
    var y := TempNameSplits(u.name, other);
    SameNumeral(x, Decimal.Print(id), y, Decimal.Print(other));
    Decimal.PrintInjective(id, other);
  }

  /* ---------- one write ---------- */

  // Where a write fails: the injected faults, and errors of the operations themselves.
  datatype Fault = NoFault | CreateTemp | WriteTemp | Flush | Rename
                 | CreateFails | WriteFails(written: nat) | SyncFails | RenameFails

  class FileSystem {
    var files: Files
    var counter: nat

    constructor (files: Files)
      ensures this.files == files && counter == 0
    {
      this.files, counter := files, 0;
    }

    method TakeTempPath(target: Path) returns (temp: Path)
      modifies this`counter
      ensures temp == TempPath(target, old(counter)) && counter == old(counter) + 1
    {
      temp := TempPath(target, counter);
      counter := counter + 1;
    }

    // A write reports success exactly when nothing fails. The target changes exactly when the
    // rename happens, then to the whole contents; no temporary file is left; nothing else changes.
    method WriteFile(target: Path, contents: Bytes, fault: Fault) returns (ok: bool)
      modifies this
      ensures counter == old(counter) + 1
      ensures ok <==> fault == NoFault
      ensures fault == NoFault || fault == Rename ==>
                files == (old(files) - {TempPath(target, old(counter))})[target := contents]
      ensures fault != NoFault && fault != Rename ==> files == old(files) - {TempPath(target, old(counter))}
    {
      TempIsNotTarget(target, counter);
      var temp := TakeTempPath(target);
      ok := WriteViaTemp(target, temp, contents, fault);
      if !ok {
        files := files - {temp};
      }
    }

    method WriteViaTemp(target: Path, temp: Path, contents: Bytes, fault: Fault) returns (ok: bool)
      requires target != temp
      modifies this`files
      ensures ok <==> fault == NoFault
      ensures fault == NoFault || fault == Rename ==> files == (old(files) - {temp})[target := contents]
      ensures fault != NoFault && fault != Rename ==> files - {temp} == old(files) - {temp}
    {
      if fault == CreateFails { return false; }
      files := files[temp := []];
      if fault == CreateTemp { return false; }
      if fault.WriteFails? {
        files := files[temp := contents[..if fault.written < |contents| then fault.written else |contents|]];
        return false;
      }
      files := files[temp := contents];
      if fault == WriteTemp || fault == SyncFails || fault == Flush || fault == RenameFails { return false; }
      files := (files - {temp})[target := files[temp]];
      ok := fault != Rename;
    }
  }

  /* ---------- concurrent writers ---------- */

  datatype Job = Job(target: Path, contents: Bytes)

  // How far a writer has come. Left: finished, but its temporary file could not be removed.
  datatype Progress =
    | Ready
    | Named(id: nat)
    | Open(id: nat, written: nat)
    | Synced(id: nat)
    | Renamed(id: nat)
    | Failing(id: nat)
    | Finished(id: nat, ok: bool)
    | Left(id: nat)
    | Dead(taken: Option<nat>)

  datatype Action = TakeName | Create | WriteMore(bytes: nat)
      | Sync | RenameOver | Report | Fail | Remove | RemoveFails | Crash

  datatype State = State(files: Files, counter: nat, writers: seq<Progress>, committed: seq<nat>)

  function IdOf(p: Progress): Option<nat> {
    match p
    case Ready => None
    case Dead(taken) => taken
    case _ => Some(p.id)
  }

  function Initial(jobs: seq<Job>, files: Files): State {
    State(files, 0, seq(|jobs|, _ => Ready), [])
  }

  predicate Enabled(jobs: seq<Job>, s: State, i: nat, action: Action) {
    i < |jobs| && |s.writers| == |jobs| &&
    var p := s.writers[i];
    match action
    case TakeName => p.Ready?
    case Create => p.Named?
    case WriteMore(bytes) => p.Open? && p.written + bytes <= |jobs[i].contents|
    case Sync => p.Open? && p.written == |jobs[i].contents|
    case RenameOver => p.Synced? && TempPath(jobs[i].target, p.id) in s.files
    case Report => p.Renamed?
    case Fail => p.Named? || p.Open? || p.Synced? || p.Renamed?
    case Remove => p.Failing?
    case RemoveFails => p.Failing?
    case Crash => !p.Finished? && !p.Left? && !p.Dead?
  }

  function Set(s: State, i: nat, p: Progress): State
    requires i < |s.writers|
  {
    s.(writers := s.writers[i := p])
  }

  function Next(jobs: seq<Job>, s: State, i: nat, action: Action): State
    requires Enabled(jobs, s, i, action)
  {
    var (job, p) := (jobs[i], s.writers[i]);
    match action
    case TakeName => Set(s, i, Named(s.counter)).(counter := s.counter + 1)
    case Create => Set(s, i, Open(p.id, 0)).(files := s.files[TempPath(job.target, p.id) := []])
    case WriteMore(bytes) =>
      var written := p.written + bytes;
      Set(s, i, Open(p.id, written)).(files := s.files[TempPath(job.target, p.id) := job.contents[..written]])
    case Sync => Set(s, i, Synced(p.id))
    case RenameOver =>
      var temp := TempPath(job.target, p.id);
      Set(s, i, Renamed(p.id)).(files := (s.files - {temp})[job.target := s.files[temp]],
          committed := s.committed + [i])
    case Report => Set(s, i, Finished(p.id, true))
    case Fail => Set(s, i, Failing(p.id))
    case Remove => Set(s, i, Finished(p.id, false)).(files := s.files - {TempPath(job.target, p.id)})
    case RemoveFails => Set(s, i, Left(p.id))
    case Crash => Set(s, i, Dead(IdOf(p)))
  }

  datatype Step = Step(writer: nat, action: Action)

  // The state after a run from the given files; None when some step was not enabled.
  function Run(jobs: seq<Job>, files: Files, steps: seq<Step>): Option<State> {
    if steps == [] then Some(Initial(jobs, files))
    else
      var (s, step) := (Run(jobs, files, steps[..|steps| - 1]), steps[|steps| - 1]);
      if s.Some? && Enabled(jobs, s.value, step.writer, step.action)
      then Some(Next(jobs, s.value, step.writer, step.action)) else None
  }

  function Lookup(files: Files, p: Path): Option<Bytes> {
    if p in files then Some(files[p]) else None
  }

  // What a path holds when only whole replacements count: the contents of the last writer to have
  // renamed over it, or else what it held at first.
  function Expected(jobs: seq<Job>, files: Files, committed: seq<nat>, p: Path): Option<Bytes> {
    if committed == [] then Lookup(files, p)
    else
      var last := committed[|committed| - 1];
      if last < |jobs| && jobs[last].target == p then Some(jobs[last].contents)
      else Expected(jobs, files, committed[..|committed| - 1], p)
  }

  // No target has the name of a temporary file that one of these writers can come to use: their
  // numbers stay below the number of writers.
  predicate TargetsAreNotTemps(jobs: seq<Job>) {
    forall i, j, id ::
      0 <= i < |jobs| && 0 <= j < |jobs| && 0 <= id < |jobs| ==> jobs[i].target != TempPath(jobs[j].target, id)
  }

  // Writer i's temporary file.
  predicate Owns(jobs: seq<Job>, s: State, i: nat, p: Path)
    requires i < |s.writers| == |jobs|
  {
    IdOf(s.writers[i]).Some? && p == TempPath(jobs[i].target, IdOf(s.writers[i]).value)
  }

  predicate Owned(jobs: seq<Job>, s: State, p: Path)
    requires |s.writers| == |jobs|
  {
    exists i :: 0 <= i < |jobs| && Owns(jobs, s, i, p)
  }

  // A writer's own temporary file holds what it has written so far, and is gone once it is done.
  predicate OwnFile(job: Job, progress: Progress, files: Files) {
    match progress
    case Open(id, written) =>
      written <= |job.contents| && Lookup(files, TempPath(job.target, id)) == Some(job.contents[..written])
    case Synced(id) => Lookup(files, TempPath(job.target, id)) == Some(job.contents)
    case Renamed(id) => TempPath(job.target, id) !in files
    case Finished(id, _) => TempPath(job.target, id) !in files
    case _ => true
  }

  predicate CommitHolds(progress: Progress, committed: bool) {
    match progress
    case Renamed(_) => committed
    case Finished(_, ok) => ok ==> committed
    case Failing(_) => true
    case Left(_) => true
    case Dead(_) => true
    case _ => !committed
  }

  predicate IdsDiffer(s: State, i: nat, j: nat)
    requires i < |s.writers| && j < |s.writers|
  {
    IdOf(s.writers[i]).Some? && IdOf(s.writers[i]) == IdOf(s.writers[j]) ==> i == j
  }

  // The writers that have taken a number.
  function Started(writers: seq<Progress>): (n: nat)
    ensures n <= |writers|
  {
    if writers == [] then 0 else Started(writers[1..]) + (if IdOf(writers[0]).Some? then 1 else 0)
  }

  predicate NameHolds(s: State, i: nat)
    requires i < |s.writers|
  {
    && (IdOf(s.writers[i]).Some? ==> IdOf(s.writers[i]).value < s.counter)
    && CommitHolds(s.writers[i], i in s.committed)
  }

  // What holds of numbers and reports, whatever the targets are called.
  ghost predicate NameInv(jobs: seq<Job>, s: State) {
    && |s.writers| == |jobs| && s.counter == Started(s.writers)
    && (forall i :: 0 <= i < |jobs| ==> NameHolds(s, i))
    && (forall i, j :: 0 <= i < |jobs| && 0 <= j < |jobs| ==> IdsDiffer(s, i, j))
  }

  predicate FileHolds(jobs: seq<Job>, s: State, i: nat)
    requires i < |s.writers| == |jobs|
  {
    OwnFile(jobs[i], s.writers[i], s.files)
  }

  ghost predicate Inv(jobs: seq<Job>, files: Files, s: State) {
    && NameInv(jobs, s)
    && (forall i :: 0 <= i < |jobs| ==> FileHolds(jobs, s, i))
    && (forall c :: c in s.committed ==> c < |jobs|)
    && (forall p :: !Owned(jobs, s, p) ==> Lookup(s.files, p) == Expected(jobs, files, s.committed, p))
  }

  /* ---------- every step keeps the invariants ---------- */

  lemma {:induction false} StartedAfter(writers: seq<Progress>, i: nat, p: Progress)
    requires i < |writers|
    ensures Started(writers[i := p])
              == Started(writers) - (if IdOf(writers[i]).Some? then 1 else 0) + (if IdOf(p).Some? then 1 else 0)
  {
    if i == 0 {
      assert writers[i := p][1..] == writers[1..];
    } else {
      StartedAfter(writers[1..], i - 1, p);
      assert writers[i := p][1..] == writers[1..][i - 1 := p];
    }
  }

  lemma NameStepFacts(jobs: seq<Job>, s: State, i: nat, action: Action)
    requires Enabled(jobs, s, i, action) && NameHolds(s, i)
    ensures var t := Next(jobs, s, i, action);
            t.writers == s.writers[i := t.writers[i]] && NameHolds(t, i)
            && (forall j :: j != i ==> (j in t.committed <==> j in s.committed))
            && if action.TakeName? then
                 IdOf(s.writers[i]).None? && IdOf(t.writers[i]) == Some(s.counter) && t.counter == s.counter + 1
               else IdOf(t.writers[i]) == IdOf(s.writers[i]) && t.counter == s.counter
  {
  }

  lemma NextKeepsNames(jobs: seq<Job>, s: State, i: nat, action: Action)
    requires NameInv(jobs, s) && Enabled(jobs, s, i, action)
    ensures NameInv(jobs, Next(jobs, s, i, action))
  {
    var t := Next(jobs, s, i, action);
    assert NameHolds(s, i);
    NameStepFacts(jobs, s, i, action);
    StartedAfter(s.writers, i, t.writers[i]);
    hide Next, Enabled, CommitHolds, Started;
    forall j | 0 <= j < |jobs| ensures NameHolds(t, j) {
      assert NameHolds(s, j);
    }
    forall j, k | 0 <= j < |jobs| && 0 <= k < |jobs| ensures IdsDiffer(t, j, k) {
      assert IdsDiffer(s, j, k) && NameHolds(s, j) && NameHolds(s, k);
    }
  }

  // Nothing but writer i's temporary file has changed.
  ghost predicate OnlyTempChanged(jobs: seq<Job>, s: State, t: State, i: nat)
    requires i < |s.writers| == |jobs|
  {
    forall p :: !Owns(jobs, s, i, p) ==> Lookup(t.files, p) == Lookup(s.files, p)
  }

  lemma OthersHold(jobs: seq<Job>, s: State, t: State, j: nat)
    requires j < |jobs| == |s.writers| == |t.writers| && t.writers[j] == s.writers[j] && FileHolds(jobs, s, j)
    requires forall p :: Owns(jobs, s, j, p) ==> Lookup(t.files, p) == Lookup(s.files, p)
    ensures FileHolds(jobs, t, j)
  {
    if IdOf(s.writers[j]).Some? {
      var p := TempPath(jobs[j].target, IdOf(s.writers[j]).value);
      assert Owns(jobs, s, j, p);
      assert p in t.files <==> p in s.files;
    }
  }

  lemma DifferentTemps(jobs: seq<Job>, s: State, i: nat, j: nat, p: Path)
    requires NameInv(jobs, s) && i < |jobs| && j < |jobs| && i != j && Owns(jobs, s, j, p)
    ensures !Owns(jobs, s, i, p)
  {
    assert IdsDiffer(s, i, j);
    hide NameInv, TempPath;
    if Owns(jobs, s, i, p) {
      TempPathsDiffer(jobs[i].target, IdOf(s.writers[i]).value, jobs[j].target, IdOf(s.writers[j]).value);
    }
  }

  lemma SameOwners(jobs: seq<Job>, s: State, t: State)
    requires |s.writers| == |jobs| == |t.writers|
    requires forall j :: 0 <= j < |jobs| ==> IdOf(t.writers[j]) == IdOf(s.writers[j])
    ensures forall p :: Owned(jobs, t, p) <==> Owned(jobs, s, p)
  {
    forall p ensures Owned(jobs, t, p) <==> Owned(jobs, s, p) {
      assert forall j :: 0 <= j < |jobs| ==> (Owns(jobs, t, j, p) <==> Owns(jobs, s, j, p));
    }
  }

  // A step of writer i that changes at most its temporary file.
  lemma OwnStepKeeps(jobs: seq<Job>, files: Files, s: State, t: State, i: nat)
    requires Inv(jobs, files, s) && NameInv(jobs, t) && i < |jobs|
    requires t.writers == s.writers[i := t.writers[i]] && IdOf(t.writers[i]) == IdOf(s.writers[i])
    requires t.committed == s.committed && OnlyTempChanged(jobs, s, t, i) && FileHolds(jobs, t, i)
    ensures Inv(jobs, files, t)
  {
    forall j | 0 <= j < |jobs| ensures FileHolds(jobs, t, j) {
      if j != i {
        forall p | Owns(jobs, s, j, p) ensures Lookup(t.files, p) == Lookup(s.files, p) {
          DifferentTemps(jobs, s, i, j, p);
        }
        OthersHold(jobs, s, t, j);
      }
    }
    SameOwners(jobs, s, t);
    forall p | !Owned(jobs, t, p) ensures Lookup(t.files, p) == Expected(jobs, files, t.committed, p) {
      assert !Owned(jobs, s, p) && !Owns(jobs, s, i, p);
    }
  }

  lemma TakeNameKeeps(jobs: seq<Job>, files: Files, s: State, i: nat)
    requires Inv(jobs, files, s) && Enabled(jobs, s, i, TakeName)
    ensures Inv(jobs, files, Next(jobs, s, i, TakeName))
  {
    var t := Next(jobs, s, i, TakeName);
    NextKeepsNames(jobs, s, i, TakeName);
    forall j | 0 <= j < |jobs| ensures FileHolds(jobs, t, j) {
      assert FileHolds(jobs, s, j);
    }
    forall p | !Owned(jobs, t, p) ensures Lookup(t.files, p) == Expected(jobs, files, t.committed, p) {
      forall j | 0 <= j < |jobs| ensures !Owns(jobs, s, j, p) {
        assert !Owns(jobs, t, j, p);
      }
      assert !Owned(jobs, s, p);
    }
  }

  // No target is a temporary file that some writer has the name of.
  lemma TargetsAreNotOwned(jobs: seq<Job>, s: State, i: nat, j: nat)
    requires TargetsAreNotTemps(jobs) && NameInv(jobs, s) && i < |jobs| && j < |jobs|
    ensures !Owns(jobs, s, j, jobs[i].target)
  {
    assert NameHolds(s, j);
    if IdOf(s.writers[j]).Some? {
      assert jobs[i].target != TempPath(jobs[j].target, IdOf(s.writers[j]).value);
    }
  }

  lemma RenameKeeps(jobs: seq<Job>, files: Files, s: State, i: nat)
    requires TargetsAreNotTemps(jobs) && Inv(jobs, files, s) && Enabled(jobs, s, i, RenameOver)
    ensures Inv(jobs, files, Next(jobs, s, i, RenameOver))
  {
    var t := Next(jobs, s, i, RenameOver);
    var (target, id) := (jobs[i].target, s.writers[i].id);
    NextKeepsNames(jobs, s, i, RenameOver);
    TargetsAreNotOwned(jobs, s, i, i);
    assert FileHolds(jobs, s, i) && Owns(jobs, s, i, TempPath(target, id));
    forall j | 0 <= j < |jobs| ensures FileHolds(jobs, t, j) {
      if j != i {
        TargetsAreNotOwned(jobs, s, i, j);
        forall p | Owns(jobs, s, j, p) ensures Lookup(t.files, p) == Lookup(s.files, p) {
          DifferentTemps(jobs, s, i, j, p);
        }
        OthersHold(jobs, s, t, j);
      }
    }
    SameOwners(jobs, s, t);
    assert t.committed[..|t.committed| - 1] == s.committed;
    forall p | !Owned(jobs, t, p) ensures Lookup(t.files, p) == Expected(jobs, files, t.committed, p) {
      assert !Owned(jobs, s, p) && !Owns(jobs, s, i, p);
    }
  }

  lemma NextKeeps(jobs: seq<Job>, files: Files, s: State, i: nat, action: Action)
    requires TargetsAreNotTemps(jobs) && Inv(jobs, files, s) && Enabled(jobs, s, i, action)
    ensures Inv(jobs, files, Next(jobs, s, i, action))
  {
    if action.TakeName? {
      TakeNameKeeps(jobs, files, s, i);
    } else if action.RenameOver? {
      RenameKeeps(jobs, files, s, i);
    } else {
      NextKeepsNames(jobs, s, i, action);
      assert FileHolds(jobs, s, i);
      OwnStepFacts(jobs, s, i, action);
      hide Inv, Enabled, Next, NameInv;
      OwnStepKeeps(jobs, files, s, Next(jobs, s, i, action), i);
    }
  }

  lemma OwnStepFacts(jobs: seq<Job>, s: State, i: nat, action: Action)
    requires Enabled(jobs, s, i, action) && FileHolds(jobs, s, i) && !action.TakeName? && !action.RenameOver?
    ensures var t := Next(jobs, s, i, action);
            t.writers == s.writers[i := t.writers[i]] && IdOf(t.writers[i]) == IdOf(s.writers[i])
            && t.committed == s.committed && OnlyTempChanged(jobs, s, t, i) && FileHolds(jobs, t, i)
  {
    var contents := jobs[i].contents;
    assert contents[..0] == [] && contents[..|contents|] == contents;
  }

  lemma {:induction false} NoneStarted(writers: seq<Progress>)
    requires forall p :: p in writers ==> p.Ready?
    ensures Started(writers) == 0
  {
    if writers != [] {
      assert writers[0] in writers;
      NoneStarted(writers[1..]);
    }
  }

  lemma InitialHolds(jobs: seq<Job>, files: Files)
    ensures NameInv(jobs, Initial(jobs, files)) && Inv(jobs, files, Initial(jobs, files))
  {
    NoneStarted(Initial(jobs, files).writers);
  }

  lemma {:induction false} RunKeepsNames(jobs: seq<Job>, files: Files, steps: seq<Step>)
    requires Run(jobs, files, steps).Some?
    ensures NameInv(jobs, Run(jobs, files, steps).value)
  {
    hide Next, Enabled, NameInv;
    if steps == [] {
      InitialHolds(jobs, files);
    } else {
      var before := steps[..|steps| - 1];
      var step := steps[|steps| - 1];
      RunKeepsNames(jobs, files, before);
      NextKeepsNames(jobs, Run(jobs, files, before).value, step.writer, step.action);
    }
  }

  lemma {:induction false} RunKeeps(jobs: seq<Job>, files: Files, steps: seq<Step>)
    requires TargetsAreNotTemps(jobs) && Run(jobs, files, steps).Some?
    ensures Inv(jobs, files, Run(jobs, files, steps).value)
  {
    hide Next, Enabled, Inv;
    if steps == [] {
      InitialHolds(jobs, files);
    } else {
      var before := steps[..|steps| - 1];
      var step := steps[|steps| - 1];
      RunKeeps(jobs, files, before);
      NextKeeps(jobs, files, Run(jobs, files, before).value, step.writer, step.action);
    }
  }

  /* ---------- whole runs ---------- */

  // Every path that is no writer's temporary file, targets above all, holds the whole contents of
  // the last writer to have renamed over it, or what it held before the run.
  lemma LastReplacementWins(jobs: seq<Job>, files: Files, steps: seq<Step>, p: Path)
    requires TargetsAreNotTemps(jobs) && Run(jobs, files, steps).Some?
    ensures var s := Run(jobs, files, steps).value;
            |s.writers| == |jobs|
            && (!Owned(jobs, s, p) ==> Lookup(s.files, p) == Expected(jobs, files, s.committed, p))
  {
    RunKeeps(jobs, files, steps);
  }

  lemma {:induction false} ExpectedIsOldOrComplete(jobs: seq<Job>, files: Files, committed: seq<nat>, p: Path)
    ensures var e := Expected(jobs, files, committed, p);
            e == Lookup(files, p)
            || exists j :: j in committed && j < |jobs| && jobs[j].target == p && e == Some(jobs[j].contents)
  {
    if committed != [] {
      ExpectedIsOldOrComplete(jobs, files, committed[..|committed| - 1], p);
    }
  }

  // The target of writer i holds its initial bytes or the complete contents of one writer of that
  // target.
  predicate OldOrComplete(jobs: seq<Job>, files: Files, s: State, i: nat)
    requires i < |jobs|
  {
    var found := Lookup(s.files, jobs[i].target);
    found == Lookup(files, jobs[i].target)
    || exists j :: j in s.committed && j < |jobs| && jobs[j].target == jobs[i].target && found == Some(jobs[j].contents)
  }

  // Whoever looks at a target, at any moment, finds it so.
  lemma TargetIsOldOrComplete(jobs: seq<Job>, files: Files, steps: seq<Step>, i: nat)
    requires TargetsAreNotTemps(jobs) && Run(jobs, files, steps).Some? && i < |jobs|
    ensures OldOrComplete(jobs, files, Run(jobs, files, steps).value, i)
  {
    RunKeeps(jobs, files, steps);
    var s := Run(jobs, files, steps).value;
    hide Run;
    forall j | 0 <= j < |jobs| ensures !Owns(jobs, s, j, jobs[i].target) {
      TargetsAreNotOwned(jobs, s, i, j);
    }
    assert !Owned(jobs, s, jobs[i].target);
    ExpectedIsOldOrComplete(jobs, files, s.committed, jobs[i].target);
  }

  // No two writers ever have the same temporary file.
  lemma TemporaryNamesDiffer(jobs: seq<Job>, files: Files, steps: seq<Step>, i: nat, j: nat)
    requires Run(jobs, files, steps).Some? && i < |jobs| && j < |jobs| && i != j
    ensures var s := Run(jobs, files, steps).value;
            |s.writers| == |jobs|
            && (IdOf(s.writers[i]).Some? && IdOf(s.writers[j]).Some? ==>
                  TempPath(jobs[i].target, IdOf(s.writers[i]).value)
                    != TempPath(jobs[j].target, IdOf(s.writers[j]).value))
  {
    RunKeepsNames(jobs, files, steps);
    var s := Run(jobs, files, steps).value;
    hide Run;
    if IdOf(s.writers[i]).Some? && IdOf(s.writers[j]).Some? {
      DifferentTemps(jobs, s, i, j, TempPath(jobs[j].target, IdOf(s.writers[j]).value));
    }
  }

  // Once every writer has finished, without a crash and with every removal done, no temporary file
  // of theirs remains, and the files are exactly the initial ones with the replacements made.
  lemma NoTemporaryRemains(jobs: seq<Job>, files: Files, steps: seq<Step>, p: Path)
    requires TargetsAreNotTemps(jobs) && Run(jobs, files, steps).Some?
    requires forall w :: w in Run(jobs, files, steps).value.writers ==> w.Finished?
    ensures var s := Run(jobs, files, steps).value;
            |s.writers| == |jobs|
            && Lookup(s.files, p) == if Owned(jobs, s, p) then None else Expected(jobs, files, s.committed, p)
  {
    RunKeeps(jobs, files, steps);
    var s := Run(jobs, files, steps).value;
    hide Run;
    if Owned(jobs, s, p) {
      var i :| 0 <= i < |jobs| && Owns(jobs, s, i, p);
      assert s.writers[i] in s.writers && FileHolds(jobs, s, i);
    }
  }

  // A writer that reports success has replaced its target.
  lemma SuccessIsCommitted(jobs: seq<Job>, files: Files, steps: seq<Step>, i: nat)
    requires Run(jobs, files, steps).Some? && i < |jobs|
    ensures var s := Run(jobs, files, steps).value;
            |s.writers| == |jobs| && (s.writers[i].Finished? && s.writers[i].ok ==> i in s.committed)
  {
    RunKeepsNames(jobs, files, steps);
    var s := Run(jobs, files, steps).value;
    hide Run;
    assert NameHolds(s, i);
  }

  /* ---------- targets named like temporary files ---------- */

  // Writers take names one after the other, all but writer j.
  function TakeNames(count: nat, j: nat): seq<Step> {
    if count == 0 then []
    else TakeNames(count - 1, j) + [Step(if count - 1 < j then count - 1 else count, TakeName)]
  }

  lemma RunOneMore(jobs: seq<Job>, files: Files, steps: seq<Step>, step: Step)
    requires Run(jobs, files, steps).Some? && Enabled(jobs, Run(jobs, files, steps).value, step.writer, step.action)
    ensures Run(jobs, files, steps + [step])
         == Some(Next(jobs, Run(jobs, files, steps).value, step.writer, step.action))
  {
    var all := steps + [step];
    assert all[..|all| - 1] == steps && all[|all| - 1] == step;
    hide Next, Enabled;
  }

  lemma {:induction false} NamesTaken(jobs: seq<Job>, count: nat, j: nat)
    requires j < |jobs| && count < |jobs|
    ensures var run := Run(jobs, map[], TakeNames(count, j));
            run.Some? && run.value.files == map[] && run.value.committed == [] && run.value.counter == count
            && |run.value.writers| == |jobs| && run.value.writers[j].Ready?
            && forall k :: (if count < j then count else count + 1) <= k < |jobs| ==> run.value.writers[k].Ready?
  {
    if count > 0 {
      NamesTaken(jobs, count - 1, j);
      RunOneMore(jobs, map[], TakeNames(count - 1, j), Step(if count - 1 < j then count - 1 else count, TakeName));
      hide Run;
    }
  }

  // A target that has the name of a temporary file can be found empty before any writer has replaced
  // anything: enough writers take names, and then the writer of that file creates it.
  lemma TempNamedTargetIsExposed(jobs: seq<Job>, i: nat, j: nat, id: nat) returns (steps: seq<Step>)
    requires i < |jobs| && j < |jobs| && id < |jobs| && jobs[i].target == TempPath(jobs[j].target, id)
    ensures Run(jobs, map[], steps).Some? && !OldOrComplete(jobs, map[], Run(jobs, map[], steps).value, i)
  {
    var taken := TakeNames(id, j);
    NamesTaken(jobs, id, j);
    RunOneMore(jobs, map[], taken, Step(j, TakeName));
    RunOneMore(jobs, map[], taken + [Step(j, TakeName)], Step(j, Create));
    hide Run;
    steps := taken + [Step(j, TakeName)] + [Step(j, Create)];
  }

  // For every starting point, at every moment of every run, every target is old or complete.
  ghost predicate AlwaysOldOrComplete(jobs: seq<Job>) {
    forall files, steps, i: nat :: StaysOldOrComplete(jobs, files, steps, i)
  }

  predicate StaysOldOrComplete(jobs: seq<Job>, files: Files, steps: seq<Step>, i: nat) {
    Run(jobs, files, steps).Some? && i < |jobs| ==> OldOrComplete(jobs, files, Run(jobs, files, steps).value, i)
  }

  // Replacement is atomic exactly when no target has the name of a temporary file of these writers.
  lemma AtomicExactlyWhen(jobs: seq<Job>)
    ensures AlwaysOldOrComplete(jobs) <==> TargetsAreNotTemps(jobs)
  {
    if TargetsAreNotTemps(jobs) {
      forall files, steps, i: nat ensures StaysOldOrComplete(jobs, files, steps, i) {
        if Run(jobs, files, steps).Some? && i < |jobs| { TargetIsOldOrComplete(jobs, files, steps, i); }
      }
    } else {
      var i, j, id :|
        0 <= i < |jobs| && 0 <= j < |jobs| && 0 <= id < |jobs| && jobs[i].target == TempPath(jobs[j].target, id);
      var steps := TempNamedTargetIsExposed(jobs, i, j, id);
      assert !StaysOldOrComplete(jobs, map[], steps, i);
    }
  }
}
