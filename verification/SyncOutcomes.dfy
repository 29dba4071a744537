/**
 * What can still become of a write: exactly which issued writes commit in some continuation of a
 * run, whatever requests were given up and arrive late, and which are lost for good.
 */
module SyncOutcomes {
  import opened Bytes
  import opened RecordStore
  import opened SyncProtocol
  import opened SyncQueues

  /* ---------- committed, and still under way ---------- */

  // The place the write asks for is taken, by that write.
  predicate Committed(s: State, w: Write) {
    SlotTaken(s, w) && Log(s, w.record)[Slot(w)].uid == w.uid
  }

  // A write commits nowhere else.
  lemma CommittedIsAnywhere(s: State, w: Write)
    requires Inv(s) && IsIssued(s, w)
    ensures Committed(s, w) <==> exists r, k :: k < |Log(s, r)| && 0 <= k && Log(s, r)[k].uid == w.uid
  {
    forall r, k | 0 <= k < |Log(s, r)| && Log(s, r)[k].uid == w.uid ensures r == w.record && k == Slot(w) {
      assert CommitIssued(s, r, s.log[r][k]) && RecordHolds(s.rows[r], s.log[r]);
    }
  }

  // The call may yet bring the write to the store: its request is not handled, or it is a save that
  // will be queued if its response is lost, or a flush that has the write still to replay.
  predicate Carries(c: Call, w: Write) {
    || (WriteOf(c.op) == Some(w) && (!c.phase.Answered? || c.op.Save?))
    || (c.op.Replay? && w in c.op.rest && !c.phase.Abandoned?)
  }

  ghost predicate UnderWay(s: State, w: Write) {
    (exists k :: k in s.calls && Carries(s.calls[k], w)) || exists client :: w in Queue(s, client)
  }

  // Neither committed nor able to: its place is another's, or nothing carries it any more.
  ghost predicate Hopeless(s: State, w: Write) {
    !Committed(s, w) && (SlotTaken(s, w) || !UnderWay(s, w))
  }

  /* ---------- what no step brings back ---------- */

  // The same call at a later time: nothing more happens to an answered one but its removal, and
  // what is abandoned stays so.
  predicate GoesOn(before: Call, c: Call) {
    before.client == c.client && before.op == c.op && (before.phase.Sent? || before.phase == c.phase)
  }

  lemma AnswerGoesOn(s: State, t: State, j: nat, reply: Reply, k: nat)
    requires t.calls == s.calls && j in s.calls && !s.calls[j].phase.Answered? && k in Answer(t, j, reply).calls
    ensures k in s.calls && GoesOn(s.calls[k], Answer(t, j, reply).calls[k])
  {
  }

  lemma FailGoesOn(s: State, j: nat, k: nat)
    requires Enabled(s, Fail(j)) && k in Next(s, Fail(j)).calls
    ensures k in s.calls && GoesOn(s.calls[k], Next(s, Fail(j)).calls[k])
  {
    var c := s.calls[j];
    var t := if c.phase.Sent? then s.(calls := s.calls[j := c.(phase := Abandoned)]) else s.(calls := s.calls - {j});
    assert Next(s, Fail(j)).calls == t.calls by { hide Queue, Enqueue; }
    hide Next, Unreachable, Queue, Enabled;
  }

  lemma CarriedBefore(before: Call, c: Call, w: Write)
    requires GoesOn(before, c) && Carries(c, w)
    ensures Carries(before, w)
  {
  }

  // A call that a step begins carries no write that nothing carried before, except a new one.
  lemma StartCarries(s: State, step: Step, k: nat, w: Write)
    requires step.StartSave? || step.StartDelete? || step.StartRestore? || step.StartFlush?
    requires Enabled(s, step) && w.uid < s.nextUid && k in Next(s, step).calls && Carries(Next(s, step).calls[k], w)
    ensures (k in s.calls && Carries(s.calls[k], w)) || (step.StartFlush? && w in Queue(s, step.client))
  {
    if k == s.nextCall && step.StartFlush? {
      var queue := Queue(s, step.client);
      assert queue == [queue[0]] + queue[1..];
    }
    hide Queue;
  }

  lemma ReplyCarries(s: State, client: nat, op: Op, reply: Reply, k: nat, w: Write)
    requires w.uid < s.nextUid && k in Received(s, client, op, reply).calls
    requires Carries(Received(s, client, op, reply).calls[k], w)
    ensures (k in s.calls && Carries(s.calls[k], w)) || (op.Replay? && w in op.rest)
  {
    if op.Replay? {
      BeginsAfterReplay(s, client, op.w, op.rest, reply);
      if op.rest != [] { assert op.rest == [op.rest[0]] + op.rest[1..]; }
      hide Received;
    } else {
      OtherReplyCarries(s, client, op, reply, k, w);
    }
  }

  lemma OtherReplyCarries(s: State, client: nat, op: Op, reply: Reply, k: nat, w: Write)
    requires w.uid < s.nextUid && !op.Replay? && k in Received(s, client, op, reply).calls
    requires Carries(Received(s, client, op, reply).calls[k], w)
    ensures k in s.calls && Carries(s.calls[k], w)
  {
  }

  lemma DeliverCarries(s: State, j: nat, k: nat, w: Write)
    requires Enabled(s, Deliver(j)) && w.uid < s.nextUid
    requires k in Next(s, Deliver(j)).calls && Carries(Next(s, Deliver(j)).calls[k], w)
    ensures exists i :: i in s.calls && Carries(s.calls[i], w)
  {
    var c := s.calls[j];
    hide Received;
    ReplyCarries(s.(calls := s.calls - {j}), c.client, c.op, c.phase.reply, k, w);
    if c.op.Replay? && w in c.op.rest { assert Carries(s.calls[j], w); }
  }

  lemma HandledCarries(s: State, step: Step, k: nat, w: Write)
    requires (step.Handle? || step.Refuse?) && Enabled(s, step)
    requires k in Next(s, step).calls && Carries(Next(s, step).calls[k], w)
    ensures k in s.calls && Carries(s.calls[k], w)
  {
    var j := step.call;
    hide HandleOp, Answer;
    if step.Handle? {
      HandleLeavesQueues(s, s.calls[j].op);
      AnswerGoesOn(s, HandleOp(s, s.calls[j].op).0, j, HandleOp(s, s.calls[j].op).1, k);
    } else {
      AnswerGoesOn(s, s, j, Refused, k);
    }
    CarriedBefore(s.calls[k], Next(s, step).calls[k], w);
  }

  lemma FailCarries(s: State, j: nat, k: nat, w: Write)
    requires Enabled(s, Fail(j)) && k in Next(s, Fail(j)).calls && Carries(Next(s, Fail(j)).calls[k], w)
    ensures k in s.calls && Carries(s.calls[k], w)
  {
    FailGoesOn(s, j, k);
    CarriedBefore(s.calls[k], Next(s, Fail(j)).calls[k], w);
    hide *;
  }

  // Whatever carries an issued write after a step, something carried it before.
  lemma CarriedOn(s: State, step: Step, k: nat, w: Write)
    requires Enabled(s, step) && w.uid < s.nextUid
    requires k in Next(s, step).calls && Carries(Next(s, step).calls[k], w)
    ensures UnderWay(s, w)
  {
    hide Next, Enabled, Carries, Queue;
    match step
    case Handle(_) => HandledCarries(s, step, k, w);
    case Refuse(_) => HandledCarries(s, step, k, w);
    case Deliver(j) => DeliverCarries(s, j, k, w);
    case Fail(j) => FailCarries(s, j, k, w);
    case _ => StartCarries(s, step, k, w);
  }

  lemma QueuedOn(s: State, step: Step, client: nat, w: Write)
    requires Enabled(s, step) && w in Queue(Next(s, step), client)
    ensures UnderWay(s, w)
  {
    QueueAfterStep(s, step, client, w);
    hide Next, Queue;
    if EventOf(s, step, client, w.record) == Queued(w) {
      assert Carries(s.calls[step.call], w);
    }
  }

  lemma UnderWayBefore(s: State, step: Step, w: Write)
    requires Inv(s) && IsIssued(s, w) && Enabled(s, step) && UnderWay(Next(s, step), w)
    ensures UnderWay(s, w)
  {
    assert w.uid < s.nextUid;
    var t := Next(s, step);
    hide Inv, Next, Enabled, Carries, Queue;
    if k :| k in t.calls && Carries(t.calls[k], w) {
      CarriedOn(s, step, k, w);
    } else {
      var client :| w in Queue(t, client);
      QueuedOn(s, step, client, w);
    }
  }

  lemma HandledLog(s: State, k: nat)
    requires k in s.calls && !s.calls[k].phase.Answered?
    ensures Next(s, Handle(k)).log == HandleOp(s, s.calls[k].op).0.log
  {
    HandleLeavesQueues(s, s.calls[k].op);
    hide HandleOp;
  }

  lemma ReplyLeavesLog(s: State, client: nat, op: Op, reply: Reply)
    ensures Received(s, client, op, reply).log == s.log
  {
    hide Queue, Without;
  }

  // Only the store's handling of a request changes any record's history.
  lemma SameLog(s: State, step: Step)
    requires Enabled(s, step) && !step.Handle?
    ensures Next(s, step).log == s.log
  {
    if step.Deliver? {
      var c := s.calls[step.call];
      ReplyLeavesLog(s.(calls := s.calls - {step.call}), c.client, c.op, c.phase.reply);
    }
    hide Queue, Received, Enqueue;
  }

  lemma PutCommits(s: State, w: Write, x: Write)
    requires !Committed(s, x) && Committed(HandlePut(s, w).0, x)
    ensures w.uid == x.uid
  {
    PutFacts(s, w);
    hide HandlePut, Put, RevisionOf;
  }

  lemma DeleteCommits(s: State, w: Write, x: Write)
    requires w.expected.Some? && !Committed(s, x) && Committed(HandleDelete(s, w).0, x)
    ensures w.uid == x.uid
  {
    DeleteFacts(s, w);
    hide HandleDelete, Tombstone;
  }

  lemma CommitsByHandling(s: State, step: Step, x: Write)
    requires Inv(s) && IsIssued(s, x) && Enabled(s, step) && !Committed(s, x) && Committed(Next(s, step), x)
    ensures UnderWay(s, x)
  {
    OnlyHandlingCommits(s, step, x);
    var c := s.calls[step.call];
    CallStartable(s, step.call);
    hide Inv, Next, HandlePut, HandleDelete, Committed;
    if c.op.Delete? { DeleteCommits(s, c.op.w, x); } else { PutCommits(s, WriteOf(c.op).value, x); }
    assert Carries(c, x);
  }

  lemma OnlyHandlingCommits(s: State, step: Step, x: Write)
    requires Enabled(s, step) && !Committed(s, x) && Committed(Next(s, step), x)
    ensures step.Handle? && !s.calls[step.call].op.RestoreRead? && Committed(HandleOp(s, s.calls[step.call].op).0, x)
  {
    hide Next, HandlePut, HandleDelete;
    if step.Handle? { HandledLog(s, step.call); } else { SameLog(s, step); }
  }

  lemma HopelessStays(s: State, step: Step, w: Write)
    requires Inv(s) && IsIssued(s, w) && Enabled(s, step) && Hopeless(s, w)
    ensures IsIssued(Next(s, step), w) && Hopeless(Next(s, step), w)
  {
    var t := Next(s, step);
    NextKeeps(s, step);
    StaysKnown(s, t, w);
    assert Log(s, w.record) <= Log(t, w.record);
    hide Inv, Next, Enabled, Log, UnderWay;
    if !SlotTaken(s, w) {
      if Committed(t, w) { CommitsByHandling(s, step, w); }
      if UnderWay(t, w) { UnderWayBefore(s, step, w); }
    }
  }

  lemma RunNext(steps: seq<Step>, step: Step)
    requires Run(steps).Some? && Enabled(Run(steps).value, step)
    ensures Run(steps + [step]) == Some(Next(Run(steps).value, step))
  {
    hide Next, Enabled;
    var all := steps + [step];
    assert all[..|all| - 1] == steps && all[|all| - 1] == step;
  }

  // No continuation of the run commits the write.
  ghost predicate NeverCommits(steps: seq<Step>, w: Write) {
    forall more :: !CommittedAfter(steps + more, w)
  }

  lemma {:induction false} HopelessForEver(steps: seq<Step>, more: seq<Step>, w: Write)
    requires Run(steps + more).Some? && Run(steps).Some?
    requires IsIssued(Run(steps).value, w) && Hopeless(Run(steps).value, w)
    ensures IsIssued(Run(steps + more).value, w) && Hopeless(Run(steps + more).value, w)
    decreases |more|
  {
    hide *;
    if more == [] {
      assert steps + more == steps;
    } else {
      var (before, step) := (steps + more[..|more| - 1], more[|more| - 1]);
      LastStep(steps + more, before, step);
      HopelessForEver(steps, more[..|more| - 1], w);
      RunKeeps(before);
      HopelessStays(Run(before).value, step, w);
    }
  }

  lemma LastStep(all: seq<Step>, before: seq<Step>, step: Step)
    requires all == before + [step] && Run(all).Some?
    ensures Run(before).Some? && Enabled(Run(before).value, step) && Run(all).value == Next(Run(before).value, step)
  {
    hide Next, Enabled;
    assert all[..|all| - 1] == before && all[|all| - 1] == step;
  }

  /* ---------- what can still be brought about ---------- */

  lemma PutIsGranted(s: State, w: Write)
    requires StoreInv(s) && Plausible(s, w) && !SlotTaken(s, w)
    ensures Committed(HandlePut(s, w).0, w)
  {
    PutFacts(s, w);
    if RevisionOf(s.rows, w.record) != w.expected {
      RefusedPutIsLate(s, w);
    } else {
      GrantedPutIsNext(s, w);
      hide StoreInv, HandlePut, Put, RevisionOf, Plausible;
    }
  }

  lemma DeleteIsGranted(s: State, w: Write)
    requires StoreInv(s) && Plausible(s, w) && !SlotTaken(s, w) && w.expected.Some?
    ensures Committed(HandleDelete(s, w).0, w)
  {
    DeleteFacts(s, w);
    StoreAt(s, w.record);
    hide StoreInv, HandleDelete, Tombstone;
  }

  // A write for a place that is free is granted as soon as a request for it is handled.
  lemma HandlingCommits(s: State, k: nat, w: Write)
    requires Inv(s) && k in s.calls && !s.calls[k].phase.Answered? && WriteOf(s.calls[k].op) == Some(w)
    requires !SlotTaken(s, w)
    ensures Committed(Next(s, Handle(k)), w)
  {
    var op := s.calls[k].op;
    CallStartable(s, k);
    InvHasStore(s);
    PlausibleAt(s, w);
    hide Inv, StoreInv, HandlePut, HandleDelete;
    HandledLog(s, k);
    hide Next;
    if op.Delete? { DeleteIsGranted(s, w); } else { PutIsGranted(s, w); }
  }

  // A place is still free after a step in which the store handles nothing.
  lemma StillFree(s: State, step: Step, w: Write)
    requires Inv(s) && IsIssued(s, w) && Enabled(s, step) && !step.Handle?
    ensures Inv(Next(s, step)) && IsIssued(Next(s, step), w) && (SlotTaken(Next(s, step), w) <==> SlotTaken(s, w))
  {
    NextKeeps(s, step);
    StaysKnown(s, Next(s, step), w);
    SameLog(s, step);
    hide Inv, Next, Enabled, Grows, IsIssued;
  }

  predicate CommittedAfter(steps: seq<Step>, w: Write) {
    Run(steps).Some? && Committed(Run(steps).value, w)
  }

  // Some continuation of the run commits the write.
  ghost predicate MayCommit(steps: seq<Step>, w: Write) {
    exists more :: CommittedAfter(steps + more, w)
  }

  // What a later run can bring about, this one can.
  lemma MayCommitBefore(steps: seq<Step>, step: Step, w: Write)
    requires MayCommit(steps + [step], w)
    ensures MayCommit(steps, w)
  {
    hide CommittedAfter;
    var more :| CommittedAfter(steps + [step] + more, w);
    assert steps + [step] + more == steps + ([step] + more);
  }

  lemma MayCommitByHandling(steps: seq<Step>, k: nat, w: Write)
    requires Run(steps).Some? && k in Run(steps).value.calls
    requires var c := Run(steps).value.calls[k]; !c.phase.Answered? && WriteOf(c.op) == Some(w)
    requires !SlotTaken(Run(steps).value, w)
    ensures MayCommit(steps, w)
  {
    CommittedWhenHandled(steps, k, w);
    hide CommittedAfter;
    assert CommittedAfter(steps + [Handle(k)], w);
  }

  lemma CommittedWhenHandled(steps: seq<Step>, k: nat, w: Write)
    requires Run(steps).Some? && k in Run(steps).value.calls
    requires var c := Run(steps).value.calls[k]; !c.phase.Answered? && WriteOf(c.op) == Some(w)
    requires !SlotTaken(Run(steps).value, w)
    ensures CommittedAfter(steps + [Handle(k)], w)
  {
    RunKeeps(steps);
    RunNext(steps, Handle(k));
    hide Run, Inv, Next, Committed, SlotTaken;
    HandlingCommits(Run(steps).value, k, w);
  }

  // A flush that goes on reaches every write it has still to replay: the ones before it are refused.
  lemma {:induction false} MayCommitInFlush(steps: seq<Step>, k: nat, w: Write)
    requires Run(steps).Some? && k in Run(steps).value.calls && IsIssued(Run(steps).value, w)
    requires var c := Run(steps).value.calls[k]; c.op.Replay? && !c.phase.Abandoned? && w in c.op.rest
    requires !SlotTaken(Run(steps).value, w)
    ensures MayCommit(steps, w)
    decreases |Run(steps).value.calls[k].op.rest|, if Run(steps).value.calls[k].phase.Sent? then 1 else 0
  {
    var s := Run(steps).value;
    var c := s.calls[k];
    var step := if c.phase.Sent? then Refuse(k) else Deliver(k);
    FlushGoesOn(s, k);
    RunKeeps(steps);
    hide Run, Inv, SlotTaken, IsIssued, MayCommit;
    RunNext(steps, step);
    StillFree(s, step, w);
    hide Next, Enabled;
    if c.phase.Sent? {
      MayCommitInFlush(steps + [step], k, w);
    } else if c.op.rest[0] == w {
      MayCommitByHandling(steps + [step], s.nextCall, w);
    } else {
      MayCommitInFlush(steps + [step], s.nextCall, w);
    }
    MayCommitBefore(steps, step, w);
  }

  // A replay can be refused, and a flush sends the next write after a reply.
  lemma FlushGoesOn(s: State, k: nat)
    requires k in s.calls && s.calls[k].op.Replay? && !s.calls[k].phase.Abandoned?
    ensures var c := s.calls[k];
            if c.phase.Sent? then
              Enabled(s, Refuse(k)) && k in Next(s, Refuse(k)).calls
              && Next(s, Refuse(k)).calls[k] == c.(phase := Answered(Refused))
            else
              Enabled(s, Deliver(k))
              && (c.op.rest != [] ==>
                    s.nextCall in Next(s, Deliver(k)).calls
                    && Next(s, Deliver(k)).calls[s.nextCall]
                       == Call(c.client, Replay(c.op.rest[0], c.op.rest[1..]), Sent))
  {
    var c := s.calls[k];
    if c.phase.Answered? {
      BeginsAfterReplay(s.(calls := s.calls - {k}), c.client, c.op.w, c.op.rest, c.phase.reply);
    }
    hide Received;
  }

  lemma FlushStarts(s: State, client: nat)
    requires Queue(s, client) != []
    ensures var (step, queue) := (StartFlush(client), Queue(s, client));
            Enabled(s, step) && s.nextCall in Next(s, step).calls
            && var c := Next(s, step).calls[s.nextCall]; c.op.Replay? && c.phase.Sent? && Items(c.op) == queue
  {
    hide Queue;
  }

  lemma MayCommitFromQueue(steps: seq<Step>, client: nat, w: Write)
    requires Run(steps).Some? && IsIssued(Run(steps).value, w) && w in Queue(Run(steps).value, client)
    requires !SlotTaken(Run(steps).value, w)
    ensures MayCommit(steps, w)
  {
    var (s, step) := (Run(steps).value, StartFlush(client));
    FlushStarts(s, client);
    RunKeeps(steps);
    hide Run, Queue, Inv, SlotTaken, IsIssued, MayCommit, Next, Enabled;
    RunNext(steps, step);
    StillFree(s, step, w);
    MayCommitNow(steps + [step], s.nextCall, w);
    MayCommitBefore(steps, step, w);
  }

  // A replay just sent.
  lemma MayCommitNow(steps: seq<Step>, k: nat, w: Write)
    requires Run(steps).Some? && k in Run(steps).value.calls && IsIssued(Run(steps).value, w)
    requires var c := Run(steps).value.calls[k]; c.op.Replay? && c.phase.Sent? && w in Items(c.op)
    requires !SlotTaken(Run(steps).value, w)
    ensures MayCommit(steps, w)
  {
    hide Run, SlotTaken, IsIssued, MayCommit;
    if Run(steps).value.calls[k].op.w == w {
      MayCommitByHandling(steps, k, w);
    } else {
      MayCommitInFlush(steps, k, w);
    }
  }

  // An answered save whose response is lost is queued again.
  lemma MayCommitAfterLoss(steps: seq<Step>, k: nat, w: Write)
    requires Run(steps).Some? && k in Run(steps).value.calls && IsIssued(Run(steps).value, w)
    requires var c := Run(steps).value.calls[k]; c.op == Save(w) && c.phase.Answered?
    requires !SlotTaken(Run(steps).value, w)
    ensures MayCommit(steps, w)
  {
    var (s, step) := (Run(steps).value, Fail(k));
    RunKeeps(steps);
    RunNext(steps, step);
    StillFree(s, step, w);
    QueueAfterStep(s, step, s.calls[k].client, w);
    hide Run, Inv, Next, Queue, SlotTaken;
    MayCommitFromQueue(steps + [step], s.calls[k].client, w);
    MayCommitBefore(steps, step, w);
  }

  lemma UnderWayMayCommit(steps: seq<Step>, w: Write)
    requires Run(steps).Some? && IsIssued(Run(steps).value, w)
    requires UnderWay(Run(steps).value, w) && !SlotTaken(Run(steps).value, w)
    ensures MayCommit(steps, w)
  {
    var s := Run(steps).value;
    hide Run, Queue, SlotTaken, MayCommit;
    if k :| k in s.calls && Carries(s.calls[k], w) {
      var c := s.calls[k];
      if c.op.Replay? && w in c.op.rest && !c.phase.Abandoned? {
        MayCommitInFlush(steps, k, w);
      } else if c.phase.Answered? {
        MayCommitAfterLoss(steps, k, w);
      } else {
        MayCommitByHandling(steps, k, w);
      }
    } else {
      var client :| w in Queue(s, client);
      MayCommitFromQueue(steps, client, w);
    }
  }

  /* ---------- exactly what is lost ---------- */

  // In every run, an issued write commits in no continuation, requests given up long ago included,
  // exactly when it has not committed and its place is another write's or nothing carries it any more.
  lemma LostExactlyWhen(steps: seq<Step>, w: Write)
    requires Run(steps).Some? && IsIssued(Run(steps).value, w)
    ensures NeverCommits(steps, w) <==> Hopeless(Run(steps).value, w)
  {
    var s := Run(steps).value;
    hide Run, Committed, SlotTaken, UnderWay, IsIssued;
    if Hopeless(s, w) {
      forall more ensures !CommittedAfter(steps + more, w) {
        if Run(steps + more).Some? { HopelessForEver(steps, more, w); }
      }
    } else if Committed(s, w) {
      assert steps + [] == steps;
    } else {
      UnderWayMayCommit(steps, w);
    }
  }

  // The call whose reply step n delivers.
  function ReplyOf(steps: seq<Step>, n: nat): (c: Call)
    requires Run(steps).Some? && n < |steps| && Replied(steps, n)
    ensures c.op.Replay? && c.phase.Answered?
  {
    StepAt(steps, n);
    At(steps, n).calls[steps[n].call]
  }

  // A write that the reply to another takes out of the queue, where the store has decided the place
  // that both ask for, never commits, unless it has already.
  lemma TakenOutIsLost(steps: seq<Step>, n: nat, x: Write)
    requires Run(steps).Some? && n < |steps| && Replied(steps, n)
    requires var c := ReplyOf(steps, n);
             x in Queue(At(steps, n), c.client) && x !in Queue(At(steps, n + 1), c.client) && x != c.op.w
             && Slot(x) == Slot(c.op.w) && (c.phase.reply.Stored? || c.phase.reply.Conflict?)
    ensures Committed(At(steps, n + 1), x) || NeverCommits(steps[..n + 1], x)
  {
    var (s, t, c) := (At(steps, n), At(steps, n + 1), ReplyOf(steps, n));
    StepAt(steps, n);
    PrefixRuns(steps, n);
    RunKeeps(steps[..n]);
    DecidedPlace(s, steps[n], c, x);
    hide *;
    LostExactlyWhen(steps[..n + 1], x);
  }

  lemma DecidedPlace(s: State, step: Step, c: Call, x: Write)
    requires Inv(s) && Enabled(s, step) && step.Deliver? && s.calls[step.call] == c && c.op.Replay?
    requires x in Queue(s, c.client) && x !in Queue(Next(s, step), c.client)
    requires Slot(x) == Slot(c.op.w) && (c.phase.reply.Stored? || c.phase.reply.Conflict?)
    ensures IsIssued(Next(s, step), x)
    ensures Committed(Next(s, step), x) || Hopeless(Next(s, step), x)
  {
    QueueAfterStep(s, step, c.client, x);
    QueueHolds(s, c.client);
    InvNames(s);
    NextKeeps(s, step);
    StaysKnown(s, Next(s, step), x);
    hide Inv, Next, Queue, UnderWay, Grows;
  }

  /* ---------- a save during a flush ---------- */

  // A save fails and is queued; a second one of the same record fails while a flush awaits the
  // reply to the first, which the store grants.
  function Race(client: nat, record: Id, first: Bytes, second: Bytes): seq<Step> {
    [StartSave(client, record, None, first), Fail(0), StartFlush(client),
     StartSave(client, record, None, second), Fail(2), Handle(1), Deliver(1)]
  }

  lemma QueuedAlone(w: Write, x: Write)
    requires x.record == w.record
    ensures Enqueue([], w) == [w] && Enqueue([x], w) == [w]
  {
    assert Without([x], w.record) == Without([], w.record) == [];
  }

  // Half-way, the flush awaits its reply.
  lemma RaceBegins(client: nat, record: Id, first: Bytes, second: Bytes) returns (s: State)
    ensures Run(Race(client, record, first, second)[..3]) == Some(s)
    ensures var w := Write(0, record, None, first);
            && s.nextUid == 1 && s.nextCall == 2 && s.rows == map[] && s.log == map[] && Queue(s, client) == [w]
            && 1 in s.calls && s.calls[1] == Call(client, Replay(w, []), Sent) && 2 !in s.calls
  {
    var race := Race(client, record, first, second);
    var w := Write(0, record, None, first);
    QueuedAlone(w, w);
    assert race[..0] == [] && race[..1] == [] + [race[0]];
    RunNext([], race[0]);
    var s1 := Next(INITIAL, race[0]);
    assert race[..2] == race[..1] + [race[1]];
    RunNext(race[..1], race[1]);
    var s2 := Next(s1, race[1]);
    assert Queue(s2, client) == [w] && s2.nextCall == 1;
    assert race[..3] == race[..2] + [race[2]];
    RunNext(race[..2], race[2]);
    s := Next(s2, race[2]);
    hide Run;
  }

  // The second save has failed; the store has still to handle the replay.
  lemma RaceGoesOn(client: nat, record: Id, first: Bytes, second: Bytes) returns (s: State)
    ensures Run(Race(client, record, first, second)[..5]) == Some(s)
    ensures var (w, x) := (Write(0, record, None, first), Write(1, record, None, second));
            && s.rows == map[] && s.log == map[] && Queue(s, client) == [x] && IsIssued(s, x)
            && 1 in s.calls && s.calls[1] == Call(client, Replay(w, []), Sent)
  {
    var race := Race(client, record, first, second);
    var (w, x) := (Write(0, record, None, first), Write(1, record, None, second));
    QueuedAlone(x, w);
    var s3 := RaceBegins(client, record, first, second);
    assert race[..4] == race[..3] + [race[3]];
    RunNext(race[..3], race[3]);
    var s4 := Next(s3, race[3]);
    assert s4.calls[2] == Call(client, Save(x), Sent) && Queue(s4, client) == [w];
    assert race[..5] == race[..4] + [race[4]];
    RunNext(race[..4], race[4]);
    s := Next(s4, race[4]);
    hide Run, Enqueue;
  }

  lemma RaceEnds(s: State, client: nat, record: Id, first: Bytes, second: Bytes)
    requires var (w, x) := (Write(0, record, None, first), Write(1, record, None, second));
             && s.rows == map[] && s.log == map[] && Queue(s, client) == [x] && IsIssued(s, x)
             && 1 in s.calls && s.calls[1] == Call(client, Replay(w, []), Sent)
    ensures Enabled(s, Handle(1)) && Enabled(Next(s, Handle(1)), Deliver(1))
    ensures var (t, x) := (Next(s, Handle(1)), Write(1, record, None, second));
            var u := Next(t, Deliver(1));
            x in Queue(t, client) && x !in Queue(u, client) && IsIssued(u, x) && SlotTaken(u, x) && !Committed(u, x)
  {
    var (w, x) := (Write(0, record, None, first), Write(1, record, None, second));
    PutFacts(s, w);
    HandleLeavesQueues(s, s.calls[1].op);
    hide HandlePut;
    var t := Next(s, Handle(1));
    assert t.calls[1] == Call(client, Replay(w, []), Answered(Stored(1)));
    assert Log(t, record) == [Commit(0, None, 1, first, false)];
    assert Queue(t, client) == [x];
    QueueAfterStep(t, Deliver(1), client, x);
  }

  // The newer save is then taken out of the queue unsent and, whatever happens afterwards, is lost.
  lemma SaveDuringFlushIsLost(client: nat, record: Id, first: Bytes, second: Bytes)
    ensures var (race, x) := (Race(client, record, first, second), Write(1, record, None, second));
            && Run(race).Some? && x in Queue(At(race, 6), client) && x !in Queue(At(race, 7), client)
            && NeverCommits(race, x)
  {
    var (race, x) := (Race(client, record, first, second), Write(1, record, None, second));
    var s := RaceGoesOn(client, record, first, second);
    RaceEnds(s, client, record, first, second);
    assert race[..6] == race[..5] + [race[5]] && race[..7] == race[..6] + [race[6]] == race;
    hide Next, Enabled, Queue, Committed, SlotTaken, IsIssued, NeverCommits, UnderWay;
    RunNext(race[..5], race[5]);
    RunNext(race[..6], race[6]);
    LostExactlyWhen(race, x);
    hide Run;
  }
}
