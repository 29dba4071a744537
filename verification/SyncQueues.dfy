/**
 * The queues of failed saves over whole runs: what puts a write into its client's queue, what
 * takes it out, and exactly when the reply to one write takes out another.
 */
module SyncQueues {
  import opened Bytes
  import opened RecordStore
  import opened SyncProtocol

  /* ---------- the steps that matter to one record of one client ---------- */

  // Queued: a save of that record failed. Settled: the reply to a replayed write of that record came.
  datatype Event = Neither | Queued(w: Write) | Settled(w: Write)

  function EventOf(s: State, step: Step, client: nat, record: Id): Event
    requires Enabled(s, step)
  {
    match step
    case Fail(k) =>
      var c := s.calls[k];
      if c.client == client && c.op.Save? && c.op.w.record == record then Queued(c.op.w) else Neither
    case Deliver(k) =>
      var c := s.calls[k];
      if c.client == client && c.op.Replay? && c.op.w.record == record then Settled(c.op.w) else Neither
    case _ => Neither
  }

  // One step: a failed save is the record's only entry afterwards, a reply leaves none.
  lemma QueueAfterStep(s: State, step: Step, client: nat, x: Write)
    requires Enabled(s, step)
    ensures var event := EventOf(s, step, client, x.record);
            (x in Queue(Next(s, step), client))
            <==> ((event.Neither? && x in Queue(s, client)) || event == Queued(x))
  {
    if step.Handle? {
      HandleLeavesQueues(s, s.calls[step.call].op);
    } else if step.Deliver? {
      var c := s.calls[step.call];
      QueueAfterReceived(s.(calls := s.calls - {step.call}), c.client, c.op, c.phase.reply);
    }
  }

  lemma HandleLeavesQueues(s: State, op: Op)
    ensures HandleOp(s, op).0.queues == s.queues
    ensures HandleOp(s, op).0.calls == s.calls && HandleOp(s, op).0.nextCall == s.nextCall
  {
  }

  lemma QueueAfterReceived(s: State, client: nat, op: Op, reply: Reply)
    ensures var t := Received(s, client, op, reply);
            (forall c :: c != client ==> Queue(t, c) == Queue(s, c))
            && Queue(t, client) == if op.Replay? then Without(Queue(s, client), op.w.record) else Queue(s, client)
  {
  }

  /* ---------- the states of a run ---------- */

  lemma {:induction false} PrefixRuns(steps: seq<Step>, i: nat)
    requires Run(steps).Some? && i <= |steps|
    ensures Run(steps[..i]).Some?
  {
    if i < |steps| {
      hide Next, Enabled;
      PrefixRuns(steps[..|steps| - 1], i);
      assert steps[..|steps| - 1][..i] == steps[..i];
    } else {
      assert steps[..i] == steps;
    }
  }

  // The state before step i.
  function At(steps: seq<Step>, i: nat): (s: State)
    requires Run(steps).Some? && i <= |steps|
    ensures Run(steps[..i]) == Some(s)
  {
    PrefixRuns(steps, i);
    Run(steps[..i]).value
  }

  lemma StepAt(steps: seq<Step>, i: nat)
    requires Run(steps).Some? && i < |steps|
    ensures Enabled(At(steps, i), steps[i]) && At(steps, i + 1) == Next(At(steps, i), steps[i])
  {
    hide Next, Enabled;
    PrefixRuns(steps, i + 1);
    var all := steps[..i + 1];
    assert all[..|all| - 1] == steps[..i] && all[|all| - 1] == steps[i];
  }

  function EventAt(steps: seq<Step>, i: nat, client: nat, record: Id): Event
    requires Run(steps).Some? && i < |steps|
  {
    StepAt(steps, i);
    EventOf(At(steps, i), steps[i], client, record)
  }

  ghost predicate Quiet(steps: seq<Step>, m: nat, n: nat, client: nat, record: Id)
    requires Run(steps).Some? && n <= |steps|
  {
    forall i: nat | m < i < n :: EventAt(steps, i, client, record) == Neither
  }

  // At step m a save of x failed, and nothing happened to its record since, up to step n.
  ghost predicate Pending(steps: seq<Step>, m: nat, n: nat, client: nat, x: Write)
    requires Run(steps).Some? && n <= |steps|
  {
    m < n && EventAt(steps, m, client, x.record) == Queued(x) && Quiet(steps, m, n, client, x.record)
  }

  lemma PendingNext(steps: seq<Step>, m: nat, n: nat, client: nat, x: Write)
    requires Run(steps).Some? && n < |steps|
    ensures Pending(steps, m, n + 1, client, x)
       <==> (m == n && EventAt(steps, n, client, x.record) == Queued(x))
            || (Pending(steps, m, n, client, x) && EventAt(steps, n, client, x.record) == Neither)
  {
    hide EventAt, Run;
    if Pending(steps, m, n + 1, client, x) && m < n {
      assert EventAt(steps, n, client, x.record) == Neither;
    }
  }

  // A queue holds, record by record, the save that failed last, unless a reply came since.
  lemma {:induction false} QueueHoldsLastFailedSaves(steps: seq<Step>, n: nat, client: nat, x: Write)
    requires Run(steps).Some? && n <= |steps|
    ensures x in Queue(At(steps, n), client) <==> exists m: nat :: Pending(steps, m, n, client, x)
  {
    if n == 0 {
      assert steps[..0] == [];
    } else {
      var i := n - 1;
      StepAt(steps, i);
      QueueAfterStep(At(steps, i), steps[i], client, x);
      QueueHoldsLastFailedSaves(steps, i, client, x);
      assert EventAt(steps, i, client, x.record) == EventOf(At(steps, i), steps[i], client, x.record);
      hide *;
      forall m: nat ensures Pending(steps, m, n, client, x)
        <==> (m == i && EventAt(steps, i, client, x.record) == Queued(x))
             || (Pending(steps, m, i, client, x) && EventAt(steps, i, client, x.record) == Neither)
      {
        PendingNext(steps, m, i, client, x);
      }
      assert EventAt(steps, i, client, x.record) == Queued(x) ==> Pending(steps, i, n, client, x);
    }
  }

  /* ---------- the flush a replayed write belongs to ---------- */

  // The writes a replay stands for: the one it sends and those to be sent after it.
  function Items(op: Op): seq<Write> {
    if op.Replay? then [op.w] + op.rest else []
  }

  // The number of the step that started the flush of call k.
  function FlushStart(steps: seq<Step>, n: nat, k: nat): (r: Option<nat>)
    requires Run(steps).Some? && n <= |steps|
    ensures r.Some? ==> r.value < n
  {
    if n == 0 then None
    else
      StepAt(steps, n - 1);
      var s := At(steps, n - 1);
      match steps[n - 1]
      case StartFlush(_) => if k == s.nextCall then Some(n - 1) else FlushStart(steps, n - 1, k)
      case Deliver(j) => FlushStart(steps, n - 1, if k == s.nextCall then j else k)
      case _ => FlushStart(steps, n - 1, k)
  }

  // The same call, perhaps in another phase.
  predicate SameCall(s: State, k: nat, c: Call) {
    k in s.calls && s.calls[k].client == c.client && s.calls[k].op == c.op
  }

  lemma BeginsAfterReplay(s: State, client: nat, w: Write, rest: seq<Write>, reply: Reply)
    ensures Received(s, client, Replay(w, rest), reply).calls
         == if rest == [] then s.calls else s.calls[s.nextCall := Call(client, Replay(rest[0], rest[1..]), Sent)]
  {
    assert Acknowledge(s, w, reply).calls == s.calls && Acknowledge(s, w, reply).nextCall == s.nextCall;
    hide Acknowledge;
  }

  lemma BeginsAfterOther(s: State, client: nat, op: Op, reply: Reply, k: nat)
    requires !op.Replay? && k in Received(s, client, op, reply).calls && k !in s.calls
    ensures k == s.nextCall && !Received(s, client, op, reply).calls[k].op.Replay?
  {
  }

  // A reply begins at most one call; a replay only after a replay, for what that one left to send.
  lemma BeginsAfterReply(s: State, client: nat, op: Op, reply: Reply, k: nat)
    requires k in Received(s, client, op, reply).calls && k !in s.calls
    ensures k == s.nextCall
    ensures var c := Received(s, client, op, reply).calls[k];
            c.op.Replay? ==> op.Replay? && c.client == client && Items(c.op) == op.rest
  {
    hide Received;
    if op.Replay? {
      BeginsAfterReplay(s, client, op.w, op.rest, reply);
    } else {
      BeginsAfterOther(s, client, op, reply, k);
    }
  }

  lemma CallsAfterReply(s: State, client: nat, op: Op, reply: Reply, k: nat)
    requires k in s.calls && k != s.nextCall
    ensures k in Received(s, client, op, reply).calls && Received(s, client, op, reply).calls[k] == s.calls[k]
  {
  }

  // Where a replay comes from: it was there before, or a flush starts, or its predecessor is answered.
  predicate ReplayOrigin(s: State, step: Step, k: nat, c: Call) {
    || (k < s.nextCall && SameCall(s, k, c))
    || (k == s.nextCall && step == StartFlush(c.client) && Items(c.op) == Queue(s, c.client))
    || (k == s.nextCall && step.Deliver? && step.call in s.calls && s.calls[step.call].op.Replay?
        && s.calls[step.call].client == c.client && Items(c.op) == s.calls[step.call].op.rest)
  }

  lemma OriginAfterReply(s: State, j: nat, k: nat)
    requires (forall i :: i in s.calls ==> i < s.nextCall) && Enabled(s, Deliver(j))
    requires k in Next(s, Deliver(j)).calls && Next(s, Deliver(j)).calls[k].op.Replay?
    ensures ReplayOrigin(s, Deliver(j), k, Next(s, Deliver(j)).calls[k])
  {
    var t := s.(calls := s.calls - {j});
    var c := s.calls[j];
    hide Received;
    if k in t.calls {
      CallsAfterReply(t, c.client, c.op, c.phase.reply, k);
    } else {
      BeginsAfterReply(t, c.client, c.op, c.phase.reply, k);
    }
  }

  lemma OriginAfterAnswer(s: State, t: State, j: nat, reply: Reply, k: nat)
    requires t.calls == s.calls && j in s.calls && (forall i :: i in s.calls ==> i < s.nextCall)
    requires k in Answer(t, j, reply).calls
    ensures k < s.nextCall && SameCall(s, k, Answer(t, j, reply).calls[k])
  {
  }

  lemma OriginAfterHandling(s: State, step: Step, k: nat)
    requires (step.Handle? || step.Refuse?) && (forall i :: i in s.calls ==> i < s.nextCall) && Enabled(s, step)
    requires k in Next(s, step).calls
    ensures ReplayOrigin(s, step, k, Next(s, step).calls[k])
  {
    var j := step.call;
    hide HandleOp, Answer;
    if step.Handle? {
      HandleLeavesQueues(s, s.calls[j].op);
      OriginAfterAnswer(s, HandleOp(s, s.calls[j].op).0, j, HandleOp(s, s.calls[j].op).1, k);
    } else {
      OriginAfterAnswer(s, s, j, Refused, k);
    }
  }

  lemma OriginAfterFail(s: State, j: nat, k: nat)
    requires (forall i :: i in s.calls ==> i < s.nextCall) && Enabled(s, Fail(j)) && k in Next(s, Fail(j)).calls
    ensures ReplayOrigin(s, Fail(j), k, Next(s, Fail(j)).calls[k])
  {
    var c := s.calls[j];
    var t := if c.phase.Sent? then s.(calls := s.calls[j := c.(phase := Abandoned)]) else s.(calls := s.calls - {j});
    assert Next(s, Fail(j)).calls == t.calls by { hide Queue, Enqueue; }
    hide Next, Unreachable, Queue, Enabled;
  }

  lemma OriginAfterStart(s: State, step: Step, k: nat)
    requires step.StartSave? || step.StartDelete? || step.StartRestore? || step.StartFlush?
    requires (forall i :: i in s.calls ==> i < s.nextCall) && Enabled(s, step)
    requires k in Next(s, step).calls && Next(s, step).calls[k].op.Replay?
    ensures ReplayOrigin(s, step, k, Next(s, step).calls[k])
  {
    hide Queue;
  }

  lemma ReplayComesFrom(s: State, step: Step, k: nat)
    requires CallInv(s) && Enabled(s, step) && k in Next(s, step).calls && Next(s, step).calls[k].op.Replay?
    ensures ReplayOrigin(s, step, k, Next(s, step).calls[k])
  {
    assert forall j :: j in s.calls ==> j < s.nextCall;
    hide *;
    match step
    case Handle(_) => OriginAfterHandling(s, step, k);
    case Refuse(_) => OriginAfterHandling(s, step, k);
    case Deliver(j) => OriginAfterReply(s, j, k);
    case Fail(j) => OriginAfterFail(s, j, k);
    case _ => OriginAfterStart(s, step, k);
  }

  // Any entry of the client's queue for this write's record is this write, or a save that failed
  // since step i.
  ghost predicate OnlyLater(steps: seq<Step>, i: nat, n: nat, client: nat, v: Write)
    requires Run(steps).Some? && n <= |steps|
  {
    forall x :: x in Queue(At(steps, n), client) && x.record == v.record && x != v
                ==> exists m: nat :: i < m && Pending(steps, m, n, client, x)
  }

  ghost predicate FlushHolds(steps: seq<Step>, n: nat, k: nat)
    requires Run(steps).Some? && n <= |steps|
  {
    var c := At(steps, n).calls;
    k in c && c[k].op.Replay? ==>
      FlushStart(steps, n, k).Some?
      && forall v :: v in Items(c[k].op) ==> OnlyLater(steps, FlushStart(steps, n, k).value, n, c[k].client, v)
  }

  lemma OnlyLaterStays(steps: seq<Step>, i: nat, n: nat, client: nat, v: Write)
    requires Run(steps).Some? && i < n < |steps| && OnlyLater(steps, i, n, client, v)
    ensures OnlyLater(steps, i, n + 1, client, v)
  {
    var next := n + 1;
    forall x | x in Queue(At(steps, next), client) && x.record == v.record && x != v
      ensures exists m: nat :: i < m && Pending(steps, m, next, client, x)
    {
      QueueHoldsLastFailedSaves(steps, n + 1, client, x);
      var m: nat :| Pending(steps, m, n + 1, client, x);
      PendingNext(steps, m, n, client, x);
      if m < n {
        QueueHoldsLastFailedSaves(steps, n, client, x);
        var m': nat :| i < m' && Pending(steps, m', n, client, x);
        PendingNext(steps, m', n, client, x);
      }
    }
  }

  lemma OnlyLaterStarts(steps: seq<Step>, n: nat, client: nat, v: Write)
    requires Run(steps).Some? && n < |steps| && steps[n] == StartFlush(client) && v in Queue(At(steps, n), client)
    ensures OnlyLater(steps, n, n + 1, client, v)
  {
    PrefixRuns(steps, n);
    QueuesStayUnique(steps[..n], client);
    StepAt(steps, n);
    var queue := Queue(At(steps, n), client);
    assert Queue(At(steps, n + 1), client) == queue;
    assert forall x :: x in queue && x.record == v.record ==> x == v;
  }

  lemma {:induction false} FlushHoldsAlways(steps: seq<Step>, n: nat, k: nat)
    requires Run(steps).Some? && n <= |steps|
    ensures FlushHolds(steps, n, k)
    decreases n
  {
    if n == 0 {
      assert steps[..0] == [];
    } else {
      var i := n - 1;
      StepAt(steps, i);
      var (s, t, step) := (At(steps, i), At(steps, n), steps[i]);
      PrefixRuns(steps, i);
      RunKeeps(steps[..i]);
      if k in t.calls && t.calls[k].op.Replay? {
        ReplayComesFrom(s, step, k);
        var c := t.calls[k];
        if k < s.nextCall {
          FlushHoldsAlways(steps, i, k);
          forall v | v in Items(c.op) ensures OnlyLater(steps, FlushStart(steps, n, k).value, n, c.client, v) {
            OnlyLaterStays(steps, FlushStart(steps, i, k).value, i, c.client, v);
          }
        } else if step.Deliver? {
          FlushHoldsAlways(steps, i, step.call);
          forall v | v in Items(c.op) ensures OnlyLater(steps, FlushStart(steps, n, k).value, n, c.client, v) {
            assert v in Items(s.calls[step.call].op);
            OnlyLaterStays(steps, FlushStart(steps, i, step.call).value, i, c.client, v);
          }
        } else {
          forall v | v in Items(c.op) ensures OnlyLater(steps, i, n, c.client, v) {
            OnlyLaterStarts(steps, i, c.client, v);
          }
        }
      }
    }
  }

  /* ---------- when a reply takes out another write ---------- */

  // Step n delivers the reply to a replayed write.
  predicate Replied(steps: seq<Step>, n: nat)
    requires Run(steps).Some? && n < |steps|
  {
    StepAt(steps, n);
    steps[n].Deliver? && At(steps, n).calls[steps[n].call].op.Replay?
  }

  // It takes out of the queue a write that it does not answer.
  ghost predicate TakesAnother(steps: seq<Step>, n: nat)
    requires Run(steps).Some? && n < |steps| && Replied(steps, n)
  {
    StepAt(steps, n);
    var c := At(steps, n).calls[steps[n].call];
    exists x :: x in Queue(At(steps, n), c.client) && x !in Queue(At(steps, n + 1), c.client) && x != c.op.w
  }

  // Since that flush began, a save of the replied write's record failed, and no later one did, nor
  // did another flush of this client get a reply for that record.
  ghost predicate SavedMeanwhile(steps: seq<Step>, n: nat)
    requires Run(steps).Some? && n < |steps| && Replied(steps, n)
  {
    StepAt(steps, n);
    var k := steps[n].call;
    var c := At(steps, n).calls[k];
    FlushStart(steps, n, k).Some?
    && exists m: nat, x: Write :: FlushStart(steps, n, k).value < m && x.record == c.op.w.record && x != c.op.w
                      && Pending(steps, m, n, c.client, x)
  }

  // In every run a reply takes out another write exactly when one was saved during its flush.
  lemma TakesAnotherExactlyWhen(steps: seq<Step>, n: nat)
    requires Run(steps).Some? && n < |steps| && Replied(steps, n)
    ensures TakesAnother(steps, n) <==> SavedMeanwhile(steps, n)
  {
    StepAt(steps, n);
    var k := steps[n].call;
    var c := At(steps, n).calls[k];
    FlushHoldsAlways(steps, n, k);
    assert c.op.w in Items(c.op);
    hide FlushStart, Run, Inv;
    if TakesAnother(steps, n) {
      var x :| x in Queue(At(steps, n), c.client) && x !in Queue(At(steps, n + 1), c.client) && x != c.op.w;
      QueueAfterStep(At(steps, n), steps[n], c.client, x);
      hide Next, Enabled;
      assert x.record == c.op.w.record;
    }
    if SavedMeanwhile(steps, n) {
      var m: nat, x: Write :| x.record == c.op.w.record && x != c.op.w && Pending(steps, m, n, c.client, x);
      QueueHoldsLastFailedSaves(steps, n, c.client, x);
      QueueAfterStep(At(steps, n), steps[n], c.client, x);
      hide Next, Enabled;
    }
  }

  // The first step from i on that concerns that record of that client; the length of the run if none.
  function NextEvent(steps: seq<Step>, i: nat, client: nat, record: Id): (j: nat)
    requires Run(steps).Some? && i <= |steps|
    ensures i <= j <= |steps| && (j < |steps| ==> EventAt(steps, j, client, record) != Neither)
    ensures forall k: nat | i <= k < j :: EventAt(steps, k, client, record) == Neither
    decreases |steps| - i
  {
    if i == |steps| || EventAt(steps, i, client, record) != Neither then i else NextEvent(steps, i + 1, client, record)
  }

  lemma PendingWhileQuiet(steps: seq<Step>, m: nat, i: nat, j: nat, client: nat, x: Write)
    requires Run(steps).Some? && m < i <= j <= |steps| && EventAt(steps, m, client, x.record) == Queued(x)
    requires forall k: nat | m < k < j :: EventAt(steps, k, client, x.record) == Neither
    ensures Pending(steps, m, i, client, x)
  {
    hide Run, EventAt;
  }

  lemma SettledByAnother(steps: seq<Step>, m: nat, j: nat, client: nat, x: Write)
    requires Run(steps).Some? && j < |steps| && Pending(steps, m, j, client, x)
    requires EventAt(steps, j, client, x.record).Settled?
    ensures x !in Queue(At(steps, j + 1), client) && Replied(steps, j)
    ensures EventAt(steps, j, client, x.record).w != x ==> SavedMeanwhile(steps, j)
  {
    QueueHoldsLastFailedSaves(steps, j, client, x);
    StepAt(steps, j);
    QueueAfterStep(At(steps, j), steps[j], client, x);
    hide Next, Enabled, Queue, Run, Pending;
    if EventAt(steps, j, client, x.record).w != x {
      assert TakesAnother(steps, j);
      TakesAnotherExactlyWhen(steps, j);
    }
  }

  // A write whose save failed is queued until a later save of its record fails or a reply to a
  // replay of its record comes; and where that replay was of another write, it itself was saved
  // during that flush.
  lemma QueuedUntilReplacedOrSettled(steps: seq<Step>, m: nat, client: nat, x: Write)
    requires Run(steps).Some? && m < |steps| && EventAt(steps, m, client, x.record) == Queued(x)
    ensures var j := NextEvent(steps, m + 1, client, x.record);
            && (forall i | m < i <= j :: x in Queue(At(steps, i), client))
            && (j < |steps| && EventAt(steps, j, client, x.record).Settled?
                ==> x !in Queue(At(steps, j + 1), client) && Replied(steps, j)
                    && (EventAt(steps, j, client, x.record).w != x ==> SavedMeanwhile(steps, j)))
  {
    hide *;
    var j := NextEvent(steps, m + 1, client, x.record);
    assert forall k: nat | m < k < j :: EventAt(steps, k, client, x.record) == Neither;
    forall i | m < i <= j ensures Pending(steps, m, i, client, x) && x in Queue(At(steps, i), client) {
      PendingWhileQuiet(steps, m, i, j, client, x);
      QueueHoldsLastFailedSaves(steps, i, client, x);
    }
    if j < |steps| && EventAt(steps, j, client, x.record).Settled? {
      SettledByAnother(steps, m, j, client, x);
    }
  }

  /* ---------- a save during a flush ---------- */

  // A reply to a replayed write leaves the other queued writes alone exactly when the queue does
  // not meanwhile hold a different write for that record.
  lemma ReplyRemovesOnlyItsWrite(s: State, k: nat)
    requires Inv(s) && Enabled(s, Deliver(k)) && s.calls[k].op.Replay?
    ensures var (w, client) := (s.calls[k].op.w, s.calls[k].client);
            (forall x :: x in Queue(s, client) && x != w ==> x in Queue(Next(s, Deliver(k)), client))
              <==> (forall x :: x in Queue(s, client) && x.record == w.record ==> x == w)
  {
    QueueAfterReceived(s.(calls := s.calls - {k}), s.calls[k].client, s.calls[k].op, s.calls[k].phase.reply);
  }
}
