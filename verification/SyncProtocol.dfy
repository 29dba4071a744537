/**
 * Record synchronisation by any number of clients, as interleaved steps: requests are handled
 * atomically by the store, responses may be lost, and a request given up by its client may
 * still be handled later.
 */
module SyncProtocol {
  import opened Bytes
  import opened RecordStore

  // What a client awaits, with what it will do next.
  datatype Op =
    | Save(w: Write)
    | Replay(w: Write, rest: seq<Write>)
    | Delete(w: Write)
    | RestoreRead(record: Id)
    | RestoreWrite(w: Write)

  // Sent: not handled yet. Answered: handled, the response on its way. Abandoned: the client has
  // seen a network failure, but the request may still arrive.
  datatype Phase = Sent | Answered(reply: Reply) | Abandoned

  datatype Call = Call(client: nat, op: Op, phase: Phase)

  // One committed write of a record, in the store's order.
  datatype Commit = Commit(uid: nat, expected: Option<nat>, revision: nat, body: Bytes, tombstone: bool)

  datatype State = State(
    rows: Rows,
    queues: map<nat, seq<Write>>,
    calls: map<nat, Call>,
    nextUid: nat,
    nextCall: nat,
    // history, read by no step
    log: map<Id, seq<Commit>>,
    issued: map<nat, Write>,
    acknowledged: map<nat, nat>,
    dropped: set<nat>)

  const INITIAL := State(map[], map[], map[], 0, 0, map[], map[], map[], {})

  function Log(s: State, record: Id): seq<Commit> {
    if record in s.log then s.log[record] else []
  }

  function Queue(s: State, client: nat): seq<Write> {
    if client in s.queues then s.queues[client] else []
  }

  datatype Step =
    | StartSave(client: nat, record: Id, expected: Option<nat>, body: Bytes)
    | StartDelete(client: nat, record: Id, prior: nat)
    | StartRestore(client: nat, record: Id)
    | StartFlush(client: nat)
    | Handle(call: nat)
    | Refuse(call: nat)
    | Deliver(call: nat)
    | Fail(call: nat)

  // Clients only name revisions that the store has handed out at some time.
  predicate Assigned(s: State, record: Id, revision: nat) {
    1 <= revision <= |Log(s, record)|
  }

  predicate Enabled(s: State, step: Step) {
    match step
    case StartSave(_, record, expected, _) => expected.None? || Assigned(s, record, expected.value)
    case StartDelete(_, record, prior) => Assigned(s, record, prior)
    case StartRestore(_, _) => true
    case StartFlush(client) => Queue(s, client) != []
    case Handle(call) => call in s.calls && !s.calls[call].phase.Answered?
    case Refuse(call) => call in s.calls && !s.calls[call].phase.Answered?
    case Deliver(call) => call in s.calls && s.calls[call].phase.Answered?
    case Fail(call) => call in s.calls && !s.calls[call].phase.Abandoned?
  }

  function Begin(s: State, client: nat, op: Op): State {
    s.(calls := s.calls[s.nextCall := Call(client, op, Sent)], nextCall := s.nextCall + 1)
  }

  function Issue(s: State, w: Write): State {
    s.(issued := s.issued[w.uid := w], nextUid := s.nextUid + 1)
  }

  function Append(s: State, record: Id, c: Commit): State {
    s.(log := s.log[record := Log(s, record) + [c]])
  }

  function WriteOf(op: Op): Option<Write> {
    match op
    case Save(w) => Some(w)
    case Replay(w, _) => Some(w)
    case Delete(w) => Some(w)
    case RestoreRead(_) => None
    case RestoreWrite(w) => Some(w)
  }

  function HandlePut(s: State, w: Write): (State, Reply) {
    var (rows, reply) := Put(s.rows, w);
    var t := s.(rows := rows);
    (if reply.Stored? then Append(t, w.record, Commit(w.uid, w.expected, reply.revision, w.body, false)) else t, reply)
  }

  function HandleDelete(s: State, w: Write): (State, Reply) {
    var (rows, reply) := Tombstone(s.rows, w.record, w.expected.GetOr(0));
    var t := s.(rows := rows);
    (if reply.Stored? && w.record in s.rows
     then Append(t, w.record, Commit(w.uid, w.expected, reply.revision, s.rows[w.record].body, true)) else t, reply)
  }

  // The store handles one request.
  function HandleOp(s: State, op: Op): (State, Reply) {
    match op
    case RestoreRead(record) => (s, Get(s.rows, record))
    case Delete(w) => HandleDelete(s, w)
    case _ => HandlePut(s, WriteOf(op).value)
  }

  function Answer(s: State, call: nat, reply: Reply): State
    requires call in s.calls
  {
    if s.calls[call].phase.Abandoned? then s.(calls := s.calls - {call})
    else s.(calls := s.calls[call := s.calls[call].(phase := Answered(reply))])
  }

  function Acknowledge(s: State, w: Write, reply: Reply): State {
    if reply.Stored? then s.(acknowledged := s.acknowledged[w.uid := reply.revision]) else s
  }

  // The flush loop after one reply: the record leaves the queue whatever the reply was, and the
  // next item of the snapshot taken at the start is sent.
  function AfterReplay(s: State, client: nat, w: Write, rest: seq<Write>, reply: Reply): State {
    var t := s.(queues := s.queues[client := Without(Queue(s, client), w.record)],
                dropped := if reply == Conflict then s.dropped + {w.uid} else s.dropped);
    if rest == [] then t else Begin(t, client, Replay(rest[0], rest[1..]))
  }

  function Received(s: State, client: nat, op: Op, reply: Reply): State {
    match op
    case Save(w) => Acknowledge(s, w, reply)
    case Replay(w, rest) => AfterReplay(Acknowledge(s, w, reply), client, w, rest, reply)
    case Delete(w) => Acknowledge(s, w, reply)
    case RestoreRead(record) =>
      if reply.Found? then
        var w := Write(s.nextUid, record, Some(reply.row.revision), reply.row.body);
        Begin(Issue(s, w), client, RestoreWrite(w))
      else s
    case RestoreWrite(w) => Acknowledge(s, w, reply)
  }

  // A network failure: a save is queued, a flush stops, anything else is reported to the user.
  function Unreachable(s: State, client: nat, op: Op): State {
    if op.Save? then s.(queues := s.queues[client := Enqueue(Queue(s, client), op.w)]) else s
  }

  function Next(s: State, step: Step): State
    requires Enabled(s, step)
  {
    match step
    case StartSave(client, record, expected, body) =>
      var w := Write(s.nextUid, record, expected, body);
      Begin(Issue(s, w), client, Save(w))
    case StartDelete(client, record, prior) =>
      var w := Write(s.nextUid, record, Some(prior), []);
      Begin(Issue(s, w), client, Delete(w))
    case StartRestore(client, record) => Begin(s, client, RestoreRead(record))
    case StartFlush(client) =>
      var queue := Queue(s, client);
      Begin(s, client, Replay(queue[0], queue[1..]))
    case Handle(call) =>
      var (t, reply) := HandleOp(s, s.calls[call].op);
      Answer(t, call, reply)
    case Refuse(call) => Answer(s, call, Refused)
    case Deliver(call) =>
      var c := s.calls[call];
      Received(s.(calls := s.calls - {call}), c.client, c.op, c.phase.reply)
    case Fail(call) =>
      var c := s.calls[call];
      var t := if c.phase.Sent? then s.(calls := s.calls[call := c.(phase := Abandoned)])
               else s.(calls := s.calls - {call});
      Unreachable(t, c.client, c.op)
  }

  // The state after a run; None when some step was not enabled.
  function Run(steps: seq<Step>): Option<State> {
    if steps == [] then Some(INITIAL)
    else
      var s := Run(steps[..|steps| - 1]);
      if s.Some? && Enabled(s.value, steps[|steps| - 1]) then Some(Next(s.value, steps[|steps| - 1])) else None
  }

  /* ---------- the invariant ---------- */

  // Revisions 1, 2, 3, ..., each write naming its immediate predecessor.
  predicate Chain(log: seq<Commit>) {
    forall k :: 0 <= k < |log| ==>
      log[k].revision == k + 1 && log[k].expected == (if k == 0 then None else Some(k))
  }

  // The place in a record's history a write asks for.
  function Slot(w: Write): nat {
    w.expected.GetOr(0)
  }

  predicate RowIsLast(row: Row, log: seq<Commit>) {
    log != [] && row == Row(|log|, log[|log| - 1].body, log[|log| - 1].tombstone)
  }

  predicate RecordHolds(row: Row, log: seq<Commit>) {
    Chain(log) && RowIsLast(row, log)
  }

  ghost predicate StoreInv(s: State) {
    s.rows.Keys == s.log.Keys && forall r :: r in s.log ==> RecordHolds(s.rows[r], s.log[r])
  }

  predicate IsIssued(s: State, w: Write) {
    w.uid in s.issued && s.issued[w.uid] == w
  }

  predicate Plausible(s: State, w: Write) {
    w.expected.None? || Assigned(s, w.record, w.expected.value)
  }

  // A commit is that of the issued write whose number it carries.
  predicate CommitIssued(s: State, record: Id, c: Commit) {
    c.uid in s.issued && s.issued[c.uid].record == record && s.issued[c.uid].expected == c.expected
  }

  ghost predicate IssueInv(s: State) {
    && (forall u :: u in s.issued ==> u < s.nextUid && s.issued[u].uid == u && Plausible(s, s.issued[u]))
    && (forall r, k :: r in s.log && 0 <= k < |s.log[r]| ==> CommitIssued(s, r, s.log[r][k]))
  }

  // Committed at that revision.
  predicate CommittedAs(s: State, w: Write, revision: nat) {
    1 <= revision <= |Log(s, w.record)| && Log(s, w.record)[revision - 1].uid == w.uid
  }

  // The place the write asks for is taken.
  predicate SlotTaken(s: State, w: Write) {
    Slot(w) < |Log(s, w.record)|
  }

  predicate ReplyHolds(s: State, op: Op, reply: Reply) {
    match reply
    case Stored(revision) => WriteOf(op).Some? && CommittedAs(s, WriteOf(op).value, revision)
    case Conflict => WriteOf(op).Some? && SlotTaken(s, WriteOf(op).value)
    case Found(row) => op.RestoreRead? && Assigned(s, op.record, row.revision)
    case NotFound => true
    case Refused => true
  }

  predicate CallHolds(s: State, c: Call) {
    && (WriteOf(c.op).Some? ==> IsIssued(s, WriteOf(c.op).value))
    && (c.op.Replay? ==> forall w :: w in c.op.rest ==> IsIssued(s, w))
    && (c.op.Delete? ==> c.op.w.expected.Some?)
    && (c.phase.Answered? ==> ReplyHolds(s, c.op, c.phase.reply))
  }

  ghost predicate CallInv(s: State) {
    && (forall k :: k in s.calls ==> k < s.nextCall && CallHolds(s, s.calls[k]))
    && (forall c :: c in s.queues ==> OnePerRecord(s.queues[c]) && forall w :: w in s.queues[c] ==> IsIssued(s, w))
  }

  ghost predicate OutcomeInv(s: State) {
    && (forall u :: u in s.acknowledged ==> u in s.issued && CommittedAs(s, s.issued[u], s.acknowledged[u]))
    && (forall u :: u in s.dropped ==> u in s.issued && SlotTaken(s, s.issued[u]))
  }

  ghost predicate Inv(s: State) {
    StoreInv(s) && IssueInv(s) && CallInv(s) && OutcomeInv(s)
  }

  // Histories only grow, and issued writes never change.
  ghost predicate Grows(s: State, t: State) {
    && (forall r :: Log(s, r) <= Log(t, r))
    && (forall u :: u in s.issued ==> u in t.issued && t.issued[u] == s.issued[u])
  }

  lemma GrowsReflexive(s: State)
    ensures Grows(s, s)
  {
  }

  lemma GrowsTransitive(s: State, t: State, u: State)
    requires Grows(s, t) && Grows(t, u)
    ensures Grows(s, u)
  {
    forall r ensures Log(s, r) <= Log(u, r) {
      assert Log(s, r) <= Log(t, r) && Log(t, r) <= Log(u, r);
    }
  }

  // What is known of a write or a reply stays true.
  lemma StaysKnown(s: State, t: State, w: Write)
    requires Grows(s, t)
    ensures IsIssued(s, w) ==> IsIssued(t, w)
    ensures Plausible(s, w) ==> Plausible(t, w)
    ensures SlotTaken(s, w) ==> SlotTaken(t, w)
    ensures forall revision :: CommittedAs(s, w, revision) ==> CommittedAs(t, w, revision)
  {
    assert Log(s, w.record) <= Log(t, w.record);
  }

  lemma ReplyStays(s: State, t: State, op: Op, reply: Reply)
    requires Grows(s, t) && ReplyHolds(s, op, reply)
    ensures ReplyHolds(t, op, reply)
  {
    if WriteOf(op).Some? { StaysKnown(s, t, WriteOf(op).value); }
    if op.RestoreRead? { assert Log(s, op.record) <= Log(t, op.record); }
  }

  lemma CallStays(s: State, t: State, c: Call)
    requires Grows(s, t) && CallHolds(s, c)
    ensures CallHolds(t, c)
  {
    hide Grows, ReplyHolds, IsIssued;
    if WriteOf(c.op).Some? { StaysKnown(s, t, WriteOf(c.op).value); }
    if c.op.Replay? {
      forall w | w in c.op.rest ensures IsIssued(t, w) { StaysKnown(s, t, w); }
    }
    if c.phase.Answered? { ReplyStays(s, t, c.op, c.phase.reply); }
  }

  lemma CallsStay(s: State, t: State)
    requires Grows(s, t) && CallInv(s)
    requires t.calls == s.calls && t.queues == s.queues && t.nextCall == s.nextCall
    ensures CallInv(t)
  {
    forall k | k in t.calls ensures k < t.nextCall && CallHolds(t, t.calls[k]) {
      CallStays(s, t, s.calls[k]);
    }
    forall c | c in t.queues
      ensures OnePerRecord(t.queues[c]) && forall w :: w in t.queues[c] ==> IsIssued(t, w)
    {
      assert forall w :: w in s.queues[c] ==> IsIssued(s, w);
    }
  }

  lemma OutcomesStay(s: State, t: State)
    requires Grows(s, t) && OutcomeInv(s) && t.acknowledged == s.acknowledged && t.dropped == s.dropped
    ensures OutcomeInv(t)
  {
    forall u | u in t.acknowledged ensures u in t.issued && CommittedAs(t, t.issued[u], t.acknowledged[u]) {
      StaysKnown(s, t, s.issued[u]);
    }
    forall u | u in t.dropped ensures u in t.issued && SlotTaken(t, t.issued[u]) {
      StaysKnown(s, t, s.issued[u]);
    }
  }

  /* ---------- each change keeps the invariant ---------- */

  lemma IssueKeeps(s: State, w: Write)
    requires Inv(s) && w.uid == s.nextUid && Plausible(s, w)
    ensures Inv(Issue(s, w)) && Grows(s, Issue(s, w)) && IsIssued(Issue(s, w), w)
  {
    var t := Issue(s, w);
    assert w.uid !in s.issued;
    assert forall r :: Log(t, r) == Log(s, r);
    CallsStay(s, t);
    OutcomesStay(s, t);
    forall u | u in t.issued ensures u < t.nextUid && t.issued[u].uid == u && Plausible(t, t.issued[u]) {
      if u != w.uid { StaysKnown(s, t, s.issued[u]); }
    }
    forall r, k | r in t.log && 0 <= k < |t.log[r]| ensures CommitIssued(t, r, t.log[r][k]) {
      assert CommitIssued(s, r, s.log[r][k]);
    }
  }

  predicate Startable(s: State, op: Op) {
    && (WriteOf(op).Some? ==> IsIssued(s, WriteOf(op).value))
    && (op.Replay? ==> forall w :: w in op.rest ==> IsIssued(s, w))
    && (op.Delete? ==> op.w.expected.Some?)
  }

  lemma BeginKeeps(s: State, client: nat, op: Op)
    requires Inv(s) && Startable(s, op)
    ensures Inv(Begin(s, client, op)) && Grows(s, Begin(s, client, op))
  {
    var t := Begin(s, client, op);
    SameHistory(s, t);
    forall k | k in t.calls ensures k < t.nextCall && CallHolds(t, t.calls[k]) {
      if k != s.nextCall { CallStays(s, t, s.calls[k]); }
    }
    forall c | c in t.queues
      ensures OnePerRecord(t.queues[c]) && forall w :: w in t.queues[c] ==> IsIssued(t, w)
    {
      assert forall w :: w in s.queues[c] ==> IsIssued(s, w);
    }
  }

  // A change of neither history nor issued writes keeps what is said of those.
  lemma SameHistory(s: State, t: State)
    requires t.log == s.log && t.issued == s.issued && t.rows == s.rows && t.nextUid == s.nextUid
    ensures Grows(s, t)
    ensures StoreInv(s) ==> StoreInv(t)
    ensures IssueInv(s) ==> IssueInv(t)
    ensures OutcomeInv(s) && t.acknowledged == s.acknowledged && t.dropped == s.dropped ==> OutcomeInv(t)
  {
    assert forall r :: Log(t, r) == Log(s, r);
    if IssueInv(s) {
      forall u | u in t.issued ensures u < t.nextUid && t.issued[u].uid == u && Plausible(t, t.issued[u]) {
        StaysKnown(s, t, s.issued[u]);
      }
      forall r, k | r in t.log && 0 <= k < |t.log[r]| ensures CommitIssued(t, r, t.log[r][k]) {
        assert CommitIssued(s, r, s.log[r][k]);
      }
    }
    if OutcomeInv(s) && t.acknowledged == s.acknowledged && t.dropped == s.dropped {
      OutcomesStay(s, t);
    }
  }

  lemma SetCallKeeps(s: State, k: nat, c: Call)
    requires Inv(s) && k in s.calls && CallHolds(s, c)
    ensures Inv(s.(calls := s.calls[k := c])) && Grows(s, s.(calls := s.calls[k := c]))
  {
    var t := s.(calls := s.calls[k := c]);
    SameHistory(s, t);
    forall j | j in t.calls ensures j < t.nextCall && CallHolds(t, t.calls[j]) {
      CallStays(s, t, t.calls[j]);
    }
    forall c | c in t.queues
      ensures OnePerRecord(t.queues[c]) && forall w :: w in t.queues[c] ==> IsIssued(t, w)
    {
      assert forall w :: w in s.queues[c] ==> IsIssued(s, w);
    }
  }

  lemma DropCallKeeps(s: State, k: nat)
    requires Inv(s)
    ensures Inv(s.(calls := s.calls - {k})) && Grows(s, s.(calls := s.calls - {k}))
  {
    var t := s.(calls := s.calls - {k});
    SameHistory(s, t);
    forall j | j in t.calls ensures j < t.nextCall && CallHolds(t, t.calls[j]) {
      CallStays(s, t, s.calls[j]);
    }
    forall c | c in t.queues
      ensures OnePerRecord(t.queues[c]) && forall w :: w in t.queues[c] ==> IsIssued(t, w)
    {
      assert forall w :: w in s.queues[c] ==> IsIssued(s, w);
    }
  }

  lemma AnswerKeeps(s: State, k: nat, reply: Reply)
    requires Inv(s) && k in s.calls && ReplyHolds(s, s.calls[k].op, reply)
    ensures Inv(Answer(s, k, reply)) && Grows(s, Answer(s, k, reply))
  {
    hide Grows, StoreInv, IssueInv, OutcomeInv, ReplyHolds;
    if s.calls[k].phase.Abandoned? {
      DropCallKeeps(s, k);
    } else {
      assert CallHolds(s, s.calls[k]);
      SetCallKeeps(s, k, s.calls[k].(phase := Answered(reply)));
    }
  }

  lemma AppendKeeps(s: State, w: Write, c: Commit, row: Row)
    requires Inv(s) && IsIssued(s, w) && c.uid == w.uid && c.expected == w.expected
    requires c.revision == |Log(s, w.record)| + 1 && row == Row(c.revision, c.body, c.tombstone)
    requires c.expected == (if Log(s, w.record) == [] then None else Some(|Log(s, w.record)|))
    ensures var t := Append(s.(rows := s.rows[w.record := row]), w.record, c);
            Inv(t) && Grows(s, t) && CommittedAs(t, w, c.revision) && t.calls == s.calls
  {
    var t := Append(s.(rows := s.rows[w.record := row]), w.record, c);
    AppendGrows(s, t, w.record, c);
    hide Grows, StoreInv, IssueInv, OutcomeInv, CallInv;
    CallsStay(s, t);
    OutcomesStay(s, t);
    StoreAfterAppend(s, t, w.record, c);
    IssuesAfterAppend(s, t, w.record, c);
  }

  lemma AppendGrows(s: State, t: State, record: Id, c: Commit)
    requires t.log == s.log[record := Log(s, record) + [c]] && t.issued == s.issued
    ensures Grows(s, t)
  {
    assert forall r :: r != record ==> Log(t, r) == Log(s, r);
  }

  lemma RecordExtends(log: seq<Commit>, c: Commit)
    requires Chain(log) && c.revision == |log| + 1
    requires c.expected == (if log == [] then None else Some(|log|))
    ensures RecordHolds(Row(c.revision, c.body, c.tombstone), log + [c])
  {
    assert (log + [c])[|log|] == c;
  }

  lemma StoreAfterAppend(s: State, t: State, record: Id, c: Commit)
    requires StoreInv(s) && t.log == s.log[record := Log(s, record) + [c]]
    requires t.rows == s.rows[record := Row(c.revision, c.body, c.tombstone)]
    requires c.revision == |Log(s, record)| + 1
    requires c.expected == (if Log(s, record) == [] then None else Some(|Log(s, record)|))
    ensures StoreInv(t)
  {
    assert record in s.log ==> RecordHolds(s.rows[record], s.log[record]);
    RecordExtends(Log(s, record), c);
    hide RecordHolds, Log;
  }

  lemma IssuesAfterAppend(s: State, t: State, record: Id, c: Commit)
    requires IssueInv(s) && Grows(s, t) && t.log == s.log[record := Log(s, record) + [c]]
    requires t.issued == s.issued && t.nextUid == s.nextUid && CommitIssued(s, record, c)
    ensures IssueInv(t)
  {
    forall u | u in t.issued ensures u < t.nextUid && t.issued[u].uid == u && Plausible(t, t.issued[u]) {
      StaysKnown(s, t, s.issued[u]);
    }
    forall r, k | r in t.log && 0 <= k < |t.log[r]| ensures CommitIssued(t, r, t.log[r][k]) {
      if r in s.log && k < |s.log[r]| {
        assert CommitIssued(s, r, s.log[r][k]) && t.log[r][k] == s.log[r][k];
      }
    }
  }

  lemma StoreAt(s: State, record: Id)
    requires StoreInv(s)
    ensures record in s.rows <==> record in s.log
    ensures record in s.rows ==> s.rows[record].revision == |Log(s, record)| >= 1
    ensures record !in s.rows ==> Log(s, record) == []
  {
    assert record in s.log ==> RecordHolds(s.rows[record], s.log[record]);
  }

  lemma PlausibleAt(s: State, w: Write)
    requires Inv(s) && IsIssued(s, w)
    ensures Plausible(s, w)
  {
  }

  lemma PutFacts(s: State, w: Write)
    ensures var (t, reply) := HandlePut(s, w);
            if RevisionOf(s.rows, w.record) != w.expected then t == s && reply == Conflict
            else
              var row := Row(w.expected.GetOr(0) + 1, w.body, false);
              reply == Stored(row.revision)
              && t == Append(s.(rows := s.rows[w.record := row]), w.record,
                             Commit(w.uid, w.expected, row.revision, row.body, row.tombstone))
  {
  }

  lemma DeleteFacts(s: State, w: Write)
    requires w.expected.Some?
    ensures var (t, reply) := HandleDelete(s, w);
            if w.record !in s.rows then t == s && reply == NotFound
            else if s.rows[w.record].revision != w.expected.value then t == s && reply == Conflict
            else
              var row := Row(w.expected.value + 1, s.rows[w.record].body, true);
              reply == Stored(row.revision)
              && t == Append(s.(rows := s.rows[w.record := row]), w.record,
                             Commit(w.uid, w.expected, row.revision, row.body, row.tombstone))
  {
  }

  // A put is refused only when another commit has taken the place it asks for.
  lemma RefusedPutIsLate(s: State, w: Write)
    requires StoreInv(s) && Plausible(s, w) && RevisionOf(s.rows, w.record) != w.expected
    ensures SlotTaken(s, w)
  {
    StoreAt(s, w.record);
    hide StoreInv;
  }

  lemma GrantedPutIsNext(s: State, w: Write)
    requires StoreInv(s) && RevisionOf(s.rows, w.record) == w.expected
    ensures Slot(w) == |Log(s, w.record)|
    ensures w.expected == (if Log(s, w.record) == [] then None else Some(|Log(s, w.record)|))
  {
    StoreAt(s, w.record);
    hide StoreInv;
  }

  lemma HandlePutKeeps(s: State, w: Write)
    requires Inv(s) && IsIssued(s, w)
    ensures var (t, reply) := HandlePut(s, w);
            Inv(t) && Grows(s, t) && t.calls == s.calls && (reply.Stored? || reply.Conflict?)
            && (reply.Stored? ==> CommittedAs(t, w, reply.revision))
            && (reply.Conflict? ==> SlotTaken(t, w))
  {
    InvHasStore(s);
    PutFacts(s, w);
    if RevisionOf(s.rows, w.record) != w.expected {
      PlausibleAt(s, w);
      RefusedPutIsLate(s, w);
      GrowsReflexive(s);
      hide *;
    } else {
      GrantedPutIsNext(s, w);
      hide Inv, StoreInv, Grows, IsIssued, HandlePut, Append, Put, RevisionOf, Log, CommittedAs;
      var row := Row(w.expected.GetOr(0) + 1, w.body, false);
      AppendKeeps(s, w, Commit(w.uid, w.expected, row.revision, w.body, false), row);
    }
  }

  lemma HandleDeleteKeeps(s: State, w: Write)
    requires Inv(s) && IsIssued(s, w) && w.expected.Some?
    ensures var (t, reply) := HandleDelete(s, w);
            Inv(t) && Grows(s, t) && t.calls == s.calls && (reply.Stored? || reply.Conflict? || reply.NotFound?)
            && (reply.Stored? ==> CommittedAs(t, w, reply.revision))
            && (reply.Conflict? ==> SlotTaken(t, w))
  {
    InvHasStore(s);
    StoreAt(s, w.record);
    PlausibleAt(s, w);
    GrowsReflexive(s);
    DeleteFacts(s, w);
    hide Inv, StoreInv, Grows, IsIssued, HandleDelete, Append;
    var reply := HandleDelete(s, w).1;
    if reply.Stored? {
      var body := s.rows[w.record].body;
      AppendKeeps(s, w, Commit(w.uid, w.expected, reply.revision, body, true), Row(reply.revision, body, true));
    }
  }

  lemma HandleOpKeeps(s: State, op: Op)
    requires Inv(s) && Startable(s, op)
    ensures var (t, reply) := HandleOp(s, op);
            Inv(t) && Grows(s, t) && t.calls == s.calls && ReplyHolds(t, op, reply)
  {
    hide Inv, HandlePut, HandleDelete, Grows;
    GrowsReflexive(s);
    match op
    case RestoreRead(record) => StoreAt(s, record) by { InvHasStore(s); }
    case Delete(w) => HandleDeleteKeeps(s, w);
    case _ => HandlePutKeeps(s, WriteOf(op).value);
  }

  lemma InvHasStore(s: State)
    requires Inv(s)
    ensures StoreInv(s)
  {
  }

  lemma AcknowledgeKeeps(s: State, w: Write, reply: Reply)
    requires Inv(s) && IsIssued(s, w) && (reply.Stored? ==> CommittedAs(s, w, reply.revision))
    ensures Inv(Acknowledge(s, w, reply)) && Grows(s, Acknowledge(s, w, reply))
  {
    GrowsReflexive(s);
    if reply.Stored? {
      var t := Acknowledge(s, w, reply);
      SameHistory(s, t);
      hide Grows, StoreInv, IssueInv;
      CallsStay(s, t);
      hide CallInv;
      AcknowledgedHolds(s, w, reply.revision);
      OutcomesStay(s.(acknowledged := t.acknowledged), t) by { GrowsReflexive(t); }
    }
  }

  lemma AcknowledgedHolds(s: State, w: Write, revision: nat)
    requires OutcomeInv(s) && IsIssued(s, w) && CommittedAs(s, w, revision)
    ensures OutcomeInv(s.(acknowledged := s.acknowledged[w.uid := revision]))
  {
    var t := s.(acknowledged := s.acknowledged[w.uid := revision]);
    assert forall r :: Log(t, r) == Log(s, r);
    forall u | u in t.acknowledged ensures u in t.issued && CommittedAs(t, t.issued[u], t.acknowledged[u]) {
      assert u != w.uid ==> CommittedAs(s, s.issued[u], s.acknowledged[u]);
    }
    forall u | u in t.dropped ensures u in t.issued && SlotTaken(t, t.issued[u]) {
      assert SlotTaken(s, s.issued[u]);
    }
  }

  lemma QueueHolds(s: State, client: nat)
    requires Inv(s)
    ensures OnePerRecord(Queue(s, client)) && forall w :: w in Queue(s, client) ==> IsIssued(s, w)
    ensures forall u :: u in s.dropped ==> u in s.issued && SlotTaken(s, s.issued[u])
  {
  }

  lemma QueueKeeps(s: State, client: nat, queue: seq<Write>, dropped: set<nat>)
    requires Inv(s) && OnePerRecord(queue) && forall w :: w in queue ==> IsIssued(s, w)
    requires forall u :: u in dropped ==> u in s.issued && SlotTaken(s, s.issued[u])
    ensures var t := s.(queues := s.queues[client := queue], dropped := dropped);
            Inv(t) && Grows(s, t)
  {
    var t := s.(queues := s.queues[client := queue], dropped := dropped);
    SameHistory(s, t);
    forall k | k in t.calls ensures k < t.nextCall && CallHolds(t, t.calls[k]) {
      CallStays(s, t, s.calls[k]);
    }
    forall c | c in t.queues
      ensures OnePerRecord(t.queues[c]) && forall w :: w in t.queues[c] ==> IsIssued(t, w)
    {
      assert c != client ==> forall w :: w in s.queues[c] ==> IsIssued(s, w);
    }
    forall u | u in t.acknowledged ensures u in t.issued && CommittedAs(t, t.issued[u], t.acknowledged[u]) {
      StaysKnown(s, t, s.issued[u]);
    }
    forall u | u in t.dropped ensures u in t.issued && SlotTaken(t, t.issued[u]) {
      StaysKnown(s, t, s.issued[u]);
    }
  }

  lemma ReplayKeeps(s: State, client: nat, w: Write, rest: seq<Write>, reply: Reply)
    requires Inv(s) && IsIssued(s, w) && (forall x :: x in rest ==> IsIssued(s, x))
    requires reply.Conflict? ==> SlotTaken(s, w)
    ensures Inv(AfterReplay(s, client, w, rest, reply)) && Grows(s, AfterReplay(s, client, w, rest, reply))
  {
    QueueHolds(s, client);
    var queue := Without(Queue(s, client), w.record);
    WithoutKeepsOnePerRecord(Queue(s, client), w.record);
    var dropped := if reply == Conflict then s.dropped + {w.uid} else s.dropped;
    hide Inv;
    QueueKeeps(s, client, queue, dropped);
    var t := s.(queues := s.queues[client := queue], dropped := dropped);
    if rest != [] {
      forall x | x in rest ensures IsIssued(t, x) { StaysKnown(s, t, x); }
      BeginKeeps(t, client, Replay(rest[0], rest[1..]));
      GrowsTransitive(s, t, Begin(t, client, Replay(rest[0], rest[1..])));
    }
  }

  lemma ReceivedKeeps(s: State, client: nat, op: Op, reply: Reply)
    requires Inv(s) && Startable(s, op) && ReplyHolds(s, op, reply)
    ensures Inv(Received(s, client, op, reply)) && Grows(s, Received(s, client, op, reply))
  {
    hide Inv, Grows, Acknowledge, AfterReplay, Begin, Issue;
    GrowsReflexive(s);
    match op {
      case RestoreRead(record) =>
        if reply.Found? {
          InvNames(s);
          var w := Write(s.nextUid, record, Some(reply.row.revision), reply.row.body);
          IssueKeeps(s, w);
          BeginKeeps(Issue(s, w), client, RestoreWrite(w));
          GrowsTransitive(s, Issue(s, w), Begin(Issue(s, w), client, RestoreWrite(w)));
        }
      case Replay(w, rest) =>
        AcknowledgeKeeps(s, w, reply);
        var t := Acknowledge(s, w, reply);
        StaysKnown(s, t, w);
        forall x | x in rest ensures IsIssued(t, x) { StaysKnown(s, t, x); }
        ReplayKeeps(t, client, w, rest, reply);
        GrowsTransitive(s, t, AfterReplay(t, client, w, rest, reply));
      case _ =>
        AcknowledgeKeeps(s, WriteOf(op).value, reply);
    }
  }

  lemma InvNames(s: State)
    requires Inv(s)
    ensures forall k :: k in s.calls ==> CallHolds(s, s.calls[k])
  {
  }

  lemma CallStartable(s: State, k: nat)
    requires Inv(s) && k in s.calls
    ensures Startable(s, s.calls[k].op) && CallHolds(s, s.calls[k])
  {
  }

  lemma FailKeeps(s: State, k: nat)
    requires Inv(s) && Enabled(s, Fail(k))
    ensures Inv(Next(s, Fail(k))) && Grows(s, Next(s, Fail(k)))
  {
    CallStartable(s, k);
    hide Inv, Grows, IsIssued, ReplyHolds;
    var c := s.calls[k];
    var t := if c.phase.Sent? then s.(calls := s.calls[k := c.(phase := Abandoned)]) else s.(calls := s.calls - {k});
    if c.phase.Sent? {
      SetCallKeeps(s, k, c.(phase := Abandoned));
    } else {
      DropCallKeeps(s, k);
    }
    if c.op.Save? {
      QueueHolds(t, c.client);
      EnqueueKeepsOnePerRecord(Queue(t, c.client), c.op.w);
      StaysKnown(s, t, c.op.w);
      QueueKeeps(t, c.client, Enqueue(Queue(t, c.client), c.op.w), t.dropped);
      GrowsTransitive(s, t, Next(s, Fail(k)));
    }
  }

  // Every step keeps the invariant, and history only grows.
  lemma NextKeeps(s: State, step: Step)
    requires Inv(s) && Enabled(s, step)
    ensures Inv(Next(s, step)) && Grows(s, Next(s, step))
  {
    hide Inv, Grows, HandleOp, Answer, Received, Issue, Begin, ReplyHolds, CallHolds;
    match step
    case StartSave(client, record, expected, body) =>
      var w := Write(s.nextUid, record, expected, body);
      IssueKeeps(s, w);
      BeginKeeps(Issue(s, w), client, Save(w));
      GrowsTransitive(s, Issue(s, w), Next(s, step));
    case StartDelete(client, record, prior) =>
      var w := Write(s.nextUid, record, Some(prior), []);
      IssueKeeps(s, w);
      BeginKeeps(Issue(s, w), client, Delete(w));
      GrowsTransitive(s, Issue(s, w), Next(s, step));
    case StartRestore(client, record) =>
      BeginKeeps(s, client, RestoreRead(record));
    case StartFlush(client) =>
      QueueHolds(s, client);
      var queue := Queue(s, client);
      BeginKeeps(s, client, Replay(queue[0], queue[1..]));
    case Handle(k) =>
      CallStartable(s, k);
      HandleOpKeeps(s, s.calls[k].op);
      var (t, reply) := HandleOp(s, s.calls[k].op);
      AnswerKeeps(t, k, reply);
      GrowsTransitive(s, t, Next(s, step));
    case Refuse(k) =>
      RefusedHolds(s, s.calls[k].op);
      AnswerKeeps(s, k, Refused);
    case Deliver(k) =>
      CallStartable(s, k);
      var c := s.calls[k];
      var t := s.(calls := s.calls - {k});
      DropCallKeeps(s, k);
      AnsweredHolds(s, c);
      ReplyStays(s, t, c.op, c.phase.reply);
      StartableStays(s, t, c.op);
      ReceivedKeeps(t, c.client, c.op, c.phase.reply);
      GrowsTransitive(s, t, Next(s, step));
    case Fail(k) =>
      FailKeeps(s, k);
  }

  lemma RefusedHolds(s: State, op: Op)
    ensures ReplyHolds(s, op, Refused)
  {
  }

  lemma AnsweredHolds(s: State, c: Call)
    requires CallHolds(s, c) && c.phase.Answered?
    ensures ReplyHolds(s, c.op, c.phase.reply)
  {
  }

  lemma StartableStays(s: State, t: State, op: Op)
    requires Grows(s, t) && Startable(s, op)
    ensures Startable(t, op)
  {
    hide Grows, IsIssued;
    if WriteOf(op).Some? { StaysKnown(s, t, WriteOf(op).value); }
    if op.Replay? {
      forall w | w in op.rest ensures IsIssued(t, w) { StaysKnown(s, t, w); }
    }
  }

  /* ---------- whole runs ---------- */

  lemma {:induction false} RunKeeps(steps: seq<Step>)
    requires Run(steps).Some?
    ensures Inv(Run(steps).value)
  {
    if steps != [] {
      hide Next, Enabled;
      RunKeeps(steps[..|steps| - 1]);
      NextKeeps(Run(steps[..|steps| - 1]).value, steps[|steps| - 1]);
    }
  }

  lemma {:induction false} RunGrows(steps: seq<Step>, more: seq<Step>)
    requires Run(steps + more).Some?
    ensures Run(steps).Some? && Grows(Run(steps).value, Run(steps + more).value)
    decreases |more|
  {
    if more == [] {
      assert steps + more == steps;
      GrowsReflexive(Run(steps).value);
    } else {
      hide Next, Enabled, Grows, Inv;
      var all := steps + more;
      var before := all[..|all| - 1];
      assert before == steps + more[..|more| - 1] && all[|all| - 1] == more[|more| - 1];
      RunGrows(steps, more[..|more| - 1]);
      RunKeeps(before);
      NextKeeps(Run(before).value, all[|all| - 1]);
      GrowsTransitive(Run(steps).value, Run(before).value, Run(all).value);
    }
  }

  // In every run, a record's commits carry the revisions 1, 2, 3, ..., every one but the first
  // names its immediate predecessor, and the stored row is the last of them.
  lemma RevisionsAreConsecutive(steps: seq<Step>, record: Id)
    requires Run(steps).Some?
    ensures var s := Run(steps).value;
            Chain(Log(s, record))
            && (record in s.rows <==> Log(s, record) != [])
            && (record in s.rows ==> RowIsLast(s.rows[record], Log(s, record)))
  {
    RunKeeps(steps);
    var s := Run(steps).value;
    assert record in s.log ==> RecordHolds(s.rows[record], s.log[record]);
  }

  // In every run, a write commits at most once, at one place of one record, however often its
  // client or the network repeats it.
  lemma CommitsAtMostOnce(steps: seq<Step>, r: Id, i: nat, r': Id, j: nat)
    requires Run(steps).Some?
    requires i < |Log(Run(steps).value, r)| && j < |Log(Run(steps).value, r')|
    requires Log(Run(steps).value, r)[i].uid == Log(Run(steps).value, r')[j].uid
    ensures r == r' && i == j
  {
    RunKeeps(steps);
    var s := Run(steps).value;
    hide Run;
    assert CommitIssued(s, r, s.log[r][i]) && CommitIssued(s, r', s.log[r'][j]);
    assert RecordHolds(s.rows[r], s.log[r]);
  }

  // A write acknowledged to its client stays committed at that revision for ever after.
  lemma AcknowledgedIsNeverLost(steps: seq<Step>, more: seq<Step>, uid: nat)
    requires Run(steps + more).Some?
    requires Run(steps).Some? && uid in Run(steps).value.acknowledged
    ensures var (s, t) := (Run(steps).value, Run(steps + more).value);
            uid in s.issued && CommittedAs(t, s.issued[uid], s.acknowledged[uid])
  {
    RunKeeps(steps);
    RunGrows(steps, more);
    var s := Run(steps).value;
    hide Run;
    StaysKnown(s, Run(steps + more).value, s.issued[uid]);
  }

  // A queued write dropped on a conflict had its place decided already: it had itself committed
  // and only the response was lost, or another write was granted the place it asked for.
  lemma DroppedWasDecided(steps: seq<Step>, uid: nat)
    requires Run(steps).Some? && uid in Run(steps).value.dropped
    ensures var s := Run(steps).value;
            uid in s.issued && SlotTaken(s, s.issued[uid])
            && var winner := Log(s, s.issued[uid].record)[Slot(s.issued[uid])].uid;
               winner in s.issued && s.issued[winner].record == s.issued[uid].record
               && Slot(s.issued[winner]) == Slot(s.issued[uid])
  {
    RunKeeps(steps);
    var s := Run(steps).value;
    hide Run;
    var w := s.issued[uid];
    var c := s.log[w.record][Slot(w)];
    assert CommitIssued(s, w.record, c);
    assert RecordHolds(s.rows[w.record], s.log[w.record]);
  }

  // Queues hold at most one write per record.
  lemma QueuesStayUnique(steps: seq<Step>, client: nat)
    requires Run(steps).Some?
    ensures OnePerRecord(Queue(Run(steps).value, client))
  {
    RunKeeps(steps);
    hide Run;
    QueueHolds(Run(steps).value, client);
  }
}
