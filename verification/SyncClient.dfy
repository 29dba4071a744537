/**
 * One client of the record store: saving with an offline queue, replaying the queue, restoring
 * and tombstoning, over a network that may lose a request or its response.
 */
module SyncClient {
  import opened Bytes
  import opened RecordStore

  // What becomes of one request, which arrives at once or never. Only the two losses look like a
  // network failure to the client.
  datatype Fate = Delivered | RequestLost | ResponseLost | Rejected

  datatype Outcome = Replied(reply: Reply) | Unreachable

  // What the client sees of a request the store answers with `reply` if it arrives.
  function Seen(fate: Fate, reply: Reply): Outcome {
    match fate
    case Delivered => Replied(reply)
    case Rejected => Replied(Refused)
    case _ => Unreachable
  }

  predicate Arrives(fate: Fate) {
    fate.Delivered? || fate.ResponseLost?
  }

  // A put as sent: what it leaves in the store and what the client sees.
  function SendPut(rows: Rows, w: Write, fate: Fate): (Rows, Outcome) {
    var (rows', reply) := Put(rows, w);
    (if Arrives(fate) then rows' else rows, Seen(fate, reply))
  }

  /* ---------- replaying the queue ---------- */

  datatype Progress = Progress(rows: Rows, queue: seq<Write>, synced: nat, conflicts: nat)

  // The client gets an answer.
  predicate Heard(fate: Fate) {
    fate.Delivered? || fate.Rejected?
  }

  // One queued write sent: any answer removes it, a network failure leaves it.
  function Turn(p: Progress, fate: Fate): Progress
    requires p.queue != []
  {
    var (rows, outcome) := SendPut(p.rows, p.queue[0], fate);
    if outcome.Unreachable? then p.(rows := rows)
    else if outcome.reply.Stored? then Progress(rows, p.queue[1..], p.synced + 1, p.conflicts)
    else Progress(rows, p.queue[1..], p.synced, p.conflicts + 1)
  }

  // Replaying from the front until the queue is empty or an answer fails to come.
  function Replay(p: Progress, fates: nat -> Fate): (r: Progress)
    decreases |p.queue|
  {
    if p.queue == [] then p
    else
      var fate := fates(p.synced + p.conflicts);
      if Heard(fate) then Replay(Turn(p, fate), fates) else Turn(p, fate)
  }

  lemma TurnCounts(p: Progress, fate: Fate)
    requires p.queue != []
    ensures var t := Turn(p, fate);
            if Heard(fate) then
              t.queue == p.queue[1..] && t.synced + t.conflicts == p.synced + p.conflicts + 1
              && p.synced <= t.synced && p.conflicts <= t.conflicts
            else t == p.(rows := t.rows)
  {
    hide Put;
  }

  lemma ReplayTurns(p: Progress, fates: nat -> Fate)
    requires p.queue != []
    ensures var fate := fates(p.synced + p.conflicts);
            Replay(p, fates) == if Heard(fate) then Replay(Turn(p, fate), fates) else Turn(p, fate)
  {
    TurnCounts(p, fates(p.synced + p.conflicts));
    hide Turn;
  }

  // Every queued write is synced, counted as a conflict or still pending, and what is still
  // pending is the end of the queue, in its order.
  predicate Conserves(p: Progress, after: Progress) {
    var done := after.synced + after.conflicts - (p.synced + p.conflicts);
    p.synced <= after.synced && p.conflicts <= after.conflicts && done <= |p.queue| && after.queue == p.queue[done..]
  }

  lemma ConservesTurn(p: Progress, t: Progress, after: Progress)
    requires p.queue != [] && t.queue == p.queue[1..] && Conserves(t, after)
    requires t.synced + t.conflicts == p.synced + p.conflicts + 1
    requires p.synced <= t.synced && p.conflicts <= t.conflicts
    ensures Conserves(p, after)
  {
    var done := after.synced + after.conflicts - (t.synced + t.conflicts);
    assert p.queue[1..][done..] == p.queue[done + 1..];
  }

  lemma {:induction false} FlushConserves(p: Progress, fates: nat -> Fate)
    ensures Conserves(p, Replay(p, fates))
    decreases |p.queue|
  {
    if p.queue != [] {
      var fate := fates(p.synced + p.conflicts);
      TurnCounts(p, fate);
      ReplayTurns(p, fates);
      if Heard(fate) {
        hide Turn, Replay, Heard, Conserves;
        FlushConserves(Turn(p, fate), fates);
        ConservesTurn(p, Turn(p, fate), Replay(p, fates));
      }
    }
  }

  // The replay stops early exactly at the first lost request or response.
  lemma {:induction false} StopsAtFirstLoss(p: Progress, fates: nat -> Fate)
    ensures var first := p.synced + p.conflicts;
            var after := Replay(p, fates);
            var last := after.synced + after.conflicts;
            (after.queue != [] ==> !Heard(fates(last)))
            && (forall k :: first <= k < last ==> Heard(fates(k)))
    decreases |p.queue|
  {
    if p.queue != [] {
      var fate := fates(p.synced + p.conflicts);
      TurnCounts(p, fate);
      hide Turn;
      if Heard(fate) { StopsAtFirstLoss(Turn(p, fate), fates); }
    }
  }

  /* ---------- what repeated flushes amount to ---------- */

  function PutAll(rows: Rows, queue: seq<Write>): Rows
    decreases |queue|
  {
    if queue == [] then rows else PutAll(Put(rows, queue[0]).0, queue[1..])
  }

  // Sending a write again changes nothing, and is refused.
  lemma PutTwice(rows: Rows, w: Write)
    ensures Put(Put(rows, w).0, w) == (Put(rows, w).0, Conflict)
  {
  }

  predicate NoneRejected(fates: nat -> Fate, count: nat) {
    forall k :: 0 <= k < count ==> !fates(k).Rejected?
  }

  // A turn leaves as much to be done as before it, unless the write was rejected.
  lemma TurnKeepsOutcome(p: Progress, fate: Fate)
    requires p.queue != [] && !fate.Rejected?
    ensures var t := Turn(p, fate); PutAll(t.rows, t.queue) == PutAll(p.rows, p.queue)
  {
    PutTwice(p.rows, p.queue[0]);
    hide Put;
  }

  lemma {:induction false} ReplayKeepsOutcome(p: Progress, fates: nat -> Fate)
    requires NoneRejected(fates, p.synced + p.conflicts + |p.queue|)
    ensures var after := Replay(p, fates);
            PutAll(after.rows, after.queue) == PutAll(p.rows, p.queue)
    decreases |p.queue|
  {
    if p.queue != [] {
      var fate := fates(p.synced + p.conflicts);
      TurnCounts(p, fate);
      TurnKeepsOutcome(p, fate);
      hide Turn, PutAll;
      if Heard(fate) { ReplayKeepsOutcome(Turn(p, fate), fates); }
    }
  }

  // Flushing once for every element of `rounds`.
  function Rounds(rows: Rows, queue: seq<Write>, rounds: seq<nat -> Fate>): (Rows, seq<Write>)
    decreases |rounds|
  {
    if rounds == [] then (rows, queue)
    else
      var after := Replay(Progress(rows, queue, 0, 0), rounds[0]);
      Rounds(after.rows, after.queue, rounds[1..])
  }

  // However many flushes it takes, and whatever requests and responses are lost on the way, once
  // the queue is empty the store holds what one flush without losses would have left there.
  lemma {:induction false} LossesDoNotMatter(rows: Rows, queue: seq<Write>, rounds: seq<nat -> Fate>)
    requires forall fates <- rounds :: NoneRejected(fates, |queue|)
    ensures var (rows', queue') := Rounds(rows, queue, rounds);
            PutAll(rows', queue') == PutAll(rows, queue) && (queue' == [] ==> rows' == PutAll(rows, queue))
    decreases |rounds|
  {
    if rounds != [] {
      var p := Progress(rows, queue, 0, 0);
      var after := Replay(p, rounds[0]);
      ReplayKeepsOutcome(p, rounds[0]);
      FlushConserves(p, rounds[0]);
      hide Replay, PutAll;
      forall fates | fates in rounds[1..] ensures NoneRejected(fates, |after.queue|) {
        assert fates in rounds;
      }
      LossesDoNotMatter(after.rows, after.queue, rounds[1..]);
    }
  }

  /* ---------- what rejections lose ---------- */

  function RowOf(rows: Rows, record: Id): Option<Row> {
    if record in rows then Some(rows[record]) else None
  }

  // The store would grant this write.
  predicate Grantable(rows: Rows, w: Write) {
    RevisionOf(rows, w.record) == w.expected
  }

  // A put looks at its record's row alone; granted, it changes that row, and nothing else ever changes.
  lemma PutIsLocal(rows: Rows, other: Rows, w: Write, record: Id)
    ensures record != w.record ==> RowOf(Put(rows, w).0, record) == RowOf(rows, record)
    ensures RowOf(rows, w.record) == RowOf(other, w.record) ==>
              RowOf(Put(rows, w).0, w.record) == RowOf(Put(other, w).0, w.record)
    ensures Grantable(rows, w) <==> RowOf(Put(rows, w).0, w.record) != RowOf(rows, w.record)
  {
  }

  // With one write per record, each record ends as its own put leaves it, all others as they were.
  lemma {:induction false} PutAllAt(rows: Rows, queue: seq<Write>, record: Id)
    requires OnePerRecord(queue)
    ensures (forall w :: w in queue ==> w.record != record)
              ==> RowOf(PutAll(rows, queue), record) == RowOf(rows, record)
    ensures forall w :: w in queue && w.record == record ==>
              RowOf(PutAll(rows, queue), record) == RowOf(Put(rows, w).0, record)
    decreases |queue|
  {
    if queue != [] {
      var (head, rest) := (queue[0], queue[1..]);
      PutAllAt(Put(rows, head).0, rest, record);
      PutIsLocal(rows, rows, head, record);
      assert forall w :: w in queue <==> w == head || w in rest;
      forall w | w in rest ensures w.record != head.record {
        var i :| 0 <= i < |rest| && rest[i] == w;
        assert queue[i + 1] == w;
      }
      forall w | w in rest && w.record == record
        ensures RowOf(Put(Put(rows, head).0, w).0, record) == RowOf(Put(rows, w).0, record)
      {
        PutIsLocal(rows, Put(rows, head).0, w, record);
      }
      hide Put, RowOf, OnePerRecord;
    }
  }

  lemma SameRows(a: Rows, b: Rows)
    requires forall record :: RowOf(a, record) == RowOf(b, record)
    ensures a == b
  {
    forall record ensures (record in a <==> record in b) && (record in a ==> a[record] == b[record]) {
      assert RowOf(a, record) == RowOf(b, record);
    }
  }

  // How many of the next n requests in a row are answered.
  function Answered(fates: nat -> Fate, start: nat, n: nat): (d: nat)
    ensures d <= n && (d < n ==> !Heard(fates(start + d)))
    decreases n
  {
    if n == 0 || !Heard(fates(start)) then 0 else 1 + Answered(fates, start + 1, n - 1)
  }

  lemma {:induction false} AnsweredHeard(fates: nat -> Fate, start: nat, n: nat, i: nat)
    requires i < Answered(fates, start, n)
    ensures Heard(fates(start + i))
    decreases n
  {
    if i > 0 { AnsweredHeard(fates, start + 1, n - 1, i - 1); }
  }

  // Item k of a queue of n is rejected before any request for it has reached the store.
  predicate RejectedUnseen(rounds: seq<nat -> Fate>, k: nat, n: nat)
    requires k < n
    decreases |rounds|
  {
    if rounds == [] then false
    else
      var d := Answered(rounds[0], 0, n);
      if k < d then rounds[0](k).Rejected?
      else if k == d && rounds[0](d).ResponseLost? then false
      else RejectedUnseen(rounds[1..], k - d, n - d)
  }

  // Whether a flush that answers d requests has put item k into the store.
  predicate Reaches(fates: nat -> Fate, start: nat, d: nat, k: nat) {
    if k < d then Arrives(fates(start + k)) else k == d && fates(start + d).ResponseLost?
  }

  lemma TurnAt(p: Progress, fate: Fate, record: Id)
    requires p.queue != []
    ensures RowOf(Turn(p, fate).rows, record)
              == if Arrives(fate) then RowOf(Put(p.rows, p.queue[0]).0, record) else RowOf(p.rows, record)
  {
    hide Put;
  }

  lemma AnsweredNext(p: Progress, fate: Fate, fates: nat -> Fate)
    requires p.queue != [] && fate == fates(p.synced + p.conflicts) && Heard(fate)
    ensures var (t, start) := (Turn(p, fate), p.synced + p.conflicts);
            var d := Answered(fates, t.synced + t.conflicts, |t.queue|);
            Answered(fates, start, |p.queue|) == 1 + d && t.queue[d..] == p.queue[1 + d..]
  {
    TurnCounts(p, fate);
    hide Turn, Heard;
  }

  lemma NoneAnswered(p: Progress, fates: nat -> Fate)
    requires p.queue == [] || !Heard(fates(p.synced + p.conflicts))
    ensures Answered(fates, p.synced + p.conflicts, |p.queue|) == 0 && p.queue[0..] == p.queue
    ensures Replay(p, fates).queue == p.queue
  {
    if p.queue != [] {
      TurnCounts(p, fates(p.synced + p.conflicts));
      hide Turn;
    }
  }

  lemma {:induction false} ReplayAnswers(p: Progress, fates: nat -> Fate)
    ensures Replay(p, fates).queue == p.queue[Answered(fates, p.synced + p.conflicts, |p.queue|)..]
    decreases |p.queue|
  {
    hide *;
    var fate := fates(p.synced + p.conflicts);
    if p.queue == [] || !Heard(fate) {
      NoneAnswered(p, fates);
    } else {
      TurnCounts(p, fate);
      ReplayTurns(p, fates);
      AnsweredNext(p, fate, fates);
      ReplayAnswers(Turn(p, fate), fates);
    }
  }

  predicate Absent(queue: seq<Write>, record: Id) {
    forall w :: w in queue ==> w.record != record
  }

  lemma {:induction false} ReplayElsewhere(p: Progress, fates: nat -> Fate, record: Id)
    requires Absent(p.queue, record)
    ensures RowOf(Replay(p, fates).rows, record) == RowOf(p.rows, record)
    decreases |p.queue|
  {
    if p.queue != [] {
      var fate := fates(p.synced + p.conflicts);
      assert p.queue[0] in p.queue;
      TurnCounts(p, fate);
      TurnAt(p, fate, record);
      PutIsLocal(p.rows, p.rows, p.queue[0], record);
      assert Absent(p.queue[1..], record);
      hide Turn, Heard, Put, RowOf;
      if Heard(fate) { ReplayElsewhere(Turn(p, fate), fates, record); }
    }
  }

  lemma RestIsApart(queue: seq<Write>)
    requires queue != [] && OnePerRecord(queue)
    ensures OnePerRecord(queue[1..]) && Absent(queue[1..], queue[0].record)
  {
    forall w | w in queue[1..] ensures w.record != queue[0].record {
      var i :| 0 <= i < |queue[1..]| && queue[1..][i] == w;
      assert queue[i + 1] == w;
    }
  }

  // What a flush leaves in the row of a write that reached the store, or did not.
  function RowAfter(rows: Rows, w: Write, reached: bool): Option<Row> {
    RowOf(if reached then Put(rows, w).0 else rows, w.record)
  }

  lemma SameRowAfter(rows: Rows, other: Rows, w: Write, reached: bool)
    requires RowOf(rows, w.record) == RowOf(other, w.record)
    ensures RowAfter(rows, w, reached) == RowAfter(other, w, reached)
  {
    PutIsLocal(rows, other, w, w.record);
    hide Put;
  }

  lemma HeadTurn(p: Progress, fate: Fate)
    requires p.queue != []
    ensures RowOf(Turn(p, fate).rows, p.queue[0].record) == RowAfter(p.rows, p.queue[0], Arrives(fate))
  {
    TurnAt(p, fate, p.queue[0].record);
    hide Put, Turn;
  }

  lemma OtherTurn(p: Progress, fate: Fate, record: Id)
    requires p.queue != [] && record != p.queue[0].record
    ensures RowOf(Turn(p, fate).rows, record) == RowOf(p.rows, record)
  {
    TurnAt(p, fate, record);
    PutIsLocal(p.rows, p.rows, p.queue[0], record);
    hide Put, Turn;
  }

  lemma ReachesNext(fates: nat -> Fate, start: nat, n: nat, k: nat)
    requires n > 0
    ensures var d := Answered(fates, start, n);
            Reaches(fates, start, d, k)
              == if k == 0 then Arrives(fates(start))
                 else Heard(fates(start)) && Reaches(fates, start + 1, Answered(fates, start + 1, n - 1), k - 1)
  {
  }

  // The first item's row is settled by its own turn.
  lemma ReplayAtHead(p: Progress, fates: nat -> Fate)
    requires OnePerRecord(p.queue) && p.queue != []
    ensures RowOf(Replay(p, fates).rows, p.queue[0].record)
              == RowAfter(p.rows, p.queue[0], Arrives(fates(p.synced + p.conflicts)))
  {
    var fate := fates(p.synced + p.conflicts);
    TurnCounts(p, fate);
    HeadTurn(p, fate);
    ReplayTurns(p, fates);
    RestIsApart(p.queue);
    hide Turn, Replay, RowOf, OnePerRecord, Absent, RowAfter, Arrives;
    if Heard(fate) { ReplayElsewhere(Turn(p, fate), fates, p.queue[0].record); }
  }

  lemma NotTheHead(queue: seq<Write>, k: nat)
    requires OnePerRecord(queue) && 0 < k < |queue|
    ensures OnePerRecord(queue[1..]) && queue[1..][k - 1] == queue[k] && queue[0].record != queue[k].record
  {
  }

  // After a flush the row of item k is its put's result if the put reached the store, and as before
  // if not.
  predicate Settles(p: Progress, fates: nat -> Fate, k: nat)
    requires k < |p.queue|
  {
    var start := p.synced + p.conflicts;
    RowOf(Replay(p, fates).rows, p.queue[k].record)
      == RowAfter(p.rows, p.queue[k], Reaches(fates, start, Answered(fates, start, |p.queue|), k))
  }

  lemma SettlesNext(p: Progress, fates: nat -> Fate, k: nat)
    requires OnePerRecord(p.queue) && 0 < k < |p.queue| && Heard(fates(p.synced + p.conflicts))
    requires |Turn(p, fates(p.synced + p.conflicts)).queue| > k - 1
    requires Settles(Turn(p, fates(p.synced + p.conflicts)), fates, k - 1)
    ensures Settles(p, fates, k)
  {
    hide Replay, RowOf, OnePerRecord, RowAfter, Reaches, Heard, Answered, Turn;
    var start := p.synced + p.conflicts;
    var (t, w, n) := (Turn(p, fates(start)), p.queue[k], |p.queue|);
    NotTheHead(p.queue, k);
    TurnCounts(p, fates(start));
    assert t.queue[k - 1] == w && t.synced + t.conflicts == start + 1 && |t.queue| == n - 1;
    ReachesNext(fates, start, n, k);
    OtherTurn(p, fates(start), w.record);
    ReplayTurns(p, fates);
    SameRowAfter(t.rows, p.rows, w, Reaches(fates, start, Answered(fates, start, n), k));
  }

  lemma SettlesWhenStopped(p: Progress, fates: nat -> Fate, k: nat)
    requires OnePerRecord(p.queue) && 0 < k < |p.queue| && !Heard(fates(p.synced + p.conflicts))
    ensures Settles(p, fates, k)
  {
    hide Replay, RowOf, OnePerRecord, RowAfter, Reaches, Heard, Answered, Turn;
    var start := p.synced + p.conflicts;
    NotTheHead(p.queue, k);
    ReachesNext(fates, start, |p.queue|, k);
    OtherTurn(p, fates(start), p.queue[k].record);
    ReplayTurns(p, fates);
    RowNotReached(p.rows, p.queue[k]);
  }

  lemma SettlesAtHead(p: Progress, fates: nat -> Fate)
    requires OnePerRecord(p.queue) && p.queue != []
    ensures Settles(p, fates, 0)
  {
    ReachesNext(fates, p.synced + p.conflicts, |p.queue|, 0);
    ReplayAtHead(p, fates);
    hide Replay, RowOf, OnePerRecord, RowAfter, Reaches, Answered;
  }

  lemma {:induction false} ReplaySettles(p: Progress, fates: nat -> Fate, k: nat)
    requires OnePerRecord(p.queue) && k < |p.queue|
    ensures Settles(p, fates, k)
    decreases |p.queue|
  {
    hide *;
    var fate := fates(p.synced + p.conflicts);
    if k == 0 {
      SettlesAtHead(p, fates);
    } else if Heard(fate) {
      TurnCounts(p, fate);
      NotTheHead(p.queue, k);
      ReplaySettles(Turn(p, fate), fates, k - 1);
      SettlesNext(p, fates, k);
    } else {
      SettlesWhenStopped(p, fates, k);
    }
  }

  lemma RowNotReached(rows: Rows, w: Write)
    ensures RowAfter(rows, w, false) == RowOf(rows, w.record)
  {
  }

  lemma {:induction false} RoundsElsewhere(rows: Rows, queue: seq<Write>, rounds: seq<nat -> Fate>, record: Id)
    requires OnePerRecord(queue) && Absent(queue, record)
    ensures var (rows', queue') := Rounds(rows, queue, rounds);
            RowOf(PutAll(rows', queue'), record) == RowOf(rows, record)
    decreases |rounds|
  {
    if rounds == [] {
      PutAllAt(rows, queue, record);
    } else {
      var p := Progress(rows, queue, 0, 0);
      ReplayAnswers(p, rounds[0]);
      ReplayElsewhere(p, rounds[0], record);
      RoundsElsewhere(Replay(p, rounds[0]).rows, Replay(p, rounds[0]).queue, rounds[1..], record);
    }
  }

  // A put that has reached the store does nothing more, whatever becomes of its repetitions.
  lemma ReachedOnce(rows: Rows, after: Rows, w: Write, again: bool)
    requires RowOf(after, w.record) == RowAfter(rows, w, true)
    ensures RowAfter(after, w, again) == RowAfter(rows, w, true)
  {
    PutTwice(rows, w);
    PutIsLocal(Put(rows, w).0, after, w, w.record);
    hide Put;
  }

  lemma RejectedUnseenNow(fates: nat -> Fate, d: nat, n: nat, k: nat)
    requires d == Answered(fates, 0, n) && k < n
    ensures k < d ==> (fates(k).Rejected? <==> !Reaches(fates, 0, d, k))
    ensures k >= d ==> (Reaches(fates, 0, d, k) <==> k == d && fates(d).ResponseLost?)
  {
    if k < d { AnsweredHeard(fates, 0, n, k); }
  }

  // One flush, then the others.
  lemma RoundsSplit(rows: Rows, queue: seq<Write>, rounds: seq<nat -> Fate>)
    requires rounds != []
    ensures var d := Answered(rounds[0], 0, |queue|);
            Rounds(rows, queue, rounds)
            == Rounds(Replay(Progress(rows, queue, 0, 0), rounds[0]).rows, queue[d..], rounds[1..])
  {
    ReplayAnswers(Progress(rows, queue, 0, 0), rounds[0]);
    hide Replay, Answered;
  }

  // Any number of flushes, finished as if without losses, leave the row of item k as it was when it
  // was rejected unseen, and as its put leaves it otherwise.
  predicate RoundsSettle(rows: Rows, queue: seq<Write>, rounds: seq<nat -> Fate>, k: nat)
    requires k < |queue|
  {
    var (rows', queue') := Rounds(rows, queue, rounds);
    RowOf(PutAll(rows', queue'), queue[k].record) == RowAfter(rows, queue[k], !RejectedUnseen(rounds, k, |queue|))
  }

  lemma SettledThisRound(rows: Rows, queue: seq<Write>, rounds: seq<nat -> Fate>, k: nat)
    requires OnePerRecord(queue) && rounds != [] && k < Answered(rounds[0], 0, |queue|)
    ensures RoundsSettle(rows, queue, rounds, k)
  {
    var (p, d) := (Progress(rows, queue, 0, 0), Answered(rounds[0], 0, |queue|));
    RoundsSplit(rows, queue, rounds);
    ReplaySettles(p, rounds[0], k);
    RejectedUnseenNow(rounds[0], d, |queue|, k);
    RestQueue(queue, d, k);
    RowNotReached(rows, queue[k]);
    hide Replay, PutAll, RowOf, OnePerRecord, RowAfter, Reaches, Answered, Rounds, Absent;
    RoundsElsewhere(Replay(p, rounds[0]).rows, queue[d..], rounds[1..], queue[k].record);
  }

  lemma SettledLater(rows: Rows, queue: seq<Write>, rounds: seq<nat -> Fate>, k: nat, d: nat)
    requires OnePerRecord(queue) && rounds != [] && d == Answered(rounds[0], 0, |queue|) && d <= k < |queue|
    requires RoundsSettle(Replay(Progress(rows, queue, 0, 0), rounds[0]).rows, queue[d..], rounds[1..], k - d)
    ensures RoundsSettle(rows, queue, rounds, k)
  {
    hide Replay, PutAll, RowOf, OnePerRecord, RowAfter, Reaches, Answered, Rounds, Absent, RejectedUnseen;
    var (p, w, n) := (Progress(rows, queue, 0, 0), queue[k], |queue|);
    RestQueue(queue, d, k);
    assert queue[d..][k - d] == w && |queue[d..]| == n - d;
    RoundsSplit(rows, queue, rounds);
    ReplaySettles(p, rounds[0], k);
    RejectedUnseenLater(rounds, k, n, d);
    LaterRounds(rows, Replay(p, rounds[0]).rows, w, Reaches(rounds[0], 0, d, k),
                !RejectedUnseen(rounds[1..], k - d, n - d));
  }

  lemma RejectedUnseenLater(rounds: seq<nat -> Fate>, k: nat, n: nat, d: nat)
    requires rounds != [] && d == Answered(rounds[0], 0, n) && d <= k < n
    ensures RejectedUnseen(rounds, k, n)
       <==> (!Reaches(rounds[0], 0, d, k) && RejectedUnseen(rounds[1..], k - d, n - d))
  {
    hide Answered;
  }

  lemma {:induction false} AllRoundsSettle(rows: Rows, queue: seq<Write>, rounds: seq<nat -> Fate>, k: nat)
    requires OnePerRecord(queue) && k < |queue|
    ensures RoundsSettle(rows, queue, rounds, k)
    decreases |rounds|
  {
    if rounds == [] {
      NoRounds(rows, queue, k);
    } else {
      hide *;
      var d := Answered(rounds[0], 0, |queue|);
      if k < d {
        SettledThisRound(rows, queue, rounds, k);
      } else {
        RestQueue(queue, d, k);
        AllRoundsSettle(Replay(Progress(rows, queue, 0, 0), rounds[0]).rows, queue[d..], rounds[1..], k - d);
        SettledLater(rows, queue, rounds, k, d);
      }
    }
  }

  lemma LaterRounds(rows: Rows, after: Rows, w: Write, reached: bool, later: bool)
    requires RowOf(after, w.record) == RowAfter(rows, w, reached)
    ensures RowAfter(after, w, later) == RowAfter(rows, w, reached || later)
  {
    hide Put;
    if reached {
      ReachedOnce(rows, after, w, later);
    } else {
      SameRowAfter(after, rows, w, later);
    }
  }

  lemma NoRounds(rows: Rows, queue: seq<Write>, k: nat)
    requires OnePerRecord(queue) && k < |queue|
    ensures Rounds(rows, queue, []) == (rows, queue)
    ensures RowOf(PutAll(rows, queue), queue[k].record) == RowAfter(rows, queue[k], true)
  {
    PutAllAt(rows, queue, queue[k].record);
    assert queue[k] in queue;
  }

  lemma RestQueue(queue: seq<Write>, d: nat, k: nat)
    requires d <= |queue| && k < |queue| && OnePerRecord(queue)
    ensures OnePerRecord(queue[d..])
    ensures k >= d ==> queue[d..][k - d] == queue[k]
    ensures k < d ==> Absent(queue[d..], queue[k].record)
  {
    if k < d {
      forall w | w in queue[d..] ensures w.record != queue[k].record {
        var i :| 0 <= i < |queue[d..]| && queue[d..][i] == w;
        assert queue[d + i] == w;
      }
    }
  }

  // Item k is lost: the store would have granted it, and it was rejected unseen.
  predicate Lost(rows: Rows, queue: seq<Write>, rounds: seq<nat -> Fate>, k: nat)
    requires k < |queue|
  {
    Grantable(rows, queue[k]) && RejectedUnseen(rounds, k, |queue|)
  }

  predicate SameAt(rows: Rows, queue: seq<Write>, rounds: seq<nat -> Fate>, k: nat)
    requires k < |queue|
  {
    var (rows', queue') := Rounds(rows, queue, rounds);
    RowOf(PutAll(rows', queue'), queue[k].record) == RowOf(PutAll(rows, queue), queue[k].record)
  }

  lemma SameUnlessLost(rows: Rows, queue: seq<Write>, rounds: seq<nat -> Fate>, k: nat)
    requires OnePerRecord(queue) && k < |queue|
    ensures SameAt(rows, queue, rounds, k) <==> !Lost(rows, queue, rounds, k)
  {
    AllRoundsSettle(rows, queue, rounds, k);
    PutAllAt(rows, queue, queue[k].record);
    PutIsLocal(rows, rows, queue[k], queue[k].record);
    assert queue[k] in queue;
    hide Put, PutAll, Rounds, RejectedUnseen, Grantable;
  }

  // However many flushes there are, and whatever is lost or rejected on the way, they amount to one
  // flush without losses exactly when no write is lost; with the queue empty, exactly then does the
  // store hold what that flush would have left there. No request arrives after it was given up.
  lemma FlushesLoseNothingExactlyWhen(rows: Rows, queue: seq<Write>, rounds: seq<nat -> Fate>)
    requires OnePerRecord(queue)
    ensures var ((rows', queue'), kept) := (Rounds(rows, queue, rounds),
                                           forall k :: 0 <= k < |queue| ==> !Lost(rows, queue, rounds, k));
            (PutAll(rows', queue') == PutAll(rows, queue) <==> kept)
            && (queue' == [] ==> (rows' == PutAll(rows, queue) <==> kept))
  {
    var (rows', queue') := Rounds(rows, queue, rounds);
    var (end, whole) := (PutAll(rows', queue'), PutAll(rows, queue));
    forall k | 0 <= k < |queue| ensures SameAt(rows, queue, rounds, k) <==> !Lost(rows, queue, rounds, k) {
      SameUnlessLost(rows, queue, rounds, k);
    }
    hide Rounds, Lost, OnePerRecord;
    if forall k :: 0 <= k < |queue| ==> SameAt(rows, queue, rounds, k) {
      forall record ensures RowOf(end, record) == RowOf(whole, record) {
        if Absent(queue, record) {
          RoundsElsewhere(rows, queue, rounds, record);
          PutAllAt(rows, queue, record);
        } else {
          var w :| w in queue && w.record == record;
          var k :| 0 <= k < |queue| && queue[k] == w;
          assert SameAt(rows, queue, rounds, k);
        }
      }
      SameRows(end, whole);
    } else {
      var k :| 0 <= k < |queue| && !SameAt(rows, queue, rounds, k);
      assert end != whole;
    }
  }

  // For one turn: the outcome stays the same exactly when the write is not a grantable one rejected.
  lemma TurnLosesExactlyWhen(p: Progress, fate: Fate)
    requires p.queue != [] && OnePerRecord(p.queue)
    ensures var t := Turn(p, fate);
            PutAll(t.rows, t.queue) == PutAll(p.rows, p.queue) <==> !(fate.Rejected? && Grantable(p.rows, p.queue[0]))
  {
    var (t, w) := (Turn(p, fate), p.queue[0]);
    if fate.Rejected? {
      RestIsApart(p.queue);
      PutAllAt(p.rows, p.queue[1..], w.record);
      PutAllAt(p.rows, p.queue, w.record);
      PutIsLocal(p.rows, p.rows, w, w.record);
      assert w in p.queue;
      hide PutAll;
      if !Grantable(p.rows, w) { assert Put(p.rows, w).0 == p.rows; RefusedPutAll(p.rows, p.queue); }
    } else {
      TurnKeepsOutcome(p, fate);
    }
  }

  lemma RefusedPutAll(rows: Rows, queue: seq<Write>)
    requires queue != [] && Put(rows, queue[0]).0 == rows
    ensures PutAll(rows, queue) == PutAll(rows, queue[1..])
  {
  }

  /* ---------- the client ---------- */

  lemma TurnReplies(p: Progress, fate: Fate)
    requires p.queue != []
    ensures var (rows, outcome) := SendPut(p.rows, p.queue[0], fate);
            outcome.Unreachable? == !Heard(fate)
            && Turn(p, fate) == if outcome.Unreachable? then p.(rows := rows)
                                else if outcome.reply.Stored?
                                     then Progress(rows, p.queue[1..], p.synced + 1, p.conflicts)
                                else Progress(rows, p.queue[1..], p.synced, p.conflicts + 1)
  {
  }

  // The items from i on are still pending.
  predicate Remaining(items: seq<Write>, i: nat, pending: seq<Write>) {
    i <= |items| && pending == items[i..]
  }

  lemma AllRemain(items: seq<Write>)
    ensures Remaining(items, 0, items)
  {
  }

  lemma NextRemains(items: seq<Write>, i: nat, pending: seq<Write>)
    requires i < |items| && Remaining(items, i, pending)
    ensures pending != [] && pending[0] == items[i] && Remaining(items, i + 1, pending[1..])
  {
  }

  lemma NoneRemain(items: seq<Write>, i: nat, pending: seq<Write>)
    ensures i == |items| && Remaining(items, i, pending) ==> pending == []
  {
  }

  lemma ConservesCounts(rows: Rows, queue: seq<Write>, after: Progress)
    requires Conserves(Progress(rows, queue, 0, 0), after)
    ensures after.synced + after.conflicts + |after.queue| == |queue|
    ensures after.queue == queue[after.synced + after.conflicts..]
  {
  }

  lemma ReplayEnds(p: Progress, fates: nat -> Fate)
    ensures p.queue == [] ==> Replay(p, fates) == p
  {
  }

  lemma RestUnique(queue: seq<Write>)
    requires queue != [] && OnePerRecord(queue)
    ensures Without(queue, queue[0].record) == queue[1..] && OnePerRecord(queue[1..])
  {
    WithoutFirst(queue);
  }

  class Service {
    var rows: Rows

    constructor ()
      ensures rows == map[]
    {
      rows := map[];
    }

    method HandlePut(w: Write) returns (reply: Reply)
      modifies this
      ensures (rows, reply) == Put(old(rows), w)
    {
      var (after, answer) := Put(rows, w);
      rows, reply := after, answer;
    }

    method HandleTombstone(record: Id, expected: nat) returns (reply: Reply)
      modifies this
      ensures (rows, reply) == Tombstone(old(rows), record, expected)
    {
      var (after, answer) := Tombstone(rows, record, expected);
      rows, reply := after, answer;
    }
  }

  class Client {
    const service: Service
    var pending: seq<Write>

    ghost predicate Valid()
      reads this
    {
      OnePerRecord(pending)
    }

    constructor (service: Service)
      ensures Valid() && pending == [] && this.service == service
    {
      this.service := service;
      pending := [];
    }

    // One request: the store may handle it, and the client may hear of it.
    method Fetch(w: Write, fate: Fate) returns (outcome: Outcome)
      modifies service
      ensures (service.rows, outcome) == SendPut(old(service.rows), w, fate)
    {
      var reply := Refused;
      if Arrives(fate) {
        reply := service.HandlePut(w);
      }
      outcome := Seen(fate, reply);
    }

    // A save that cannot reach the service replaces any queued write for its record.
    method SaveEntry(w: Write, fate: Fate) returns (outcome: Outcome)
      requires Valid()
      modifies this`pending, service
      ensures Valid()
      ensures (service.rows, outcome) == SendPut(old(service.rows), w, fate)
      ensures outcome.Replied? ==> pending == old(pending)
      ensures outcome.Unreachable? ==> pending != [] && pending[|pending| - 1] == w
      ensures outcome.Unreachable? ==>
                forall x :: x in pending <==> x == w || (x in old(pending) && x.record != w.record)
    {
      outcome := Fetch(w, fate);
      if outcome.Unreachable? {
        EnqueueKeepsOnePerRecord(pending, w);
        pending := Enqueue(pending, w);
      }
    }

    // One turn of the flush: any answer takes the item off the queue.
    method ReplayItem(item: Write, fate: Fate, ghost p: Progress) returns (answered: bool, stored: bool)
      requires OnePerRecord(pending) && pending != [] && item == pending[0]
      requires p.rows == service.rows && p.queue == pending
      modifies this`pending, service
      ensures answered == Heard(fate) && OnePerRecord(pending)
      ensures var synced := p.synced + (if stored then 1 else 0);
              var conflicts := p.conflicts + (if stored then 0 else 1);
              Turn(p, fate)
                 == if answered then Progress(service.rows, pending, synced, conflicts) else p.(rows := service.rows)
      ensures pending == if answered then old(pending)[1..] else old(pending)
    {
      hide Without, OnePerRecord, SendPut, Turn, Heard;
      TurnReplies(p, fate);
      var outcome := Fetch(item, fate);
      answered, stored := outcome.Replied?, false;
      if answered {
        RestUnique(pending);
        pending := Without(pending, item.record);
        stored := outcome.reply.Stored?;
      }
    }

    method FlushPending(fates: nat -> Fate) returns (synced: nat, conflicts: nat, stillPending: nat)
      requires Valid()
      modifies this`pending, service
      ensures Valid()
      ensures Progress(service.rows, pending, synced, conflicts)
                == Replay(Progress(old(service.rows), old(pending), 0, 0), fates)
      ensures stillPending == |pending| && synced + conflicts + stillPending == |old(pending)|
      ensures pending == old(pending)[synced + conflicts..]
    {
      hide Replay, OnePerRecord, Turn, Conserves, Heard, Remaining;
      ghost var p := Progress(service.rows, pending, 0, 0);
      ghost var after := Replay(p, fates);
      FlushConserves(p, fates);
      var items := pending;
      AllRemain(items);
      synced, conflicts := 0, 0;
      var i := 0;
      while i < |items|
        invariant i <= |items| && i == synced + conflicts
        invariant Remaining(items, i, pending) && OnePerRecord(pending)
        invariant p == Progress(service.rows, pending, synced, conflicts)
        invariant Replay(p, fates) == after
      {
        NextRemains(items, i, pending);
        ReplayTurns(p, fates);
        var answered, stored := ReplayItem(items[i], fates(i), p);
        p := Turn(p, fates(i));
        if !answered {
          break;
        }
        if stored {
          synced := synced + 1;
        } else {
          conflicts := conflicts + 1;
        }
        i := i + 1;
      }
      NoneRemain(items, i, pending);
      ReplayEnds(p, fates);
      ConservesCounts(old(service.rows), items, after);
      stillPending := |pending|;
    }

    // Reads the record, then writes it back alive naming the revision read.
    method RestoreEntry(record: Id, readFate: Fate, writeFate: Fate) returns (outcome: Outcome)
      modifies service
      ensures !readFate.Delivered? || record !in old(service.rows) || !Arrives(writeFate) ==>
                service.rows == old(service.rows)
      ensures readFate.Delivered? && record in old(service.rows) && Arrives(writeFate) ==>
                var row := old(service.rows)[record];
                service.rows == old(service.rows)[record := Row(row.revision + 1, row.body, false)]
      ensures readFate.Delivered? && record in old(service.rows) && writeFate.Delivered? ==>
                outcome == Replied(Stored(old(service.rows)[record].revision + 1))
      ensures outcome.Replied? && outcome.reply.Stored? ==> record in service.rows && !service.rows[record].tombstone
    {
      outcome := Seen(readFate, Get(service.rows, record));
      if outcome.Replied? && outcome.reply.Found? {
        var row := outcome.reply.row;
        outcome := Fetch(Write(0, record, Some(row.revision), row.body), writeFate);
      }
    }

    method TombstoneRecord(record: Id, expected: nat, fate: Fate) returns (outcome: Outcome)
      modifies service
      ensures service.rows
         == if Arrives(fate) then Tombstone(old(service.rows), record, expected).0 else old(service.rows)
      ensures outcome == Seen(fate, Tombstone(old(service.rows), record, expected).1)
    {
      var reply := Refused;
      if Arrives(fate) {
        reply := service.HandleTombstone(record, expected);
      }
      outcome := Seen(fate, reply);
    }
  }
}
