/** The compare-and-set record store the clients write to, and the client's queue of offline writes. */
module RecordStore {
  import opened Bytes

  type Id = string

  datatype Row = Row(revision: nat, body: Bytes, tombstone: bool)
  type Rows = map<Id, Row>

  // A sealed write: what a client sends, and sends again unchanged when it replays its queue.
  datatype Write = Write(uid: nat, record: Id, expected: Option<nat>, body: Bytes)

  datatype Reply = Stored(revision: nat) | Conflict | NotFound | Found(row: Row) | Refused

  function RevisionOf(rows: Rows, record: Id): Option<nat> {
    if record in rows then Some(rows[record].revision) else None
  }

  // The revision a put is given: 1 when the record is absent and none was expected, one more
  // than the current one when exactly that was expected, none otherwise.
  function AssignedRevision(current: Option<nat>, expected: Option<nat>): Option<nat> {
    if current != expected then None
    else if current.None? then Some(1)
    else Some(current.value + 1)
  }

  function Put(rows: Rows, w: Write): (Rows, Reply) {
    var granted := AssignedRevision(RevisionOf(rows, w.record), w.expected);
    if granted.None? then (rows, Conflict)
    else (rows[w.record := Row(granted.value, w.body, false)], Stored(granted.value))
  }

  // A tombstone keeps the stored body.
  function Tombstone(rows: Rows, record: Id, expected: nat): (Rows, Reply) {
    if record !in rows then (rows, NotFound)
    else if rows[record].revision != expected then (rows, Conflict)
    else (rows[record := Row(expected + 1, rows[record].body, true)], Stored(expected + 1))
  }

  function Get(rows: Rows, record: Id): Reply {
    if record in rows then Found(rows[record]) else NotFound
  }

  // A tombstone followed by a restore of what it left gives back the live body, two revisions on.
  lemma RestoreUndoesTombstone(rows: Rows, record: Id, uid: nat)
    requires record in rows && !rows[record].tombstone
    ensures var before := rows[record];
            var (deleted, reply) := Tombstone(rows, record, before.revision);
            var row := deleted[record];
            var (restored, reply') := Put(deleted, Write(uid, record, Some(row.revision), row.body));
            reply == Stored(before.revision + 1) && reply' == Stored(before.revision + 2)
            && restored == rows[record := before.(revision := before.revision + 2)]
  {
  }

  /* ---------- the queue ---------- */

  // The queue without its entries for one record.
  function Without(queue: seq<Write>, record: Id): (r: seq<Write>)
    ensures forall w :: w in r <==> w in queue && w.record != record
    ensures |r| <= |queue|
  {
    if queue == [] then []
    else if queue[0].record == record then Without(queue[1..], record)
    else [queue[0]] + Without(queue[1..], record)
  }

  // A queued write replaces any earlier one for its record.
  function Enqueue(queue: seq<Write>, w: Write): (r: seq<Write>)
    ensures forall x :: x in r <==> x == w || (x in queue && x.record != w.record)
  {
    Without(queue, w.record) + [w]
  }

  predicate OnePerRecord(queue: seq<Write>) {
    forall i, j :: 0 <= i < j < |queue| ==> queue[i].record != queue[j].record
  }

  lemma {:induction false} WithoutKeepsOnePerRecord(queue: seq<Write>, record: Id)
    requires OnePerRecord(queue)
    ensures OnePerRecord(Without(queue, record))
  {
    if queue != [] {
      var rest := Without(queue[1..], record);
      WithoutKeepsOnePerRecord(queue[1..], record);
      assert forall j :: 0 <= j < |rest| ==> rest[j] in rest && rest[j] in queue[1..];
    }
  }

  lemma EnqueueKeepsOnePerRecord(queue: seq<Write>, w: Write)
    requires OnePerRecord(queue)
    ensures OnePerRecord(Enqueue(queue, w))
  {
    WithoutKeepsOnePerRecord(queue, w.record);
    var rest := Without(queue, w.record);
    assert forall i :: 0 <= i < |rest| ==> rest[i] in rest;
  }

  lemma {:induction false} WithoutAbsent(queue: seq<Write>, record: Id)
    requires forall w <- queue :: w.record != record
    ensures Without(queue, record) == queue
  {
    if queue != [] {
      WithoutAbsent(queue[1..], record);
    }
  }

  // With one entry per record, removing the first entry's record removes just that entry.
  lemma WithoutFirst(queue: seq<Write>)
    requires queue != [] && OnePerRecord(queue)
    ensures Without(queue, queue[0].record) == queue[1..]
  {
    assert forall w <- queue[1..] :: w.record != queue[0].record;
    WithoutAbsent(queue[1..], queue[0].record);
  }
}
