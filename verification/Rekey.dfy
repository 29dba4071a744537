/**
 * Changing the master password: every live record is sealed again under a key from the new
 * password, by compare-and-set updates, with a rollback when one of them fails. No other client
 * writes meanwhile, and every record belongs to this vault.
 */
module Rekey {
  import opened Bytes
  import opened RecordStore
  import opened SyncClient

  type Key = Bytes

  // Key derivation and authenticated encryption, as the client uses them.
  datatype Crypto = Crypto(
    derive: (string, Bytes) -> Key,
    seal: (Key, nat, string) -> Bytes,
    open: (Key, Bytes) -> Option<string>)

  ghost predicate OpensOwn(c: Crypto) {
    forall key, nonce, plain :: c.open(key, c.seal(key, nonce, plain)) == Some(plain)
  }

  // What is sealed under one key does not open under the other.
  ghost predicate Separate(c: Crypto, key: Key, other: Key) {
    forall nonce, plain :: c.open(other, c.seal(key, nonce, plain)) == None
  }

  const RESERVED_PREFIX := "veyora-"
  const VERIFIER_ID := "veyora-verifier-v1"
  const VERIFIER_PLAINTEXT := "{\"purpose\":\"verifier\",\"check\":\"veyora-verifier-v1\"}"

  predicate Live(rows: Rows, id: Id) {
    id in rows && !rows[id].tombstone
  }

  // The store's listing: every record once, in some order.
  ghost predicate Lists(listing: seq<Id>, rows: Rows) {
    && (forall id :: id in listing <==> id in rows)
    && (forall i, j :: 0 <= i < j < |listing| ==> listing[i] != listing[j])
  }

  /* ---------- checking the current password ---------- */

  function FirstLiveEntry(rows: Rows, listing: seq<Id>): Option<Id>
    decreases |listing|
  {
    if listing == [] then None
    else if Live(rows, listing[0]) && !(RESERVED_PREFIX <= listing[0]) then Some(listing[0])
    else FirstLiveEntry(rows, listing[1..])
  }

  // The verifier record, or else the first live entry.
  function Candidate(rows: Rows, listing: seq<Id>): Option<Id> {
    if VERIFIER_ID in listing && Live(rows, VERIFIER_ID) then Some(VERIFIER_ID) else FirstLiveEntry(rows, listing)
  }

  // A vault with nothing to check against accepts any key.
  predicate Accepts(c: Crypto, rows: Rows, listing: seq<Id>, key: Key) {
    var id := Candidate(rows, listing);
    id.Some? && id.value in rows ==> c.open(key, rows[id.value].body).Some?
  }

  /* ---------- the inventory ---------- */

  datatype Item = Item(id: Id, revision: nat, plain: string)

  // What the record says; the verifier always says the same.
  function PlainOf(c: Crypto, key: Key, rows: Rows, id: Id): Option<string> {
    if id == VERIFIER_ID then Some(VERIFIER_PLAINTEXT)
    else if id in rows then c.open(key, rows[id].body)
    else None
  }

  // The live records with what they say; None when one does not open.
  function Inventory(c: Crypto, key: Key, rows: Rows, listing: seq<Id>): Option<seq<Item>>
    decreases |listing|
  {
    if listing == [] then Some([])
    else
      var (before, id) := (Inventory(c, key, rows, listing[..|listing| - 1]), listing[|listing| - 1]);
      if before.None? then None
      else if !Live(rows, id) then before
      else if PlainOf(c, key, rows, id).None? then None
      else Some(before.value + [Item(id, rows[id].revision, PlainOf(c, key, rows, id).value)])
  }

  predicate ItemHolds(c: Crypto, key: Key, rows: Rows, item: Item) {
    Live(rows, item.id) && item.revision == rows[item.id].revision
    && PlainOf(c, key, rows, item.id) == Some(item.plain)
  }

  ghost predicate Describes(c: Crypto, key: Key, rows: Rows, items: seq<Item>) {
    && (forall i :: 0 <= i < |items| ==> ItemHolds(c, key, rows, items[i]))
    && (forall i, j :: 0 <= i < j < |items| ==> items[i].id != items[j].id)
  }

  // Among the first n items.
  predicate HasBefore(items: seq<Item>, n: nat, id: Id)
    requires n <= |items|
  {
    exists i :: 0 <= i < n && items[i].id == id
  }

  predicate Has(items: seq<Item>, id: Id) {
    HasBefore(items, |items|, id)
  }

  lemma {:induction false} InventoryDescribes(c: Crypto, key: Key, rows: Rows, listing: seq<Id>)
    requires forall i, j :: 0 <= i < j < |listing| ==> listing[i] != listing[j]
    requires Inventory(c, key, rows, listing).Some?
    ensures var items := Inventory(c, key, rows, listing).value;
            Describes(c, key, rows, items)
            && (forall id :: Has(items, id) <==> id in listing && Live(rows, id))
    decreases |listing|
  {
    if listing != [] {
      var (before, id) := (listing[..|listing| - 1], listing[|listing| - 1]);
      InventoryDescribes(c, key, rows, before);
      var items := Inventory(c, key, rows, before).value;
      assert listing == before + [id];
      assert id !in before && !Has(items, id);
      if Live(rows, id) {
        var item := Item(id, rows[id].revision, PlainOf(c, key, rows, id).value);
        HasSnoc(items, item);
      }
    }
  }

  lemma HasSnoc(items: seq<Item>, item: Item)
    ensures forall id :: Has(items + [item], id) <==> Has(items, id) || id == item.id
  {
    var all := items + [item];
    assert all[|items|] == item;
    forall id | Has(items, id) ensures Has(all, id) {
      var i :| 0 <= i < |items| && items[i].id == id;
      assert all[i].id == id;
    }
  }

  /* ---------- passes over the inventory ---------- */

  // One pass of updates: the key and nonces to seal with, how far the revisions have moved since
  // the inventory was taken, and what becomes of each request.
  datatype Pass = Pass(key: Key, nonces: nat -> nat, offset: nat, moved: nat, fates: nat -> Fate)

  function Nonce(p: Pass, i: nat): nat {
    p.nonces(p.offset + i)
  }

  function Resealed(c: Crypto, p: Pass, items: seq<Item>, i: nat): Write
    requires i < |items|
  {
    Write(0, items[i].id, Some(items[i].revision + p.moved), c.seal(p.key, Nonce(p, i), items[i].plain))
  }

  // The store after the first n updates of a pass have been sent.
  function PassRows(c: Crypto, p: Pass, rows: Rows, items: seq<Item>, n: nat): Rows
    requires n <= |items|
  {
    if n == 0 then rows
    else SendPut(PassRows(c, p, rows, items, n - 1), Resealed(c, p, items, n - 1), p.fates(n - 1)).0
  }

  lemma PassRowsNext(c: Crypto, p: Pass, rows: Rows, items: seq<Item>, n: nat)
    requires n < |items|
    ensures PassRows(c, p, rows, items, n + 1)
              == SendPut(PassRows(c, p, rows, items, n), Resealed(c, p, items, n), p.fates(n)).0
  {
    hide SendPut, Resealed;
  }

  lemma PassRowsNone(c: Crypto, p: Pass, rows: Rows, items: seq<Item>)
    ensures PassRows(c, p, rows, items, 0) == rows
  {
  }

  // The row an update leaves, if it arrives.
  function GivenRow(c: Crypto, p: Pass, items: seq<Item>, i: nat): Option<Row>
    requires i < |items|
  {
    if Arrives(p.fates(i)) then
      Some(Row(items[i].revision + p.moved + 1, c.seal(p.key, Nonce(p, i), items[i].plain), false))
    else None
  }

  predicate RowIs(rows: Rows, id: Id, row: Option<Row>, after: Rows) {
    id in rows && id in after && after[id] == row.GetOr(rows[id])
  }

  ghost predicate PassLeaves(c: Crypto, p: Pass, rows: Rows, items: seq<Item>, n: nat, after: Rows)
    requires n <= |items|
  {
    && after.Keys == rows.Keys
    && (forall i :: 0 <= i < n ==> RowIs(rows, items[i].id, GivenRow(c, p, items, i), after))
    && (forall id :: id in rows && !HasBefore(items, n, id) ==> RowIs(rows, id, None, after))
  }

  ghost predicate Distinct(items: seq<Item>) {
    forall i, j :: 0 <= i < j < |items| ==> items[i].id != items[j].id
  }

  // The first n records are at the revisions the pass expects.
  ghost predicate Ready(p: Pass, rows: Rows, items: seq<Item>, n: nat)
    requires n <= |items|
  {
    forall i :: 0 <= i < n ==> ReadyAt(p, rows, items[i])
  }

  predicate ReadyAt(p: Pass, rows: Rows, item: Item) {
    item.id in rows && rows[item.id].revision == item.revision + p.moved
  }

  lemma NotBefore(items: seq<Item>, n: nat)
    requires n < |items| && Distinct(items)
    ensures !HasBefore(items, n, items[n].id)
  {
  }

  lemma LaterIsNew(items: seq<Item>, n: nat, id: Id)
    requires n < |items| && !HasBefore(items, n + 1, id)
    ensures !HasBefore(items, n, id) && id != items[n].id
  {
    assert n < n + 1;
  }

  // A put naming the current revision is granted, and changes that record alone.
  lemma SendReady(c: Crypto, p: Pass, rows: Rows, before: Rows, items: seq<Item>, i: nat)
    requires i < |items| && ReadyAt(p, rows, items[i]) && RowIs(rows, items[i].id, None, before)
    ensures var (after, outcome) := SendPut(before, Resealed(c, p, items, i), p.fates(i));
            var row := GivenRow(c, p, items, i);
            after == (if row.Some? then before[items[i].id := row.value] else before)
            && (outcome.Replied? && outcome.reply.Stored? <==> p.fates(i).Delivered?)
  {
  }

  lemma LeavesOneMore(c: Crypto, p: Pass, rows: Rows, items: seq<Item>, n: nat, before: Rows, after: Rows)
    requires n < |items| && Distinct(items) && PassLeaves(c, p, rows, items, n, before) && items[n].id in rows
    requires var row := GivenRow(c, p, items, n);
             after == if row.Some? then before[items[n].id := row.value] else before
    ensures PassLeaves(c, p, rows, items, n + 1, after)
  {
    hide GivenRow;
    NotBefore(items, n);
    assert RowIs(rows, items[n].id, None, before);
    forall i | 0 <= i < n + 1 ensures RowIs(rows, items[i].id, GivenRow(c, p, items, i), after) {
      if i < n { assert RowIs(rows, items[i].id, GivenRow(c, p, items, i), before); }
    }
    forall other | other in rows && !HasBefore(items, n + 1, other) ensures RowIs(rows, other, None, after) {
      LaterIsNew(items, n, other);
      assert RowIs(rows, other, None, before);
    }
  }

  lemma NextUntouched(c: Crypto, p: Pass, rows: Rows, items: seq<Item>, n: nat, after: Rows)
    requires n < |items| && Distinct(items) && items[n].id in rows && PassLeaves(c, p, rows, items, n, after)
    ensures RowIs(rows, items[n].id, None, after)
  {
    NotBefore(items, n);
  }

  lemma LeavesNothing(c: Crypto, p: Pass, rows: Rows, items: seq<Item>)
    ensures PassLeaves(c, p, rows, items, 0, rows)
  {
  }

  lemma ReadyLess(p: Pass, rows: Rows, items: seq<Item>, n: nat)
    requires 0 < n <= |items| && Ready(p, rows, items, n)
    ensures Ready(p, rows, items, n - 1) && ReadyAt(p, rows, items[n - 1])
  {
  }

  // A pass leaves each update that arrived in its record, and everything else as it was.
  lemma {:induction false} PassLeavesUpdates(c: Crypto, p: Pass, rows: Rows, items: seq<Item>, n: nat)
    requires n <= |items| && Distinct(items) && Ready(p, rows, items, n)
    ensures PassLeaves(c, p, rows, items, n, PassRows(c, p, rows, items, n))
  {
    hide Distinct, Ready, PassLeaves, GivenRow, Resealed, SendPut, RowIs;
    if n == 0 {
      LeavesNothing(c, p, rows, items);
    } else {
      ReadyLess(p, rows, items, n);
      var before := PassRows(c, p, rows, items, n - 1);
      PassLeavesUpdates(c, p, rows, items, n - 1);
      NextUntouched(c, p, rows, items, n - 1, before);
      SendReady(c, p, rows, before, items, n - 1);
      LeavesOneMore(c, p, rows, items, n - 1, before, PassRows(c, p, rows, items, n));
    }
  }

  // Every update of a pass that delivers is granted.
  lemma UpdateGranted(c: Crypto, p: Pass, rows: Rows, items: seq<Item>, i: nat)
    requires i < |items| && Distinct(items) && Ready(p, rows, items, |items|)
    ensures var outcome := SendPut(PassRows(c, p, rows, items, i), Resealed(c, p, items, i), p.fates(i)).1;
            outcome.Replied? && outcome.reply.Stored? <==> p.fates(i).Delivered?
  {
    assert ReadyAt(p, rows, items[i]) && Ready(p, rows, items, i);
    hide Ready, PassLeaves, Resealed, SendPut, Distinct;
    PassLeavesUpdates(c, p, rows, items, i);
    NextUntouched(c, p, rows, items, i, PassRows(c, p, rows, items, i));
    SendReady(c, p, rows, PassRows(c, p, rows, items, i), items, i);
  }

  lemma DescribesReady(c: Crypto, key: Key, p: Pass, rows: Rows, items: seq<Item>)
    requires Describes(c, key, rows, items) && p.moved == 0
    ensures Distinct(items) && Ready(p, rows, items, |items|)
  {
    forall i | 0 <= i < |items| ensures ReadyAt(p, rows, items[i]) {
      assert ItemHolds(c, key, rows, items[i]);
    }
  }

  // The first update that does not report success.
  function FirstFailure(fates: nat -> Fate, n: nat): (d: nat)
    ensures d <= n && (forall i :: 0 <= i < d ==> fates(i).Delivered?) && (d < n ==> !fates(d).Delivered?)
  {
    if n == 0 then 0
    else
      var d := FirstFailure(fates, n - 1);
      if d < n - 1 || !fates(n - 1).Delivered? then d else n
  }

  predicate AllDelivered(fates: nat -> Fate, n: nat) {
    forall i :: 0 <= i < n ==> fates(i).Delivered?
  }

  lemma AllDeliveredNext(fates: nat -> Fate, n: nat)
    ensures AllDelivered(fates, 0)
    ensures AllDelivered(fates, n) && fates(n).Delivered? ==> AllDelivered(fates, n + 1)
  {
  }

  lemma FirstFailureIs(fates: nat -> Fate, n: nat, d: nat)
    requires d <= n && AllDelivered(fates, d) && (d < n ==> !fates(d).Delivered?)
    ensures FirstFailure(fates, n) == d
  {
    hide FirstFailure;
  }

  /* ---------- the whole change ---------- */

  datatype Request = Request(
    current: string, next: string, nextSalt: Bytes,
    readsAnswer: bool,       // every read before the first update is answered
    nonces: nat -> nat,
    fates: nat -> Fate,      // of the updates
    back: nat -> Fate)       // of the rollback's updates

  datatype Outcome = Outcome(rows: Rows, rootKey: Key, salt: Bytes, changed: bool)

  function ForwardPass(c: Crypto, r: Request): Pass {
    Pass(c.derive(r.next, r.nextSalt), r.nonces, 0, 0, r.fates)
  }

  function BackPass(c: Crypto, r: Request, salt: Bytes, count: nat): Pass {
    Pass(c.derive(r.current, salt), r.nonces, count, 1, r.back)
  }

  // What a change leaves behind.
  function Changed(c: Crypto, r: Request, rows: Rows, listing: seq<Id>, rootKey: Key, salt: Bytes): Outcome {
    var inventory := Inventory(c, rootKey, rows, listing);
    if !r.readsAnswer || !Accepts(c, rows, listing, c.derive(r.current, salt)) || inventory.None? then
      Outcome(rows, rootKey, salt, false)
    else
      var items := inventory.value;
      var d := FirstFailure(r.fates, |items|);
      if d == |items| then
        Outcome(PassRows(c, ForwardPass(c, r), rows, items, d), c.derive(r.next, r.nextSalt), r.nextSalt, true)
      else
        var failed := PassRows(c, ForwardPass(c, r), rows, items, d + 1);
        Outcome(PassRows(c, BackPass(c, r, salt, |items|), failed, items, d), rootKey, salt, false)
  }

  class Session {
    const service: Service
    var rootKey: Key
    var salt: Bytes

    constructor (service: Service, rootKey: Key, salt: Bytes)
      ensures this.service == service && this.rootKey == rootKey && this.salt == salt
    {
      this.service, this.rootKey, this.salt := service, rootKey, salt;
    }

    method Send(w: Write, fate: Fate) returns (stored: bool)
      modifies service
      ensures service.rows == SendPut(old(service.rows), w, fate).0
      ensures stored <==> var o := SendPut(old(service.rows), w, fate).1; o.Replied? && o.reply.Stored?
    {
      var reply := Refused;
      if Arrives(fate) {
        reply := service.HandlePut(w);
      }
      var outcome := Seen(fate, reply);
      stored := outcome.Replied? && outcome.reply.Stored?;
    }

    method TakeInventory(c: Crypto, listing: seq<Id>) returns (inventory: Option<seq<Item>>)
      ensures inventory == Inventory(c, rootKey, service.rows, listing)
    {
      var items: seq<Item> := [];
      for n := 0 to |listing|
        invariant Inventory(c, rootKey, service.rows, listing[..n]) == Some(items)
      {
        var id := listing[n];
        assert listing[..n + 1][..n] == listing[..n];
        if Live(service.rows, id) {
          var plain := PlainOf(c, rootKey, service.rows, id);
          if plain.None? {
            InventoryStaysNone(c, rootKey, service.rows, listing, n + 1);
            return None;
          }
          items := items + [Item(id, service.rows[id].revision, plain.value)];
        }
      }
      assert listing[..|listing|] == listing;
      inventory := Some(items);
    }

    method ChangeMasterPassword(c: Crypto, r: Request, listing: seq<Id>) returns (changed: bool)
      requires Lists(listing, service.rows)
      modifies this, service
      ensures Outcome(service.rows, rootKey, salt, changed)
                == Changed(c, r, old(service.rows), listing, old(rootKey), old(salt))
    {
      hide Accepts, Inventory, PassRows, FirstFailure;
      var oldRoot := c.derive(r.current, salt);
      var previousKey := rootKey;
      rootKey := oldRoot;
      var verified := r.readsAnswer && Accepts(c, service.rows, listing, rootKey);
      rootKey := previousKey;
      if !verified { return false; }
      var inventory := TakeInventory(c, listing);
      if inventory.None? { return false; }
      var items := inventory.value;
      InventoryDescribes(c, rootKey, service.rows, listing);
      var done := ResealAll(c, r, items);
      if done == |items| {
        rootKey, salt := c.derive(r.next, r.nextSalt), r.nextSalt;
        return true;
      }
      rootKey := oldRoot;
      TakeBack(c, r, items, done);
      rootKey := previousKey;
      return false;
    }

    // Updates in order, up to and including the first that fails; how many succeeded.
    method ResealAll(c: Crypto, r: Request, items: seq<Item>) returns (done: nat)
      requires Describes(c, rootKey, service.rows, items)
      modifies service
      ensures done == FirstFailure(r.fates, |items|)
      ensures service.rows == PassRows(c, ForwardPass(c, r), old(service.rows), items,
                                       if done < |items| then done + 1 else done)
    {
      var p := ForwardPass(c, r);
      DescribesReady(c, rootKey, p, service.rows, items);
      PassRowsNone(c, p, service.rows, items);
      hide Describes, Resealed, SendPut, PassRows, Ready, Distinct, FirstFailure, AllDelivered;
      done := 0;
      AllDeliveredNext(p.fates, 0);
      while done < |items|
        invariant done <= |items| && AllDelivered(p.fates, done)
        invariant service.rows == PassRows(c, p, old(service.rows), items, done)
      {
        PassRowsNext(c, p, old(service.rows), items, done);
        AllDeliveredNext(p.fates, done);
        UpdateGranted(c, p, old(service.rows), items, done);
        var stored := Send(Resealed(c, p, items, done), p.fates(done));
        if !stored { break; }
        done := done + 1;
      }
      FirstFailureIs(p.fates, |items|, done);
    }

    method TakeBack(c: Crypto, r: Request, items: seq<Item>, done: nat)
      requires done <= |items|
      modifies service
      ensures service.rows == PassRows(c, BackPass(c, r, salt, |items|), old(service.rows), items, done)
    {
      var p := BackPass(c, r, salt, |items|);
      PassRowsNone(c, p, service.rows, items);
      hide Resealed, SendPut, PassRows;
      for i := 0 to done
        invariant service.rows == PassRows(c, p, old(service.rows), items, i)
      {
        PassRowsNext(c, p, old(service.rows), items, i);
        var _ := Send(Resealed(c, p, items, i), r.back(i));
      }
    }
  }

  lemma {:induction false} InventoryStaysNone(c: Crypto, key: Key, rows: Rows, listing: seq<Id>, n: nat)
    requires n <= |listing| && Inventory(c, key, rows, listing[..n]).None?
    ensures Inventory(c, key, rows, listing).None?
    decreases |listing|
  {
    if n == |listing| {
      assert listing[..n] == listing;
    } else {
      var before := listing[..|listing| - 1];
      assert before[..n] == listing[..n];
      InventoryStaysNone(c, key, rows, before, n);
    }
  }

  /* ---------- what a change amounts to ---------- */

  // Every live record opens under the key to what it said before.
  ghost predicate SaysTheSame(c: Crypto, was: Key, rows: Rows, key: Key, after: Rows) {
    forall id :: Live(rows, id) ==> Live(after, id) && RecordSays(c, was, rows, key, after, id)
  }

  predicate RecordSays(c: Crypto, was: Key, rows: Rows, key: Key, after: Rows, id: Id)
    requires Live(after, id)
  {
    var plain := PlainOf(c, was, rows, id);
    plain.Some? && c.open(key, after[id].body) == plain
  }

  lemma HasIndex(items: seq<Item>, id: Id) returns (i: nat)
    requires Has(items, id)
    ensures i < |items| && items[i].id == id
  {
    i :| 0 <= i < |items| && items[i].id == id;
  }

  // If no write fails, every live record opens under the new key to what it said before, one
  // revision on, tombstoned records are untouched, and the session holds the new key and salt.
  lemma SuccessRekeysEverything(c: Crypto, r: Request, rows: Rows, listing: seq<Id>, rootKey: Key, salt: Bytes)
    requires OpensOwn(c) && Lists(listing, rows) && Changed(c, r, rows, listing, rootKey, salt).changed
    ensures var o := Changed(c, r, rows, listing, rootKey, salt);
            o.rootKey == c.derive(r.next, r.nextSalt) && o.salt == r.nextSalt
            && o.rows.Keys == rows.Keys && SaysTheSame(c, rootKey, rows, o.rootKey, o.rows)
            && (forall id :: id in rows ==>
                  if rows[id].tombstone then o.rows[id] == rows[id]
                  else o.rows[id].revision == rows[id].revision + 1)
  {
    var items := Inventory(c, rootKey, rows, listing).value;
    var p := ForwardPass(c, r);
    var after := PassRows(c, p, rows, items, |items|);
    InventoryDescribes(c, rootKey, rows, listing);
    DescribesReady(c, rootKey, p, rows, items);
    hide Inventory, PassRows, Accepts;
    assert Changed(c, r, rows, listing, rootKey, salt).rows == after;
    hide Changed;
    PassLeavesUpdates(c, p, rows, items, |items|);
    forall id | id in rows
      ensures if rows[id].tombstone then after[id] == rows[id]
              else after[id].revision == rows[id].revision + 1 && Live(after, id)
                   && RecordSays(c, rootKey, rows, p.key, after, id)
    {
      if rows[id].tombstone {
        assert !Has(items, id);
      } else {
        var i := HasIndex(items, id);
        assert ItemHolds(c, rootKey, rows, items[i]);
        assert RowIs(rows, id, GivenRow(c, p, items, i), after);
      }
    }
  }

  function Sealed(c: Crypto, p: Pass, items: seq<Item>, i: nat): Row
    requires i < |items|
  {
    Row(items[i].revision + p.moved + 1, c.seal(p.key, Nonce(p, i), items[i].plain), false)
  }

  // The store after update d failed and the d before it were taken back.
  function AfterFailure(c: Crypto, forward: Pass, back: Pass, rows: Rows, items: seq<Item>, d: nat): Rows
    requires d < |items|
  {
    PassRows(c, back, PassRows(c, forward, rows, items, d + 1), items, d)
  }

  // The row of item i then.
  function FinalRow(c: Crypto, forward: Pass, back: Pass, rows: Rows, items: seq<Item>, d: nat, i: nat): Row
    requires d < |items| && i < |items| && items[i].id in rows
  {
    if i < d then (if Arrives(back.fates(i)) then Sealed(c, back, items, i) else Sealed(c, forward, items, i))
    else if i == d && Arrives(forward.fates(d)) then Sealed(c, forward, items, i)
    else rows[items[i].id]
  }

  lemma ReadyToTakeBack(c: Crypto, forward: Pass, back: Pass, rows: Rows, items: seq<Item>, d: nat, failed: Rows)
    requires d < |items| && AllDelivered(forward.fates, d) && forward.moved == 0 && back.moved == 1
    requires PassLeaves(c, forward, rows, items, d + 1, failed)
    ensures Ready(back, failed, items, d)
  {
    forall i | 0 <= i < d ensures ReadyAt(back, failed, items[i]) {
      assert RowIs(rows, items[i].id, GivenRow(c, forward, items, i), failed);
    }
  }

  lemma FinalRowIs(c: Crypto, forward: Pass, back: Pass, rows: Rows, items: seq<Item>, d: nat,
      failed: Rows, after: Rows, i: nat)
    requires d < |items| && i < |items| && Distinct(items) && AllDelivered(forward.fates, d)
    requires PassLeaves(c, forward, rows, items, d + 1, failed) && PassLeaves(c, back, failed, items, d, after)
    requires items[i].id in rows
    ensures items[i].id in after && after[items[i].id] == FinalRow(c, forward, back, rows, items, d, i)
  {
    var id := items[i].id;
    if i >= d {
      assert !HasBefore(items, d, id);
      assert RowIs(failed, id, None, after);
    } else {
      assert RowIs(failed, id, GivenRow(c, back, items, i), after);
    }
    if i > d {
      assert !HasBefore(items, d + 1, id);
      assert RowIs(rows, id, None, failed);
    } else {
      assert RowIs(rows, id, GivenRow(c, forward, items, i), failed);
    }
  }

  lemma FinalRows(c: Crypto, forward: Pass, back: Pass, rows: Rows, items: seq<Item>, d: nat)
    requires d < |items| && Distinct(items) && AllDelivered(forward.fates, d)
    requires Ready(forward, rows, items, |items|) && forward.moved == 0 && back.moved == 1
    ensures var after := AfterFailure(c, forward, back, rows, items, d);
            after.Keys == rows.Keys
            && forall i :: 0 <= i < |items| ==>
                 items[i].id in rows && after[items[i].id] == FinalRow(c, forward, back, rows, items, d, i)
  {
    var failed := PassRows(c, forward, rows, items, d + 1);
    forall i | 0 <= i < |items| ensures ReadyAt(forward, rows, items[i]) { }
    assert Ready(forward, rows, items, d + 1);
    hide PassRows, PassLeaves, Distinct, Ready, FinalRow, AllDelivered;
    PassLeavesUpdates(c, forward, rows, items, d + 1);
    ReadyToTakeBack(c, forward, back, rows, items, d, failed);
    PassLeavesUpdates(c, back, failed, items, d);
    var after := PassRows(c, back, failed, items, d);
    SameKeys(c, forward, rows, items, d + 1, failed);
    SameKeys(c, back, failed, items, d, after);
    forall i | 0 <= i < |items|
      ensures items[i].id in rows && after[items[i].id] == FinalRow(c, forward, back, rows, items, d, i)
    {
      FinalRowIs(c, forward, back, rows, items, d, failed, after, i);
    }
  }

  lemma SameKeys(c: Crypto, p: Pass, rows: Rows, items: seq<Item>, n: nat, after: Rows)
    requires n <= |items| && PassLeaves(c, p, rows, items, n, after)
    ensures after.Keys == rows.Keys
  {
  }

  // The failing update did not reach the store, and every update before it was taken back.
  predicate CleanlyUndone(r: Request, d: nat) {
    !Arrives(r.fates(d)) && forall i :: 0 <= i < d ==> Arrives(r.back(i))
  }

  // Item i says the same under the current key exactly when its own update was undone, or never arrived.
  predicate Undone(r: Request, d: nat, i: nat) {
    if i < d then Arrives(r.back(i)) else i == d ==> !Arrives(r.fates(d))
  }

  lemma ItemUndone(c: Crypto, r: Request, salt: Bytes, key: Key, rows: Rows, items: seq<Item>, d: nat, i: nat)
    requires OpensOwn(c) && key == c.derive(r.current, salt)
    requires Separate(c, c.derive(r.next, r.nextSalt), key)
    requires d < |items| && i < |items| && ItemHolds(c, key, rows, items[i])
    requires c.open(key, rows[items[i].id].body) == Some(items[i].plain)
    ensures var row := FinalRow(c, ForwardPass(c, r), BackPass(c, r, salt, |items|), rows, items, d, i);
            !row.tombstone
            && (c.open(key, row.body) == Some(items[i].plain) <==> Undone(r, d, i))
            && (Undone(r, d, i) ==> row.revision == items[i].revision + (if i < d then 2 else 0))
  {
    hide PlainOf;
  }

  // The verifier, when there is a live one, says what it should.
  predicate VerifierHolds(c: Crypto, key: Key, rows: Rows) {
    Live(rows, VERIFIER_ID) ==> c.open(key, rows[VERIFIER_ID].body) == Some(VERIFIER_PLAINTEXT)
  }

  // The items of the inventory, and the update at which the change failed.
  function FailedAt(c: Crypto, r: Request, rows: Rows, listing: seq<Id>, rootKey: Key): (int, seq<Item>) {
    var items := Inventory(c, rootKey, rows, listing).GetOr([]);
    (FirstFailure(r.fates, |items|), items)
  }

  // A change that fails among its updates restores the session's key and salt. Every live record
  // then opens under the current password to what it said before, exactly when the failing update
  // did not reach the store and every rollback update did; its revision has then grown by two if
  // its update had succeeded, and by nothing otherwise.
  lemma FailureIsConsistentExactlyWhen(c: Crypto, r: Request, rows: Rows, listing: seq<Id>, key: Key, salt: Bytes)
    requires OpensOwn(c) && Lists(listing, rows) && VerifierHolds(c, key, rows)
    requires key == c.derive(r.current, salt) && Separate(c, c.derive(r.next, r.nextSalt), key)
    requires r.readsAnswer && Accepts(c, rows, listing, key) && Inventory(c, key, rows, listing).Some?
    requires FailedAt(c, r, rows, listing, key).0 < |FailedAt(c, r, rows, listing, key).1|
    ensures var o := Changed(c, r, rows, listing, key, salt);
            var (d, items) := FailedAt(c, r, rows, listing, key);
            !o.changed && o.rootKey == key && o.salt == salt && o.rows.Keys == rows.Keys
            && (SaysTheSame(c, key, rows, key, o.rows) <==> CleanlyUndone(r, d))
            && (CleanlyUndone(r, d) ==>
                  forall i :: 0 <= i < |items| ==>
                    items[i].id in o.rows && items[i].id in rows
                    && o.rows[items[i].id].revision == rows[items[i].id].revision + (if i < d then 2 else 0))
  {
    var (d, items) := FailedAt(c, r, rows, listing, key);
    var (forward, back) := (ForwardPass(c, r), BackPass(c, r, salt, |items|));
    var after := AfterFailure(c, forward, back, rows, items, d);
    InventoryDescribes(c, key, rows, listing);
    DescribesReady(c, key, forward, rows, items);
    hide Inventory, PassRows, Accepts, PlainOf;
    assert Changed(c, r, rows, listing, key, salt) == Outcome(after, key, salt, false);
    assert AllDelivered(r.fates, d);
    hide Changed, AfterFailure, Ready, Distinct, AllDelivered, Lists, FirstFailure;
    FinalRows(c, forward, back, rows, items, d);
    forall i | 0 <= i < |items|
      ensures ItemHolds(c, key, rows, items[i]) && Live(after, items[i].id)
      ensures RecordSays(c, key, rows, key, after, items[i].id) <==> Undone(r, d, i)
      ensures Undone(r, d, i) ==> after[items[i].id].revision == rows[items[i].id].revision + (if i < d then 2 else 0)
    {
      assert ItemHolds(c, key, rows, items[i]);
      ItemOpens(c, key, rows, items[i]);
      ItemUndone(c, r, salt, key, rows, items, d, i);
    }
    SameForItems(c, r, key, rows, after, items, d);
  }

  lemma ItemOpens(c: Crypto, key: Key, rows: Rows, item: Item)
    requires ItemHolds(c, key, rows, item) && VerifierHolds(c, key, rows)
    ensures c.open(key, rows[item.id].body) == Some(item.plain)
  {
  }

  lemma SameForItems(c: Crypto, r: Request, key: Key, rows: Rows, after: Rows, items: seq<Item>, d: nat)
    requires d < |items| && forall id :: Has(items, id) <==> Live(rows, id)
    requires forall i :: 0 <= i < |items| ==>
               Live(after, items[i].id) && (RecordSays(c, key, rows, key, after, items[i].id) <==> Undone(r, d, i))
    ensures SaysTheSame(c, key, rows, key, after) <==> CleanlyUndone(r, d)
    ensures CleanlyUndone(r, d) ==> forall i :: 0 <= i < |items| ==> Undone(r, d, i)
  {
    hide RecordSays;
    if CleanlyUndone(r, d) {
      forall id | Live(rows, id) ensures Live(after, id) && RecordSays(c, key, rows, key, after, id) {
        var i := HasIndex(items, id);
        assert Undone(r, d, i);
      }
    }
    if SaysTheSame(c, key, rows, key, after) {
      forall i | 0 <= i < |items| ensures Undone(r, d, i) {
        assert Has(items, items[i].id);
      }
      assert Undone(r, d, d);
      forall i | 0 <= i < d ensures Arrives(r.back(i)) {
        assert Undone(r, d, i);
      }
    }
  }

  // With a wrong current password nothing changes, whatever the listing's order.
  lemma WrongPasswordChangesNothing(c: Crypto, r: Request, rows: Rows, listing: seq<Id>, key: Key,
      salt: Bytes, nonce: nat)
    requires Lists(listing, rows) && Live(rows, VERIFIER_ID)
    requires rows[VERIFIER_ID].body == c.seal(key, nonce, VERIFIER_PLAINTEXT)
    requires Separate(c, key, c.derive(r.current, salt))
    ensures Changed(c, r, rows, listing, key, salt) == Outcome(rows, key, salt, false)
  {
    assert c.open(c.derive(r.current, salt), rows[VERIFIER_ID].body) == None;
  }
}
