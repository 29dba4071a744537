/**
 * The map-capable deterministic encoder of the protocol oracle, and its domain-separated
 * preimages. Map entries are sorted by encoded key, shorter keys first. A Python str is
 * represented by its UTF-8 bytes, a dict by its entries in insertion order.
 */
module ProtocolCbor {
  import opened Bytes

  datatype Value =
    | Bool(flag: bool)
    | Int(number: int)
    | ByteString(bytes: Bytes)
    | Text(utf8: Bytes)
    | List(items: seq<Value>)
    | Dict(entries: seq<Entry>)
    | Other

  datatype Entry = Entry(key: Value, item: Value)

  // One encoded key and one encoded item.
  datatype Pair = Pair(key: Bytes, item: Bytes)

  // None where the encoder raises.
  function Head(major: nat, value: int): (r: Option<Bytes>)
    requires major < 8
    ensures r.Some? ==> 1 <= |r.value| <= 9
  {
    if value < 0 then None
    else if value < 24 then Some([major * 32 + value])
    else if value <= 0xFF then Some([major * 32 + 24, value])
    else if value <= 0xFFFF then Some([major * 32 + 25] + ToBig(value, 2))
    else if value <= U32_MAX then Some([major * 32 + 26] + ToBig(value, 4))
    else if value <= I64_MAX then Some([major * 32 + 27] + ToBig(value, 8))
    else None
  }

  function Join(head: Option<Bytes>, body: Option<Bytes>): Option<Bytes> {
    if head.Some? && body.Some? then Some(head.value + body.value) else None
  }

  // The order of the sort key (len(pair[0]), pair[0]).
  predicate KeyLeq(a: Bytes, b: Bytes) {
    |a| < |b| || (|a| == |b| && LexLeq(a, b))
  }

  function InsertPair(pair: Pair, pairs: seq<Pair>): seq<Pair> {
    if pairs == [] || KeyLeq(pair.key, pairs[0].key) then [pair] + pairs
    else [pairs[0]] + InsertPair(pair, pairs[1..])
  }

  function SortPairs(pairs: seq<Pair>): seq<Pair> {
    if pairs == [] then [] else InsertPair(pairs[0], SortPairs(pairs[1..]))
  }

  function ConcatPairs(pairs: seq<Pair>): Bytes {
    if pairs == [] then [] else pairs[0].key + pairs[0].item + ConcatPairs(pairs[1..])
  }

  function Encode(v: Value): Option<Bytes>
    decreases v, 1
  {
    match v
    case Bool(flag) => Some([if flag then 0xF5 else 0xF4])
    case Int(number) => if number >= 0 then Head(0, number) else Head(1, -1 - number)
    case ByteString(bytes) => Join(Head(2, |bytes|), Some(bytes))
    case Text(utf8) => Join(Head(3, |utf8|), Some(utf8))
    case List(items) => Join(Head(4, |items|), EncodeItems(items))
    case Dict(entries) =>
      var pairs := EncodeEntries(entries);
      if pairs.None? then None
      else Join(Head(5, |pairs.value|), Some(ConcatPairs(SortPairs(pairs.value))))
    case Other => None
  }

  function EncodeItems(items: seq<Value>): Option<Bytes>
    decreases items, 0
  {
    if items == [] then Some([]) else Join(Encode(items[0]), EncodeItems(items[1..]))
  }

  function EncodeEntries(entries: seq<Entry>): (r: Option<seq<Pair>>)
    ensures r.Some? ==> |r.value| == |entries|
    decreases entries, 0
  {
    if entries == [] then Some([])
    else
      var (pair, rest) := (EncodeEntry(entries[0]), EncodeEntries(entries[1..]));
      if pair.Some? && rest.Some? then Some([pair.value] + rest.value) else None
  }

  function EncodeEntry(e: Entry): Option<Pair>
    decreases e, 0
  {
    var (key, item) := (Encode(e.key), Encode(e.item));
    if key.Some? && item.Some? then Some(Pair(key.value, item.value)) else None
  }

  /* ---------- the encoding without the sort, and canonical values ---------- */

  // As Encode, but with the entries of maps in the order given.
  function Raw(v: Value): Option<Bytes>
    decreases v, 1
  {
    match v
    case Bool(flag) => Some([if flag then 0xF5 else 0xF4])
    case Int(number) => if number >= 0 then Head(0, number) else Head(1, -1 - number)
    case ByteString(bytes) => Join(Head(2, |bytes|), Some(bytes))
    case Text(utf8) => Join(Head(3, |utf8|), Some(utf8))
    case List(items) => Join(Head(4, |items|), RawItems(items))
    case Dict(entries) => Join(Head(5, |entries|), RawEntries(entries))
    case Other => None
  }

  function RawItems(items: seq<Value>): Option<Bytes>
    decreases items, 0
  {
    if items == [] then Some([]) else Join(Raw(items[0]), RawItems(items[1..]))
  }

  function RawEntries(entries: seq<Entry>): Option<Bytes>
    decreases entries, 0
  {
    if entries == [] then Some([])
    else Join(RawEntry(entries[0]), RawEntries(entries[1..]))
  }

  function RawEntry(e: Entry): Option<Bytes>
    decreases e, 0
  {
    Join(Raw(e.key), Raw(e.item))
  }

  function KeyBytes(e: Entry): Bytes {
    Raw(e.key).GetOr([])
  }

  function InsertEntry(e: Entry, entries: seq<Entry>): (r: seq<Entry>)
    ensures multiset(r) == multiset{e} + multiset(entries)
  {
    if entries == [] || KeyLeq(KeyBytes(e), KeyBytes(entries[0])) then [e] + entries
    else
      assert entries == [entries[0]] + entries[1..];
      [entries[0]] + InsertEntry(e, entries[1..])
  }

  function SortEntries(entries: seq<Entry>): (r: seq<Entry>)
    ensures multiset(r) == multiset(entries)
  {
    if entries == [] then []
    else
      assert entries == [entries[0]] + entries[1..];
      InsertEntry(entries[0], SortEntries(entries[1..]))
  }

  // The value with the entries of every map, at every depth, in key order.
  function Canon(v: Value): Value
    decreases v, 1
  {
    match v
    case List(items) => List(CanonItems(items))
    case Dict(entries) => Dict(SortEntries(CanonEntries(entries)))
    case _ => v
  }

  function CanonItems(items: seq<Value>): (r: seq<Value>)
    ensures |r| == |items|
    decreases items, 0
  {
    if items == [] then [] else [Canon(items[0])] + CanonItems(items[1..])
  }

  function CanonEntries(entries: seq<Entry>): (r: seq<Entry>)
    ensures |r| == |entries|
    decreases entries, 0
  {
    if entries == [] then []
    else [CanonEntry(entries[0])] + CanonEntries(entries[1..])
  }

  function CanonEntry(e: Entry): Entry
    decreases e, 0
  {
    Entry(Canon(e.key), Canon(e.item))
  }

  /* ---------- the unsorted encoding is uniquely readable ---------- */

  lemma HeadUnique(m: nat, v: int, r: Bytes, m': nat, v': int, r': Bytes)
    requires m < 8 && m' < 8 && Head(m, v).Some? && Head(m', v').Some?
    requires Head(m, v).value + r == Head(m', v').value + r'
    ensures m == m' && v == v' && r == r'
  {
    HeadParts(m, v);
    HeadParts(m', v');
    var (h, h') := (Head(m, v).value, Head(m', v').value);
    assert h[0] == (h + r)[0] == (h' + r')[0] == h'[0];
    hide Head, FromBig;
    SplitConcat(h, r, h', r');
  }

  // The first byte tells the major type and the length of the head; the rest is the value.
  lemma HeadParts(m: nat, v: int)
    requires m < 8 && Head(m, v).Some?
    ensures var h := Head(m, v).value;
            h[0] / 32 == m && |h| == HeadLength(h[0] % 32)
            && v == (if |h| == 1 then h[0] % 32 else FromBig(h[1..]))
  {
    hide FromBig;
    Pow256Values();
    var h := Head(m, v).value;
    if v >= 24 {
      if v <= 0xFF {
        OneByte(v);
      }
      assert h[1..] == ToBig(v, |h| - 1);
      BigRoundTrip(v, |h| - 1);
    }
  }

  lemma OneByte(v: byte)
    ensures [v] == ToBig(v, 1)
  {
  }

  function HeadLength(additional: nat): nat {
    if additional < 24 then 1
    else if additional == 24 then 2
    else if additional == 25 then 3
    else if additional == 26 then 5
    else 9
  }

  // The major type of each value that has a head; 7 for the two Booleans.
  function Major(v: Value): nat {
    match v
    case Bool(_) => 7
    case Int(number) => if number >= 0 then 0 else 1
    case ByteString(_) => 2
    case Text(_) => 3
    case List(_) => 4
    case Dict(_) => 5
    case Other => 6
  }

  lemma FirstByte(v: Value)
    requires Raw(v).Some?
    ensures Raw(v).value != [] && Raw(v).value[0] / 32 == Major(v) < 8
  {
    match v
    case Bool(_) =>
    case Int(number) => HeadParts(Major(v), if number >= 0 then number else -1 - number);
    case ByteString(bytes) => HeadParts(2, |bytes|);
    case Text(utf8) => HeadParts(3, |utf8|);
    case List(items) => HeadParts(4, |items|);
    case Dict(entries) => HeadParts(5, |entries|);
  }

  lemma {:induction false} RawUnique(v: Value, r: Bytes, w: Value, r': Bytes)
    requires Raw(v).Some? && Raw(w).Some? && Raw(v).value + r == Raw(w).value + r'
    ensures v == w && r == r'
    decreases v, 1
  {
    hide Head;
    FirstByte(v);
    FirstByte(w);
    assert Raw(v).value[0] == (Raw(v).value + r)[0] == (Raw(w).value + r')[0] == Raw(w).value[0];
    assert Major(v) == Major(w);
    match v {
      case Bool(flag) =>
        SplitConcat(Raw(v).value, r, Raw(w).value, r');
      case Int(number) =>
        HeadUnique(Major(v), if number >= 0 then number else -1 - number, r,
                   Major(w), if w.number >= 0 then w.number else -1 - w.number, r');
      case ByteString(bytes) =>
        StringUnique(2, bytes, r, w.bytes, r');
      case Text(utf8) =>
        StringUnique(3, utf8, r, w.utf8, r');
      case List(items) =>
        BodyUnique(4, |items|, RawItems(items).value, r, |w.items|, RawItems(w.items).value, r');
        RawItemsUnique(items, r, w.items, r');
      case Dict(entries) =>
        BodyUnique(5, |entries|, RawEntries(entries).value, r, |w.entries|, RawEntries(w.entries).value, r');
        RawEntriesUnique(entries, r, w.entries, r');
    }
  }

  lemma BodyUnique(m: nat, v: int, b: Bytes, r: Bytes, v': int, b': Bytes, r': Bytes)
    requires m < 8 && Head(m, v).Some? && Head(m, v').Some?
    requires (Head(m, v).value + b) + r == (Head(m, v').value + b') + r'
    ensures v == v' && b + r == b' + r'
  {
    hide Head;
    assert (Head(m, v).value + b) + r == Head(m, v).value + (b + r);
    assert (Head(m, v').value + b') + r' == Head(m, v').value + (b' + r');
    HeadUnique(m, v, b + r, m, v', b' + r');
  }

  lemma StringUnique(m: nat, s: Bytes, r: Bytes, s': Bytes, r': Bytes)
    requires m < 8 && Head(m, |s|).Some? && Head(m, |s'|).Some?
    requires (Head(m, |s|).value + s) + r == (Head(m, |s'|).value + s') + r'
    ensures s == s' && r == r'
  {
    BodyUnique(m, |s|, s, r, |s'|, s', r');
    SplitConcat(s, r, s', r');
  }

  lemma {:induction false} RawItemsUnique(a: seq<Value>, r: Bytes, b: seq<Value>, r': Bytes)
    requires |a| == |b| && RawItems(a).Some? && RawItems(b).Some?
    requires RawItems(a).value + r == RawItems(b).value + r'
    ensures a == b && r == r'
    decreases a, 0
  {
    if a == [] {
      assert RawItems(a).value + r == r && RawItems(b).value + r' == r';
    } else {
      var (x, y) := (RawItems(a[1..]).value, RawItems(b[1..]).value);
      assert (Raw(a[0]).value + x) + r == Raw(a[0]).value + (x + r);
      assert (Raw(b[0]).value + y) + r' == Raw(b[0]).value + (y + r');
      RawUnique(a[0], x + r, b[0], y + r');
      RawItemsUnique(a[1..], r, b[1..], r');
      assert a == [a[0]] + a[1..] && b == [b[0]] + b[1..];
    }
  }

  lemma {:induction false} RawEntryUnique(a: Entry, r: Bytes, b: Entry, r': Bytes)
    requires RawEntry(a).Some? && RawEntry(b).Some?
    requires RawEntry(a).value + r == RawEntry(b).value + r'
    ensures a == b && r == r'
    decreases a, 0
  {
    hide Raw;
    var (ai, bi) := (Raw(a.item).value, Raw(b.item).value);
    assert (Raw(a.key).value + ai) + r == Raw(a.key).value + (ai + r);
    assert (Raw(b.key).value + bi) + r' == Raw(b.key).value + (bi + r');
    RawUnique(a.key, ai + r, b.key, bi + r');
    RawUnique(a.item, r, b.item, r');
  }

  lemma {:induction false} RawEntriesUnique(a: seq<Entry>, r: Bytes, b: seq<Entry>, r': Bytes)
    requires |a| == |b| && RawEntries(a).Some? && RawEntries(b).Some?
    requires RawEntries(a).value + r == RawEntries(b).value + r'
    ensures a == b && r == r'
    decreases a, 0
  {
    if a == [] {
      assert RawEntries(a).value + r == r && RawEntries(b).value + r' == r';
    } else {
      hide RawEntry;
      var (x, y) := (RawEntries(a[1..]).value, RawEntries(b[1..]).value);
      assert (RawEntry(a[0]).value + x) + r == RawEntry(a[0]).value + (x + r);
      assert (RawEntry(b[0]).value + y) + r' == RawEntry(b[0]).value + (y + r');
      RawEntryUnique(a[0], x + r, b[0], y + r');
      RawEntriesUnique(a[1..], r, b[1..], r');
      assert a == [a[0]] + a[1..] && b == [b[0]] + b[1..];
    }
  }

  /* ---------- the encoder writes canonical values ---------- */

  function RawPair(e: Entry): Pair
    requires Raw(e.key).Some? && Raw(e.item).Some?
  {
    Pair(Raw(e.key).value, Raw(e.item).value)
  }

  predicate AllRaw(entries: seq<Entry>) {
    forall i :: 0 <= i < |entries| ==> Raw(entries[i].key).Some? && Raw(entries[i].item).Some?
  }

  function RawPairs(entries: seq<Entry>): (r: seq<Pair>)
    requires AllRaw(entries)
    ensures |r| == |entries|
  {
    if entries == [] then [] else [RawPair(entries[0])] + RawPairs(entries[1..])
  }

  lemma {:induction false} InsertAgrees(e: Entry, entries: seq<Entry>)
    requires AllRaw([e]) && AllRaw(entries)
    ensures AllRaw(InsertEntry(e, entries))
    ensures RawPairs(InsertEntry(e, entries)) == InsertPair(RawPair(e), RawPairs(entries))
  {
    hide Raw, KeyLeq;
    assert [e][0] == e;
    if entries == [] || KeyLeq(KeyBytes(e), KeyBytes(entries[0])) {
      assert ([e] + entries)[1..] == entries;
    } else {
      InsertAgrees(e, entries[1..]);
      assert InsertEntry(e, entries)[1..] == InsertEntry(e, entries[1..]);
    }
  }

  lemma {:induction false} SortAgrees(entries: seq<Entry>)
    requires AllRaw(entries)
    ensures AllRaw(SortEntries(entries))
    ensures RawPairs(SortEntries(entries)) == SortPairs(RawPairs(entries))
  {
    hide Raw;
    if entries != [] {
      SortAgrees(entries[1..]);
      assert [entries[0]][0] == entries[0];
      InsertAgrees(entries[0], SortEntries(entries[1..]));
    }
  }

  lemma {:induction false} ConcatAgrees(entries: seq<Entry>)
    requires AllRaw(entries)
    ensures RawEntries(entries) == Some(ConcatPairs(RawPairs(entries)))
  {
    hide Raw;
    if entries != [] {
      ConcatAgrees(entries[1..]);
    }
  }

  // Encoding sorts: it is the unsorted encoding of the canonical value.
  lemma {:induction false} EncodeIsRawOfCanon(v: Value)
    ensures Encode(v) == Raw(Canon(v))
    decreases v, 1
  {
    hide Head;
    match v {
      case List(items) =>
        EncodeItemsIsRaw(items);
      case Dict(entries) =>
        EncodeEntriesIsRaw(entries);
        var canon := CanonEntries(entries);
        assert |SortEntries(canon)| == |multiset(SortEntries(canon))| == |canon|;
        if EncodeEntries(entries).Some? {
          SortAgrees(canon);
          ConcatAgrees(SortEntries(canon));
        } else {
          SomeEntryFails(canon, SortEntries(canon));
        }
      case _ =>
    }
  }

  lemma {:induction false} EncodeItemsIsRaw(items: seq<Value>)
    ensures EncodeItems(items) == RawItems(CanonItems(items))
    decreases items, 0
  {
    if items != [] {
      EncodeIsRawOfCanon(items[0]);
      EncodeItemsIsRaw(items[1..]);
      assert CanonItems(items)[1..] == CanonItems(items[1..]);
    }
  }

  lemma {:induction false} EncodeEntriesIsRaw(entries: seq<Entry>)
    ensures EncodeEntries(entries).Some? <==> AllRaw(CanonEntries(entries))
    ensures EncodeEntries(entries).Some? ==> EncodeEntries(entries).value == RawPairs(CanonEntries(entries))
    decreases entries, 0
  {
    if entries != [] {
      EncodeEntryIsRaw(entries[0]);
      EncodeEntriesIsRaw(entries[1..]);
      var canon := CanonEntries(entries);
      assert canon[0] == CanonEntry(entries[0]);
      assert canon[1..] == CanonEntries(entries[1..]);
      assert AllRaw(canon) ==> AllRaw(canon[1..]);
    }
  }

  lemma {:induction false} EncodeEntryIsRaw(e: Entry)
    ensures EncodeEntry(e).Some? <==> Raw(CanonEntry(e).key).Some? && Raw(CanonEntry(e).item).Some?
    ensures EncodeEntry(e).Some? ==> EncodeEntry(e).value == RawPair(CanonEntry(e))
    decreases e, 0
  {
    EncodeIsRawOfCanon(e.key);
    EncodeIsRawOfCanon(e.item);
  }

  lemma SomeEntryFails(entries: seq<Entry>, sorted: seq<Entry>)
    requires !AllRaw(entries) && multiset(entries) == multiset(sorted)
    ensures RawEntries(sorted).None?
  {
    var i :| 0 <= i < |entries| && !(Raw(entries[i].key).Some? && Raw(entries[i].item).Some?);
    assert entries[i] in multiset(sorted);
    var j :| 0 <= j < |sorted| && sorted[j] == entries[i];
    FailingEntry(sorted, j);
  }

  lemma {:induction false} FailingEntry(entries: seq<Entry>, j: nat)
    requires j < |entries| && (Raw(entries[j].key).None? || Raw(entries[j].item).None?)
    ensures RawEntries(entries).None?
  {
    if j > 0 { FailingEntry(entries[1..], j - 1); }
  }

  // Two values have one encoding exactly when they differ at most in the order of map entries.
  lemma EncodingDeterminesValue(v: Value, w: Value)
    requires Encode(v).Some? && Encode(w).Some?
    ensures Encode(v) == Encode(w) <==> Canon(v) == Canon(w)
  {
    hide Canon, Raw, Encode;
    EncodeIsRawOfCanon(v);
    EncodeIsRawOfCanon(w);
    if Encode(v) == Encode(w) {
      RawUnique(Canon(v), [], Canon(w), []);
    }
  }

  // Nor is one encoding a proper prefix of another.
  lemma EncodingPrefixFree(v: Value, w: Value, rest: Bytes)
    requires Encode(v).Some? && Encode(w).Some? && Encode(v).value + rest == Encode(w).value
    ensures Canon(v) == Canon(w) && rest == []
  {
    hide Canon, Raw, Encode;
    EncodeIsRawOfCanon(v);
    EncodeIsRawOfCanon(w);
    assert Encode(w).value + [] == Encode(w).value;
    RawUnique(Canon(v), rest, Canon(w), []);
  }

  /* ---------- maps with distinct keys ---------- */

  predicate DistinctKeys(entries: seq<Entry>) {
    forall i, j :: 0 <= i < j < |entries| ==> Canon(entries[i].key) != Canon(entries[j].key)
  }

  predicate SortedEntries(entries: seq<Entry>) {
    forall i, j :: 0 <= i < j < |entries| ==> KeyLeq(KeyBytes(entries[i]), KeyBytes(entries[j]))
  }

  lemma KeyOrder(a: Bytes, b: Bytes, c: Bytes)
    ensures KeyLeq(a, b) || KeyLeq(b, a)
    ensures KeyLeq(a, b) && KeyLeq(b, a) ==> a == b
    ensures KeyLeq(a, b) && KeyLeq(b, c) ==> KeyLeq(a, c)
  {
    LexTotal(a, b);
    if LexLeq(a, b) && LexLeq(b, c) { LexTransitive(a, b, c); }
  }

  lemma {:induction false} InsertSortedEntry(e: Entry, entries: seq<Entry>)
    requires SortedEntries(entries)
    ensures SortedEntries(InsertEntry(e, entries))
  {
    hide KeyLeq, KeyBytes;
    if entries == [] {
    } else if KeyLeq(KeyBytes(e), KeyBytes(entries[0])) {
      forall j | 0 <= j < |entries| ensures KeyLeq(KeyBytes(e), KeyBytes(entries[j])) {
        KeyOrder(KeyBytes(e), KeyBytes(entries[0]), KeyBytes(entries[j]));
      }
    } else {
      var rest := InsertEntry(e, entries[1..]);
      InsertSortedEntry(e, entries[1..]);
      KeyOrder(KeyBytes(e), KeyBytes(entries[0]), []);
      forall j | 0 <= j < |rest| ensures KeyLeq(KeyBytes(entries[0]), KeyBytes(rest[j])) {
        assert rest[j] in multiset(rest);
        assert rest[j] == e || rest[j] in entries[1..];
      }
    }
  }

  lemma {:induction false} SortSortsEntries(entries: seq<Entry>)
    ensures SortedEntries(SortEntries(entries))
  {
    if entries != [] {
      SortSortsEntries(entries[1..]);
      InsertSortedEntry(entries[0], SortEntries(entries[1..]));
    }
  }

  // Keys that are encodable and distinct have distinct encodings.
  predicate DistinctKeyBytes(entries: seq<Entry>) {
    forall i, j :: 0 <= i < j < |entries| ==> KeyBytes(entries[i]) != KeyBytes(entries[j])
  }

  lemma {:induction false} SortedEntriesUnique(a: seq<Entry>, b: seq<Entry>)
    requires SortedEntries(a) && SortedEntries(b) && DistinctKeyBytes(a) && multiset(a) == multiset(b)
    ensures a == b
  {
    hide KeyLeq, KeyBytes;
    PermutationMembers(a, b);
    if a != [] {
      FirstEntry(a, b);
      assert a == [a[0]] + a[1..] && b == [b[0]] + b[1..];
      TailPermutation(a[0], a[1..], b[1..]);
      SortedEntriesUnique(a[1..], b[1..]);
    }
  }

  lemma FirstEntry(a: seq<Entry>, b: seq<Entry>)
    requires SortedEntries(a) && SortedEntries(b) && DistinctKeyBytes(a) && multiset(a) == multiset(b)
    requires a != []
    ensures b != [] && a[0] == b[0]
  {
    hide KeyLeq, KeyBytes;
    PermutationMembers(a, b);
    assert b[0] in a && a[0] in b;
    var i :| 0 <= i < |b| && b[i] == a[0];
    var j :| 0 <= j < |a| && a[j] == b[0];
    assert i > 0 ==> KeyLeq(KeyBytes(b[0]), KeyBytes(a[0]));
    assert j > 0 ==> KeyLeq(KeyBytes(a[0]), KeyBytes(b[0]));
    KeyOrder(KeyBytes(a[0]), KeyBytes(b[0]), []);
  }

  lemma {:induction false} CanonEntriesAt(entries: seq<Entry>, i: nat)
    requires i < |entries|
    ensures CanonEntries(entries)[i] == CanonEntry(entries[i])
  {
    if i > 0 { CanonEntriesAt(entries[1..], i - 1); }
  }

  lemma DistinctAfterCanon(entries: seq<Entry>)
    requires DistinctKeys(entries) && EncodeEntries(entries).Some?
    ensures DistinctKeyBytes(CanonEntries(entries))
  {
    hide Raw, Canon;
    EncodeEntriesIsRaw(entries);
    var canon := CanonEntries(entries);
    forall i, j | 0 <= i < j < |canon| ensures KeyBytes(canon[i]) != KeyBytes(canon[j]) {
      CanonEntriesAt(entries, i);
      CanonEntriesAt(entries, j);
      assert Raw(canon[i].key).Some? && Raw(canon[j].key).Some?;
      if KeyBytes(canon[i]) == KeyBytes(canon[j]) {
        RawUnique(canon[i].key, [], canon[j].key, []);
      }
    }
  }

  lemma {:induction false} DistinctAfterInsert(e: Entry, entries: seq<Entry>)
    requires DistinctKeyBytes(entries) && forall x <- entries :: KeyBytes(x) != KeyBytes(e)
    ensures DistinctKeyBytes(InsertEntry(e, entries))
  {
    hide KeyLeq, KeyBytes;
    if entries != [] && !KeyLeq(KeyBytes(e), KeyBytes(entries[0])) {
      DistinctAfterInsert(e, entries[1..]);
      var rest := InsertEntry(e, entries[1..]);
      PermutationMembers(rest, [e] + entries[1..]);
      assert forall x <- rest :: x == e || x in entries[1..];
      assert forall x <- rest :: KeyBytes(x) != KeyBytes(entries[0]);
    }
  }

  lemma {:induction false} DistinctAfterSort(entries: seq<Entry>)
    requires DistinctKeyBytes(entries)
    ensures DistinctKeyBytes(SortEntries(entries))
  {
    hide KeyLeq, KeyBytes;
    if entries != [] {
      DistinctAfterSort(entries[1..]);
      PermutationMembers(SortEntries(entries[1..]), entries[1..]);
      DistinctAfterInsert(entries[0], SortEntries(entries[1..]));
    }
  }

  // A map with distinct keys encodes to the same bytes whatever its insertion order.
  lemma InsertionOrderIsIrrelevant(a: seq<Entry>, b: seq<Entry>)
    requires DistinctKeys(a) && multiset(CanonEntries(a)) == multiset(CanonEntries(b))
    requires Encode(Dict(a)).Some?
    ensures Encode(Dict(a)) == Encode(Dict(b))
  {
    hide Canon, Raw;
    var (ca, cb) := (CanonEntries(a), CanonEntries(b));
    SortSortsEntries(ca);
    SortSortsEntries(cb);
    DistinctAfterCanon(a);
    DistinctAfterSort(ca);
    SortedEntriesUnique(SortEntries(ca), SortEntries(cb));
    CanonOfDict(a);
    CanonOfDict(b);
    EncodeIsRawOfCanon(Dict(a));
    EncodeIsRawOfCanon(Dict(b));
  }

  lemma CanonOfDict(entries: seq<Entry>)
    ensures Canon(Dict(entries)) == Dict(SortEntries(CanonEntries(entries)))
  {
  }

  /* ---------- domain separation ---------- */

  predicate NulFree(domain: Bytes) {
    forall i :: 0 <= i < |domain| ==> domain[i] != 0
  }

  predicate IsAscii(domain: Bytes) {
    forall i :: 0 <= i < |domain| ==> domain[i] < 128
  }

  // domain.encode("ascii") + b"\0" + cbor(body); None where either raises
  function Preimage(domain: Bytes, body: Value): Option<Bytes> {
    if !IsAscii(domain) || Encode(body).None? then None
    else Some(domain + [0] + Encode(body).value)
  }

  lemma NulSplits(d: Bytes, x: Bytes, d': Bytes, x': Bytes)
    requires NulFree(d) && NulFree(d') && d + [0] + x == d' + [0] + x'
    ensures d == d' && x == x'
  {
    var (s, s') := (d + [0] + x, d' + [0] + x');
    assert s[|d|] == 0 && s'[|d'|] == 0;
    assert |d| == |d'| by {
      if |d| < |d'| { assert false; }
      if |d'| < |d| { assert false; }
    }
    SplitConcat(d + [0], x, d' + [0], x');
    SplitConcat(d, [0], d', [0]);
  }

  // A preimage determines its domain and, up to the order of map entries, its body.
  lemma PreimageInjective(d: Bytes, v: Value, d': Bytes, w: Value)
    requires NulFree(d) && NulFree(d')
    requires Preimage(d, v).Some? && Preimage(d', w).Some?
    ensures Preimage(d, v) == Preimage(d', w) <==> d == d' && Canon(v) == Canon(w)
  {
    hide Canon, Encode;
    EncodingDeterminesValue(v, w);
    if Preimage(d, v) == Preimage(d', w) {
      NulSplits(d, Encode(v).value, d', Encode(w).value);
    }
  }

  // The longer domain continues the shorter with a NUL and `more`, and the shorter one's body begins
  // with `more`, a NUL and the longer one's body.
  predicate Overlaps(d: Bytes, v: Value, d': Bytes, w: Value, more: Bytes) {
    d' == d + [0] + more && Encode(v).Some? && Encode(w).Some? && Encode(v).value == more + [0] + Encode(w).value
  }

  lemma LongerOverlaps(d: Bytes, v: Value, d': Bytes, w: Value)
    requires Preimage(d, v).Some? && Preimage(d, v) == Preimage(d', w) && |d| < |d'|
    ensures exists more :: Overlaps(d, v, d', w, more)
  {
    hide Encode;
    var (x, y) := (Encode(v).value, Encode(w).value);
    var more := d'[|d| + 1..];
    var (s, s') := (d + [0] + x, d' + [0] + y);
    assert d' == s'[..|d'|] == s[..|d'|];
    assert d' == d + [0] + more;
    assert x == s[|d| + 1..] && s'[|d| + 1..] == more + [0] + y;
    assert Overlaps(d, v, d', w, more);
  }

  lemma OverlapsCollide(d: Bytes, v: Value, d': Bytes, w: Value, more: Bytes)
    requires Overlaps(d, v, d', w, more) && IsAscii(d')
    ensures Preimage(d, v).Some? && Preimage(d, v) == Preimage(d', w) && d != d'
  {
    hide Encode;
    var (x, y) := (Encode(v).value, Encode(w).value);
    assert forall i :: 0 <= i < |d| ==> d[i] == d'[i];
    assert d + [0] + (more + [0] + y) == d + [0] + more + [0] + y;
  }

  // Preimages of any two domains, with or without NULs, collide in just two ways: the domains are
  // equal and the bodies differ at most in map order, or one domain overlaps the other's body.
  lemma PreimagesCollideExactlyWhen(d: Bytes, v: Value, d': Bytes, w: Value)
    requires Preimage(d, v).Some? && Preimage(d', w).Some?
    ensures Preimage(d, v) == Preimage(d', w)
            <==> ((d == d' && Canon(v) == Canon(w))
                  || (exists more :: Overlaps(d, v, d', w, more)) || (exists more :: Overlaps(d', w, d, v, more)))
  {
    hide Canon, Encode;
    EncodingDeterminesValue(v, w);
    if Preimage(d, v) == Preimage(d', w) {
      if |d| < |d'| {
        LongerOverlaps(d, v, d', w);
      } else if |d'| < |d| {
        LongerOverlaps(d', w, d, v);
      } else {
        assert d + [0] + Encode(v).value == d + ([0] + Encode(v).value);
        assert d' + [0] + Encode(w).value == d' + ([0] + Encode(w).value);
        SplitConcat(d, [0] + Encode(v).value, d', [0] + Encode(w).value);
        assert ([0] + Encode(v).value)[1..] == Encode(v).value && ([0] + Encode(w).value)[1..] == Encode(w).value;
      }
    } else {
      if exists more :: Overlaps(d, v, d', w, more) {
        var more :| Overlaps(d, v, d', w, more);
        OverlapsCollide(d, v, d', w, more);
      }
      if exists more :: Overlaps(d', w, d, v, more) {
        var more :| Overlaps(d', w, d, v, more);
        OverlapsCollide(d', w, d, v, more);
      }
    }
  }

  // Some bodies of the two domains have one preimage.
  ghost predicate Collide(d: Bytes, d': Bytes) {
    exists v, w :: Preimage(d, v).Some? && Preimage(d, v) == Preimage(d', w)
  }

  // The first byte of an encoding that is ASCII belongs to a number or to a string; where that byte
  // gives the number or the length itself, it gives the length of the encoding.
  lemma ShortEncoding(v: Value)
    requires Encode(v).Some?
    ensures var e := Encode(v).value;
            && e != [] && e[0] % 32 <= 27
            && (e[0] < 128 && e[0] % 32 < 24 ==> |e| == if e[0] < 64 then 1 else 1 + e[0] % 32)
  {
    match v
    case Bool(_) =>
    case Int(number) => HeadParts(if number >= 0 then 0 else 1, if number >= 0 then number else -1 - number);
    case ByteString(bytes) => HeadParts(2, |bytes|);
    case Text(utf8) => HeadParts(3, |utf8|);
    case List(items) => HeadParts(4, |items|);
    case Dict(entries) => HeadParts(5, |EncodeEntries(entries).value|);
  }

  // Which domains are unsafe together, where the one continues the other with a NUL and `more`, whose
  // first byte is not one that says where a length is to be found: those where it announces a string
  // that reaches past the rest of `more` and the second NUL.
  lemma ContinuationsCollideExactlyWhen(d: Bytes, more: Bytes)
    requires IsAscii(d) && IsAscii(more) && (more != [] ==> !(24 <= more[0] % 32 <= 27))
    ensures Collide(d, d + [0] + more) <==> more != [] && more[0] >= 64 && |more| < more[0] % 32 < 24
  {
    var d' := d + [0] + more;
    hide Encode;
    if Collide(d, d') {
      var v, w :| Preimage(d, v).Some? && Preimage(d, v) == Preimage(d', w);
      LongerOverlaps(d, v, d', w);
      var rest :| Overlaps(d, v, d', w, rest);
      assert rest == d'[|d| + 1..] == more;
      ShortEncoding(v);
      ShortEncoding(w);
      assert Encode(v).value[0] == if more == [] then 0 else more[0];
    }
    if more != [] && more[0] >= 64 && |more| < more[0] % 32 < 24 {
      ShortStringsCollide(d, more);
    }
  }

  lemma ShortStringsCollide(d: Bytes, more: Bytes)
    requires IsAscii(d) && IsAscii(more) && more != [] && more[0] >= 64 && |more| < more[0] % 32 < 24
    ensures Collide(d, d + [0] + more)
  {
    var n := more[0] % 32;
    var w := ByteString(Zeros(n - |more| - 1));
    var contents := more[1..] + [0] + Encode(w).value;
    var v := if more[0] < 96 then ByteString(contents) else Text(contents);
    assert Encode(w).value == [64 + (n - |more| - 1)] + Zeros(n - |more| - 1);
    assert |contents| == n && more == [more[0]] + more[1..];
    assert Encode(v).value == [more[0]] + contents == more + [0] + Encode(w).value;
    hide Encode;
    assert Overlaps(d, v, d + [0] + more, w, more);
    OverlapsCollide(d, v, d + [0] + more, w, more);
  }

  // A NUL in a domain does break the separation: a byte string can carry the second terminator.
  lemma NulBreaksSeparation(d: Bytes)
    requires IsAscii(d)
    ensures var (v, d', w) := (ByteString([0, 0xF4]), d + [0, 0x42], Bool(false));
            d != d' && Canon(v) != Canon(w)
            && Preimage(d, v).Some? && Preimage(d, v) == Preimage(d', w)
  {
    var (v, d', w) := (ByteString([0, 0xF4]), d + [0, 0x42], Bool(false));
    assert Encode(v) == Some([0x42] + [0, 0xF4]);
    assert d + [0] + ([0x42] + [0, 0xF4]) == d' + [0] + [0xF4];
  }
}
