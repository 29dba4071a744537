/** The restore program's check of a snapshot, and what a snapshot that passes it restores to. */
module SnapshotVerify {
  import opened Bytes
  import opened Json
  import opened BackupRestore

  // SHA-256 over bytes, as 64 lower-case hexadecimal characters.
  type Digest = Bytes -> string

  datatype VerifyError =
    | NotAnArray
    | Missing(name: string)
    | BadId(name: string)
    | BadHash(name: string)
    | RevisionIsZero
    | NotHex
    | EmptyCiphertext
    | WrongLength
    | WrongHash
    | Duplicate

  /* ---------- hexadecimal ---------- */

  predicate LowerHexChar(c: char) {
    '0' <= c <= '9' || 'a' <= c <= 'f'
  }

  predicate IsLowerHex(text: string, length: nat) {
    |text| == length && forall c :: c in text ==> LowerHexChar(c)
  }

  // Two characters as one byte; the conversion also takes upper case, and a plus sign before one digit.
  function HexByte(a: char, b: char): Option<byte> {
    var (high, low) := (HexDigit(a), HexDigit(b));
    if low.None? then None
    else if a == '+' then Some(low.value as byte)
    else if high.None? then None
    else Some((16 * high.value + low.value) as byte)
  }

  function DecodeHex(text: string): Option<Bytes>
    decreases |text|
  {
    if text == "" then Some([])
    else if |text| == 1 then None
    else
      var (first, rest) := (HexByte(text[0], text[1]), DecodeHex(text[2..]));
      if first.None? || rest.None? then None else Some([first.value] + rest.value)
  }

  function EncodeHex(b: Bytes): (s: string) {
    if b == [] then "" else [LowerDigit(b[0] / 16), LowerDigit(b[0] % 16)] + EncodeHex(b[1..])
  }

  lemma DigitReadsBack(d: nat)
    requires d < 16
    ensures HexDigit(LowerDigit(d)) == Some(d) && LowerDigit(d) != '+'
    ensures LowerHexChar(LowerDigit(d))
  {
  }

  lemma {:induction false} HexReadsBack(b: Bytes)
    ensures DecodeHex(EncodeHex(b)) == Some(b) && IsLowerHex(EncodeHex(b), 2 * |b|)
  {
    if b != [] {
      var s := EncodeHex(b);
      DigitReadsBack(b[0] / 16);
      DigitReadsBack(b[0] % 16);
      HexReadsBack(b[1..]);
      assert s[0] == LowerDigit(b[0] / 16) && s[1] == LowerDigit(b[0] % 16) && s[2..] == EncodeHex(b[1..]);
      assert [b[0]] + b[1..] == b;
      hide HexDigit, LowerDigit;
    }
  }

  lemma LowerDigitIsCanonical(c: char)
    requires LowerHexChar(c)
    ensures HexDigit(c).Some? && HexDigit(c).value < 16 && LowerDigit(HexDigit(c).value) == c
  {
  }

  lemma PairIsCanonical(a: char, b: char)
    requires LowerHexChar(a) && LowerHexChar(b)
    ensures HexByte(a, b).Some?
    ensures var v := HexByte(a, b).value; LowerDigit(v / 16) == a && LowerDigit(v % 16) == b
  {
    LowerDigitIsCanonical(a);
    LowerDigitIsCanonical(b);
    hide HexDigit, LowerDigit;
  }

  // Lower-case texts decode in one way only.
  lemma {:induction false} LowerHexIsCanonical(text: string)
    requires IsLowerHex(text, |text|) && DecodeHex(text).Some?
    ensures EncodeHex(DecodeHex(text).value) == text
    decreases |text|
  {
    if text != "" {
      assert text[0] in text && text[1] in text;
      PairIsCanonical(text[0], text[1]);
      assert forall c :: c in text[2..] ==> c in text;
      LowerHexIsCanonical(text[2..]);
      hide HexByte, LowerDigit;
      var (first, rest) := (HexByte(text[0], text[1]).value, DecodeHex(text[2..]).value);
      assert DecodeHex(text).value == [first] + rest && ([first] + rest)[1..] == rest;
      assert text == [text[0], text[1]] + text[2..];
    }
  }

  // A text is the form its own bytes are written in exactly when it is in lower case; every other
  // text the decoder accepts stands for bytes that are written differently.
  lemma CanonicalExactlyLowerHex(text: string)
    requires DecodeHex(text).Some?
    ensures EncodeHex(DecodeHex(text).value) == text <==> IsLowerHex(text, |text|)
  {
    HexReadsBack(DecodeHex(text).value);
    if IsLowerHex(text, |text|) { LowerHexIsCanonical(text); }
  }

  // A hexadecimal digit of either case after another one or a plus sign.
  predicate IsPair(a: char, b: char) {
    HexDigit(b).Some? && (a == '+' || HexDigit(a).Some?)
  }

  // What the decoder accepts: texts of even length that consist of such pairs.
  lemma {:induction false} DecodesExactlyPairs(text: string)
    ensures DecodeHex(text).Some?
            <==> (|text| % 2 == 0 && forall i :: 0 <= i < |text| / 2 ==> IsPair(text[2 * i], text[2 * i + 1]))
    decreases |text|
  {
    if |text| > 1 {
      var rest := text[2..];
      DecodesExactlyPairs(rest);
      assert forall i :: 0 <= i < |rest| / 2 ==>
                           rest[2 * i] == text[2 * (i + 1)] && rest[2 * i + 1] == text[2 * (i + 1) + 1];
      assert HexByte(text[0], text[1]).Some? <==> IsPair(text[2 * 0], text[2 * 0 + 1]);
      hide HexByte, IsPair;
      if forall i :: 0 <= i < |text| / 2 ==> IsPair(text[2 * i], text[2 * i + 1]) {
        forall i | 0 <= i < |rest| / 2 ensures IsPair(rest[2 * i], rest[2 * i + 1]) {
          assert IsPair(text[2 * (i + 1)], text[2 * (i + 1) + 1]);
        }
      } else {
        var i :| 0 <= i < |text| / 2 && !IsPair(text[2 * i], text[2 * i + 1]);
        if i > 0 { assert rest[2 * (i - 1)] == text[2 * i] && rest[2 * (i - 1) + 1] == text[2 * i + 1]; }
      }
    }
  }

  /* ---------- one record ---------- */

  // What the check remembers of a record.
  datatype Seen = Seen(key: (string, string), tombstone: bool)

  function Unsigned(v: Json, name: string): Option<nat> {
    var f := Field(v, name);
    if f.Some? then AsU64(f.value) else None
  }

  predicate IsId(s: string) {
    1 <= |s| <= 128 && forall c :: c in s ==> '!' <= c <= '~'
  }

  function FirstMissing(v: Json): Option<string> {
    if Text(v, "vault_id").None? then Some("vault_id")
    else if Text(v, "record_id").None? then Some("record_id")
    else if Text(v, "deployment_id").None? then Some("deployment_id")
    else if Text(v, "ciphertext").None? then Some("ciphertext")
    else if Text(v, "ciphertext_hash").None? then Some("ciphertext_hash")
    else if Text(v, "template_envelope_hash").None? then Some("template_envelope_hash")
    else if Text(v, "manifest_binding").None? then Some("manifest_binding")
    else if Unsigned(v, "revision").None? then Some("revision")
    else if Unsigned(v, "ciphertext_length").None? then Some("ciphertext_length")
    else if Flag(v, "tombstone").None? then Some("tombstone")
    else None
  }

  function CheckText(v: Json): Option<VerifyError> {
    var (deployment, vault, record) :=
      (Text(v, "deployment_id").GetOr(""), Text(v, "vault_id").GetOr(""), Text(v, "record_id").GetOr(""));
    if !IsId(deployment) then Some(BadId("deployment_id"))
    else if !IsId(vault) then Some(BadId("vault_id"))
    else if !IsId(record) then Some(BadId("record_id"))
    else if !IsLowerHex(Text(v, "ciphertext_hash").GetOr(""), 64) then Some(BadHash("ciphertext_hash"))
    else if !IsLowerHex(Text(v, "template_envelope_hash").GetOr(""), 64) then Some(BadHash("template_envelope_hash"))
    else if !IsLowerHex(Text(v, "manifest_binding").GetOr(""), 64) then Some(BadHash("manifest_binding"))
    else None
  }

  function CheckContent(v: Json, digest: Digest): Option<VerifyError> {
    var bytes := DecodeHex(Text(v, "ciphertext").GetOr(""));
    if Unsigned(v, "revision").GetOr(0) == 0 then Some(RevisionIsZero)
    else if bytes.None? then Some(NotHex)
    else if bytes.value == [] then Some(EmptyCiphertext)
    else if Unsigned(v, "ciphertext_length").GetOr(0) != |bytes.value| then Some(WrongLength)
    else if digest(bytes.value) != Text(v, "ciphertext_hash").GetOr("") then Some(WrongHash)
    else None
  }

  function CheckRecord(v: Json, digest: Digest): Result<Seen, VerifyError> {
    var (missing, text, content) := (FirstMissing(v), CheckText(v), CheckContent(v, digest));
    if missing.Some? then Err(Missing(missing.value))
    else if text.Some? then Err(text.value)
    else if content.Some? then Err(content.value)
    else Ok(Seen((Text(v, "vault_id").GetOr(""), Text(v, "record_id").GetOr("")), Flag(v, "tombstone").GetOr(false)))
  }

  /* ---------- the whole snapshot ---------- */

  predicate KeySeen(seen: seq<Seen>, key: (string, string)) {
    exists i :: 0 <= i < |seen| && seen[i].key == key
  }

  function CheckAll(items: seq<Json>, digest: Digest): Result<seq<Seen>, VerifyError> {
    if items == [] then Ok([])
    else
      var (before, last) := (CheckAll(items[..|items| - 1], digest), CheckRecord(items[|items| - 1], digest));
      if before.Err? then before
      else if last.Err? then Err(last.error)
      else if KeySeen(before.value, last.value.key) then Err(Duplicate)
      else Ok(before.value + [last.value])
  }

  function Tombstones(seen: seq<Seen>): nat {
    if seen == [] then 0 else Tombstones(seen[..|seen| - 1]) + (if seen[|seen| - 1].tombstone then 1 else 0)
  }

  lemma {:induction false} FirstErrorDecides(items: seq<Json>, digest: Digest, n: nat)
    requires n <= |items| && CheckAll(items[..n], digest).Err?
    ensures CheckAll(items, digest) == CheckAll(items[..n], digest)
  {
    hide CheckRecord;
    if n == |items| {
      assert items[..n] == items;
    } else {
      var before := items[..|items| - 1];
      assert before[..n] == items[..n];
      FirstErrorDecides(before, digest, n);
    }
  }

  method VerifySnapshot(text: string, digest: Digest) returns (outcome: Result<(nat, nat), VerifyError>)
    ensures var v := Parse(text);
            if v.None? || !v.value.Array? then outcome == Err(NotAnArray)
            else match CheckAll(v.value.items, digest)
                 case Err(e) => outcome == Err(e)
                 case Ok(all) => outcome == Ok((|all|, Tombstones(all)))
  {
    hide Parse, CheckRecord;
    var v := Parse(text);
    if v.None? || !v.value.Array? { return Err(NotAnArray); }
    var items := v.value.items;
    ghost var all: seq<Seen> := [];
    var seen := {};
    var tombstones := 0;
    for i := 0 to |items|
      invariant CheckAll(items[..i], digest) == Ok(all) && |all| == i
      invariant forall key :: key in seen <==> KeySeen(all, key)
      invariant tombstones == Tombstones(all)
    {
      assert items[..i + 1][..i] == items[..i];
      var record := CheckRecord(items[i], digest);
      if record.Err? {
        FirstErrorDecides(items, digest, i + 1);
        return Err(record.error);
      }
      if record.value.key in seen {
        FirstErrorDecides(items, digest, i + 1);
        return Err(Duplicate);
      }
      SeenOneMore(all, record.value);
      all := all + [record.value];
      seen := seen + {record.value.key};
      if record.value.tombstone { tombstones := tombstones + 1; }
    }
    assert items[..|items|] == items;
    outcome := Ok((|items|, tombstones));
  }

  lemma SeenOneMore(all: seq<Seen>, s: Seen)
    ensures forall key :: KeySeen(all + [s], key) <==> KeySeen(all, key) || key == s.key
    ensures Tombstones(all + [s]) == Tombstones(all) + (if s.tombstone then 1 else 0)
  {
    var more := all + [s];
    assert more[..|more| - 1] == all && more[|all|] == s;
    forall key | KeySeen(all, key) ensures KeySeen(more, key) {
      var i :| 0 <= i < |all| && all[i].key == key;
      assert more[i].key == key;
    }
  }

  /* ---------- what passes ---------- */

  // A row the check accepts.
  predicate ValidRow(r: Row, digest: Digest) {
    && IsId(r.deploymentId) && IsId(r.vaultId) && IsId(r.recordId)
    && IsLowerHex(r.ciphertextHash, 64) && IsLowerHex(r.templateEnvelopeHash, 64) && IsLowerHex(r.manifestBinding, 64)
    && r.revision >= 1
    && var bytes := DecodeHex(r.ciphertext);
       bytes.Some? && bytes.value != [] && r.ciphertextLength == |bytes.value|
       && digest(bytes.value) == r.ciphertextHash
  }

  lemma UnsignedAt(r: Row, i: nat, n: int)
    requires i < 12 && Members(r)[i].1 == Int(n) && n <= I64_MAX
    ensures Unsigned(Object(Members(r)), Members(r)[i].0) == if n >= 0 then Some(n) else None
  {
    MemberFound(r, i);
    IntegerReadsBack(n);
    hide Get, Members, AsInteger, PrintInteger;
  }

  lemma UnsignedsRead(r: Row)
    requires InRange(r)
    ensures var v := Object(Members(r));
            Unsigned(v, "revision") == (if r.revision >= 0 then Some(r.revision) else None)
            && Unsigned(v, "ciphertext_length") == (if r.ciphertextLength >= 0 then Some(r.ciphertextLength) else None)
  {
    hide Unsigned;
    UnsignedAt(r, 5, r.revision);
    UnsignedAt(r, 8, r.ciphertextLength);
  }

  lemma RowChecks(r: Row, digest: Digest)
    requires InRange(r)
    ensures var c := CheckRecord(Object(Members(r)), digest);
            (c.Ok? <==> ValidRow(r, digest)) && (c.Ok? ==> c.value == Seen(Key(r), r.tombstone))
  {
    TextsRead(r);
    UnsignedsRead(r);
    FlagAt(r);
    hide Text, Unsigned, Flag, Members, DecodeHex, IsId, IsLowerHex;
  }

  predicate DistinctKeys(rows: seq<Row>) {
    forall i, j :: 0 <= i < j < |rows| ==> Key(rows[i]) != Key(rows[j])
  }

  predicate MatchRows(seen: seq<Seen>, rows: seq<Row>) {
    |seen| == |rows| && forall i :: 0 <= i < |rows| ==> seen[i] == Seen(Key(rows[i]), rows[i].tombstone)
  }

  lemma DistinctSnoc(rows: seq<Row>, seen: seq<Seen>)
    requires rows != [] && MatchRows(seen, rows[..|rows| - 1])
    ensures DistinctKeys(rows) <==>
              DistinctKeys(rows[..|rows| - 1]) && !KeySeen(seen, Key(rows[|rows| - 1]))
  {
    var before := rows[..|rows| - 1];
    assert forall i :: 0 <= i < |before| ==> before[i] == rows[i] && seen[i].key == Key(before[i]);
  }

  lemma {:induction false} RowsCheck(items: seq<Json>, rows: seq<Row>, digest: Digest)
    requires |items| == |rows| && forall i :: 0 <= i < |items| ==> RowMatches(items[i], rows[i], digest)
    ensures var c := CheckAll(items, digest);
            (c.Ok? <==> DistinctKeys(rows) && forall r <- rows :: ValidRow(r, digest))
            && (c.Ok? ==> MatchRows(c.value, rows))
  {
    hide CheckRecord, ValidRow, KeySeen;
    if items != [] {
      var (before, last) := (rows[..|rows| - 1], rows[|rows| - 1]);
      var earlier := items[..|items| - 1];
      forall i | 0 <= i < |earlier| ensures RowMatches(earlier[i], before[i], digest) {
        assert RowMatches(items[i], rows[i], digest);
      }
      RowsCheck(earlier, before, digest);
      assert RowMatches(items[|items| - 1], last, digest);
      assert forall r :: r in rows <==> r in before || r == last by {
        assert rows == before + [last];
      }
      var c := CheckAll(earlier, digest);
      if c.Ok? { DistinctSnoc(rows, c.value); }
      if DistinctKeys(rows) { assert DistinctKeys(before); }
    }
  }

  // The check of a printed row finds just that row.
  predicate RowMatches(v: Json, r: Row, digest: Digest) {
    var c := CheckRecord(v, digest);
    (c.Ok? <==> ValidRow(r, digest)) && (c.Ok? ==> c.value == Seen(Key(r), r.tombstone))
  }

  // A printed snapshot passes the check exactly when every row is valid and no key repeats.
  lemma BackupVerifies(rows: seq<Row>, digest: Digest)
    requires forall r <- rows :: PlainRow(r) && InRange(r)
    ensures var v := Parse(PrintSnapshot(rows));
            v.Some? && v.value.Array?
            && var c := CheckAll(v.value.items, digest);
               (c.Ok? <==> DistinctKeys(rows) && forall r <- rows :: ValidRow(r, digest))
               && (c.Ok? ==> MatchRows(c.value, rows))
  {
    SnapshotParses(rows);
    var items := Objects(rows);
    hide PrintSnapshot, Parse, CheckAll, CheckRecord, ValidRow, PlainRow;
    forall i | 0 <= i < |items| ensures RowMatches(items[i], rows[i], digest) {
      ObjectsAt(rows, i);
      assert rows[i] in rows;
      RowChecks(rows[i], digest);
    }
    RowsCheck(items, rows, digest);
  }

  /* ---------- a verified snapshot is imported whole ---------- */

  lemma RecordImports(v: Json, digest: Digest)
    requires CheckRecord(v, digest).Ok?
    ensures var (seen, row) := (CheckRecord(v, digest).value, ReadRow(v));
            (row.Ok? <==> Unsigned(v, "revision").GetOr(0) <= I64_MAX)
            && (row.Ok? ==> seen == Seen(Key(row.value), row.value.tombstone))
  {
    RevisionRead(v);
    hide DecodeHex, IsId, IsLowerHex, Utf8Length, Unsigned, Integer, Text, Flag;
  }

  lemma RevisionRead(v: Json)
    requires Unsigned(v, "revision").Some?
    ensures Integer(v, "revision").Some? <==> Unsigned(v, "revision").value <= I64_MAX
  {
    hide Get, AsInteger;
  }

  // A snapshot that passes the check is imported unless some revision exceeds 2^63 - 1; then the
  // whole import is refused. When it is imported into an empty table, every record is there.
  lemma {:induction false} VerifiedIsImportedWhole(items: seq<Json>, digest: Digest)
    requires CheckAll(items, digest).Ok?
    ensures var (seen, rows) := (CheckAll(items, digest).value, ReadRows(items));
            |seen| == |items|
            && (rows.Ok? <==> forall v <- items :: Unsigned(v, "revision").GetOr(0) <= I64_MAX)
            && (rows.Ok? ==> MatchRows(seen, rows.value) && DistinctKeys(rows.value))
    decreases |items|
  {
    hide CheckRecord, ReadRow, Unsigned;
    if items != [] {
      var (before, last) := (items[..|items| - 1], items[|items| - 1]);
      VerifiedIsImportedWhole(before, digest);
      RecordImports(last, digest);
      assert forall v :: v in items <==> v in before || v == last by {
        assert items == before + [last];
      }
      var rows := ReadRows(items);
      if rows.Ok? {
        assert rows.value[..|rows.value| - 1] == ReadRows(before).value;
        DistinctSnoc(rows.value, CheckAll(before, digest).value);
      }
    }
  }

  lemma DistinctRowsAllPresent(rows: seq<Row>, i: nat)
    requires DistinctKeys(rows) && i < |rows|
    ensures var t := InsertAll(map[], rows); Key(rows[i]) in t && t[Key(rows[i])] == rows[i]
  {
    ImportTakesFirst(map[], rows, i);
  }
}
