/**
 * The backup program's hand-written JSON printer against the restore program's import, over a
 * table of records keyed by vault and record.
 */
module BackupRestore {
  import opened Bytes
  import opened Json

  datatype Row = Row(
    protocolVersion: int, suiteId: int, deploymentId: string, vaultId: string, recordId: string,
    revision: int, ciphertext: string, ciphertextHash: string, ciphertextLength: int, tombstone: bool,
    templateEnvelopeHash: string, manifestBinding: string)

  type Table = map<(string, string), Row>

  function Key(r: Row): (string, string) {
    (r.vaultId, r.recordId)
  }

  /* ---------- printing ---------- */

  function Int(n: int): Json {
    Number(PrintInteger(n))
  }

  // A row as the members of an object, in the order they are printed.
  function Members(r: Row): (m: seq<(string, Json)>)
    ensures |m| == 12
  {
    [("protocol_version", Int(r.protocolVersion)), ("suite_id", Int(r.suiteId)),
     ("deployment_id", Str(r.deploymentId)), ("vault_id", Str(r.vaultId)), ("record_id", Str(r.recordId)),
     ("revision", Int(r.revision)), ("ciphertext", Str(r.ciphertext)),
     ("ciphertext_hash", Str(r.ciphertextHash)), ("ciphertext_length", Int(r.ciphertextLength)),
     ("tombstone", Bool(r.tombstone)), ("template_envelope_hash", Str(r.templateEnvelopeHash)),
     ("manifest_binding", Str(r.manifestBinding))]
  }

  // Text goes between quotes as it is.
  function PrintScalar(v: Json): string {
    match v
    case Number(text) => text
    case Str(s) => "\"" + s + "\""
    case Bool(b) => PrintBool(b)
    case _ => "null"
  }

  function PrintMember(m: (string, Json)): string {
    "\"" + m.0 + "\":" + PrintScalar(m.1)
  }

  function PrintMembers(ms: seq<(string, Json)>): string {
    if ms == [] then ""
    else if |ms| == 1 then PrintMember(ms[0])
    else PrintMember(ms[0]) + ", " + PrintMembers(ms[1..])
  }

  function PrintRow(r: Row): string {
    "  {" + PrintMembers(Members(r)) + "}"
  }

  function PrintRows(rows: seq<Row>): string {
    if rows == [] then ""
    else if |rows| == 1 then PrintRow(rows[0])
    else PrintRow(rows[0]) + ",\n" + PrintRows(rows[1..])
  }

  function PrintSnapshot(rows: seq<Row>): string {
    "[\n" + PrintRows(rows) + "\n]\n"
  }

  lemma {:induction false} PrintRowsSnoc(rows: seq<Row>, r: Row)
    requires rows != []
    ensures PrintRows(rows + [r]) == PrintRows(rows) + ",\n" + PrintRow(r)
  {
    var all := rows + [r];
    assert all[1..] == rows[1..] + [r];
    hide PrintRow;
    if |rows| > 1 {
      PrintRowsSnoc(rows[1..], r);
    } else {
      assert all[1..] == [r];
    }
  }

  // The text after one more row.
  lemma PrintRowsNext(rows: seq<Row>, i: nat)
    requires i < |rows|
    ensures "[\n" + PrintRows(rows[..i + 1])
              == "[\n" + PrintRows(rows[..i]) + (if i > 0 then ",\n" else "") + PrintRow(rows[i])
  {
    assert rows[..i + 1] == rows[..i] + [rows[i]];
    hide PrintRow;
    if i > 0 { PrintRowsSnoc(rows[..i], rows[i]); }
  }

  // Row by row to the output.
  method ExportSnapshot(rows: seq<Row>) returns (out: string, count: nat)
    ensures out == PrintSnapshot(rows) && count == |rows|
  {
    out := "[\n";
    assert rows[..0] == [] && rows[..|rows|] == rows;
    assert out == "[\n" + PrintRows([]);
    hide PrintRow, PrintRows;
    for i := 0 to |rows|
      invariant out == "[\n" + PrintRows(rows[..i])
    {
      PrintRowsNext(rows, i);
      if i > 0 {
        out := out + ",\n";
      }
      out := out + PrintRow(rows[i]);
    }
    out := out + "\n]\n";
    count := |rows|;
  }

  /* ---------- what is printed reads back ---------- */

  predicate Readable(v: Json) {
    v.Bool? || (v.Str? && Plain(v.s))
    || (v.Number? && AsInteger(v).Some? && v.text == PrintInteger(AsInteger(v).value))
  }

  lemma ScalarIsRead(v: Json, rest: string)
    requires Readable(v) && Ends(rest)
    ensures ParseValue(PrintScalar(v) + rest) == Some((v, rest))
  {
    hide ParseValue, AsInteger, Plain;
    match v {
      case Number(text) => NumberIsRead(AsInteger(v).value, rest);
      case Str(s) => StringIsRead(s, rest);
      case Bool(b) => BoolIsRead(b, rest);
    }
  }

  // What follows a member.
  predicate AfterMember(rest: string) {
    rest != [] && (rest[0] == ',' || rest[0] == '}')
  }

  lemma MemberIsRead(m: (string, Json), rest: string)
    requires Plain(m.0) && Readable(m.1) && AfterMember(rest)
    ensures ParseMember(PrintMember(m) + rest) == Some((m, rest))
  {
    var tail := ":" + PrintScalar(m.1) + rest;
    var s := PrintMember(m) + rest;
    assert s[0] == '"' && s[1..] == m.0 + "\"" + tail;
    PlainIsRead(m.0, tail);
    assert tail[1..] == PrintScalar(m.1) + rest;
    ScalarIsRead(m.1, rest);
    hide ParseValue, ParseChars, PrintScalar, Readable, Plain;
    assert SkipSpace(s) == s && SkipSpace(tail) == tail && SkipSpace(rest) == rest;
  }

  predicate AllReadable(ms: seq<(string, Json)>) {
    forall i :: 0 <= i < |ms| ==> Plain(ms[i].0) && Readable(ms[i].1)
  }

  lemma Regroup(a: string, b: string, c: string, d: string, e: string)
    ensures a + b + c + d + e == a + (b + c + d + e)
  {
  }

  lemma DropFirst(a: string, b: string, c: string, d: string, e: string)
    requires a != [] && a[1..] == b
    ensures (a + c + d + e)[1..] == b + c + d + e
  {
  }

  lemma MembersUnfold(ms: seq<(string, Json)>, rest: string)
    requires |ms| > 1
    ensures PrintMembers(ms) + "}" + rest
              == PrintMember(ms[0]) + (", " + PrintMembers(ms[1..]) + "}" + rest)
    ensures (", " + PrintMembers(ms[1..]) + "}" + rest)[1..] == " " + PrintMembers(ms[1..]) + "}" + rest
    ensures ms == [ms[0]] + ms[1..]
  {
    var p := PrintMembers(ms[1..]);
    assert PrintMembers(ms) == PrintMember(ms[0]) + ", " + p;
    hide PrintMember, PrintMembers;
    Regroup(PrintMember(ms[0]), ", ", p, "}", rest);
    DropFirst(", ", " ", p, "}", rest);
  }

  lemma {:induction false} MembersAreRead(ms: seq<(string, Json)>, rest: string)
    requires ms != [] && AllReadable(ms)
    ensures ParseMembers(PrintMembers(ms) + "}" + rest) == Some((ms, rest))
    ensures ParseMembers(" " + PrintMembers(ms) + "}" + rest) == Some((ms, rest))
    decreases |ms|
  {
    hide Plain, Readable, ParseMember, PrintMember;
    var (s, spaced) := (PrintMembers(ms) + "}" + rest, " " + PrintMembers(ms) + "}" + rest);
    MemberAfterSpace(s);
    assert spaced == " " + s;
    if |ms| == 1 {
      var after := "}" + rest;
      MemberIsRead(ms[0], after);
      assert s == PrintMember(ms[0]) + after && after[1..] == rest && ms == [ms[0]];
    } else {
      var after := ", " + PrintMembers(ms[1..]) + "}" + rest;
      MembersUnfold(ms, rest);
      MemberIsRead(ms[0], after);
      MembersAreRead(ms[1..], rest);
      hide PrintMembers;
    }
  }

  lemma MemberAfterSpace(s: string)
    ensures ParseMember(" " + s) == ParseMember(s)
  {
    assert (" " + s)[1..] == s;
    hide ParseValue, ParseChars;
  }

  // The condition on a row's text fields.
  predicate PlainRow(r: Row) {
    Plain(r.deploymentId) && Plain(r.vaultId) && Plain(r.recordId) && Plain(r.ciphertext)
    && Plain(r.ciphertextHash) && Plain(r.templateEnvelopeHash) && Plain(r.manifestBinding)
  }

  lemma FirstNamesArePlain()
    ensures Plain("protocol_version") && Plain("suite_id") && Plain("deployment_id") && Plain("vault_id")
  {
  }

  lemma MiddleNamesArePlain()
    ensures Plain("record_id") && Plain("revision") && Plain("ciphertext") && Plain("ciphertext_hash")
  {
  }

  lemma LastNamesArePlain()
    ensures Plain("ciphertext_length") && Plain("tombstone") && Plain("template_envelope_hash")
    ensures Plain("manifest_binding")
  {
  }

  lemma IntIsReadable(n: int)
    ensures Readable(Int(n))
  {
    IntegerReadsBack(n);
  }

  lemma MembersAreReadable(r: Row)
    requires PlainRow(r)
    ensures AllReadable(Members(r))
  {
    FirstNamesArePlain();
    MiddleNamesArePlain();
    LastNamesArePlain();
    IntIsReadable(r.protocolVersion);
    IntIsReadable(r.suiteId);
    IntIsReadable(r.revision);
    IntIsReadable(r.ciphertextLength);
    hide Plain, AsInteger, PrintInteger;
  }

  lemma {:induction false} SpacesAreSkipped(s: string, n: nat)
    requires n <= |s| && forall i :: 0 <= i < n ==> IsSpace(s[i])
    ensures SkipSpace(s) == SkipSpace(s[n..])
  {
    if n > 0 {
      SpacesAreSkipped(s[1..], n - 1);
      assert s[1..][n - 1..] == s[n..];
    }
  }

  lemma RowText(r: Row, rest: string)
    ensures var s := "\n" + PrintRow(r) + rest;
            |s| > 3 && s[3..] == "{" + (PrintMembers(Members(r)) + "}" + rest)
            && forall i :: 0 <= i < 3 ==> IsSpace(s[i])
  {
    var p := PrintMembers(Members(r));
    hide PrintMembers, Members;
    assert "\n" + "  {" == "\n  {" && "\n  {"[3..] == "{";
    assert "\n" + ("  {" + p + "}") + rest == "\n  {" + (p + "}" + rest);
  }

  // What follows an opening brace is parsed as members, when it starts with a quote.
  lemma ObjectIsMembers(body: string)
    requires body != [] && body[0] == '"'
    ensures ParseValue("{" + body)
         == var r := ParseMembers(body); if r.None? then None else Some((Object(r.value.0), r.value.1))
  {
    assert SkipSpace("{" + body) == "{" + body && ("{" + body)[1..] == body && SkipSpace(body) == body;
    hide ParseMembers, ParseItems;
  }

  lemma SpaceBeforeValue(s: string, n: nat)
    requires n <= |s| && forall i :: 0 <= i < n ==> IsSpace(s[i])
    ensures ParseValue(s) == ParseValue(s[n..])
  {
    SpacesAreSkipped(s, n);
    hide ParseHere;
  }

  // A printed row reads back as its object, after a line break too.
  lemma RowIsRead(r: Row, rest: string)
    requires PlainRow(r)
    ensures ParseValue("\n" + PrintRow(r) + rest) == Some((Object(Members(r)), rest))
  {
    MembersAreReadable(r);
    var ms := Members(r);
    MembersAreRead(ms, rest);
    RowText(r, rest);
    FirstIsQuote(ms, "}", rest);
    hide Plain, AllReadable, ParseMembers, Members, PrintMembers, ParseValue, PlainRow, PrintRow;
    SpaceBeforeValue("\n" + PrintRow(r) + rest, 3);
    ObjectIsMembers(PrintMembers(ms) + "}" + rest);
  }

  lemma FirstIsQuote(ms: seq<(string, Json)>, brace: string, rest: string)
    requires ms != []
    ensures var s := PrintMembers(ms) + brace + rest; s != [] && s[0] == '"'
  {
  }

  function Objects(rows: seq<Row>): (items: seq<Json>)
    ensures |items| == |rows|
  {
    if rows == [] then [] else [Object(Members(rows[0]))] + Objects(rows[1..])
  }

  lemma RowsUnfold(rows: seq<Row>, rest: string)
    requires |rows| > 1
    ensures "\n" + PrintRows(rows) + rest == "\n" + PrintRow(rows[0]) + (",\n" + PrintRows(rows[1..]) + rest)
    ensures (",\n" + PrintRows(rows[1..]) + rest)[1..] == "\n" + PrintRows(rows[1..]) + rest
  {
    var (r, p) := (PrintRow(rows[0]), PrintRows(rows[1..]));
    assert PrintRows(rows) == r + ",\n" + p;
    hide PrintRow, PrintRows;
    Regroup2("\n", r, ",\n", p, rest);
    DropFirst2(",\n", "\n", p, rest);
  }

  lemma Regroup2(a: string, b: string, c: string, d: string, e: string)
    ensures a + (b + c + d) + e == a + b + (c + d + e)
  {
  }

  lemma DropFirst2(a: string, b: string, c: string, d: string)
    requires a != [] && a[1..] == b
    ensures (a + c + d)[1..] == b + c + d
  {
  }

  lemma {:induction false} RowsAreRead(rows: seq<Row>)
    requires rows != [] && forall r <- rows :: PlainRow(r)
    ensures ParseItems("\n" + PrintRows(rows) + "\n]\n") == Some((Objects(rows), "\n"))
    decreases |rows|
  {
    hide PlainRow, PrintRow, ParseValue, Members;
    if |rows| == 1 {
      var after := "\n]\n";
      RowIsRead(rows[0], after);
      assert SkipSpace(after) == "]\n" && rows[1..] == [] && Objects(rows) == [Object(Members(rows[0]))];
    } else {
      var after := ",\n" + PrintRows(rows[1..]) + "\n]\n";
      RowsUnfold(rows, "\n]\n");
      RowIsRead(rows[0], after);
      RowsAreRead(rows[1..]);
      hide PrintRows;
      assert SkipSpace(after) == after;
    }
  }

  lemma ArrayIsItems(s: string)
    requires SkipSpace(s) != [] && SkipSpace(s)[0] != ']'
    ensures ParseValue("[" + s) == var r := ParseItems(s); if r.None? then None else Some((Array(r.value.0), r.value.1))
  {
    assert SkipSpace("[" + s) == "[" + s && ("[" + s)[1..] == s;
    hide ParseMembers, ParseItems;
  }

  lemma NoItems()
    ensures ParseValue("[\n\n]\n") == Some((Array([]), "\n")) && SkipSpace("\n") == ""
  {
    var s := "[\n\n]\n";
    SpacesAreSkipped(s[1..], 2);
    assert s[1..][2..] == "]\n" && SkipSpace("]\n") == "]\n" && "]\n"[1..] == "\n";
    hide ParseMembers, ParseItems;
  }

  lemma SnapshotText(rows: seq<Row>)
    ensures PrintSnapshot(rows) == "[" + ("\n" + PrintRows(rows) + "\n]\n")
    ensures rows == [] ==> PrintSnapshot(rows) == "[\n\n]\n"
  {
    var p := PrintRows(rows);
    assert "[" + "\n" == "[\n" && (rows == [] ==> p == "");
    hide PrintRows;
    Regroup3("[", "\n", p, "\n]\n");
    if rows == [] { assert "[\n" + "" == "[\n" && "[\n" + "\n]\n" == "[\n\n]\n"; }
  }

  lemma Regroup3(a: string, b: string, c: string, d: string)
    ensures a + b + c + d == a + (b + c + d)
  {
  }

  // The printed text is JSON for exactly those rows.
  lemma SnapshotParses(rows: seq<Row>)
    requires forall r <- rows :: PlainRow(r)
    ensures Parse(PrintSnapshot(rows)) == Some(Array(Objects(rows)))
  {
    NoItems();
    var inner := "\n" + PrintRows(rows) + "\n]\n";
    SnapshotText(rows);
    hide PlainRow, PrintRow, Members, ParseValue, ParseItems, PrintSnapshot;
    if rows != [] {
      RowsAreRead(rows);
      StartsWithBrace(rows, inner);
      hide PrintRows;
      SpacesAreSkipped(inner, 3);
      ArrayIsItems(inner);
    }
  }

  lemma StartsWithBrace(rows: seq<Row>, inner: string)
    requires rows != [] && inner == "\n" + PrintRows(rows) + "\n]\n"
    ensures |inner| > 3 && inner[3] == '{' && IsSpace(inner[0]) && IsSpace(inner[1]) && IsSpace(inner[2])
  {
    hide PrintMembers, Members;
  }

  /* ---------- reading rows ---------- */

  datatype ImportError = NotJson | MissingRecordId | MissingRevision | MissingCiphertext

  // A conversion to 32 bits keeps the low bits.
  function Wrap32(n: int): int {
    (n + 0x8000_0000) % 0x1_0000_0000 - 0x8000_0000
  }

  function Text(v: Json, name: string): Option<string> {
    var f := Field(v, name);
    if f.Some? then AsString(f.value) else None
  }

  function Integer(v: Json, name: string): Option<int> {
    var f := Field(v, name);
    if f.Some? then AsI64(f.value) else None
  }

  function Flag(v: Json, name: string): Option<bool> {
    var f := Field(v, name);
    if f.Some? then AsBool(f.value) else None
  }

  // A row from a JSON value: three fields are demanded, the others have defaults.
  function ReadRow(v: Json): Result<Row, ImportError> {
    var (recordId, revision, ciphertext) := (Text(v, "record_id"), Integer(v, "revision"), Text(v, "ciphertext"));
    if recordId.None? then Err(MissingRecordId)
    else if revision.None? then Err(MissingRevision)
    else if ciphertext.None? then Err(MissingCiphertext)
    else
      Ok(Row(
        Wrap32(Integer(v, "protocol_version").GetOr(1)), Wrap32(Integer(v, "suite_id").GetOr(1)),
        Text(v, "deployment_id").GetOr(""), Text(v, "vault_id").GetOr(""), recordId.value,
        revision.value, ciphertext.value, Text(v, "ciphertext_hash").GetOr(""),
        Integer(v, "ciphertext_length").GetOr(Utf8Length(ciphertext.value)),
        Flag(v, "tombstone").GetOr(false),
        Text(v, "template_envelope_hash").GetOr(""), Text(v, "manifest_binding").GetOr("")))
  }

  function ReadRows(items: seq<Json>): Result<seq<Row>, ImportError> {
    if items == [] then Ok([])
    else
      var (before, last) := (ReadRows(items[..|items| - 1]), ReadRow(items[|items| - 1]));
      if before.Err? then before
      else if last.Err? then Err(last.error)
      else Ok(before.value + [last.value])
  }

  function ReadSnapshot(text: string): Result<seq<Row>, ImportError> {
    var v := Parse(text);
    if v.None? || !v.value.Array? then Err(NotJson) else ReadRows(v.value.items)
  }

  // The integers fit the columns they come from.
  predicate InRange(r: Row) {
    -0x8000_0000 <= r.protocolVersion < 0x8000_0000 && -0x8000_0000 <= r.suiteId < 0x8000_0000
    && I64_MIN <= r.revision <= I64_MAX && I64_MIN <= r.ciphertextLength <= I64_MAX
  }

  // Tells the twelve names apart by length and first letter.
  function Rank(name: string): int {
    if |name| == 16 && name[0] == 'p' then 0
    else if |name| == 8 && name[0] == 's' then 1
    else if |name| == 13 then 2
    else if |name| == 8 && name[0] == 'v' then 3
    else if |name| == 9 && name[0] == 'r' then 4
    else if |name| == 8 && name[0] == 'r' then 5
    else if |name| == 10 then 6
    else if |name| == 15 then 7
    else if |name| == 17 then 8
    else if |name| == 9 then 9
    else if |name| == 22 then 10
    else 11
  }

  lemma RanksInOrder(r: Row)
    ensures forall i :: 0 <= i < 12 ==> Rank(Members(r)[i].0) == i
  {
  }

  lemma MemberFound(r: Row, i: nat)
    requires i < 12
    ensures Get(Members(r), Members(r)[i].0) == Some(Members(r)[i].1)
  {
    RanksInOrder(r);
    var ms := Members(r);
    hide Members, Rank;
    forall j | i < j < |ms| ensures ms[j].0 != ms[i].0 {
      assert Rank(ms[j].0) == j && Rank(ms[i].0) == i;
    }
    GetMember(ms, i);
  }

  lemma TextAt(r: Row, i: nat, s: string)
    requires i < 12 && Members(r)[i].1 == Str(s)
    ensures Text(Object(Members(r)), Members(r)[i].0) == Some(s)
  {
    MemberFound(r, i);
    hide Get, Members;
  }

  lemma IntegerAt(r: Row, i: nat, n: int)
    requires i < 12 && Members(r)[i].1 == Int(n) && I64_MIN <= n <= I64_MAX
    ensures Integer(Object(Members(r)), Members(r)[i].0) == Some(n)
  {
    MemberFound(r, i);
    IntegerReadsBack(n);
    hide Get, Members, AsInteger, PrintInteger;
  }

  lemma FlagAt(r: Row)
    ensures Flag(Object(Members(r)), "tombstone") == Some(r.tombstone)
  {
    MemberFound(r, 9);
    hide Get;
  }

  lemma TextsRead(r: Row)
    ensures var v := Object(Members(r));
            Text(v, "deployment_id") == Some(r.deploymentId) && Text(v, "vault_id") == Some(r.vaultId)
            && Text(v, "record_id") == Some(r.recordId) && Text(v, "ciphertext") == Some(r.ciphertext)
            && Text(v, "ciphertext_hash") == Some(r.ciphertextHash)
            && Text(v, "template_envelope_hash") == Some(r.templateEnvelopeHash)
            && Text(v, "manifest_binding") == Some(r.manifestBinding)
  {
    hide Text;
    TextAt(r, 2, r.deploymentId);
    TextAt(r, 3, r.vaultId);
    TextAt(r, 4, r.recordId);
    TextAt(r, 6, r.ciphertext);
    TextAt(r, 7, r.ciphertextHash);
    TextAt(r, 10, r.templateEnvelopeHash);
    TextAt(r, 11, r.manifestBinding);
  }

  lemma IntegersRead(r: Row)
    requires InRange(r)
    ensures var v := Object(Members(r));
            Integer(v, "protocol_version") == Some(r.protocolVersion) && Integer(v, "suite_id") == Some(r.suiteId)
            && Integer(v, "revision") == Some(r.revision) && Integer(v, "ciphertext_length") == Some(r.ciphertextLength)
  {
    hide Integer;
    IntegerAt(r, 0, r.protocolVersion);
    IntegerAt(r, 1, r.suiteId);
    LongIntegersRead(r);
  }

  lemma LongIntegersRead(r: Row)
    requires InRange(r)
    ensures var v := Object(Members(r));
            Integer(v, "revision") == Some(r.revision) && Integer(v, "ciphertext_length") == Some(r.ciphertextLength)
  {
    hide Integer;
    IntegerAt(r, 5, r.revision);
    IntegerAt(r, 8, r.ciphertextLength);
  }

  lemma RowReadsBack(r: Row)
    requires InRange(r)
    ensures ReadRow(Object(Members(r))) == Ok(r)
  {
    TextsRead(r);
    IntegersRead(r);
    FlagAt(r);
    hide Text, Integer, Flag, Members, Utf8Length;
  }

  lemma {:induction false} ObjectsAt(rows: seq<Row>, i: nat)
    requires i < |rows|
    ensures Objects(rows)[i] == Object(Members(rows[i]))
  {
    hide Members;
    if i > 0 { ObjectsAt(rows[1..], i - 1); }
  }

  lemma {:induction false} RowsReadBack(items: seq<Json>, rows: seq<Row>)
    requires |items| == |rows| && forall i :: 0 <= i < |items| ==> ReadRow(items[i]) == Ok(rows[i])
    ensures ReadRows(items) == Ok(rows)
  {
    hide ReadRow;
    if items != [] {
      RowsReadBack(items[..|items| - 1], rows[..|rows| - 1]);
      assert rows == rows[..|rows| - 1] + [rows[|rows| - 1]];
    }
  }

  // What the backup prints is what the restore reads, for every list of rows whose text fields
  // hold no quote, backslash or control character.
  lemma SnapshotReadsBack(rows: seq<Row>)
    requires forall r <- rows :: PlainRow(r) && InRange(r)
    ensures ReadSnapshot(PrintSnapshot(rows)) == Ok(rows)
  {
    SnapshotParses(rows);
    var items := Objects(rows);
    forall i | 0 <= i < |items| ensures ReadRow(items[i]) == Ok(rows[i]) {
      ObjectsAt(rows, i);
      assert rows[i] in rows;
      RowReadsBack(rows[i]);
    }
    RowsReadBack(items, rows);
    hide PrintSnapshot, Parse, ReadRows, ReadRow;
  }

  /* ---------- the table ---------- */

  // INSERT ... ON CONFLICT DO NOTHING.
  function Insert(table: Table, r: Row): Table {
    if Key(r) in table then table else table[Key(r) := r]
  }

  function InsertAll(table: Table, rows: seq<Row>): Table {
    if rows == [] then table else Insert(InsertAll(table, rows[..|rows| - 1]), rows[|rows| - 1])
  }

  class Database {
    var records: Table

    constructor (records: Table)
      ensures this.records == records
    {
      this.records := records;
    }

    // One transaction: every row is tried, or an error leaves the table as it was.
    method ImportSnapshot(text: string) returns (outcome: Result<nat, ImportError>)
      modifies this
      ensures match ReadSnapshot(text)
              case Err(e) => outcome == Err(e) && records == old(records)
              case Ok(rows) => outcome == Ok(|rows|) && records == InsertAll(old(records), rows)
    {
      hide ReadRow, Insert, Parse;
      var parsed := Parse(text);
      if parsed.None? || !parsed.value.Array? { return Err(NotJson); }
      var items := parsed.value.items;
      var transaction := records;
      ghost var rows: seq<Row> := [];
      for i := 0 to |items|
        invariant ReadRows(items[..i]) == Ok(rows) && |rows| == i
        invariant transaction == InsertAll(records, rows)
      {
        var row := ReadRow(items[i]);
        assert items[..i + 1][..i] == items[..i];
        if row.Err? {
          FirstErrorStays(items, i + 1);
          return Err(row.error);
        }
        assert (rows + [row.value])[..i] == rows;
        rows := rows + [row.value];
        transaction := Insert(transaction, row.value);
      }
      assert items[..|items|] == items;
      records := transaction;
      outcome := Ok(|items|);
    }
  }

  lemma {:induction false} FirstErrorStays(items: seq<Json>, n: nat)
    requires n <= |items| && ReadRows(items[..n]).Err?
    ensures ReadRows(items) == ReadRows(items[..n])
  {
    hide ReadRow;
    if n == |items| {
      assert items[..n] == items;
    } else {
      var before := items[..|items| - 1];
      assert before[..n] == items[..n];
      FirstErrorStays(before, n);
    }
  }

  lemma {:induction false} ImportKeeps(table: Table, rows: seq<Row>, k: (string, string))
    ensures var after := InsertAll(table, rows);
            (k in table ==> k in after && after[k] == table[k])
            && (k in after ==> k in table || exists r :: r in rows && Key(r) == k)
    decreases |rows|
  {
    if rows != [] {
      ImportKeeps(table, rows[..|rows| - 1], k);
      if Key(rows[|rows| - 1]) == k { assert rows[|rows| - 1] in rows; }
    }
  }

  lemma {:induction false} ImportTakesFirst(table: Table, rows: seq<Row>, i: nat)
    requires i < |rows| && Key(rows[i]) !in table && IsFirst(rows, i, Key(rows[i]))
    ensures var after := InsertAll(table, rows); Key(rows[i]) in after && after[Key(rows[i])] == rows[i]
    decreases |rows|
  {
    var before := rows[..|rows| - 1];
    if i < |rows| - 1 {
      ImportTakesFirst(table, before, i);
    } else {
      ImportKeeps(table, before, Key(rows[i]));
      assert forall r :: r in before ==> Key(r) != Key(rows[i]);
    }
  }

  lemma {:induction false} FirstExists(rows: seq<Row>, k: (string, string)) returns (i: nat)
    requires exists r :: r in rows && Key(r) == k
    ensures IsFirst(rows, i, k)
    decreases |rows|
  {
    var before := rows[..|rows| - 1];
    if exists r :: r in before && Key(r) == k {
      i := FirstExists(before, k);
    } else {
      i := |rows| - 1;
      assert forall j :: 0 <= j < |before| ==> before[j] in before;
    }
  }

  // Import never alters an existing row, and adds exactly the first row of each new key.
  lemma ImportOnlyAdds(table: Table, rows: seq<Row>, k: (string, string))
    ensures var after := InsertAll(table, rows);
            (k in after <==> k in table || exists r :: r in rows && Key(r) == k)
            && (k in table ==> after[k] == table[k])
            && (k in after && k !in table ==> exists i: nat :: IsFirst(rows, i, k) && after[k] == rows[i])
  {
    ImportKeeps(table, rows, k);
    if k !in table && exists r :: r in rows && Key(r) == k {
      var i := FirstExists(rows, k);
      ImportTakesFirst(table, rows, i);
    }
  }

  predicate IsFirst(rows: seq<Row>, i: nat, k: (string, string)) {
    i < |rows| && Key(rows[i]) == k && forall j :: 0 <= j < i ==> Key(rows[j]) != k
  }

  lemma {:induction false} NothingToInsert(table: Table, rows: seq<Row>)
    requires forall r <- rows :: Key(r) in table
    ensures InsertAll(table, rows) == table
    decreases |rows|
  {
    if rows != [] { NothingToInsert(table, rows[..|rows| - 1]); }
  }

  // A second import changes nothing.
  lemma ImportIsIdempotent(table: Table, rows: seq<Row>)
    ensures InsertAll(InsertAll(table, rows), rows) == InsertAll(table, rows)
  {
    forall r | r in rows ensures Key(r) in InsertAll(table, rows) {
      ImportOnlyAdds(table, rows, Key(r));
    }
    NothingToInsert(InsertAll(table, rows), rows);
  }

  // The rows of a table, each once, in some order.
  ghost predicate Lists(rows: seq<Row>, table: Table) {
    && (forall k :: k in table ==> Key(table[k]) == k && table[k] in rows)
    && (forall r :: r in rows ==> Key(r) in table && table[Key(r)] == r)
  }

  lemma ImportRecreates(table: Table, rows: seq<Row>)
    requires Lists(rows, table)
    ensures InsertAll(map[], rows) == table
  {
    var after := InsertAll(map[], rows);
    forall k ensures (k in after <==> k in table) && (k in table ==> after[k] == table[k]) {
      ImportOnlyAdds(map[], rows, k);
      if k in table { assert table[k] in rows; }
      if k in after {
        var i: nat :| IsFirst(rows, i, k) && after[k] == rows[i];
        assert rows[i] in rows;
      }
    }
  }

  // A backup restored into an empty table recreates it; restored a second time, or over the table
  // it was taken from, it changes nothing.
  lemma BackupRestores(table: Table, rows: seq<Row>)
    requires Lists(rows, table) && forall r <- rows :: PlainRow(r) && InRange(r)
    ensures var read := ReadSnapshot(PrintSnapshot(rows));
            read.Ok? && InsertAll(map[], read.value) == table && InsertAll(table, read.value) == table
  {
    SnapshotReadsBack(rows);
    ImportRecreates(table, rows);
    NothingToInsert(table, rows);
  }

  /* ---------- a quote in a text field ---------- */

  // Neither a comma nor a brace follows, so no member can end here.
  predicate Blocked(rest: string) {
    rest == [] || (rest[0] != ',' && rest[0] != '}')
  }

  lemma {:induction false} BlockedMembers(ms: seq<(string, Json)>, k: nat, rest: string)
    requires k < |ms| && AllReadable(ms[..k])
    requires forall after :: AfterMember(after) ==>
               var m := ParseMember(PrintMember(ms[k]) + after); m.None? || Blocked(m.value.1)
    ensures ParseMembers(PrintMembers(ms) + "}" + rest) == None
    ensures ParseMembers(" " + PrintMembers(ms) + "}" + rest) == None
    decreases k
  {
    hide Plain, Readable, ParseMember, PrintMember;
    var s := PrintMembers(ms) + "}" + rest;
    MemberAfterSpace(s);
    assert " " + s == " " + PrintMembers(ms) + "}" + rest;
    var after := if |ms| == 1 then "}" + rest else ", " + PrintMembers(ms[1..]) + "}" + rest;
    if |ms| == 1 {
      assert s == PrintMember(ms[0]) + after;
    } else {
      MembersUnfold(ms, rest);
    }
    if k > 0 {
      assert ms[..k][0] == ms[0] && ms[1..][..k - 1] == ms[..k][1..];
      MemberIsRead(ms[0], after);
      BlockedMembers(ms[1..], k - 1, rest);
      hide PrintMembers;
    }
  }

  lemma {:induction false} SpaceBeforeQuote(u: string, after: string)
    ensures SkipSpace(u + "\"" + after) == SkipSpace(u) + "\"" + after
  {
    var s := u + "\"" + after;
    if u == "" {
      assert s[0] == '"' && s == "\"" + after;
    } else {
      assert s[0] == u[0] && s[1..] == u[1..] + "\"" + after;
      SpaceBeforeQuote(u[1..], after);
    }
  }

  // Read as a string, such a value stops at the inner quote.
  lemma InnerQuoteStops(name: string, t: string, u: string, after: string)
    requires Plain(name) && Plain(t) && AfterMember(after) && Blocked(SkipSpace(u))
    ensures var m := ParseMember(PrintMember((name, Str(t + "\"" + u))) + after);
            m.Some? && Blocked(m.value.1)
  {
    var value := "\"" + t + "\"" + (u + "\"" + after);
    var s := PrintMember((name, Str(t + "\"" + u))) + after;
    InnerQuoteText(name, t, u, after);
    PlainIsRead(name, ":" + value);
    StringIsRead(t, u + "\"" + after);
    SpaceBeforeQuote(u, after);
    var rest := SkipSpace(u) + "\"" + after;
    assert (":" + value)[1..] == value && rest[0] == (if SkipSpace(u) == "" then '"' else SkipSpace(u)[0]);
    hide ParseValue, ParseChars, Plain, PrintMember;
    assert SkipSpace(s) == s && SkipSpace(":" + value) == ":" + value;
  }

  lemma InnerQuoteText(name: string, t: string, u: string, after: string)
    ensures var value := "\"" + t + "\"" + (u + "\"" + after);
            var s := PrintMember((name, Str(t + "\"" + u))) + after;
            s[0] == '"' && s[1..] == name + "\"" + (":" + value)
  {
    var v := "\"" + (t + "\"" + u) + "\"";
    assert v + after == "\"" + t + "\"" + (u + "\"" + after);
    assert "\":" == "\"" + ":";
    assert ("\"" + name + "\":" + v + after)[1..] == name + "\":" + (v + after);
  }

  // The text fields before field j are plain.
  predicate PlainBefore(r: Row, j: nat) {
    j < 12 && forall k :: 0 <= k < j && Members(r)[k].1.Str? ==> Plain(Members(r)[k].1.s)
  }

  lemma MembersBefore(r: Row, j: nat)
    requires PlainBefore(r, j)
    ensures AllReadable(Members(r)[..j]) && Plain(Members(r)[j].0)
  {
    FirstNamesArePlain();
    MiddleNamesArePlain();
    LastNamesArePlain();
    IntIsReadable(r.protocolVersion);
    IntIsReadable(r.suiteId);
    IntIsReadable(r.revision);
    IntIsReadable(r.ciphertextLength);
    hide Plain, AsInteger, PrintInteger;
  }

  lemma BrokenRow(r: Row, j: nat, t: string, u: string, rest: string)
    requires PlainBefore(r, j) && Members(r)[j].1 == Str(t + "\"" + u) && Plain(t) && Blocked(SkipSpace(u))
    ensures ParseValue("\n" + PrintRow(r) + rest) == None
  {
    var ms := Members(r);
    MembersBefore(r, j);
    hide Plain, AllReadable, ParseMember, ParseMembers, Members, PrintMembers, ParseValue, PrintRow, Blocked;
    forall after | AfterMember(after)
      ensures var m := ParseMember(PrintMember(ms[j]) + after); m.None? || Blocked(m.value.1)
    {
      InnerQuoteStops(ms[j].0, t, u, after);
    }
    RowText(r, rest);
    BlockedMembers(ms, j, rest);
    FirstIsQuote(ms, "}", rest);
    SpaceBeforeValue("\n" + PrintRow(r) + rest, 3);
    ObjectIsMembers(PrintMembers(ms) + "}" + rest);
  }

  lemma {:induction false} BrokenRows(rows: seq<Row>, i: nat, j: nat, t: string, u: string)
    requires i < |rows| && (forall k :: 0 <= k < i ==> PlainRow(rows[k])) && PlainBefore(rows[i], j)
    requires Members(rows[i])[j].1 == Str(t + "\"" + u) && Plain(t) && Blocked(SkipSpace(u))
    ensures ParseItems("\n" + PrintRows(rows) + "\n]\n") == None
    decreases i
  {
    hide *;
    FirstRowText(rows);
    if i == 0 {
      BrokenRow(rows[0], j, t, u, AfterFirst(rows));
      NoItemNoItems(rows);
    } else {
      RowIsRead(rows[0], AfterFirst(rows));
      BrokenRows(rows[1..], i - 1, j, t, u);
      NoMoreItems(rows);
    }
  }

  // What is printed after the first row.
  function AfterFirst(rows: seq<Row>): string
    requires rows != []
  {
    if |rows| == 1 then "\n]\n" else ",\n" + PrintRows(rows[1..]) + "\n]\n"
  }

  lemma FirstRowText(rows: seq<Row>)
    requires rows != []
    ensures "\n" + PrintRows(rows) + "\n]\n" == "\n" + PrintRow(rows[0]) + AfterFirst(rows)
  {
    if |rows| > 1 { RowsUnfold(rows, "\n]\n"); }
    hide PrintRow;
  }

  lemma NoItemNoItems(rows: seq<Row>)
    requires rows != [] && ParseValue("\n" + PrintRow(rows[0]) + AfterFirst(rows)) == None
    ensures ParseItems("\n" + PrintRow(rows[0]) + AfterFirst(rows)) == None
  {
    hide ParseValue, PrintRow, AfterFirst;
  }

  lemma NoMoreItems(rows: seq<Row>)
    requires |rows| > 1 && ParseItems("\n" + PrintRows(rows[1..]) + "\n]\n") == None
    requires ParseValue("\n" + PrintRow(rows[0]) + AfterFirst(rows))
          == Some((Object(Members(rows[0])), AfterFirst(rows)))
    ensures ParseItems("\n" + PrintRow(rows[0]) + AfterFirst(rows)) == None
  {
    RowsUnfold(rows, "\n]\n");
    var after := AfterFirst(rows);
    assert after[0] == ',' && after[1..] == "\n" + PrintRows(rows[1..]) + "\n]\n";
    hide ParseValue, PrintRow, PrintRows, AfterFirst, Members;
    assert SkipSpace(after) == after;
  }

  // Where the first thing in all the text fields that is not plain is a quote, and white space aside
  // neither a comma nor a closing brace follows it, the whole backup is not JSON. Such identifiers
  // pass the restore program's own check, which asks for printable ASCII only.
  lemma QuoteBreaksBackup(rows: seq<Row>, i: nat, j: nat, t: string, u: string)
    requires i < |rows| && (forall k :: 0 <= k < i ==> PlainRow(rows[k])) && PlainBefore(rows[i], j)
    requires Members(rows[i])[j].1 == Str(t + "\"" + u) && Plain(t) && Blocked(SkipSpace(u))
    ensures ReadSnapshot(PrintSnapshot(rows)) == Err(NotJson)
  {
    hide *;
    var inner := "\n" + PrintRows(rows) + "\n]\n";
    BrokenRows(rows, i, j, t, u);
    SnapshotText(rows);
    StartsWithBrace(rows, inner);
    SpacesAreSkipped(inner, 3);
    NotJsonInside(inner);
  }

  lemma NotJsonInside(inner: string)
    requires |inner| > 3 && inner[3] == '{' && SkipSpace(inner) == SkipSpace(inner[3..]) && ParseItems(inner) == None
    ensures ReadSnapshot("[" + inner) == Err(NotJson)
  {
    assert inner[3..][0] == '{' && SkipSpace(inner[3..]) == inner[3..];
    ArrayIsItems(inner);
    hide ParseValue, ReadRows, ParseItems;
  }
}
