/**
 * Exactly which tables survive a backup. The strings of the printed text are found by their quotes:
 * no string reaches past the field it begins in, and one that needs an escape is longer in the text
 * than what it stands for, so a field that is not plain can only be read back out of a longer one.
 */
module BackupExactness {
  import opened Bytes
  import Decimal
  import opened Json
  import opened JsonStrings
  import opened BackupRestore

  /* ---------- one printed string ---------- */

  // Not plain, and longer.
  predicate Wider(t: string, x: string) {
    !Plain(t) && |t| > |x|
  }

  lemma CodeUnitStays(v: string, after: string)
    requires CodeUnit(v + "\"" + after).Some?
    ensures CodeUnit(v + "\"" + after).value.1 <= |v| + 1
  {
    var s := v + "\"" + after;
    var n := CodeUnit(s).value.1;
    assert s[|v|] == '"' && HexDigit('"') == None;
    assert |v| >= 6 ==> s[6..][|v| - 6] == '"';
  }

  // No escape reaches over the closing quote, except the one of that quote itself.
  lemma EscapeStays(v: string, after: string)
    requires Escape(v + "\"" + after).Some?
    ensures var n := Escape(v + "\"" + after).value.1; n <= |v| || (v == "" && n == 1)
  {
    var s := v + "\"" + after;
    if v != "" {
      assert s[0] == v[0];
      if v[0] == 'u' {
        assert s[1..] == v[1..] + "\"" + after;
        CodeUnitStays(v[1..], after);
        hide CodeUnit;
      }
    }
  }

  lemma Suffix(u: string, after: string, n: nat)
    requires n <= |u|
    ensures (u + "\"" + after)[n..] == u[n..] + "\"" + after
  {
  }

  lemma AfterQuote(u: string, after: string)
    ensures (u + "\"" + after)[|u| + 1..] == after
  {
  }

  // A string goes on after its first character or escape.
  lemma StringGoesOn(s: string, n: nat)
    requires s != "" && s[0] != '"'
    requires if s[0] == '\\' then Escape(s[1..]).Some? && n == 1 + Escape(s[1..]).value.1 else n == 1
    ensures StringHere(s).Some? ==> StringHere(s[n..]).Some? && StringHere(s).value.1 == StringHere(s[n..]).value.1
  {
    hide Escape;
  }

  // A string that begins within u ends within u or at the quote after it, when no string can begin
  // after that quote.
  lemma {:induction false} StringStays(u: string, after: string) returns (k: nat)
    requires StringHere(after).None? && StringHere(u + "\"" + after).Some?
    ensures k <= |u| && StringHere(u + "\"" + after).value.1 == (if k == |u| then after else u[k + 1..] + "\"" + after)
    decreases |u|
  {
    var s := u + "\"" + after;
    if u == "" || u[0] == '"' {
      StringEnds(u, after);
      k := 0;
    } else {
      var n := FirstStays(u, after);
      StringGoesOn(s, n);
      Suffix(u, after, n);
      hide *;
      var j := StringStays(u[n..], after);
      k := j + n;
      if k < |u| { assert u[n..][j + 1..] == u[k + 1..]; }
    }
  }

  lemma StringEnds(u: string, after: string)
    requires (u == "" || u[0] == '"') && StringHere(u + "\"" + after).Some?
    ensures StringHere(u + "\"" + after).value.1 == (if u == "" then after else u[1..] + "\"" + after)
  {
    var s := u + "\"" + after;
    assert s[1..] == if u == "" then after else u[1..] + "\"" + after;
    hide Escape;
  }

  // The first character or escape lies within u.
  lemma FirstStays(u: string, after: string) returns (n: nat)
    requires u != "" && u[0] != '"' && StringHere(after).None? && StringHere(u + "\"" + after).Some?
    ensures 0 < n <= |u|
    ensures var s := u + "\"" + after;
            if s[0] == '\\' then Escape(s[1..]).Some? && n == 1 + Escape(s[1..]).value.1 else n == 1
  {
    var s := u + "\"" + after;
    n := 1;
    if u[0] == '\\' {
      Suffix(u, after, 1);
      EscapeStays(u[1..], after);
      n := 1 + Escape(s[1..]).value.1;
      AfterQuote(u, after);
      hide Escape;
    }
  }

  // What a string within u stands for is plain, or u is not plain and longer.
  predicate Within(x: string, u: string) {
    Plain(x) || Wider(u, x)
  }

  predicate AllWithin(xs: seq<string>, u: string) {
    forall x :: x in xs ==> Within(x, u)
  }

  lemma StringIsWithin(u: string, after: string)
    requires StringHere(after).None? && StringHere(u + "\"" + after).Some?
    ensures Within(StringHere(u + "\"" + after).value.0, u)
  {
    var s := u + "\"" + after;
    var (x, rest) := ParseChars(s).value;
    var k := StringStays(u, after);
    assert |rest| >= |after|;
    if !Plain(x) {
      if |x| + 1 + |rest| == |s| { UnshortenedIsPlain(s); }
      if Plain(u) { PlainIsRead(u, after); }
    }
  }

  lemma {:induction false} PlainPart(u: string, k: nat)
    requires k <= |u| && Plain(u)
    ensures Plain(u[k..])
  {
    assert forall c :: c in u[k..] ==> c in u;
  }

  // The strings from u to the quote after it all lie within u, when no string can begin there.
  lemma {:induction false} StringsStay(u: string, after: string) returns (xs: seq<string>)
    requires StringHere(after).None? && StringsIn(u + "\"" + after).Some?
    ensures StringsIn(after).Some? && StringsIn(u + "\"" + after).value == xs + StringsIn(after).value
    ensures AllWithin(xs, u)
    decreases |u|
  {
    var s := u + "\"" + after;
    assert ("\"" + after)[1..] == after;
    xs := [];
    if u != "" {
      assert s[0] == u[0] && s[1..] == u[1..] + "\"" + after;
      if u[0] != '"' {
        xs := StringsStay(u[1..], after);
        PartWithin(xs, u, 1);
      } else {
        var x := StringHere(s[1..]).value.0;
        var k := StringStays(u[1..], after);
        StringIsWithin(u[1..], after);
        if k < |u| - 1 {
          assert u[1..][k + 1..] == u[k + 2..];
          var more := StringsStay(u[k + 2..], after);
          PartWithin(more, u, k + 2);
          xs := [x] + more;
        } else {
          xs := [x];
        }
        PartWithin([x], u, 1);
      }
    }
  }

  lemma PartWithin(xs: seq<string>, u: string, k: nat)
    requires k <= |u| && AllWithin(xs, u[k..])
    ensures AllWithin(xs, u)
  {
    if Plain(u) { PlainPart(u, k); }
  }

  /* ---------- one printed row ---------- */

  // A field holding a text that is not plain and longer than x.
  predicate WiderIn(ms: seq<(string, Json)>, x: string) {
    exists i :: 0 <= i < |ms| && ms[i].1.Str? && Wider(ms[i].1.s, x)
  }

  predicate Covered(ms: seq<(string, Json)>, xs: seq<string>) {
    forall x :: x in xs ==> Plain(x) || WiderIn(ms, x)
  }

  // Names as they are printed: plain, and beginning with a letter.
  predicate Named(ms: seq<(string, Json)>) {
    forall i :: 0 <= i < |ms| ==> Plain(ms[i].0) && StartsWithLetter(ms[i].0) && Printable(ms[i].1)
  }

  predicate Printable(v: Json) {
    v.Str? || v.Bool? || (v.Number? && forall i :: 0 <= i < |v.text| ==> v.text[i] != '"')
  }

  lemma NameHere(name: string, rest: string)
    requires Plain(name)
    ensures StringHere(name + "\":" + rest) == Some((name, ":" + rest))
  {
    PlainIsRead(name, ":" + rest);
    assert name + "\":" + rest == name + "\"" + (":" + rest);
    hide ParseChars;
  }

  lemma ScalarStrings(v: Json, after: string) returns (xs: seq<string>)
    requires Printable(v) && StringHere(after).None? && StringsIn(PrintScalar(v) + after).Some?
    ensures StringsIn(after).Some? && StringsIn(PrintScalar(v) + after).value == xs + StringsIn(after).value
    ensures forall x :: x in xs ==> v.Str? && Within(x, v.s)
  {
    var s := PrintScalar(v) + after;
    if v.Str? {
      assert s == "\"" + (v.s + "\"" + after);
      xs := QuotedStrings(v.s, after);
    } else {
      xs := [];
      BoolHasNoQuotes();
      NoQuotesNoStringsBack(s, |PrintScalar(v)|);
      assert s[|PrintScalar(v)|..] == after && [] + StringsIn(after).value == StringsIn(after).value;
    }
  }

  lemma BoolHasNoQuotes()
    ensures forall b, i :: 0 <= i < |PrintBool(b)| ==> PrintBool(b)[i] != '"'
  {
  }

  // Without quotes there is nothing to find.
  lemma {:induction false} NoQuotesNoStringsBack(s: string, n: nat)
    requires n <= |s| && forall i :: 0 <= i < n ==> s[i] != '"'
    ensures StringsIn(s) == StringsIn(s[n..])
    decreases n
  {
    if n == 0 {
      assert s[0..] == s;
    } else {
      NoQuotesNoStringsBack(s[1..], n - 1);
      assert s[1..][n - 1..] == s[n..];
    }
  }

  lemma QuotedStrings(t: string, after: string) returns (xs: seq<string>)
    requires StringHere(after).None? && StringsIn("\"" + (t + "\"" + after)).Some?
    ensures StringsIn(after).Some? && StringsIn("\"" + (t + "\"" + after)).value == xs + StringsIn(after).value
    ensures AllWithin(xs, t)
  {
    var inner := t + "\"" + after;
    assert ("\"" + inner)[0] == '"' && ("\"" + inner)[1..] == inner;
    var x := StringHere(inner).value.0;
    var k := StringStays(t, after);
    StringIsWithin(t, after);
    xs := [x];
    if k < |t| {
      var more := StringsStay(t[k + 1..], after);
      PartWithin(more, t, k + 1);
      xs := [x] + more;
    }
  }

  // The strings of a member: its name, and then what its value holds.
  lemma MemberStrings(m: (string, Json), after: string) returns (xs: seq<string>)
    requires Plain(m.0) && Printable(m.1) && StringHere(after).None? && StringsIn(PrintMember(m) + after).Some?
    ensures StringsIn(after).Some? && StringsIn(PrintMember(m) + after).value == xs + StringsIn(after).value
    ensures Covered([m], xs)
  {
    var value := PrintScalar(m.1) + after;
    var s := PrintMember(m) + after;
    assert s[0] == '"' && s[1..] == m.0 + "\":" + value;
    NameHere(m.0, value);
    assert (":" + value)[1..] == value;
    var inner := ScalarStrings(m.1, after);
    xs := [m.0] + inner;
    assert [m][0] == m;
  }

  lemma CoveredMore(ms: seq<(string, Json)>, all: seq<(string, Json)>, k: nat, xs: seq<string>)
    requires k + |ms| <= |all| && ms == all[k..k + |ms|] && Covered(ms, xs)
    ensures Covered(all, xs)
  {
    forall x | x in xs && !Plain(x) ensures WiderIn(all, x) {
      var i :| 0 <= i < |ms| && ms[i].1.Str? && Wider(ms[i].1.s, x);
      assert all[k + i] == ms[i];
    }
  }

  // No string can begin at the comma between two members, for it would end at the next name.
  lemma NoStringAtComma(ms: seq<(string, Json)>, rest: string)
    requires ms != [] && Named(ms)
    ensures StringHere(", " + PrintMembers(ms) + rest).None?
  {
    var text := PrintMembers(ms);
    NameAfterQuote(ms);
    hide PrintMembers, Named;
    EndsAtQuote(text[1..] + rest);
    assert ", " + text + rest == ", " + "\"" + (text[1..] + rest);
  }

  lemma NameAfterQuote(ms: seq<(string, Json)>)
    requires ms != [] && Named(ms)
    ensures var text := PrintMembers(ms); text != "" && text[0] == '"' && StartsWithLetter(text[1..])
  {
  }

  lemma EndsAtQuote(name: string)
    requires StartsWithLetter(name)
    ensures StringHere(", " + "\"" + name).None?
  {
    PlainIsRead(", ", name);
    hide ParseChars;
  }

  lemma {:induction false} MembersStrings(ms: seq<(string, Json)>, rest: string) returns (xs: seq<string>)
    requires ms != [] && Named(ms) && StringHere("}" + rest).None?
    requires StringsIn(PrintMembers(ms) + "}" + rest).Some?
    ensures StringsIn(rest).Some? && StringsIn(PrintMembers(ms) + "}" + rest).value == xs + StringsIn(rest).value
    ensures Covered(ms, xs)
    decreases |ms|
  {
    var end := "}" + rest;
    assert end[1..] == rest && StringsIn(end) == StringsIn(rest);
    hide StringsIn, StringHere, PrintMember, Plain, Printable;
    if |ms| == 1 {
      OneMemberText(ms, rest);
      xs := MemberStrings(ms[0], end);
      assert ms == [ms[0]];
    } else {
      var (more, text) := (ms[1..], PrintMembers(ms[1..]) + "}" + rest);
      var after := ", " + PrintMembers(more) + "}" + rest;
      MembersUnfold(ms, rest);
      NoStringAtComma(more, end);
      CommaText(PrintMembers(more), rest);
      hide PrintMembers;
      var first := MemberStrings(ms[0], after);
      var others := MembersStrings(more, rest);
      xs := first + others;
      CoveredMore([ms[0]], ms, 0, first);
      CoveredMore(more, ms, 1, others);
      assert first + (others + StringsIn(rest).value) == xs + StringsIn(rest).value;
    }
  }

  lemma OneMemberText(ms: seq<(string, Json)>, rest: string)
    requires |ms| == 1
    ensures PrintMembers(ms) + "}" + rest == PrintMember(ms[0]) + ("}" + rest)
  {
    hide PrintMember;
  }

  lemma CommaText(text: string, rest: string)
    ensures ", " + text + ("}" + rest) == ", " + text + "}" + rest
    ensures StringsIn(", " + text + "}" + rest) == StringsIn(text + "}" + rest)
  {
    var s := ", " + text + "}" + rest;
    NoQuotesNoStringsBack(s, 2);
    assert s[2..] == text + "}" + rest;
  }

  lemma {:induction false} NumeralsHaveNoQuotes(n: int)
    ensures Printable(Int(n))
  {
    var s := PrintInteger(n);
    assert forall i :: 0 <= i < |s| ==> s[i] == '-' || Decimal.IsDigit(s[i]);
  }

  lemma MembersAreNamed(r: Row)
    ensures Named(Members(r))
  {
    FirstNamesArePlain();
    MiddleNamesArePlain();
    LastNamesArePlain();
    NumeralsHaveNoQuotes(r.protocolVersion);
    NumeralsHaveNoQuotes(r.suiteId);
    NumeralsHaveNoQuotes(r.revision);
    NumeralsHaveNoQuotes(r.ciphertextLength);
    hide Plain, PrintInteger;
  }

  lemma RowStrings(r: Row, rest: string) returns (xs: seq<string>)
    requires StringHere("}" + rest).None? && StringsIn("\n" + PrintRow(r) + rest).Some?
    ensures StringsIn(rest).Some? && StringsIn("\n" + PrintRow(r) + rest).value == xs + StringsIn(rest).value
    ensures Covered(Members(r), xs)
  {
    var (s, body) := ("\n" + PrintRow(r) + rest, PrintMembers(Members(r)) + "}" + rest);
    RowText(r, rest);
    assert ("{" + body)[0] == '{' && ("{" + body)[1..] == body;
    NoQuotesNoStringsBack(s, 3);
    MembersAreNamed(r);
    assert Members(r) != [];
    assert StringsIn("{" + body) == StringsIn(body);
    hide StringsIn, StringHere, PrintRow, Members, PrintMembers, Named;
    xs := MembersStrings(Members(r), rest);
  }

  /* ---------- the whole snapshot ---------- */

  // Some row has a field that is not plain and longer than x.
  predicate WiderAmong(rows: seq<Row>, x: string) {
    exists k :: 0 <= k < |rows| && WiderIn(Members(rows[k]), x)
  }

  predicate CoveredByRows(rows: seq<Row>, xs: seq<string>) {
    forall x :: x in xs ==> Plain(x) || WiderAmong(rows, x)
  }

  lemma CoveredByMore(rows: seq<Row>, all: seq<Row>, k: nat, xs: seq<string>)
    requires k + |rows| <= |all| && rows == all[k..k + |rows|] && CoveredByRows(rows, xs)
    ensures CoveredByRows(all, xs)
  {
    hide WiderIn, Members, Plain;
    forall x | x in xs && !Plain(x) ensures WiderAmong(all, x) {
      var i :| 0 <= i < |rows| && WiderIn(Members(rows[i]), x);
      assert all[k + i] == rows[i];
    }
  }

  // A string cannot begin before a line break.
  lemma BreakBlocks(before: string, after: string)
    requires before != "" && PlainChar(before[0]) && (|before| == 1 || (|before| == 2 && PlainChar(before[1])))
    ensures StringHere(before + ("\n" + after)).None?
  {
    var (s, t) := (before + ("\n" + after), "\n" + after);
    assert ParseChars(t) == None && s[0] == before[0];
    if |before| == 1 {
      assert s[1..] == t;
    } else {
      assert s[1..][0] == before[1] && s[1..][1..] == t;
      assert ParseChars(s[1..]) == None;
    }
  }

  lemma BlockedAfterRow(text: string)
    ensures StringHere("}" + "\n]\n").None? && StringHere("}" + (",\n" + text)).None?
  {
    BreakBlocks("}", "]\n");
    BreakBlocks("},", text);
    assert "}" + ("\n" + "]\n") == "}" + "\n]\n" && "}," + ("\n" + text) == "}" + (",\n" + text);
    hide StringHere;
  }

  lemma EndHasNoStrings()
    ensures StringsIn("\n]\n") == Some([])
  {
    NoQuotesNoStringsBack("\n]\n", 3);
    assert "\n]\n"[3..] == "";
  }

  lemma {:induction false} RowsStrings(rows: seq<Row>) returns (xs: seq<string>)
    requires rows != [] && StringsIn("\n" + PrintRows(rows) + "\n]\n").Some?
    ensures StringsIn("\n" + PrintRows(rows) + "\n]\n").value == xs && CoveredByRows(rows, xs)
    decreases |rows|
  {
    hide StringHere, PrintRow, Members, Plain;
    if |rows| == 1 {
      BlockedAfterRow("");
      EndHasNoStrings();
      xs := RowStrings(rows[0], "\n]\n");
      assert xs + [] == xs;
    } else {
      var more := PrintRows(rows[1..]) + "\n]\n";
      var rest := ",\n" + PrintRows(rows[1..]) + "\n]\n";
      RowsUnfold(rows, "\n]\n");
      BlockedAfterRow(more);
      assert rest == ",\n" + more;
      assert rest[0] == ',';
      assert StringsIn(rest) == StringsIn(rest[1..]);
      hide StringsIn, PrintRows;
      var first := RowStrings(rows[0], rest);
      var others := RowsStrings(rows[1..]);
      xs := first + others;
      OneRowCovered(rows[0], first);
      CoveredByMore([rows[0]], rows, 0, first);
      CoveredByMore(rows[1..], rows, 1, others);
    }
    if |rows| == 1 {
      OneRowCovered(rows[0], xs);
      assert rows == [rows[0]];
    }
  }

  lemma OneRowCovered(r: Row, xs: seq<string>)
    requires Covered(Members(r), xs)
    ensures CoveredByRows([r], xs)
  {
    hide WiderIn, Members, Plain;
    assert [r][0] == r;
  }

  // Every string of a printed snapshot is plain, or some field that is not is longer than it.
  lemma SnapshotStrings(rows: seq<Row>)
    requires StringsIn(PrintSnapshot(rows)).Some?
    ensures CoveredByRows(rows, StringsIn(PrintSnapshot(rows)).value)
  {
    var inner := "\n" + PrintRows(rows) + "\n]\n";
    SnapshotText(rows);
    assert ("[" + inner)[0] == '[' && ("[" + inner)[1..] == inner;
    assert StringsIn("[" + inner) == StringsIn(inner);
    if rows == [] {
      NoQuotesNoStringsBack("[\n\n]\n", 5);
      assert "[\n\n]\n"[5..] == "";
    } else {
      hide StringsIn, PrintRows, PrintSnapshot;
      var xs := RowsStrings(rows);
    }
  }

  /* ---------- reading it back ---------- */

  lemma {:induction false} MemberIsAmongStrings(ms: seq<(string, Json)>, i: nat, t: string)
    requires i < |ms| && ms[i].1 == Str(t)
    ensures t in StringsOfMembers(ms)
    decreases |ms|
  {
    if i == 0 {
      assert StringsOf(ms[0].1) == [t] && StringsOfMember(ms[0])[1] == t;
    } else {
      MemberIsAmongStrings(ms[1..], i - 1, t);
    }
  }

  lemma {:induction false} FoundIsAmongMembers(ms: seq<(string, Json)>, name: string, v: Json)
    requires Get(ms, name) == Some(v)
    ensures exists i :: 0 <= i < |ms| && ms[i].1 == v
    decreases |ms|
  {
    if ms[|ms| - 1].0 != name {
      FoundIsAmongMembers(ms[..|ms| - 1], name, v);
      var i :| 0 <= i < |ms| - 1 && ms[..|ms| - 1][i].1 == v;
      assert ms[i].1 == v;
    }
  }

  lemma TextIsAmongStrings(v: Json, name: string, t: string)
    requires Text(v, name) == Some(t)
    ensures t in StringsOf(v)
  {
    FoundIsAmongMembers(v.members, name, Str(t));
    var i :| 0 <= i < |v.members| && v.members[i].1 == Str(t);
    MemberIsAmongStrings(v.members, i, t);
  }

  lemma {:induction false} ItemIsAmongStrings(items: seq<Json>, i: nat, t: string)
    requires i < |items| && t in StringsOf(items[i])
    ensures t in StringsOfItems(items)
    decreases |items|
  {
    hide StringsOf;
    if i > 0 { ItemIsAmongStrings(items[1..], i - 1, t); }
  }

  lemma {:induction false} ReadRowsAt(items: seq<Json>, i: nat)
    requires ReadRows(items).Ok? && i < |ReadRows(items).value|
    ensures i < |items| && ReadRow(items[i]) == Ok(ReadRows(items).value[i])
    decreases |items|
  {
    hide ReadRow;
    var before := items[..|items| - 1];
    if i < |ReadRows(before).value| { ReadRowsAt(before, i); } else { ReadRowsLength(before); }
  }

  lemma {:induction false} ReadRowsLength(items: seq<Json>)
    requires ReadRows(items).Ok?
    ensures |ReadRows(items).value| == |items|
    decreases |items|
  {
    hide ReadRow;
    if items != [] { ReadRowsLength(items[..|items| - 1]); }
  }

  // A text field of a row that was read, unless it is empty, stood in the value it was read from.
  lemma FieldIsAmongStrings(v: Json, i: nat)
    requires ReadRow(v).Ok? && i < 12
    ensures var field := Members(ReadRow(v).value)[i].1;
            field.Str? && field.s != "" ==> field.s in StringsOf(v)
  {
    var field := Members(ReadRow(v).value)[i].1;
    hide Text, Integer, Flag, Utf8Length, StringsOf;
    if field.Str? && field.s != "" {
      if i == 2 { TextIsAmongStrings(v, "deployment_id", field.s); }
      else if i == 3 { TextIsAmongStrings(v, "vault_id", field.s); }
      else if i == 4 { TextIsAmongStrings(v, "record_id", field.s); }
      else if i == 6 { TextIsAmongStrings(v, "ciphertext", field.s); }
      else if i == 7 { TextIsAmongStrings(v, "ciphertext_hash", field.s); }
      else if i == 10 { TextIsAmongStrings(v, "template_envelope_hash", field.s); }
      else { TextIsAmongStrings(v, "manifest_binding", field.s); }
    }
  }

  // So does one of a row read from a whole text.
  lemma FieldStandsInText(text: string, r: Row, i: nat)
    requires ReadSnapshot(text).Ok? && r in ReadSnapshot(text).value && i < 12
    ensures StringsIn(text).Some?
    ensures var field := Members(r)[i].1; field.Str? && field.s != "" ==> field.s in StringsIn(text).value
  {
    ParsedStrings(text);
    var items := Parse(text).value.items;
    hide Parse, StringsIn, ReadRow, Members;
    var k :| 0 <= k < |ReadRows(items).value| && ReadRows(items).value[k] == r;
    ReadRowsAt(items, k);
    FieldIsAmongStrings(items[k], i);
    var field := Members(r)[i].1;
    if field.Str? && field.s != "" { ItemIsAmongStrings(items, k, field.s); }
  }

  lemma {:induction false} StringsFit(s: string)
    requires StringsIn(s).Some?
    ensures forall x :: x in StringsIn(s).value ==> |x| <= |s|
    decreases |s|
  {
    hide ParseChars;
    if s != "" {
      if s[0] != '"' { StringsFit(s[1..]); } else { StringsFit(StringHere(s[1..]).value.1); }
    }
  }

  // When every printed row is among those read, no string of the text needs an escape: it would be
  // within a longer field that needs one too.
  lemma {:induction false} NoEscapeNeeded(rows: seq<Row>, t: string)
    requires ReadSnapshot(PrintSnapshot(rows)).Ok?
    requires forall r :: r in rows ==> r in ReadSnapshot(PrintSnapshot(rows)).value
    requires StringsIn(PrintSnapshot(rows)).Some? && t in StringsIn(PrintSnapshot(rows)).value
    ensures Plain(t)
    decreases |PrintSnapshot(rows)| - |t|
  {
    hide PrintSnapshot, StringsIn, ReadSnapshot, Plain, Members;
    SnapshotStrings(rows);
    if !Plain(t) {
      assert WiderAmong(rows, t);
      var k :| 0 <= k < |rows| && WiderIn(Members(rows[k]), t);
      var ms := Members(rows[k]);
      var i :| 0 <= i < |ms| && ms[i].1.Str? && Wider(ms[i].1.s, t);
      assert rows[k] in rows;
      FieldStandsInText(PrintSnapshot(rows), rows[k], i);
      StringsFit(PrintSnapshot(rows));
      NoEscapeNeeded(rows, ms[i].1.s);
    }
  }

  // Rows can only be read back when their texts are plain.
  lemma ReadBackIsPlain(rows: seq<Row>, r: Row)
    requires ReadSnapshot(PrintSnapshot(rows)).Ok? && r in rows
    requires forall q :: q in rows ==> q in ReadSnapshot(PrintSnapshot(rows)).value
    ensures PlainRow(r)
  {
    FieldReadIsPlain(rows, r, 2);
    FieldReadIsPlain(rows, r, 3);
    FieldReadIsPlain(rows, r, 4);
    FieldReadIsPlain(rows, r, 6);
    FieldReadIsPlain(rows, r, 7);
    FieldReadIsPlain(rows, r, 10);
    FieldReadIsPlain(rows, r, 11);
    hide ReadSnapshot, PrintSnapshot, Plain;
  }

  lemma FieldReadIsPlain(rows: seq<Row>, r: Row, i: nat)
    requires ReadSnapshot(PrintSnapshot(rows)).Ok? && r in rows && i < 12
    requires forall q :: q in rows ==> q in ReadSnapshot(PrintSnapshot(rows)).value
    ensures Members(r)[i].1.Str? ==> Plain(Members(r)[i].1.s)
  {
    hide ReadSnapshot, PrintSnapshot, StringsIn, Members;
    FieldStandsInText(PrintSnapshot(rows), r, i);
    var field := Members(r)[i].1;
    if field.Str? && field.s != "" {
      hide Plain;
      NoEscapeNeeded(rows, field.s);
    }
  }

  // What the backup prints reads back as it was exactly when no text field holds a quote, a
  // backslash or a control character.
  lemma SnapshotReadsBackExactlyWhen(rows: seq<Row>)
    requires forall r <- rows :: InRange(r)
    ensures ReadSnapshot(PrintSnapshot(rows)) == Ok(rows) <==> forall r <- rows :: PlainRow(r)
  {
    hide ReadSnapshot, PrintSnapshot, PlainRow;
    if forall r <- rows :: PlainRow(r) { SnapshotReadsBack(rows); }
    if ReadSnapshot(PrintSnapshot(rows)) == Ok(rows) {
      forall r | r in rows ensures PlainRow(r) { ReadBackIsPlain(rows, r); }
    }
  }

  // A backup restored into an empty table recreates the table exactly when every row is plain; a
  // second restore, or one over the table itself, then changes nothing.
  lemma BackupRestoresExactlyWhen(table: Table, rows: seq<Row>)
    requires Lists(rows, table) && forall r <- rows :: InRange(r)
    ensures var read := ReadSnapshot(PrintSnapshot(rows));
            (read.Ok? && InsertAll(map[], read.value) == table <==> forall r <- rows :: PlainRow(r))
            && ((forall r <- rows :: PlainRow(r)) ==> read.Ok? && InsertAll(table, read.value) == table)
  {
    hide ReadSnapshot, PrintSnapshot, PlainRow;
    var read := ReadSnapshot(PrintSnapshot(rows));
    if forall r <- rows :: PlainRow(r) { BackupRestores(table, rows); }
    if read.Ok? && InsertAll(map[], read.value) == table {
      forall r | r in rows ensures r in read.value {
        ImportOnlyAdds(map[], read.value, Key(r));
        var i: nat :| IsFirst(read.value, i, Key(r)) && InsertAll(map[], read.value)[Key(r)] == read.value[i];
      }
      forall r | r in rows ensures PlainRow(r) { ReadBackIsPlain(rows, r); }
    }
  }
}
