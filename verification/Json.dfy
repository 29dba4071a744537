/** JSON texts, read as RFC 8259 defines them and as the restore program's parser reports them. */
module Json {
  import opened Bytes
  import opened Decimal

  datatype Json =
    | Null
    | Bool(b: bool)
    | Number(text: string)
    | Str(s: string)
    | Array(items: seq<Json>)
    | Object(members: seq<(string, Json)>)

  /* ---------- characters of strings (section 7) ---------- */

  // May stand for itself between quotes.
  predicate PlainChar(c: char) {
    c != '"' && c != '\\' && c >= ' '
  }

  predicate Plain(s: string) {
    forall c :: c in s ==> PlainChar(c)
  }

  function HexDigit(c: char): Option<nat> {
    if '0' <= c <= '9' then Some(c as nat - '0' as nat)
    else if 'a' <= c <= 'f' then Some(c as nat - 'a' as nat + 10)
    else if 'A' <= c <= 'F' then Some(c as nat - 'A' as nat + 10)
    else None
  }

  function LowerDigit(d: nat): char
    requires d < 16
  {
    if d < 10 then '0' + d as char else 'a' + (d - 10) as char
  }

  function Hex4(s: string): (v: Option<nat>)
    ensures v.Some? ==> |s| >= 4 && v.value < 0x10000
  {
    if |s| < 4 then None
    else
      var (a, b, c, d) := (HexDigit(s[0]), HexDigit(s[1]), HexDigit(s[2]), HexDigit(s[3]));
      if a.Some? && b.Some? && c.Some? && d.Some?
      then Some(((a.value * 16 + b.value) * 16 + c.value) * 16 + d.value) else None
  }

  // The character an escape denotes, and how many characters the escape takes after its backslash.
  function Escape(s: string): (r: Option<(char, nat)>)
    ensures r.Some? ==> 1 <= r.value.1 <= |s|
  {
    if s == [] then None
    else match s[0]
      case '"' => Some(('"', 1))
      case '\\' => Some(('\\', 1))
      case '/' => Some(('/', 1))
      case 'b' => Some((8 as char, 1))
      case 'f' => Some((12 as char, 1))
      case 'n' => Some(('\n', 1))
      case 'r' => Some(('\r', 1))
      case 't' => Some(('\t', 1))
      case 'u' => CodeUnit(s[1..])
      case _ => None
  }

  // Four hexadecimal digits, or two such units that form a surrogate pair.
  function CodeUnit(s: string): (r: Option<(char, nat)>)
    ensures r.Some? ==> 1 <= r.value.1 <= |s| + 1
  {
    var high := Hex4(s);
    if high.None? then None
    else if high.value < 0xD800 || 0xE000 <= high.value then Some((high.value as char, 5))
    else if 0xDC00 <= high.value || |s| < 6 || s[4] != '\\' || s[5] != 'u' then None
    else
      var low := Hex4(s[6..]);
      if low.None? || low.value < 0xDC00 || 0xE000 <= low.value then None
      else Some(((0x10000 + (high.value - 0xD800) * 0x400 + (low.value - 0xDC00)) as char, 11))
  }

  // The characters up to the closing quote, and what follows it.
  function ParseChars(s: string): (r: Option<(string, string)>)
    ensures r.Some? ==> |r.value.0| + 1 + |r.value.1| <= |s|
    decreases |s|
  {
    if s == [] then None
    else if s[0] == '"' then Some(("", s[1..]))
    else if s[0] == '\\' then
      var e := Escape(s[1..]);
      if e.None? then None
      else
        var r := ParseChars(s[1 + e.value.1..]);
        if r.None? then None else Some(([e.value.0] + r.value.0, r.value.1))
    else if s[0] < ' ' then None
    else
      var r := ParseChars(s[1..]);
      if r.None? then None else Some(([s[0]] + r.value.0, r.value.1))
  }

  // Where nothing was shortened by an escape, everything read stood for itself.
  lemma {:induction false} UnshortenedIsPlain(s: string)
    requires ParseChars(s).Some?
    requires var r := ParseChars(s).value; |r.0| + 1 + |r.1| == |s|
    ensures Plain(ParseChars(s).value.0)
    decreases |s|
  {
    if s[0] != '"' && s[0] != '\\' {
      UnshortenedIsPlain(s[1..]);
    }
  }

  lemma {:induction false} PlainIsRead(t: string, rest: string)
    requires Plain(t)
    ensures ParseChars(t + "\"" + rest) == Some((t, rest))
    decreases |t|
  {
    var s := t + "\"" + rest;
    if t == [] {
      assert s[0] == '"' && s[1..] == rest;
    } else {
      assert s[0] == t[0] && s[1..] == t[1..] + "\"" + rest && t[0] in t;
      PlainIsRead(t[1..], rest);
      assert [t[0]] + t[1..] == t;
    }
  }

  // A text put between quotes as it is reads back as itself exactly when it holds no quote,
  // backslash or control character.
  lemma QuotedReadsBackIffPlain(t: string, rest: string)
    ensures ParseChars(t + "\"" + rest) == Some((t, rest)) <==> Plain(t)
  {
    if Plain(t) {
      PlainIsRead(t, rest);
    } else if ParseChars(t + "\"" + rest) == Some((t, rest)) {
      UnshortenedIsPlain(t + "\"" + rest);
    }
  }

  /* ---------- numbers (section 6) ---------- */

  function LeadingDigits(s: string): (n: nat)
    ensures n <= |s|
  {
    if s == [] || !IsDigit(s[0]) then 0 else 1 + LeadingDigits(s[1..])
  }

  // The length of the fraction or exponent at the start of s; None when it is malformed.
  function FractionLength(s: string): (n: Option<nat>)
    ensures n.Some? ==> n.value <= |s|
  {
    if s == [] || s[0] != '.' then Some(0)
    else
      var d := LeadingDigits(s[1..]);
      if d == 0 then None else Some(1 + d)
  }

  function ExponentLength(s: string): (n: Option<nat>)
    ensures n.Some? ==> n.value <= |s|
  {
    if s == [] || (s[0] != 'e' && s[0] != 'E') then Some(0)
    else
      var sign := if |s| > 1 && (s[1] == '+' || s[1] == '-') then 1 else 0;
      var d := LeadingDigits(s[1 + sign..]);
      if d == 0 then None else Some(1 + sign + d)
  }

  function NumberLength(s: string): (n: Option<nat>)
    ensures n.Some? ==> 1 <= n.value <= |s|
  {
    var sign := if s != [] && s[0] == '-' then 1 else 0;
    var d := LeadingDigits(s[sign..]);
    if d == 0 || (s[sign] == '0' && d > 1) then None
    else
      var f := FractionLength(s[sign + d..]);
      if f.None? then None
      else
        var e := ExponentLength(s[sign + d + f.value..]);
        if e.None? then None else Some(sign + d + f.value + e.value)
  }

  /* ---------- values (sections 2 to 5) ---------- */

  predicate IsSpace(c: char) {
    c == ' ' || c == '\t' || c == '\n' || c == '\r'
  }

  function SkipSpace(s: string): (r: string)
    ensures |r| <= |s|
  {
    if s != [] && IsSpace(s[0]) then SkipSpace(s[1..]) else s
  }

  function Word(s: string): Option<(Json, string)> {
    if "true" <= s then Some((Bool(true), s[4..]))
    else if "false" <= s then Some((Bool(false), s[5..]))
    else if "null" <= s then Some((Null, s[4..]))
    else None
  }

  // One value at the start of s, after white space, and what follows it.
  function ParseValue(s: string): (r: Option<(Json, string)>)
    ensures r.Some? ==> |r.value.1| < |s|
    decreases |s|, 1
  {
    ParseHere(SkipSpace(s))
  }

  // One value with no white space before it.
  function ParseHere(t: string): (r: Option<(Json, string)>)
    ensures r.Some? ==> |r.value.1| < |t|
    decreases |t|, 0
  {
    if t == [] then None
    else if t[0] == '"' then
      var r := ParseChars(t[1..]);
      if r.None? then None else Some((Str(r.value.0), r.value.1))
    else if t[0] == '[' then
      var u := SkipSpace(t[1..]);
      if u != [] && u[0] == ']' then Some((Array([]), u[1..]))
      else
        var r := ParseItems(t[1..]);
        if r.None? then None else Some((Array(r.value.0), r.value.1))
    else if t[0] == '{' then
      var u := SkipSpace(t[1..]);
      if u != [] && u[0] == '}' then Some((Object([]), u[1..]))
      else
        var r := ParseMembers(t[1..]);
        if r.None? then None else Some((Object(r.value.0), r.value.1))
    else if t[0] == '-' || IsDigit(t[0]) then
      var n := NumberLength(t);
      if n.None? then None else Some((Number(t[..n.value]), t[n.value..]))
    else Word(t)
  }

  // The items of an array up to its closing bracket.
  function ParseItems(s: string): (r: Option<(seq<Json>, string)>)
    ensures r.Some? ==> |r.value.1| < |s|
    decreases |s|, 2
  {
    var v := ParseValue(s);
    if v.None? then None
    else
      var t := SkipSpace(v.value.1);
      if t == [] then None
      else if t[0] == ']' then Some(([v.value.0], t[1..]))
      else if t[0] != ',' then None
      else
        var r := ParseItems(t[1..]);
        if r.None? then None else Some(([v.value.0] + r.value.0, r.value.1))
  }

  // One member, up to the comma or brace after it.
  function ParseMember(s: string): (r: Option<((string, Json), string)>)
    ensures r.Some? ==> |r.value.1| < |s|
    decreases |s|, 2
  {
    var t := SkipSpace(s);
    if t == [] || t[0] != '"' then None
    else
      var name := ParseChars(t[1..]);
      if name.None? then None
      else
        var u := SkipSpace(name.value.1);
        if u == [] || u[0] != ':' then None
        else
          var v := ParseValue(u[1..]);
          if v.None? then None else Some(((name.value.0, v.value.0), SkipSpace(v.value.1)))
  }

  // The members of an object up to its closing brace.
  function ParseMembers(s: string): (r: Option<(seq<(string, Json)>, string)>)
    ensures r.Some? ==> |r.value.1| < |s|
    decreases |s|, 3
  {
    var m := ParseMember(s);
    if m.None? then None
    else
      var t := m.value.1;
      if t == [] then None
      else if t[0] == '}' then Some(([m.value.0], t[1..]))
      else if t[0] != ',' then None
      else
        var r := ParseMembers(t[1..]);
        if r.None? then None else Some(([m.value.0] + r.value.0, r.value.1))
  }

  // A whole text: one value between white space.
  function Parse(s: string): Option<Json> {
    var v := ParseValue(s);
    if v.Some? && SkipSpace(v.value.1) == [] then Some(v.value.0) else None
  }

  /* ---------- reading members ---------- */

  // The last member of that name counts.
  function Get(members: seq<(string, Json)>, name: string): Option<Json> {
    if members == [] then None
    else if members[|members| - 1].0 == name then Some(members[|members| - 1].1)
    else Get(members[..|members| - 1], name)
  }

  function Field(v: Json, name: string): Option<Json> {
    if v.Object? then Get(v.members, name) else None
  }

  lemma {:induction false} GetMember(members: seq<(string, Json)>, i: nat)
    requires i < |members| && forall j :: i < j < |members| ==> members[j].0 != members[i].0
    ensures Get(members, members[i].0) == Some(members[i].1)
  {
    if i < |members| - 1 {
      GetMember(members[..|members| - 1], i);
    }
  }

  function AsString(v: Json): Option<string> {
    if v.Str? then Some(v.s) else None
  }

  function AsBool(v: Json): Option<bool> {
    if v.Bool? then Some(v.b) else None
  }

  // The integer a number stands for; minus zero and anything with a fraction or an exponent is none.
  function AsInteger(v: Json): Option<int> {
    if !v.Number? then None
    else if AllDigits(v.text) then Some(Value(v.text))
    else if v.text[0] == '-' && AllDigits(v.text[1..]) && Value(v.text[1..]) > 0 then Some(-(Value(v.text[1..]) as int))
    else None
  }

  function AsI64(v: Json): Option<int> {
    var n := AsInteger(v);
    if n.Some? && I64_MIN <= n.value <= I64_MAX then n else None
  }

  function AsU64(v: Json): Option<nat> {
    var n := AsInteger(v);
    if n.Some? && 0 <= n.value <= U64_MAX then Some(n.value) else None
  }

  /* ---------- printing scalars ---------- */

  function PrintInteger(n: int): (s: string)
    ensures s != []
  {
    if n < 0 then "-" + Print(-n) else Print(n)
  }

  lemma IntegerReadsBack(n: int)
    ensures AsInteger(Number(PrintInteger(n))) == Some(n)
  {
    if n < 0 {
      assert PrintInteger(n)[1..] == Print(-n) && PrintInteger(n)[0] == '-';
      ValueOfPrint(-n);
    } else {
      ValueOfPrint(n);
    }
  }

  lemma {:induction false} LeadingDigitsOf(a: string, rest: string)
    requires AllDigits(a) && (rest == [] || !IsDigit(rest[0]))
    ensures LeadingDigits(a + rest) == |a|
  {
    if a == [] {
      assert a + rest == rest;
    } else {
      assert (a + rest)[1..] == a[1..] + rest;
      LeadingDigitsOf(a[1..], rest);
    }
  }

  // What may follow a number.
  predicate Ends(rest: string) {
    rest == [] || !(IsDigit(rest[0]) || rest[0] in ".eE")
  }

  lemma PrintedNumberLength(n: int, rest: string)
    requires Ends(rest)
    ensures NumberLength(PrintInteger(n) + rest) == Some(|PrintInteger(n)|)
  {
    var s := PrintInteger(n) + rest;
    var digits := if n < 0 then Print(-n) else Print(n);
    var sign := if n < 0 then 1 else 0;
    assert s[sign..] == digits + rest && s[sign] == digits[0];
    LeadingDigitsOf(digits, rest);
    NoLeadingZero(if n < 0 then -n else n);
    assert s[sign + |digits|..] == rest;
    assert s[sign + |digits| + 0..] == rest;
    if digits[0] == '0' { assert digits == Print(0); }
  }

  lemma NumberIsRead(n: int, rest: string)
    requires Ends(rest)
    ensures ParseValue(PrintInteger(n) + rest) == Some((Number(PrintInteger(n)), rest))
  {
    var p := PrintInteger(n);
    PrintedNumberLength(n, rest);
    assert (p + rest)[..|p|] == p && (p + rest)[|p|..] == rest;
    assert p[0] == '-' || IsDigit(p[0]);
    assert (p + rest)[0] == p[0] && SkipSpace(p + rest) == p + rest;
  }

  lemma StringIsRead(t: string, rest: string)
    requires Plain(t)
    ensures ParseValue("\"" + t + "\"" + rest) == Some((Str(t), rest))
  {
    var s := "\"" + t + "\"" + rest;
    PlainIsRead(t, rest);
    assert SkipSpace(s) == s && s[0] == '"' && s[1..] == t + "\"" + rest;
  }

  function PrintBool(b: bool): string {
    if b then "true" else "false"
  }

  lemma BoolIsRead(b: bool, rest: string)
    ensures ParseValue(PrintBool(b) + rest) == Some((Bool(b), rest))
  {
    var s := PrintBool(b) + rest;
    assert s[0] == PrintBool(b)[0] && SkipSpace(s) == s;
    if b {
      assert "true" <= s && s[4..] == rest;
    } else {
      assert !("true" <= s) && "false" <= s && s[5..] == rest;
    }
  }
}
