/** String literals of the generated Rust source: written by a JSON encoder, read by a Rust compiler. */
module RustLiteral {
  import opened Bytes
  import opened Json

  predicate IsAscii(s: string) {
    forall c :: c in s ==> c < 128 as char
  }

  // A character as the JSON encoder writes it: what is not printable ASCII is escaped.
  function EscapeChar(c: char): string {
    if c == '"' then "\\\""
    else if c == '\\' then "\\\\"
    else if c == '\n' then "\\n"
    else if c == '\r' then "\\r"
    else if c == '\t' then "\\t"
    else if c == 8 as char then "\\b"
    else if c == 12 as char then "\\f"
    else if ' ' <= c <= '~' then [c]
    else ['\\', 'u', '0', '0', LowerDigit(c as nat / 16 % 16), LowerDigit(c as nat % 16)]
  }

  function EscapeAll(s: string): string {
    if s == "" then "" else EscapeChar(s[0]) + EscapeAll(s[1..])
  }

  // The literal; only ASCII has one.
  function WriteLiteral(s: string): Option<string> {
    if IsAscii(s) then Some("\"" + EscapeAll(s) + "\"") else None
  }

  /* ---------- the Rust reading ---------- */

  // Hexadecimal digits up to the closing brace: the number, and how many characters it took.
  function BracedNumber(s: string, value: nat, digits: nat): (r: Option<(nat, nat)>)
    ensures r.Some? ==> 1 <= r.value.1 <= |s|
  {
    if s == "" then None
    else if s[0] == '}' then (if digits > 0 then Some((value, 1)) else None)
    else if s[0] == '_' && digits > 0 then
      var r := BracedNumber(s[1..], value, digits);
      if r.None? then None else Some((r.value.0, r.value.1 + 1))
    else if HexDigit(s[0]).None? || digits == 6 then None
    else
      var r := BracedNumber(s[1..], 16 * value + HexDigit(s[0]).value, digits + 1);
      if r.None? then None else Some((r.value.0, r.value.1 + 1))
  }

  // The character an escape stands for, and how long the escape is after its backslash.
  function RustEscape(s: string): (r: Option<(char, nat)>)
    ensures r.Some? ==> 1 <= r.value.1 <= |s|
  {
    if s == "" then None
    else match s[0]
      case 'n' => Some(('\n', 1))
      case 'r' => Some(('\r', 1))
      case 't' => Some(('\t', 1))
      case '\\' => Some(('\\', 1))
      case '0' => Some((0 as char, 1))
      case '\'' => Some(('\'', 1))
      case '"' => Some(('"', 1))
      case 'x' =>
        if |s| < 3 || HexDigit(s[1]).None? || HexDigit(s[2]).None? || HexDigit(s[1]).value >= 8 then None
        else Some(((16 * HexDigit(s[1]).value + HexDigit(s[2]).value) as char, 3))
      case 'u' =>
        if |s| < 2 || s[1] != '{' then None
        else
          var n := BracedNumber(s[2..], 0, 0);
          if n.None? || n.value.0 >= 0x11_0000 || 0xD800 <= n.value.0 < 0xE000 then None
          else Some((n.value.0 as char, 2 + n.value.1))
      case _ => None
  }

  // The characters up to the closing quote, and what follows it.
  function RustChars(s: string): Option<(string, string)>
    decreases |s|
  {
    if s == "" then None
    else if s[0] == '"' then Some(("", s[1..]))
    else if s[0] == '\r' then None
    else if s[0] == '\\' && |s| > 1 && s[1] == '\n' then RustChars(SkipSpace(s[2..]))
    else if s[0] == '\\' then
      var e := RustEscape(s[1..]);
      if e.None? then None
      else
        var r := RustChars(s[1 + e.value.1..]);
        if r.None? then None else Some(([e.value.0] + r.value.0, r.value.1))
    else
      var r := RustChars(s[1..]);
      if r.None? then None else Some(([s[0]] + r.value.0, r.value.1))
  }

  // A whole literal.
  function ReadLiteral(s: string): Option<string> {
    if s == "" || s[0] != '"' then None
    else
      var r := RustChars(s[1..]);
      if r.Some? && r.value.1 == "" then Some(r.value.0) else None
  }

  // What a string of the registry has become in the compiled program; None where there is none.
  function Compiled(s: string): Option<string> {
    var literal := WriteLiteral(s);
    if literal.None? then None else ReadLiteral(literal.value)
  }

  /* ---------- what survives ---------- */

  // Escaped in the same way by both languages, or not at all.
  predicate Shared(c: char) {
    ' ' <= c <= '~' || c == '\n' || c == '\r' || c == '\t'
  }

  lemma CharReads(c: char, rest: string)
    requires c < 128 as char
    ensures var (r, s) := (RustChars(rest), RustChars(EscapeChar(c) + rest));
            if Shared(c) && r.Some? then s == Some(([c] + r.value.0, r.value.1)) else s == None
  {
    var s := EscapeChar(c) + rest;
    if ' ' <= c <= '~' && c != '"' && c != '\\' {
      assert s[0] == c && s[1..] == rest;
    } else {
      EscapedReads(c, rest);
    }
  }

  lemma EscapedReads(c: char, rest: string)
    requires c < 128 as char && (!(' ' <= c <= '~') || c == '"' || c == '\\')
    ensures var (r, s) := (RustChars(rest), RustChars(EscapeChar(c) + rest));
            if Shared(c) && r.Some? then s == Some(([c] + r.value.0, r.value.1)) else s == None
  {
    var s := EscapeChar(c) + rest;
    assert s[0] == '\\' && s[1] == EscapeChar(c)[1];
    assert s[1..][0] == s[1];
    if Shared(c) {
      assert s[1 + 1..] == rest && RustEscape(s[1..]) == Some((c, 1));
    } else if c != 8 as char && c != 12 as char {
      assert s[2] == '0' && s[1..][1] == s[2];
      assert RustEscape(s[1..]) == None;
    }
  }

  predicate AllShared(s: string) {
    forall c :: c in s ==> Shared(c)
  }

  lemma {:induction false} CharsRead(s: string)
    requires IsAscii(s)
    ensures RustChars(EscapeAll(s) + "\"") == if AllShared(s) then Some((s, "")) else None
    decreases |s|
  {
    if s == "" {
      assert EscapeAll(s) + "\"" == "\"" && "\""[1..] == "";
    } else {
      var rest := EscapeAll(s[1..]) + "\"";
      assert s[0] in s && forall c :: c in s <==> c == s[0] || c in s[1..] by {
        assert s == [s[0]] + s[1..];
      }
      CharsRead(s[1..]);
      CharReads(s[0], rest);
      assert EscapeAll(s) + "\"" == EscapeChar(s[0]) + rest;
      assert [s[0]] + s[1..] == s;
      hide RustChars, EscapeChar, EscapeAll;
    }
  }

  // A string keeps its meaning exactly when it is printable ASCII apart from line feeds, carriage
  // returns and tabs. Any other control character yields source that does not compile, and no
  // string is ever changed into another.
  lemma CompiledIffShared(s: string)
    ensures Compiled(s) == if AllShared(s) then Some(s) else None
  {
    if IsAscii(s) {
      CharsRead(s);
      var literal := "\"" + EscapeAll(s) + "\"";
      assert literal[1..] == EscapeAll(s) + "\"";
      hide RustChars, EscapeAll;
    }
  }
}
