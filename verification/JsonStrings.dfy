/**
 * The strings of a JSON text, found without parsing it: whatever stands between quotes, from left
 * to right. A text that parses holds exactly the strings of its value, in their order.
 */
module JsonStrings {
  import opened Bytes
  import opened Decimal
  import opened Json

  predicate StartsWithLetter(s: string) {
    s != "" && 'a' <= s[0] <= 'z'
  }

  // The string that begins after a quote, and what follows its closing quote, which is no letter.
  function StringHere(s: string): Option<(string, string)> {
    var r := ParseChars(s);
    if r.Some? && !StartsWithLetter(r.value.1) then r else None
  }

  // The strings from left to right; None when one is malformed or followed by a letter.
  function StringsIn(s: string): Option<seq<string>>
    decreases |s|
  {
    if s == "" then Some([])
    else if s[0] != '"' then StringsIn(s[1..])
    else
      var r := StringHere(s[1..]);
      if r.None? then None
      else
        var rest := StringsIn(r.value.1);
        if rest.None? then None else Some([r.value.0] + rest.value)
  }

  /* ---------- the strings of a value ---------- */

  function StringsOf(v: Json): seq<string>
    decreases v, 0
  {
    match v
    case Str(s) => [s]
    case Array(items) => StringsOfItems(items)
    case Object(members) => StringsOfMembers(members)
    case _ => []
  }

  function StringsOfItems(items: seq<Json>): seq<string>
    decreases items, 1
  {
    if items == [] then [] else StringsOf(items[0]) + StringsOfItems(items[1..])
  }

  function StringsOfMember(m: (string, Json)): seq<string>
    decreases m, 1
  {
    [m.0] + StringsOf(m.1)
  }

  function StringsOfMembers(members: seq<(string, Json)>): seq<string>
    decreases members, 2
  {
    if members == [] then [] else StringsOfMember(members[0]) + StringsOfMembers(members[1..])
  }

  // The strings of a text are those of what has been read and of what is left.
  ghost predicate Divides(s: string, read: seq<string>, rest: string) {
    StringsIn(rest).Some? ==> StringsIn(s) == Some(read + StringsIn(rest).value)
  }

  lemma NothingRead(s: string)
    ensures Divides(s, [], s)
  {
    if StringsIn(s).Some? { assert [] + StringsIn(s).value == StringsIn(s).value; }
  }

  // A character outside strings.
  lemma DividesAfter(s: string, read: seq<string>, rest: string)
    requires s != "" && s[0] != '"' && Divides(s[1..], read, rest)
    ensures Divides(s, read, rest)
  {
  }

  lemma DividesTwice(s: string, first: seq<string>, middle: string, second: seq<string>, rest: string)
    requires Divides(s, first, middle) && Divides(middle, second, rest)
    ensures Divides(s, first + second, rest)
  {
    hide StringsIn;
    if StringsIn(rest).Some? {
      assert first + (second + StringsIn(rest).value) == first + second + StringsIn(rest).value;
    }
  }

  lemma {:induction false} SpaceHasNoStrings(s: string)
    ensures Divides(s, [], SkipSpace(s))
    decreases |s|
  {
    if s != "" && IsSpace(s[0]) {
      SpaceHasNoStrings(s[1..]);
      DividesAfter(s, [], SkipSpace(s));
    } else {
      NothingRead(s);
    }
  }

  lemma {:induction false} NoQuotesNoStrings(s: string, n: nat)
    requires n <= |s| && forall i :: 0 <= i < n ==> s[i] != '"'
    ensures Divides(s, [], s[n..])
    decreases n
  {
    hide StringsIn;
    if n == 0 {
      assert s[0..] == s;
      NothingRead(s);
    } else {
      NoQuotesNoStrings(s[1..], n - 1);
      assert s[1..][n - 1..] == s[n..];
      DividesAfter(s, [], s[n..]);
    }
  }

  lemma {:induction false} DigitsAreNoQuotes(s: string)
    ensures forall i :: 0 <= i < LeadingDigits(s) ==> IsDigit(s[i])
    decreases |s|
  {
    if s != "" && IsDigit(s[0]) {
      DigitsAreNoQuotes(s[1..]);
      assert forall i :: 0 < i < LeadingDigits(s) ==> s[i] == s[1..][i - 1];
    }
  }

  lemma FractionHasNoQuotes(s: string)
    requires FractionLength(s).Some?
    ensures forall i :: 0 <= i < FractionLength(s).value ==> s[i] != '"'
  {
    if s != "" && s[0] == '.' {
      DigitsAreNoQuotes(s[1..]);
      assert forall i :: 0 < i < FractionLength(s).value ==> s[i] == s[1..][i - 1];
    }
  }

  lemma ExponentHasNoQuotes(s: string)
    requires ExponentLength(s).Some?
    ensures forall i :: 0 <= i < ExponentLength(s).value ==> s[i] != '"'
  {
    if s != "" && (s[0] == 'e' || s[0] == 'E') {
      var first := if |s| > 1 && (s[1] == '+' || s[1] == '-') then 2 else 1;
      DigitsAreNoQuotes(s[first..]);
      assert forall i :: first <= i < ExponentLength(s).value ==> s[i] == s[first..][i - first];
    }
  }

  lemma NumberHasNoQuotes(s: string)
    requires NumberLength(s).Some?
    ensures forall i :: 0 <= i < NumberLength(s).value ==> s[i] != '"'
  {
    var sign := if s[0] == '-' then 1 else 0;
    var d := LeadingDigits(s[sign..]);
    var f := FractionLength(s[sign + d..]).value;
    DigitsAreNoQuotes(s[sign..]);
    FractionHasNoQuotes(s[sign + d..]);
    ExponentHasNoQuotes(s[sign + d + f..]);
    hide LeadingDigits, FractionLength, ExponentLength;
    forall i | 0 <= i < NumberLength(s).value ensures s[i] != '"' {
      if i >= sign + d + f { assert s[i] == s[sign + d + f..][i - sign - d - f]; }
      else if i >= sign + d { assert s[i] == s[sign + d..][i - sign - d]; }
      else if i >= sign { assert s[i] == s[sign..][i - sign]; }
    }
  }

  // A string that is read, when what follows is no letter.
  lemma StringDivides(s: string)
    requires s != "" && s[0] == '"' && ParseChars(s[1..]).Some? && !StartsWithLetter(ParseChars(s[1..]).value.1)
    ensures Divides(s, [ParseChars(s[1..]).value.0], ParseChars(s[1..]).value.1)
  {
    hide ParseChars;
  }

  lemma WordHasNoQuotes(t: string)
    requires Word(t).Some?
    ensures Divides(t, [], Word(t).value.1) && StringsOf(Word(t).value.0) == []
  {
    var n := if "false" <= t then 5 else 4;
    assert "true" <= t ==> t[..4] == "true";
    assert "false" <= t ==> t[..5] == "false";
    assert "null" <= t ==> t[..4] == "null";
    NoQuotesNoStrings(t, n);
  }

  /* ---------- parsing ---------- */

  // What follows, after white space, ends an item, a name or a member.
  predicate Punctuated(s: string) {
    var t := SkipSpace(s);
    t != "" && (t[0] == ',' || t[0] == ':' || t[0] == ']' || t[0] == '}')
  }

  lemma PunctuatedIsNoLetter(s: string)
    requires Punctuated(s)
    ensures !StartsWithLetter(s)
  {
  }

  // The strings up to and including the punctuation after what has been read.
  lemma DividesToPunctuation(s: string, read: seq<string>, rest: string)
    requires Divides(s, read, rest) && Punctuated(rest)
    ensures Divides(s, read, SkipSpace(rest)[1..])
  {
    SpaceHasNoStrings(rest);
    NothingRead(SkipSpace(rest)[1..]);
    DividesAfter(SkipSpace(rest), [], SkipSpace(rest)[1..]);
    hide Divides, SkipSpace;
    DividesTwice(s, read, rest, [], SkipSpace(rest));
    DividesTwice(s, read + [], SkipSpace(rest), [], SkipSpace(rest)[1..]);
    assert read + [] + [] == read;
  }

  lemma {:induction false} ValueDivides(s: string)
    requires ParseValue(s).Some? && !StartsWithLetter(ParseValue(s).value.1)
    ensures Divides(s, StringsOf(ParseValue(s).value.0), ParseValue(s).value.1)
    decreases |s|, 1
  {
    var t := SkipSpace(s);
    HereDivides(t);
    SpaceHasNoStrings(s);
    hide Divides, ParseHere;
    var read := StringsOf(ParseHere(t).value.0);
    DividesTwice(s, [], t, read, ParseHere(t).value.1);
    assert [] + read == read;
  }

  lemma EmptyDivides(t: string)
    requires t != "" && t[0] != '"' && Punctuated(t[1..])
    ensures Divides(t, [], SkipSpace(t[1..])[1..])
  {
    NothingRead(t[1..]);
    DividesToPunctuation(t[1..], [], t[1..]);
    DividesAfter(t, [], SkipSpace(t[1..])[1..]);
  }

  lemma {:induction false} HereDivides(t: string)
    requires ParseHere(t).Some? && !StartsWithLetter(ParseHere(t).value.1)
    ensures Divides(t, StringsOf(ParseHere(t).value.0), ParseHere(t).value.1)
    decreases |t|, 0
  {
    hide Divides, ParseItems, ParseMembers, ParseChars, NumberLength, Word;
    var (v, rest) := ParseHere(t).value;
    if t[0] == '"' {
      StringDivides(t);
    } else if t[0] == '[' {
      var u := SkipSpace(t[1..]);
      if u != "" && u[0] == ']' {
        EmptyDivides(t);
      } else {
        ItemsDivide(t[1..]);
        DividesAfter(t, StringsOfItems(v.items), rest);
      }
    } else if t[0] == '{' {
      var u := SkipSpace(t[1..]);
      if u != "" && u[0] == '}' {
        EmptyDivides(t);
      } else {
        MembersDivide(t[1..]);
        DividesAfter(t, StringsOfMembers(v.members), rest);
      }
    } else if t[0] == '-' || IsDigit(t[0]) {
      NumberHasNoQuotes(t);
      NoQuotesNoStrings(t, NumberLength(t).value);
    } else {
      WordHasNoQuotes(t);
    }
  }

  lemma {:induction false} ItemsDivide(s: string)
    requires ParseItems(s).Some?
    ensures Divides(s, StringsOfItems(ParseItems(s).value.0), ParseItems(s).value.1)
    decreases |s|, 2
  {
    hide Divides, ParseValue, StringsOf;
    var (v, after) := ParseValue(s).value;
    var t := SkipSpace(after);
    assert Punctuated(after);
    PunctuatedIsNoLetter(after);
    ValueDivides(s);
    DividesToPunctuation(s, StringsOf(v), after);
    var (items, rest) := ParseItems(s).value;
    assert items[0] == v && StringsOfItems(items) == StringsOf(v) + StringsOfItems(items[1..]);
    if t[0] == ']' {
      assert items[1..] == [] && StringsOf(v) + [] == StringsOf(v);
    } else {
      ItemsDivide(t[1..]);
      assert items[1..] == ParseItems(t[1..]).value.0;
      DividesTwice(s, StringsOf(v), t[1..], StringsOfItems(items[1..]), rest);
    }
  }

  lemma {:induction false} MemberDivides(s: string)
    requires ParseMember(s).Some?
    requires var rest := ParseMember(s).value.1; rest != "" && (rest[0] == ',' || rest[0] == '}')
    ensures Divides(s, StringsOfMember(ParseMember(s).value.0), ParseMember(s).value.1[1..])
    decreases |s|, 2
  {
    hide Divides, ParseValue, ParseChars, StringsOf;
    var t := SkipSpace(s);
    var (name, afterName) := ParseChars(t[1..]).value;
    var u := SkipSpace(afterName);
    var (v, after) := ParseValue(u[1..]).value;
    assert Punctuated(afterName) && Punctuated(after);
    PunctuatedIsNoLetter(afterName);
    PunctuatedIsNoLetter(after);
    hide Punctuated, StartsWithLetter;
    SpaceHasNoStrings(s);
    StringDivides(t);
    DividesTwice(s, [], t, [name], afterName);
    assert [] + [name] == [name];
    DividesToPunctuation(s, [name], afterName);
    ValueDivides(u[1..]);
    DividesToPunctuation(u[1..], StringsOf(v), after);
    DividesTwice(s, [name], u[1..], StringsOf(v), SkipSpace(after)[1..]);
  }

  lemma {:induction false} MembersDivide(s: string)
    requires ParseMembers(s).Some?
    ensures Divides(s, StringsOfMembers(ParseMembers(s).value.0), ParseMembers(s).value.1)
    decreases |s|, 3
  {
    hide Divides, ParseMember, StringsOfMember;
    var (m, t) := ParseMember(s).value;
    MemberDivides(s);
    var (members, rest) := ParseMembers(s).value;
    assert members[0] == m && StringsOfMembers(members) == StringsOfMember(m) + StringsOfMembers(members[1..]);
    if t[0] == '}' {
      assert members[1..] == [] && StringsOfMember(m) + [] == StringsOfMember(m);
    } else {
      MembersDivide(t[1..]);
      assert members[1..] == ParseMembers(t[1..]).value.0;
      DividesTwice(s, StringsOfMember(m), t[1..], StringsOfMembers(members[1..]), rest);
    }
  }

  lemma {:induction false} OnlySpaceNoStrings(s: string)
    requires SkipSpace(s) == ""
    ensures StringsIn(s) == Some([]) && !StartsWithLetter(s)
    decreases |s|
  {
    if s != "" { OnlySpaceNoStrings(s[1..]); }
  }

  // A text that parses holds exactly the strings of its value.
  lemma ParsedStrings(s: string)
    requires Parse(s).Some?
    ensures StringsIn(s) == Some(StringsOf(Parse(s).value))
  {
    var (v, rest) := ParseValue(s).value;
    OnlySpaceNoStrings(rest);
    ValueDivides(s);
    assert StringsOf(v) + [] == StringsOf(v);
    hide ParseValue, StringsOf;
  }
}
