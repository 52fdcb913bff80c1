/** JSON trees and their texts: a recursive printer that joins with commas, its
    indented form, and readers for what they print. */
module JsonText {
  import opened Basics

  const NUL := '\0'
  const FF := '\U{0C}'
  const BS := '\U{08}'

  /** The contents of a C string. */
  type CString = s: string | NUL !in s

  /** Numbers, booleans and null are tokens. */
  datatype Json = Str(text: CString) | Token(token: string) | Arr(items: Items) | Obj(members: Members)
  datatype Items = NoItems | Item(first: Json, rest: Items)
  datatype Members = NoMembers | Member(name: CString, first: Json, rest: Members)

  // ----- strings -----

  function EscapeChar(c: char): string {
    if c == '\t' then "\\t"
    else if c == '\n' then "\\n"
    else if c == '\r' then "\\r"
    else if c == FF then "\\f"
    else if c == BS then "\\b"
    else if c == '\\' then "\\\\"
    else if c == '"' then "\\\""
    else if c == '\'' then "\\'"
    else [c]
  }

  function Escape(s: string): string {
    if s == "" then "" else EscapeChar(s[0]) + Escape(s[1..])
  }

  function Quoted(s: string): string { "\"" + Escape(s) + "\"" }

  /** What a backslash and a character stand for. */
  function Unescaped(c: char): char {
    if c == 't' then '\t'
    else if c == 'n' then '\n'
    else if c == 'r' then '\r'
    else if c == 'f' then FF
    else if c == 'b' then BS
    else c
  }

  /** Read a string up to its closing quote. */
  function ReadString(s: string): (r: Option<(string, string)>)
    ensures r.Some? ==> |r.value.1| < |s|
  {
    if s == "" then None
    else if s[0] == '"' then Some(("", s[1..]))
    else if s[0] != '\\' then
      match ReadString(s[1..])
      case None => None
      case Some((text, rest)) => Some(([s[0]] + text, rest))
    else if |s| == 1 then None
    else
      match ReadString(s[2..])
      case None => None
      case Some((text, rest)) => Some(([Unescaped(s[1])] + text, rest))
  }

  lemma ReadChar(c: char, s: string)
    ensures ReadString(EscapeChar(c) + s) ==
            match ReadString(s)
            case None => None
            case Some((text, rest)) => Some(([c] + text, rest))
  {
    var e := EscapeChar(c) + s;
    assert e[|EscapeChar(c)|..] == s;
  }

  /** Reading an escaped string recovers it, and stops at its closing quote. */
  lemma {:induction false} ReadBack(s: string, rest: string)
    ensures ReadString(Escape(s) + "\"" + rest) == Some((s, rest))
  {
    var q := "\"" + rest;
    assert Escape(s) + "\"" + rest == Escape(s) + q;
    if s == "" {
      assert Escape(s) + q == q && q[1..] == rest;
    } else {
      assert Escape(s) + q == EscapeChar(s[0]) + (Escape(s[1..]) + q);
      assert Escape(s[1..]) + q == Escape(s[1..]) + "\"" + rest;
      ReadBack(s[1..], rest);
      ReadChar(s[0], Escape(s[1..]) + q);
      assert s == [s[0]] + s[1..];
    }
  }

  /** The characters between quotes that section 7 of RFC 8259 allows. */
  predicate Rfc8259(s: string) {
    if s == "" then true
    else if s[0] == '\\' then |s| > 1 && s[1] in "\"\\/bfnrt" && Rfc8259(s[2..])
    else s[0] != '"' && s[0] >= ' ' && Rfc8259(s[1..])
  }

  predicate Standard(c: char) { c != '\'' && (c >= ' ' || c in ['\t', '\n', '\r', FF, BS]) }

  lemma Rfc8259Char(c: char, s: string)
    ensures Rfc8259(EscapeChar(c) + s) <==> Standard(c) && Rfc8259(s)
  {
    var e := EscapeChar(c) + s;
    assert e[|EscapeChar(c)|..] == s;
  }

  /** The escapes are those of the standard exactly when the string has no
      apostrophe and no other control character. */
  lemma {:induction false} StandardIff(s: string)
    ensures Rfc8259(Escape(s)) <==> forall c :: c in s ==> Standard(c)
  {
    if s != "" {
      Rfc8259Char(s[0], Escape(s[1..]));
      StandardIff(s[1..]);
      assert forall c :: c in s <==> c == s[0] || c in s[1..];
    }
  }

  // ----- the printers -----

  function Compact(t: Json): string {
    match t
    case Str(text) => Quoted(text)
    case Token(token) => token
    case Arr(items) => "[" + CompactItems(items) + "]"
    case Obj(members) => "{" + CompactMembers(members) + "}"
  }

  function CompactItems(items: Items): string {
    match items
    case NoItems => ""
    case Item(t, NoItems) => Compact(t)
    case Item(t, rest) => Compact(t) + "," + CompactItems(rest)
  }

  function CompactMembers(members: Members): string {
    match members
    case NoMembers => ""
    case Member(name, t, NoMembers) => Quoted(name) + ":" + Compact(t)
    case Member(name, t, rest) => Quoted(name) + ":" + Compact(t) + "," + CompactMembers(rest)
  }

  function Spaces(depth: nat): (r: string)
    ensures |r| == 4 * depth && forall i :: 0 <= i < |r| ==> r[i] == ' '
  {
    if depth == 0 then "" else Spaces(depth - 1) + "    "
  }

  function NewLine(depth: nat): string { "\n" + Spaces(depth) }

  /** Members on lines of their own, items in a row. */
  function Pretty(t: Json, depth: nat): string {
    match t
    case Str(text) => Quoted(text)
    case Token(token) => token
    case Arr(NoItems) => "[ ]"
    case Arr(items) => "[ " + PrettyItems(items, depth + 1) + " ]"
    case Obj(NoMembers) => "{}"
    case Obj(members) => "{" + PrettyMembers(members, depth + 1) + NewLine(depth) + "}"
  }

  function PrettyItems(items: Items, depth: nat): string {
    match items
    case NoItems => ""
    case Item(t, NoItems) => Pretty(t, depth)
    case Item(t, rest) => Pretty(t, depth) + "," + PrettyItems(rest, depth)
  }

  function PrettyMembers(members: Members, depth: nat): string {
    match members
    case NoMembers => ""
    case Member(name, t, NoMembers) => NewLine(depth) + Quoted(name) + ": " + Pretty(t, depth)
    case Member(name, t, rest) =>
      NewLine(depth) + Quoted(name) + ": " + Pretty(t, depth) + "," + PrettyMembers(rest, depth)
  }

  /** How deep a tree nests. */
  function Height(t: Json): nat {
    match t
    case Str(_) => 0
    case Token(_) => 0
    case Arr(items) => 1 + ItemsHeight(items)
    case Obj(members) => 1 + MembersHeight(members)
  }

  function Max(a: nat, b: nat): nat { if a < b then b else a }

  function ItemsHeight(items: Items): nat {
    match items
    case NoItems => 0
    case Item(t, rest) => Max(Height(t), ItemsHeight(rest))
  }

  function MembersHeight(members: Members): nat {
    match members
    case NoMembers => 0
    case Member(_, t, rest) => Max(Height(t), MembersHeight(rest))
  }

  // ----- white space outside strings -----

  datatype Mode = Outside | Inside | Escaped

  function Next(c: char, m: Mode): Mode {
    match m
    case Outside => if c == '"' then Inside else Outside
    case Inside => if c == '"' then Outside else if c == '\\' then Escaped else Inside
    case Escaped => Inside
  }

  function After(s: string, m: Mode): Mode {
    if s == "" then m else After(s[1..], Next(s[0], m))
  }

  /** A text without its blanks and line ends outside strings. */
  function Strip(s: string, m: Mode): string {
    if s == "" then ""
    else (if m == Outside && (s[0] == ' ' || s[0] == '\n') then "" else [s[0]]) + Strip(s[1..], Next(s[0], m))
  }

  /** A text that starts and ends outside strings, and its stripped form. */
  predicate Strips(s: string, bare: string) {
    Strip(s, Outside) == bare && After(s, Outside) == Outside
  }

  lemma {:induction false} StripAppend(s: string, t: string, m: Mode)
    ensures Strip(s + t, m) == Strip(s, m) + Strip(t, After(s, m))
    ensures After(s + t, m) == After(t, After(s, m))
  {
    if s == "" {
      assert s + t == t;
    } else {
      var n := Next(s[0], m);
      assert (s + t)[1..] == s[1..] + t;
      StripAppend(s[1..], t, n);
      var c := if m == Outside && (s[0] == ' ' || s[0] == '\n') then "" else [s[0]];
      Group2(c, Strip(s[1..], n), Strip(t, After(s[1..], n)));
    }
  }

  lemma StripsAppend(s: string, a: string, t: string, b: string)
    requires Strips(s, a) && Strips(t, b)
    ensures Strips(s + t, a + b)
  {
    StripAppend(s, t, Outside);
  }

  lemma {:induction false} StripEscape(s: string)
    ensures Strip(Escape(s), Inside) == Escape(s) && After(Escape(s), Inside) == Inside
  {
    if s != "" {
      StripEscape(s[1..]);
      StripEscapeChar(s[0]);
      StripAppend(EscapeChar(s[0]), Escape(s[1..]), Inside);
    }
  }

  lemma StripEscapeChar(c: char)
    ensures Strip(EscapeChar(c), Inside) == EscapeChar(c) && After(EscapeChar(c), Inside) == Inside
  {
    var e := EscapeChar(c);
    var f := e[1..];
    assert e == [e[0]] + f;
    if |e| == 2 {
      assert f == [f[0]] && f[1..] == "";
      assert Strip(f, Escaped) == [f[0]] + Strip(f[1..], Inside);
      assert After(f, Escaped) == After(f[1..], Inside);
    }
  }

  lemma StripQuoted(s: string)
    ensures Strips(Quoted(s), Quoted(s))
  {
    StripEscape(s);
    StripAppend("\"" + Escape(s), "\"", Outside);
    StripAppend("\"", Escape(s), Outside);
    assert "\""[1..] == "";
  }

  lemma {:induction false} StripSpaces(depth: nat)
    ensures Strips(Spaces(depth), "")
  {
    if depth > 0 {
      StripSpaces(depth - 1);
      assert "    "[1..] == "   " && "   "[1..] == "  " && "  "[1..] == " " && " "[1..] == "";
      StripsAppend(Spaces(depth - 1), "", "    ", "");
    }
  }

  lemma StripNewLine(depth: nat)
    ensures Strips(NewLine(depth), "")
  {
    assert "\n"[1..] == "";
    StripSpaces(depth);
    StripsAppend("\n", "", Spaces(depth), "");
  }

  /** A token without quotes and blanks. */
  predicate PlainToken(s: string) { '"' !in s && ' ' !in s && '\n' !in s }

  lemma {:induction false} StripToken(s: string)
    requires PlainToken(s)
    ensures Strips(s, s)
  {
    if s != "" {
      StripToken(s[1..]);
      assert s == [s[0]] + s[1..];
    }
  }

  predicate Plain(t: Json) {
    match t
    case Str(_) => true
    case Token(token) => PlainToken(token)
    case Arr(items) => PlainItems(items)
    case Obj(members) => PlainMembers(members)
  }

  predicate PlainItems(items: Items) {
    match items
    case NoItems => true
    case Item(t, rest) => Plain(t) && PlainItems(rest)
  }

  predicate PlainMembers(members: Members) {
    match members
    case NoMembers => true
    case Member(_, t, rest) => Plain(t) && PlainMembers(rest)
  }

  /** Indented text differs from compact text by white space outside strings only. */
  lemma {:induction false} PrettyStripsToCompact(t: Json, depth: nat)
    requires Plain(t)
    ensures Strips(Pretty(t, depth), Compact(t))
    decreases t
  {
    match t
    case Str(text) => StripQuoted(text);
    case Token(token) => StripToken(token);
    case Arr(items) => PrettyArray(items, depth);
    case Obj(members) => PrettyObject(members, depth);
  }

  lemma {:induction false} PrettyArray(items: Items, depth: nat)
    requires PlainItems(items)
    ensures Strips(Pretty(Arr(items), depth), Compact(Arr(items)))
    decreases items, 1
  {
    StripBrackets();
    if items == NoItems {
      assert "[ " + "]" == "[ ]" && "[" + "" + "]" == "[" + "]";
      StripsAppend("[ ", "[", "]", "]");
    } else {
      var p, c := PrettyItems(items, depth + 1), CompactItems(items);
      PrettyItemsStrip(items, depth + 1);
      StripsAppend("[ ", "[", p, c);
      StripsAppend("[ " + p, "[" + c, " ]", "]");
    }
  }

  lemma StripBrackets()
    ensures Strips("[ ", "[") && Strips(" ]", "]") && Strips("]", "]")
  {
    StripToken("[");
    StripToken("]");
    StripBlank();
    StripsAppend("[", "[", " ", "");
    StripsAppend(" ", "", "]", "]");
    assert "[" + " " == "[ " && " " + "]" == " ]" && "" + "]" == "]" && "[" + "" == "[";
  }

  lemma StripBlank()
    ensures Strips(" ", "")
  {
    assert " "[1..] == "";
  }

  lemma {:induction false} PrettyItemsStrip(items: Items, depth: nat)
    requires PlainItems(items)
    ensures Strips(PrettyItems(items, depth), CompactItems(items))
    decreases items, 0
  {
    if items.Item? {
      var p, c := Pretty(items.first, depth), Compact(items.first);
      PrettyStripsToCompact(items.first, depth);
      if items.rest.Item? {
        PrettyItemsStrip(items.rest, depth);
        StripToken(",");
        StripsAppend(p, c, ",", ",");
        StripsAppend(p + ",", c + ",", PrettyItems(items.rest, depth), CompactItems(items.rest));
      }
    }
  }

  lemma {:induction false} PrettyObject(members: Members, depth: nat)
    requires PlainMembers(members)
    ensures Strips(Pretty(Obj(members), depth), Compact(Obj(members)))
    decreases members, 1
  {
    StripToken("{");
    StripToken("}");
    if members == NoMembers {
      StripsAppend("{", "{", "}", "}");
    } else {
      var p, c := PrettyMembers(members, depth + 1), CompactMembers(members);
      PrettyMembersStrip(members, depth + 1);
      StripsAppend("{", "{", p, c);
      StripNewLine(depth);
      StripsAppend("{" + p, "{" + c, NewLine(depth), "");
      StripsAppend("{" + p + NewLine(depth), "{" + c, "}", "}");
    }
  }

  lemma {:induction false} PrettyMembersStrip(members: Members, depth: nat)
    requires PlainMembers(members)
    ensures Strips(PrettyMembers(members, depth), CompactMembers(members))
    decreases members, 0
  {
    if members.Member? {
      var q := Quoted(members.name);
      PrettyStripsToCompact(members.first, depth);
      PrettyMemberStrip(members.name, members.first, depth);
      if members.rest.Member? {
        PrettyMembersStrip(members.rest, depth);
        StripToken(",");
        var p, c := NewLine(depth) + q + ": " + Pretty(members.first, depth), q + ":" + Compact(members.first);
        StripsAppend(p, c, ",", ",");
        StripsAppend(p + ",", c + ",", PrettyMembers(members.rest, depth), CompactMembers(members.rest));
      }
    }
  }

  lemma PrettyMemberStrip(name: string, t: Json, depth: nat)
    requires Strips(Pretty(t, depth), Compact(t))
    ensures Strips(NewLine(depth) + Quoted(name) + ": " + Pretty(t, depth), Quoted(name) + ":" + Compact(t))
  {
    var nl, q := NewLine(depth), Quoted(name);
    StripNewLine(depth);
    StripQuoted(name);
    StripToken(":");
    StripBlank();
    StripsAppend(":", ":", " ", "");
    StripsAppend(nl, "", q, q);
    StripsAppend(nl + q, q, ": ", ":");
    StripsAppend(nl + q + ": ", q + ":", Pretty(t, depth), Compact(t));
  }

  /** Stripping twice strips once. */
  lemma {:induction false} StripAgain(s: string, m: Mode)
    ensures Strip(Strip(s, m), m) == Strip(s, m) && After(Strip(s, m), m) == After(s, m)
  {
    if s != "" {
      var n, r := Next(s[0], m), Strip(s[1..], Next(s[0], m));
      StripAgain(s[1..], n);
      assert ([s[0]] + r)[1..] == r && "" + r == r;
    }
  }

  lemma CompactIsBare(t: Json)
    requires Plain(t)
    ensures Strips(Compact(t), Compact(t))
  {
    PrettyStripsToCompact(t, 0);
    StripAgain(Pretty(t, 0), Outside);
  }

  // ----- regrouping -----

  lemma Group2(o: string, a: string, b: string)
    ensures o + a + b == o + (a + b)
  {
  }

  lemma Group3(o: string, a: string, b: string, c: string)
    ensures o + a + b + c == o + (a + b + c)
  {
    Group2(o, a, b);
    Group2(o, a + b, c);
  }

  lemma Group4(o: string, a: string, b: string, c: string, d: string)
    ensures o + a + b + c + d == o + (a + b + c + d)
  {
    Group3(o, a, b, c);
    Group2(o, a + b + c, d);
  }

  lemma Group5(o: string, a: string, b: string, c: string, d: string, e: string)
    ensures o + a + b + c + d + e == o + (a + b + c + d + e)
  {
    Group4(o, a, b, c, d);
    Group2(o, a + b + c + d, e);
  }
}
