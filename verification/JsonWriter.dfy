/** The streaming JSON writer: every call appends to the output, and a nesting
    depth and a pending separator are all it remembers. */
module JsonWriter {
  import opened Basics
  import opened Words
  import opened JsonText
  import opened JsonReader

  /** What a pending separator puts in front of the next item. */
  function Pending(sep: char): string { if sep != NUL then [sep] else "" }

  function LineEnd(pretty: bool, depth: nat): string { if pretty then NewLine(depth) else "" }

  function Blank(pretty: bool): string { if pretty then " " else "" }

  /** The text of a tree at a depth. */
  function Text(t: Json, pretty: bool, depth: nat): string {
    if pretty then Pretty(t, depth) else Compact(t)
  }

  function ItemsText(items: Items, pretty: bool, depth: nat): string {
    if pretty then PrettyItems(items, depth) else CompactItems(items)
  }

  function MemberLines(members: Members, pretty: bool, depth: nat): string {
    if pretty then PrettyMembers(members, depth) else CompactMembers(members)
  }

  function ItemsTail(items: Items, pretty: bool, depth: nat): string {
    if items == NoItems then "" else "," + ItemsText(items, pretty, depth)
  }

  function MoreLines(members: Members, pretty: bool, depth: nat): string {
    if members == NoMembers then "" else "," + MemberLines(members, pretty, depth)
  }

  lemma ArrayText(o: string, items: Items, pretty: bool, depth: nat)
    ensures o + "[" + Blank(pretty) + ItemsText(items, pretty, depth + 1)
            + (if items == NoItems then "" else Blank(pretty)) + "]"
         == o + Text(Arr(items), pretty, depth)
  {
    Group5(o, "[", Blank(pretty), ItemsText(items, pretty, depth + 1),
           if items == NoItems then "" else Blank(pretty), "]");
    assert "[" + " " == "[ ";
    if items != NoItems && pretty {
      Group2("[ " + PrettyItems(items, depth + 1), " ", "]");
      assert " " + "]" == " ]";
    }
  }

  lemma ItemText(items: Items, pretty: bool, depth: nat)
    requires items.Item?
    ensures ItemsText(items, pretty, depth)
         == Text(items.first, pretty, depth) + ItemsTail(items.rest, pretty, depth)
  {
    if items.rest.Item? {
      Group2(Text(items.first, pretty, depth), ",", ItemsText(items.rest, pretty, depth));
    }
  }

  lemma ObjectText(o: string, members: Members, pretty: bool, depth: nat)
    ensures o + "{" + MemberLines(members, pretty, depth + 1)
            + (if members == NoMembers then "" else LineEnd(pretty, depth)) + "}"
         == o + Text(Obj(members), pretty, depth)
  {
    Group4(o, "{", MemberLines(members, pretty, depth + 1),
           if members == NoMembers then "" else LineEnd(pretty, depth), "}");
  }

  function MemberText(name: string, t: Json, pretty: bool, depth: nat): string {
    LineEnd(pretty, depth) + Quoted(name) + ":" + Blank(pretty) + Text(t, pretty, depth)
  }

  lemma FirstMember(members: Members, pretty: bool, depth: nat)
    requires members.Member?
    ensures MemberLines(members, pretty, depth)
         == MemberText(members.name, members.first, pretty, depth) + MoreLines(members.rest, pretty, depth)
  {
    var q, t := Quoted(members.name), Text(members.first, pretty, depth);
    var front := LineEnd(pretty, depth) + q + ":" + Blank(pretty) + t;
    assert !pretty ==> front == q + ":" + t;
    if pretty {
      Group2(NewLine(depth) + q, ":", " ");
      assert ":" + " " == ": ";
    }
    if members.rest.Member? {
      Group2(front, ",", MemberLines(members.rest, pretty, depth));
    }
  }

  lemma {:induction false} EscapeAppend(s: string, t: string)
    ensures Escape(s + t) == Escape(s) + Escape(t)
  {
    if s == "" {
      assert s + t == t;
    } else {
      assert (s + t)[1..] == s[1..] + t;
      EscapeAppend(s[1..], t);
      Group2(EscapeChar(s[0]), Escape(s[1..]), Escape(t));
    }
  }

  lemma EscapeOne(s: string, i: nat)
    requires i < |s|
    ensures Escape(s[..i + 1]) == Escape(s[..i]) + EscapeChar(s[i])
  {
    assert s[..i + 1] == s[..i] + [s[i]];
    EscapeAppend(s[..i], [s[i]]);
    assert [s[i]][1..] == "";
  }

  class Writer {
    var out: string
    var depth: nat
    var pretty: bool
    var sep: char

    constructor ()
      ensures out == "" && depth == 0 && !pretty && sep == NUL
    {
      out, depth, pretty, sep := "", 0, false, NUL;
    }

    method SetPretty(on: bool)
      modifies this`pretty
      ensures pretty == on
    {
      pretty := on;
    }

    /** The writer insists on being back at depth 0. */
    method Destroy()
      requires depth == 0
      modifies this`out
      ensures out == old(out) + "\n"
    {
      out := out + "\n";
    }

    method Indent()
      modifies this`out
      ensures out == old(out) + Spaces(depth)
    {
      for i := 0 to depth
        invariant out == old(out) + Spaces(i)
      {
        out := out + "    ";
      }
    }

    method Eol()
      modifies this`out
      ensures out == old(out) + LineEnd(pretty, depth)
    {
      if !pretty {
        return;
      }
      out := out + "\n";
      Indent();
    }

    method Eor()
      modifies this`out, this`sep
      ensures out == old(out) + Pending(old(sep)) && sep == ','
    {
      if sep != NUL {
        out := out + [sep];
      }
      sep := ',';
    }

    method Puts(str: CString)
      modifies this`out
      ensures out == old(out) + Quoted(str)
    {
      out := out + "\"";
      for i := 0 to |str|
        invariant out == old(out) + ("\"" + Escape(str[..i]))
      {
        EscapeOne(str, i);
        Group2(old(out), "\"" + Escape(str[..i]), EscapeChar(str[i]));
        Group2("\"", Escape(str[..i]), EscapeChar(str[i]));
        PutChar(str[i]);
      }
      assert str[..|str|] == str;
      Group2(old(out), "\"" + Escape(str), "\"");
      out := out + "\"";
    }

    method PutChar(c: char)
      modifies this`out
      ensures out == old(out) + EscapeChar(c)
    {
      if c == '\t' {
        out := out + "\\t";
      } else if c == '\n' {
        out := out + "\\n";
      } else if c == '\r' {
        out := out + "\\r";
      } else if c == FF {
        out := out + "\\f";
      } else if c == BS {
        out := out + "\\b";
      } else if c == '\\' {
        out := out + "\\\\";
      } else if c == '"' {
        out := out + "\\\"";
      } else if c == '\'' {
        out := out + "\\'";
      } else {
        out := out + [c];
      }
    }

    /** The depth counter is unsigned and wraps around. */
    method Begin(c: char)
      modifies this
      ensures out == old(out) + Pending(old(sep)) + [c]
      ensures depth == Add32(old(depth), 1) && sep == NUL && pretty == old(pretty)
    {
      Eor();
      out := out + [c];
      depth := Add32(depth, 1);
      sep := NUL;
    }

    method End(c: char)
      requires depth > 0
      modifies this
      ensures depth == old(depth) - 1 && sep == ',' && pretty == old(pretty)
      ensures out == old(out) + (if old(sep) != NUL then LineEnd(pretty, depth) else "") + [c]
    {
      depth := depth - 1;
      if sep != NUL {
        Eol();
      }
      out := out + [c];
      sep := ',';
    }

    method Name(name: CString)
      modifies this
      ensures depth == old(depth) && pretty == old(pretty) && sep == NUL
      ensures out == old(out) + Pending(old(sep)) + LineEnd(pretty, depth) + Quoted(name) + ":" + Blank(pretty)
    {
      Eor();
      Eol();
      sep := NUL;
      Puts(name);
      out := out + ":";
      if pretty {
        out := out + " ";
      }
    }

    method Printf(text: string)
      modifies this`out, this`sep
      ensures out == old(out) + Pending(old(sep)) + text && sep == ','
    {
      Eor();
      out := out + text;
    }

    method String(value: CString)
      modifies this`out, this`sep
      ensures out == old(out) + Pending(old(sep)) + Quoted(value) && sep == ','
    {
      Eor();
      Puts(value);
    }

    method StartObject()
      modifies this
      ensures out == old(out) + Pending(old(sep)) + "{"
      ensures depth == Add32(old(depth), 1) && sep == NUL && pretty == old(pretty)
    {
      Begin('{');
    }

    method EndObject()
      requires depth > 0
      modifies this
      ensures depth == old(depth) - 1 && sep == ',' && pretty == old(pretty)
      ensures out == old(out) + (if old(sep) != NUL then LineEnd(pretty, depth) else "") + "}"
    {
      End('}');
    }

    method StartArray()
      modifies this
      ensures out == old(out) + Pending(old(sep)) + "[" + Blank(pretty)
      ensures depth == Add32(old(depth), 1) && sep == NUL && pretty == old(pretty)
    {
      Begin('[');
      if pretty {
        out := out + " ";
      }
    }

    method EndArray()
      requires depth > 0
      modifies this
      ensures depth == old(depth) - 1 && sep == ',' && pretty == old(pretty)
      ensures out == old(out) + (if old(sep) != NUL then Blank(pretty) else "") + "]"
    {
      if pretty && sep != NUL {
        out := out + " ";
      }
      sep := NUL;
      End(']');
    }

    /** A tree written through the calls: the output is its text behind a pending
        separator, and the depth is back where it was. */
    method Write(t: Json)
      requires depth + Height(t) < U32
      modifies this
      ensures out == old(out) + Pending(old(sep)) + Text(t, pretty, depth)
      ensures depth == old(depth) && pretty == old(pretty) && sep == ','
      decreases t, 0
    {
      match t
      case Str(text) => String(text);
      case Token(token) => Printf(token);
      case Arr(items) => WriteArray(items);
      case Obj(members) => WriteObject(members);
    }

    method WriteArray(items: Items)
      requires depth + 1 + ItemsHeight(items) < U32
      modifies this
      ensures out == old(out) + Pending(old(sep)) + Text(Arr(items), pretty, depth)
      ensures depth == old(depth) && pretty == old(pretty) && sep == ','
      decreases items, 2
    {
      ArrayText(out + Pending(sep), items, pretty, depth);
      ArrayCalls(items);
    }

    method ArrayCalls(items: Items)
      requires depth + 1 + ItemsHeight(items) < U32
      modifies this
      ensures out == old(out) + Pending(old(sep)) + "[" + Blank(pretty) + ItemsText(items, pretty, depth + 1)
                     + (if items == NoItems then "" else Blank(pretty)) + "]"
      ensures depth == old(depth) && pretty == old(pretty) && sep == ','
      decreases items, 1
    {
      StartArray();
      assert out + "" == out;
      WriteItems(items);
      EndArray();
    }

    method WriteItems(items: Items)
      requires depth + ItemsHeight(items) < U32
      modifies this
      ensures out == old(out) + (if items == NoItems then "" else Pending(old(sep))) + ItemsText(items, pretty, depth)
      ensures depth == old(depth) && pretty == old(pretty)
      ensures sep == if items == NoItems then old(sep) else ','
      decreases items, 0
    {
      if items.Item? {
        ghost var o := out + Pending(sep);
        ItemText(items, pretty, depth);
        Group2(o, Text(items.first, pretty, depth), ItemsTail(items.rest, pretty, depth));
        Write(items.first);
        Group2(out, ",", ItemsText(items.rest, pretty, depth));
        WriteItems(items.rest);
      }
    }

    method WriteObject(members: Members)
      requires depth + 1 + MembersHeight(members) < U32
      modifies this
      ensures out == old(out) + Pending(old(sep)) + Text(Obj(members), pretty, depth)
      ensures depth == old(depth) && pretty == old(pretty) && sep == ','
      decreases members, 2
    {
      ObjectText(out + Pending(sep), members, pretty, depth);
      ObjectCalls(members);
    }

    method ObjectCalls(members: Members)
      requires depth + 1 + MembersHeight(members) < U32
      modifies this
      ensures out == old(out) + Pending(old(sep)) + "{" + MemberLines(members, pretty, depth + 1)
                     + (if members == NoMembers then "" else LineEnd(pretty, depth)) + "}"
      ensures depth == old(depth) && pretty == old(pretty) && sep == ','
      decreases members, 1
    {
      StartObject();
      assert out + "" == out;
      WriteMembers(members);
      EndObject();
    }

    method WriteMembers(members: Members)
      requires depth + MembersHeight(members) < U32
      modifies this
      ensures out == old(out) + (if members == NoMembers then "" else Pending(old(sep)))
                     + MemberLines(members, pretty, depth)
      ensures depth == old(depth) && pretty == old(pretty)
      ensures sep == if members == NoMembers then old(sep) else ','
      decreases members, 0
    {
      if members.Member? {
        ghost var o, line := out + Pending(sep), MemberText(members.name, members.first, pretty, depth);
        FirstMember(members, pretty, depth);
        Group2(o, line, MoreLines(members.rest, pretty, depth));
        WriteMember(members.name, members.first);
        Group2(out, ",", MemberLines(members.rest, pretty, depth));
        WriteMembers(members.rest);
      }
    }

    method WriteMember(name: CString, t: Json)
      requires depth + Height(t) < U32
      modifies this
      ensures out == old(out) + Pending(old(sep)) + MemberText(name, t, pretty, depth)
      ensures depth == old(depth) && pretty == old(pretty) && sep == ','
      decreases t, 1
    {
      Group5(out + Pending(sep), LineEnd(pretty, depth), Quoted(name), ":", Blank(pretty), Text(t, pretty, depth));
      Name(name);
      Write(t);
    }
  }

  /** A document, from the creation of the writer to its destruction: without its
      layout it is the compact text, and compact text reads back as the tree. */
  method Document(t: Json, pretty: bool) returns (text: string)
    requires Height(t) < U32
    ensures text == Text(t, pretty, 0) + "\n"
    ensures Plain(t) ==> Strip(text, Outside) == Compact(t)
    ensures Readable(t) && !pretty ==> ReadValue(text[..|text| - 1]) == Some((t, ""))
  {
    var w := new Writer();
    w.SetPretty(pretty);
    w.Write(t);
    assert w.out == Text(t, pretty, 0);
    w.Destroy();
    text := w.out;
    Layout(t, pretty);
    ReadsBack(t);
    assert text[..|text| - 1] == Text(t, pretty, 0);
  }

  lemma Layout(t: Json, pretty: bool)
    ensures Plain(t) ==> Strip(Text(t, pretty, 0) + "\n", Outside) == Compact(t)
  {
    if Plain(t) {
      if pretty {
        PrettyStripsToCompact(t, 0);
      } else {
        CompactIsBare(t);
      }
      StripNewLine(0);
      assert NewLine(0) == "\n" && Compact(t) + "" == Compact(t);
      StripsAppend(Text(t, pretty, 0), Compact(t), "\n", "");
    }
  }

  lemma ReadsBack(t: Json)
    ensures Readable(t) ==> ReadValue(Compact(t)) == Some((t, ""))
  {
    if Readable(t) {
      CompactReadBack(t, "");
      assert Compact(t) + "" == Compact(t);
    }
  }
}
