/** A reader for compact JSON text, and the proof that it undoes the printer. */
module JsonReader {
  import opened Basics
  import opened JsonText

  predicate Delimiter(c: char) { c == ',' || c == ']' || c == '}' || c == ':' }

  function ReadToken(s: string): (r: (string, string))
    ensures |r.0| + |r.1| == |s|
  {
    if s == "" || Delimiter(s[0]) then ("", s)
    else var (token, rest) := ReadToken(s[1..]); ([s[0]] + token, rest)
  }

  function ReadValue(s: string): (r: Option<(Json, string)>)
    ensures r.Some? ==> |r.value.1| < |s|
    decreases |s|, 0
  {
    if s == "" then None
    else if s[0] == '"' then
      match ReadString(s[1..])
      case None => None
      case Some((text, rest)) => if NUL in text then None else Some((Str(text), rest))
    else if s[0] == '[' then
      if |s| > 1 && s[1] == ']' then Some((Arr(NoItems), s[2..]))
      else
        match ReadItems(s[1..])
        case None => None
        case Some((items, rest)) => Some((Arr(items), rest))
    else if s[0] == '{' then
      if |s| > 1 && s[1] == '}' then Some((Obj(NoMembers), s[2..]))
      else
        match ReadMembers(s[1..])
        case None => None
        case Some((members, rest)) => Some((Obj(members), rest))
    else
      var (token, rest) := ReadToken(s);
      if token == "" then None else Some((Token(token), rest))
  }

  /** One item or more, and the closing bracket. */
  function ReadItems(s: string): (r: Option<(Items, string)>)
    ensures r.Some? ==> |r.value.1| < |s|
    decreases |s|, 1
  {
    match ReadValue(s)
    case None => None
    case Some((t, rest)) =>
      if rest == "" then None
      else if rest[0] == ']' then Some((Item(t, NoItems), rest[1..]))
      else if rest[0] != ',' then None
      else
        match ReadItems(rest[1..])
        case None => None
        case Some((items, rest')) => Some((Item(t, items), rest'))
  }

  /** One member or more, and the closing brace. */
  function ReadMembers(s: string): (r: Option<(Members, string)>)
    ensures r.Some? ==> |r.value.1| < |s|
    decreases |s|, 2
  {
    if s == "" || s[0] != '"' then None
    else
      match ReadString(s[1..])
      case None => None
      case Some((name, colon)) =>
        if colon == "" || colon[0] != ':' || NUL in name then None
        else
          match ReadValue(colon[1..])
          case None => None
          case Some((t, rest)) =>
            if rest == "" then None
            else if rest[0] == '}' then Some((Member(name, t, NoMembers), rest[1..]))
            else if rest[0] != ',' then None
            else
              match ReadMembers(rest[1..])
              case None => None
              case Some((members, rest')) => Some((Member(name, t, members), rest'))
  }

  // ----- reading back -----

  /** A token that can be told from the rest of the text. */
  predicate ReadableToken(s: string) {
    s != "" && s[0] !in ['"', '[', '{'] && forall c :: c in s ==> !Delimiter(c)
  }

  predicate Readable(t: Json) {
    match t
    case Str(_) => true
    case Token(token) => ReadableToken(token)
    case Arr(items) => ReadableItems(items)
    case Obj(members) => ReadableMembers(members)
  }

  predicate ReadableItems(items: Items) {
    match items
    case NoItems => true
    case Item(t, rest) => Readable(t) && ReadableItems(rest)
  }

  predicate ReadableMembers(members: Members) {
    match members
    case NoMembers => true
    case Member(_, t, rest) => Readable(t) && ReadableMembers(rest)
  }

  predicate Ends(rest: string) { rest == "" || Delimiter(rest[0]) }

  lemma {:induction false} TokenReadBack(token: string, rest: string)
    requires (forall c :: c in token ==> !Delimiter(c)) && Ends(rest)
    ensures ReadToken(token + rest) == (token, rest)
  {
    if token == "" {
      assert token + rest == rest;
    } else {
      assert (token + rest)[1..] == token[1..] + rest;
      TokenReadBack(token[1..], rest);
      assert token == [token[0]] + token[1..];
    }
  }

  lemma StringReadBack(s: CString, rest: string)
    ensures (Quoted(s) + rest)[0] == '"' && ReadString((Quoted(s) + rest)[1..]) == Some((s, rest))
  {
    assert (Quoted(s) + rest)[1..] == Escape(s) + "\"" + rest;
    ReadBack(s, rest);
  }

  lemma StartsValue(t: Json)
    requires Readable(t)
    ensures Compact(t) != "" && !Delimiter(Compact(t)[0])
  {
  }

  /** Reading what the printer wrote gives the tree back, and leaves the rest. */
  lemma {:induction false} CompactReadBack(t: Json, rest: string)
    requires Readable(t) && Ends(rest)
    ensures ReadValue(Compact(t) + rest) == Some((t, rest))
    decreases t
  {
    match t
    case Str(text) => StringReadBack(text, rest);
    case Token(token) => TokenReadBack(token, rest);
    case Arr(items) => ArrayReadBack(items, rest);
    case Obj(members) => ObjectReadBack(members, rest);
  }

  lemma {:induction false} ArrayReadBack(items: Items, rest: string)
    requires ReadableItems(items)
    ensures ReadValue(Compact(Arr(items)) + rest) == Some((Arr(items), rest))
    decreases items, 1
  {
    var s := Compact(Arr(items)) + rest;
    if items == NoItems {
      assert s == "[]" + rest && s[2..] == rest;
    } else {
      var c := CompactItems(items);
      assert s[1..] == c + "]" + rest;
      ItemsReadBack(items, rest);
      StartsValue(items.first);
      assert s[1] == c[0];
    }
  }

  lemma {:induction false} ItemsReadBack(items: Items, rest: string)
    requires ReadableItems(items) && items.Item?
    ensures ReadItems(CompactItems(items) + "]" + rest) == Some((items, rest))
    decreases items, 0
  {
    var s, v := CompactItems(items) + "]" + rest, Compact(items.first);
    if items.rest == NoItems {
      var end := "]" + rest;
      assert s == v + end && end[1..] == rest;
      CompactReadBack(items.first, end);
    } else {
      var more := CompactItems(items.rest) + "]" + rest;
      assert s == v + ("," + more) && ("," + more)[1..] == more;
      CompactReadBack(items.first, "," + more);
      ItemsReadBack(items.rest, rest);
    }
  }

  lemma {:induction false} ObjectReadBack(members: Members, rest: string)
    requires ReadableMembers(members)
    ensures ReadValue(Compact(Obj(members)) + rest) == Some((Obj(members), rest))
    decreases members, 1
  {
    var s := Compact(Obj(members)) + rest;
    if members == NoMembers {
      assert s == "{}" + rest && s[2..] == rest;
    } else {
      var c := CompactMembers(members);
      assert s[1..] == c + "}" + rest;
      MembersReadBack(members, rest);
      assert s[1] == c[0] == '"';
    }
  }

  function MembersTail(members: Members, rest: string): string
    requires members.Member?
  {
    if members.rest == NoMembers then "}" + rest else "," + (CompactMembers(members.rest) + "}" + rest)
  }

  lemma MembersText(members: Members, rest: string)
    requires members.Member?
    ensures CompactMembers(members) + "}" + rest
         == Quoted(members.name) + (":" + (Compact(members.first) + MembersTail(members, rest)))
  {
    var q, v := Quoted(members.name), Compact(members.first);
    if members.rest == NoMembers {
      Nest(q, v, "}" + rest);
      Group2(q + ":" + v, "}", rest);
    } else {
      var m := CompactMembers(members.rest);
      Group4(q + ":" + v, ",", m, "}", rest);
      Group3(",", m, "}", rest);
      Nest(q, v, "," + (m + "}" + rest));
    }
  }

  lemma Nest(q: string, v: string, tail: string)
    ensures q + ":" + v + tail == q + (":" + (v + tail))
  {
  }

  lemma {:induction false} MembersReadBack(members: Members, rest: string)
    requires ReadableMembers(members) && members.Member?
    ensures ReadMembers(CompactMembers(members) + "}" + rest) == Some((members, rest))
    decreases members, 0
  {
    var v := Compact(members.first);
    var tail := MembersTail(members, rest);
    MembersText(members, rest);
    StringReadBack(members.name, ":" + (v + tail));
    assert (":" + (v + tail))[1..] == v + tail;
    CompactReadBack(members.first, tail);
    if members.rest == NoMembers {
      assert tail[1..] == rest;
    } else {
      assert tail[1..] == CompactMembers(members.rest) + "}" + rest;
      MembersReadBack(members.rest, rest);
    }
  }

  /** So compact text determines its tree. */
  lemma CompactInjective(t: Json, u: Json)
    requires Readable(t) && Readable(u) && Compact(t) == Compact(u)
    ensures t == u
  {
    CompactReadBack(t, "");
    CompactReadBack(u, "");
    assert Compact(t) + "" == Compact(t) && Compact(u) + "" == Compact(u);
  }
}
