// A reader of JSON objects with string members (sections 4 and 7 of RFC 8259), independent of how
// the server prints them, and without the insignificant white space that it does not print.

module JsonReader {
  import opened Basics
  import opened Sequences
  import opened Codec

  // ----- strings -----

  // The character a backslash and a letter stand for.
  function Named(c: char): Option<char> {
    match c
    case '\"' => Some('\"')
    case '\\' => Some('\\')
    case '/' => Some('/')
    case 'b' => Some(8 as char)
    case 'f' => Some(12 as char)
    case 'n' => Some('\n')
    case 'r' => Some('\r')
    case 't' => Some('\t')
    case _ => None
  }

  function Digit(c: char): (n: Option<nat>)
    ensures n.Some? ==> n.value < 16
  {
    if '0' <= c <= '9' then Some(c as int - '0' as int)
    else if 'a' <= c <= 'f' then Some(c as int - 'a' as int + 10)
    else if 'A' <= c <= 'F' then Some(c as int - 'A' as int + 10)
    else None
  }

  // The character of four hexadecimal digits; half of a surrogate pair is none.
  function CodePoint(s: string): Option<char>
    requires |s| == 4
  {
    match (Digit(s[0]), Digit(s[1]), Digit(s[2]), Digit(s[3]))
    case (Some(a), Some(b), Some(c), Some(d)) =>
      var n := 4096 * a + 256 * b + 16 * c + d;
      if n < 0xD800 || n >= 0xE000 then Some(n as char) else None
    case _ => None
  }

  // A text read, and what stands behind it.
  datatype Read<T> = Read(value: T, rest: string)

  function Before(c: char, r: Option<Read<string>>): Option<Read<string>> {
    match r
    case None => None
    case Some(r) => Some(Read([c] + r.value, r.rest))
  }

  // The rest of a string, behind its opening quote.
  function Quoted(s: string): (r: Option<Read<string>>)
    ensures r.Some? ==> |r.value.rest| < |s|
  {
    if s == [] then None
    else if s[0] == '\"' then Some(Read([], s[1..]))
    else if s[0] == '\\' then
      if |s| < 2 then None
      else if s[1] == 'u' then
        if |s| < 6 then None
        else
          match CodePoint(s[2..6])
          case None => None
          case Some(c) => Before(c, Quoted(s[6..]))
      else
        match Named(s[1])
        case None => None
        case Some(c) => Before(c, Quoted(s[2..]))
    else if s[0] as int < 32 then None
    else Before(s[0], Quoted(s[1..]))
  }

  function ReadString(s: string): (r: Option<Read<string>>)
    ensures r.Some? ==> |r.value.rest| < |s|
  {
    if s != [] && s[0] == '\"' then Quoted(s[1..]) else None
  }

  // ----- objects -----

  datatype Member = Member(name: string, text: string)

  function ReadMember(s: string): (r: Option<Read<Member>>)
    ensures r.Some? ==> |r.value.rest| < |s|
  {
    match ReadString(s)
    case None => None
    case Some(name) =>
      if name.rest == [] || name.rest[0] != ':' then None
      else
        match ReadString(name.rest[1..])
        case None => None
        case Some(text) => Some(Read(Member(name.value, text.value), text.rest))
  }

  // The members up to the closing brace, which has to end the body.
  function ReadMembers(s: string): Option<seq<Member>>
    decreases |s|
  {
    match ReadMember(s)
    case None => None
    case Some(first) =>
      if first.rest == "}" then Some([first.value])
      else if first.rest == [] || first.rest[0] != ',' then None
      else
        match ReadMembers(first.rest[1..])
        case None => None
        case Some(others) => Some([first.value] + others)
  }

  function ReadObject(body: string): Option<seq<Member>> {
    if body != [] && body[0] == '{' then ReadMembers(body[1..]) else None
  }

  // ----- what was printed is read -----

  lemma {:induction false} EscapedIsRead(c: char, rest: string)
    ensures Quoted(Escaped(c) + rest) == Before(c, Quoted(rest))
  {
    var e := Escaped(c);
    if |e| == 6 {
      var n := c as int;
      ControlIsRead(n);
      assert (e + rest)[2..6] == ['0', '0', HEX[n / 16], HEX[n % 16]] && (e + rest)[6..] == rest;
    } else if |e| == 2 {
      assert (e + rest)[2..] == rest;
    } else {
      assert (e + rest)[1..] == rest;
    }
  }

  lemma {:induction false} ControlIsRead(n: nat)
    requires n < 32
    ensures CodePoint(['0', '0', HEX[n / 16], HEX[n % 16]]) == Some(n as char)
  {
    assert Digit(HEX[n / 16]) == Some(n / 16) && Digit(HEX[n % 16]) == Some(n % 16);
  }

  lemma {:induction false} LiteralIsRead(s: string, rest: string)
    ensures Quoted(Literal(s) + "\"" + rest) == Some(Read(s, rest))
  {
    if s == [] {
      assert Literal(s) + "\"" + rest == "\"" + rest;
    } else {
      LiteralIsRead(s[1..], rest);
      EscapedIsRead(s[0], Literal(s[1..]) + "\"" + rest);
      ConcatAssociates(Escaped(s[0]), Literal(s[1..]), "\"");
      ConcatAssociates(Escaped(s[0]), Literal(s[1..]) + "\"", rest);
      assert s == [s[0]] + s[1..];
    }
  }

  // What was printed between quotes, with something behind it.
  function Between(literal: string, rest: string): string {
    "\"" + (literal + "\"" + rest)
  }

  lemma {:induction false} BetweenIsRead(s: string, rest: string)
    ensures ReadString(Between(Literal(s), rest)) == Some(Read(s, rest))
  {
    LiteralIsRead(s, rest);
    assert Between(Literal(s), rest)[1..] == Literal(s) + "\"" + rest;
  }

  lemma {:induction false} MemberIsRead(name: string, text: string, rest: string)
    ensures ReadMember(Between(Literal(name), ":" + Between(Literal(text), rest))) == Some(Read(Member(name, text), rest))
  {
    var value := Between(Literal(text), rest);
    BetweenIsRead(name, ":" + value);
    BetweenIsRead(text, rest);
    assert (":" + value)[1..] == value;
  }

  lemma ValuePart(v: string)
    ensures Between("value", ":" + Between(v, "}")) == "\"value\":\"" + (v + CLOSE)
  {
    assert v + "\"" + "}" == v + CLOSE;
  }

  lemma KeyPart(k: string, x: string)
    ensures Between("key", ":" + Between(k, "," + ("\"value\":\"" + x))) == "\"key\":\"" + (k + (MIDDLE + x))
  {
    assert k + "\"" + ("," + ("\"value\":\"" + x)) == k + (MIDDLE + x);
  }

  lemma FramedParts(k: string, v: string)
    ensures Framed(k, v) == "{" + ("\"key\":\"" + (k + (MIDDLE + (v + CLOSE))))
  {
    ConcatAssociates(OPEN + k, MIDDLE, v);
    ConcatAssociates(OPEN + k, MIDDLE + v, CLOSE);
    ConcatAssociates(MIDDLE, v, CLOSE);
    ConcatAssociates(OPEN, k, MIDDLE + (v + CLOSE));
  }

  // Any two texts are read back as they were, whatever had to be escaped.
  lemma {:induction false} ObjectIsRead(key: string, value: string)
    ensures ReadObject(Dump(key, value)) == Some([Member("key", key), Member("value", value)])
  {
    var v := Literal(value);
    ValuePart(v);
    MemberIsRead("value", value, "}");
    PlainIsItsLiteral("value");
    FirstIsRead(key, v + CLOSE, Member("value", value));
    FramedParts(Literal(key), v);
  }

  lemma {:induction false} FirstIsRead(key: string, x: string, second: Member)
    requires ReadMember("\"value\":\"" + x) == Some(Read(second, "}"))
    ensures ReadObject("{" + ("\"key\":\"" + (Literal(key) + (MIDDLE + x)))) == Some([Member("key", key), second])
  {
    var rest := "\"value\":\"" + x;
    KeyPart(Literal(key), x);
    PlainIsItsLiteral("key");
    MemberIsRead("key", key, "," + rest);
    MembersAreRead(Between("key", ":" + Between(Literal(key), "," + rest)), rest, Member("key", key), second);
  }

  lemma {:induction false} MembersAreRead(s: string, second: string, a: Member, b: Member)
    requires ReadMember(s) == Some(Read(a, "," + second)) && ReadMember(second) == Some(Read(b, "}"))
    ensures ReadObject("{" + s) == Some([a, b])
  {
    var rest := "," + second;
    assert rest[0] == ',' && rest[1..] == second && "}"[0] == '}';
    LastIsRead(second, b);
    assert ReadMembers(s) == Some([a] + [b]);
    assert ("{" + s)[0] == '{' && ("{" + s)[1..] == s && [a] + [b] == [a, b];
  }

  lemma {:induction false} LastIsRead(s: string, b: Member)
    requires ReadMember(s) == Some(Read(b, "}"))
    ensures ReadMembers(s) == Some([b])
  {
  }

  // A character is escaped only if it has to be, and then in its short form if it has one.
  lemma {:induction false} EscapesAreShort(c: char)
    ensures |Escaped(c)| == 1 <==> IsPlain(c)
    ensures |Escaped(c)| == 2 <==> exists d :: Named(d) == Some(c) && !IsPlain(c)
    ensures |Escaped(c)| == 6 || |Escaped(c)| <= 2
    ensures |Escaped(c)| == 6 ==> forall d :: d in Escaped(c) ==> !('A' <= d <= 'F')
  {
    if !IsPlain(c) && |Escaped(c)| == 2 {
      assert Named(Escaped(c)[1]) == Some(c);
    }
  }
}
