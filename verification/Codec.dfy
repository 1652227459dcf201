// The wire format. The client prints targets and the server splits them; the server prints a JSON
// object and the client finds the value in it with two substring searches.

module Codec {

  const NUL: char := '\0'

  // ----- searching -----

  ghost predicate OccursAt(text: string, p: string, i: int) {
    0 <= i <= |text| - |p| && text[i..i + |p|] == p
  }

  // `find`: the index of the first occurrence, or -1.
  function Find(text: string, p: string): (i: int)
    ensures i == -1 || 0 <= i <= |text| - |p|
  {
    if |text| < |p| then -1
    else if text[..|p|] == p then 0
    else if text == [] then -1
    else
      var i := Find(text[1..], p);
      if i < 0 then -1 else i + 1
  }

  lemma TailSlice(text: string, i: nat, j: nat)
    requires i <= j < |text|
    ensures text[1..][i..j] == text[i + 1..j + 1]
  {
  }

  lemma {:induction false} FindIsFirst(text: string, p: string)
    ensures var i := Find(text, p);
            if i == -1 then forall j :: !OccursAt(text, p, j)
            else OccursAt(text, p, i) && forall j :: OccursAt(text, p, j) ==> i <= j
  {
    if |text| >= |p| && text[..|p|] != p && text != [] {
      FindIsFirst(text[1..], p);
      forall j | OccursAt(text, p, j) ensures OccursAt(text[1..], p, j - 1) {
        TailSlice(text, j - 1, j - 1 + |p|);
      }
      var i := Find(text[1..], p);
      if i >= 0 {
        TailSlice(text, i, i + |p|);
      }
    }
  }

  // ----- JSON strings (section 7 of RFC 8259), as nlohmann's `dump` writes them -----

  const HEX := "0123456789abcdef"

  function Escaped(c: char): string {
    match c
    case '\"' => "\\\""
    case '\\' => "\\\\"
    case '\n' => "\\n"
    case '\r' => "\\r"
    case '\t' => "\\t"
    case _ =>
      var n := c as int;
      if n == 8 then "\\b"
      else if n == 12 then "\\f"
      else if n < 32 then "\\u00" + [HEX[n / 16], HEX[n % 16]]
      else [c]
  }

  predicate IsPlain(c: char) {
    c as int >= 32 && c != '\"' && c != '\\'
  }

  // No character needs an escape.
  predicate Plain(s: string) {
    forall i :: 0 <= i < |s| ==> IsPlain(s[i])
  }

  // What stands between the quotes.
  function Literal(s: string): string {
    if s == [] then [] else Escaped(s[0]) + Literal(s[1..])
  }

  const OPEN := "{\"key\":\""
  const MIDDLE := "\",\"value\":\""
  const CLOSE := "\"}"

  function Framed(k: string, v: string): string {
    OPEN + k + MIDDLE + v + CLOSE
  }

  function Dump(key: string, value: string): string {
    Framed(Literal(key), Literal(value))
  }

  // ----- the client's reading of a body -----

  const VALUE_MARK := "value\":\""
  const END_MARK := "\"}"

  // Null, a fresh buffer and its size, or a search result that makes the client run out of bounds.
  datatype Parsed = Null | Buffer(bytes: string) | OutOfBounds

  function ParseBody(body: string): Parsed {
    if body == [] || body[0] != '{' then Null
    else
      var x, y := Find(body, VALUE_MARK), Find(body, END_MARK);
      if x + 8 > |body| || y - x - 8 < 0 then OutOfBounds
      else Buffer(body[x + 8..y] + [NUL])
  }

  // ----- literals hide no quotes -----

  // Every quote stands after a backslash, as it does in a literal.
  predicate QuotesEscaped(s: string) {
    forall i :: 0 <= i < |s| && s[i] == '\"' ==> i > 0 && s[i - 1] == '\\'
  }

  // Behind the opening quote, the end mark is met inside the literal.
  predicate StopsAt(s: string, i: int) {
    0 <= i < |s| && s[i] == '}' && (i == 0 || s[i - 1] == '\"')
  }

  predicate Stops(s: string) {
    exists i :: 0 <= i < |s| && StopsAt(s, i)
  }

  lemma {:induction false} LiteralEscapesQuotes(s: string)
    ensures QuotesEscaped(Literal(s))
  {
    if s != [] {
      LiteralEscapesQuotes(s[1..]);
      var e, rest := Escaped(s[0]), Literal(s[1..]);
      assert Literal(s) == e + rest;
      assert rest != [] ==> rest[0] != '\"';
    }
  }

  // ----- where the client's searches end up -----

  lemma FrameChars(k: string, v: string)
    ensures var t, n := Framed(k, v), |k|;
            && |t| == n + |v| + 21
            && (forall i :: 0 <= i < 8 ==> t[i] == OPEN[i])
            && (forall i :: 0 <= i < n ==> t[8 + i] == k[i])
            && (forall i :: 0 <= i < 11 ==> t[8 + n + i] == MIDDLE[i])
            && (forall i :: 0 <= i < |v| ==> t[19 + n + i] == v[i])
            && (forall i :: 0 <= i < 2 ==> t[19 + n + |v| + i] == CLOSE[i])
  {
  }

  lemma OccursAtChars(text: string, p: string, j: int, i: int)
    requires OccursAt(text, p, j) && 0 <= i < |p|
    ensures text[j + i] == p[i]
  {
    assert text[j..j + |p|][i] == text[j + i];
  }

  // A quote of the frame before the value: which one it is, and what stands beside it.
  lemma QuoteBeforeValue(k: string, v: string, i: int)
    requires QuotesEscaped(k) && 0 <= i < 18 + |k| && Framed(k, v)[i] == '\"'
    ensures var t, n := Framed(k, v), |k|;
            || i == 1 || i == 5 || i == 7
            || (8 < i < 8 + n && t[i - 1] == '\\')
            || i == 8 + n || i == 10 + n || i == 16 + n
  {
    FrameChars(k, v);
    if i < 8 {
      assert OPEN[i] == '\"';
    } else if i < 8 + |k| {
      assert k[i - 8] == Framed(k, v)[8 + (i - 8)];
      assert k[i - 9] == Framed(k, v)[8 + (i - 9)];
    } else {
      assert MIDDLE[i - 8 - |k|] == Framed(k, v)[8 + |k| + (i - 8 - |k|)] == '\"';
    }
  }

  lemma NoMarkBefore(k: string, v: string, j: int)
    requires QuotesEscaped(k) && OccursAt(Framed(k, v), VALUE_MARK, j)
    ensures j >= |k| + 11
  {
    var t := Framed(k, v);
    FrameChars(k, v);
    OccursAtChars(t, VALUE_MARK, j, 4);
    OccursAtChars(t, VALUE_MARK, j, 5);
    OccursAtChars(t, VALUE_MARK, j, 6);
    if j < |k| + 11 {
      QuoteBeforeValue(k, v, j + 5);
    }
  }

  // The value mark is found where it was printed, whatever the key.
  lemma ValueMarkFound(k: string, v: string)
    requires QuotesEscaped(k)
    ensures Find(Framed(k, v), VALUE_MARK) == |k| + 11
  {
    var t := Framed(k, v);
    FindIsFirst(t, VALUE_MARK);
    assert t == OPEN + k + MIDDLE[..3] + VALUE_MARK + (v + CLOSE);
    assert OccursAt(t, VALUE_MARK, |k| + 11);
    NoMarkBefore(k, v, Find(t, VALUE_MARK));
  }

  // Which character of the frame follows which.
  lemma EndMarkChars(k: string, v: string, j: nat)
    requires j <= |k| + |v| + 19
    ensures var t, n := Framed(k, v), |k|;
            t[j] == '\"' && t[j + 1] == '}' <==> StopsAt(k, j - 7) || StopsAt(v, j - 18 - n) || j == 19 + n + |v|
  {
    var t, n := Framed(k, v), |k|;
    FrameChars(k, v);
    if j < 7 {
      assert t[j + 1] == OPEN[j + 1];
    } else if j < 7 + n {
      assert t[j + 1] == k[j - 7];
      assert j > 7 ==> t[j] == k[j - 8];
    } else if j < 18 + n {
      assert t[j + 1] == MIDDLE[j - 7 - n];
    } else if j < 18 + n + |v| {
      assert t[j + 1] == v[j - 18 - n];
      assert j > 18 + n ==> t[j] == v[j - 19 - n];
    }
  }

  // The end mark stands at the end, and wherever the key or the value stops it.
  lemma EndMarkOccurs(k: string, v: string, j: int)
    ensures OccursAt(Framed(k, v), END_MARK, j) <==>
            StopsAt(k, j - 7) || StopsAt(v, j - 18 - |k|) || j == 19 + |k| + |v|
  {
    var t := Framed(k, v);
    assert |t| == |k| + |v| + 21;
    if 0 <= j <= |t| - 2 {
      EndMarkChars(k, v, j);
      assert t[j..j + 2] == [t[j], t[j + 1]];
    }
  }

  lemma EndMarkFound(k: string, v: string)
    ensures var y, n := Find(Framed(k, v), END_MARK), |k|;
            && (Stops(k) ==> 0 <= y < 7 + n)
            && (!Stops(k) && Stops(v) ==> StopsAt(v, y - 18 - n) && (StopsAt(v, 0) ==> y == 18 + n))
            && (!Stops(k) && !Stops(v) ==> y == 19 + n + |v|)
  {
    var t, n := Framed(k, v), |k|;
    var y := Find(t, END_MARK);
    FindIsFirst(t, END_MARK);
    EndMarkOccurs(k, v, y);
    EndMarkOccurs(k, v, 19 + n + |v|);
    if i :| 0 <= i < n && StopsAt(k, i) {
      EndMarkOccurs(k, v, i + 7);
    }
    if i :| 0 <= i < |v| && StopsAt(v, i) {
      EndMarkOccurs(k, v, i + 18 + n);
    }
    EndMarkOccurs(k, v, 18 + n);
  }

  lemma ParseUpTo(k: string, v: string)
    requires QuotesEscaped(k)
    ensures var y, n := Find(Framed(k, v), END_MARK), |k|;
            ParseBody(Framed(k, v)) ==
            if y < 19 + n then OutOfBounds else if y - 19 - n <= |v| then Buffer(v[..y - 19 - n] + [NUL])
            else ParseBody(Framed(k, v))
  {
    var t, n := Framed(k, v), |k|;
    var y := Find(t, END_MARK);
    FrameChars(k, v);
    ValueMarkFound(k, v);
    assert t[0] == OPEN[0];
    if 19 + n <= y <= 19 + n + |v| {
      assert t[n + 19..y] == v[..y - 19 - n];
    }
  }

  // What the client reads, in every case: it runs out of bounds if the end mark is met in the key
  // or as the value begins; otherwise it takes the value up to where that stops.
  lemma ParseFramed(k: string, v: string)
    requires QuotesEscaped(k)
    ensures Stops(k) || StopsAt(v, 0) ==> ParseBody(Framed(k, v)) == OutOfBounds
    ensures !Stops(k) && !Stops(v) ==> ParseBody(Framed(k, v)) == Buffer(v + [NUL])
    ensures !Stops(k) && !StopsAt(v, 0) && Stops(v) ==>
              exists i :: 0 < i < |v| && StopsAt(v, i) && ParseBody(Framed(k, v)) == Buffer(v[..i - 1] + [NUL])
  {
    EndMarkFound(k, v);
    ParseUpTo(k, v);
    if !Stops(k) && !StopsAt(v, 0) && Stops(v) {
      var i := Find(Framed(k, v), END_MARK) - 18 - |k|;
      assert 0 < i < |v| && StopsAt(v, i);
    }
  }

  // ----- the round trip -----

  lemma {:induction false} PlainIsItsLiteral(s: string)
    ensures Plain(s) ==> Literal(s) == s
    ensures !Plain(s) ==> |Literal(s)| > |s|
    ensures |Literal(s)| >= |s|
  {
    if s != [] {
      PlainIsItsLiteral(s[1..]);
      assert Plain(s) <==> IsPlain(s[0]) && Plain(s[1..]) by {
        assert forall i :: 1 <= i < |s| ==> s[i] == s[1..][i - 1];
      }
      assert Literal(s) == Escaped(s[0]) + Literal(s[1..]);
    }
  }

  // The end mark, met while reading on after a given character.
  predicate Scan(s: string, before: char) {
    s != [] && ((s[0] == '}' && before == '\"') || Scan(s[1..], s[0]))
  }

  lemma {:induction false} ScanMeets(s: string, before: char)
    ensures Scan(s, before) <==> exists i :: 0 <= i < |s| && MeetsAt(s, before, i)
  {
    if s != [] {
      ScanMeets(s[1..], s[0]);
      if i :| 0 <= i < |s[1..]| && MeetsAt(s[1..], s[0], i) {
        assert MeetsAt(s, before, i + 1);
      }
      if i :| 0 <= i < |s| && MeetsAt(s, before, i) {
        assert i == 0 || MeetsAt(s[1..], s[0], i - 1);
      }
      assert s[0] == '}' && before == '\"' ==> MeetsAt(s, before, 0);
    }
  }

  predicate MeetsAt(s: string, before: char, i: int) {
    0 <= i < |s| && s[i] == '}' && (if i == 0 then before else s[i - 1]) == '\"'
  }

  lemma {:induction false} StopsIsScan(s: string)
    ensures Stops(s) <==> Scan(s, '\"')
  {
    ScanMeets(s, '\"');
    assert forall i :: 0 <= i < |s| ==> (StopsAt(s, i) <==> MeetsAt(s, '\"', i));
  }

  // Reading over one escaped character is reading over the character.
  lemma {:induction false} ScanEscaped(c: char, rest: string, before: char)
    ensures Scan(Escaped(c) + rest, before) <==> (c == '}' && before == '\"') || Scan(rest, Last(Escaped(c)))
    ensures Last(Escaped(c)) == '\"' <==> c == '\"'
  {
    var e := Escaped(c);
    if |e| == 2 {
      ScanOver(e[0], [e[1]] + rest, before);
      ScanOver(e[1], rest, e[0]);
      assert e + rest == [e[0]] + ([e[1]] + rest);
    } else if |e| == 6 {
      ScanHex(e, rest, before);
    } else {
      ScanOver(c, rest, before);
    }
  }

  function Last(s: string): char
    requires s != []
  {
    s[|s| - 1]
  }

  lemma {:induction false} ScanOver(c: char, rest: string, before: char)
    ensures Scan([c] + rest, before) <==> (c == '}' && before == '\"') || Scan(rest, c)
  {
    assert ([c] + rest)[1..] == rest;
  }

  lemma {:induction false} ScanHex(e: string, rest: string, before: char)
    requires e != [] && '}' !in e
    ensures Scan(e + rest, before) <==> Scan(rest, Last(e))
  {
    assert e + rest == [e[0]] + (e[1..] + rest);
    ScanOver(e[0], e[1..] + rest, before);
    if |e| > 1 {
      ScanHex(e[1..], rest, e[0]);
    } else {
      assert e[1..] + rest == rest;
    }
  }

  lemma {:induction false} ScanLiteral(s: string, before: char, after: char)
    requires before == '\"' <==> after == '\"'
    ensures Scan(Literal(s), before) <==> Scan(s, after)
  {
    if s != [] {
      ScanEscaped(s[0], Literal(s[1..]), before);
      ScanLiteral(s[1..], Last(Escaped(s[0])), s[0]);
    }
  }

  // Escaping moves the places where the end mark is met, but makes or removes none.
  lemma {:induction false} LiteralStopsIff(s: string)
    ensures Stops(Literal(s)) <==> Stops(s)
  {
    StopsIsScan(s);
    StopsIsScan(Literal(s));
    ScanLiteral(s, '\"', '\"');
  }

  lemma {:induction false} BackslashesDouble(s: string, m: nat)
    requires m <= |s| && forall i :: 0 <= i < m ==> s[i] == '\\'
    ensures |Literal(s)| >= 2 * m && forall j :: 0 <= j < 2 * m ==> Literal(s)[j] == '\\'
  {
    if m > 0 {
      BackslashesDouble(s[1..], m - 1);
      assert Literal(s) == "\\\\" + Literal(s[1..]);
    }
  }

  // A text that begins its own literal as a backslash is nothing but backslashes.
  lemma {:induction false} OnlyBackslashes(s: string, m: nat)
    requires s <= Literal(s) && s != [] && s[0] == '\\' && m <= |s|
    ensures forall i :: 0 <= i < m ==> s[i] == '\\'
  {
    if m > 1 {
      OnlyBackslashes(s, m - 1);
      BackslashesDouble(s, m - 1);
    }
  }

  // A text that begins its own literal has no quotes in it.
  lemma {:induction false} OwnPrefixHasNoQuote(s: string)
    requires s <= Literal(s)
    ensures '\"' !in Literal(s)
  {
    if s != [] {
      assert Literal(s) == Escaped(s[0]) + Literal(s[1..]);
      if IsPlain(s[0]) {
        assert Literal(s)[1..] == Literal(s[1..]);
        OwnPrefixHasNoQuote(s[1..]);
      } else {
        assert s[0] == Literal(s)[0] == '\\';
        OnlyBackslashes(s, |s|);
        AllBackslashes(s);
      }
    }
  }

  lemma {:induction false} AllBackslashes(s: string)
    requires forall i :: 0 <= i < |s| ==> s[i] == '\\'
    ensures '\"' !in Literal(s)
  {
    if s != [] {
      AllBackslashes(s[1..]);
    }
  }

  // The value comes back, with its terminating NUL, exactly when it needs no escape and neither
  // the key nor the value has the end mark behind its opening quote.
  lemma BodyRoundTripIff(key: string, value: string)
    ensures ParseBody(Dump(key, value)) == Buffer(value + [NUL]) <==>
            Plain(value) && !Stops(key) && !Stops(value)
  {
    var k, v := Literal(key), Literal(value);
    LiteralEscapesQuotes(key);
    ParseFramed(k, v);
    LiteralStopsIff(key);
    LiteralStopsIff(value);
    PlainIsItsLiteral(value);
    if ParseBody(Dump(key, value)) == Buffer(value + [NUL]) && Stops(v) {
      var i :| 0 < i < |v| && StopsAt(v, i) && Buffer(value + [NUL]) == Buffer(v[..i - 1] + [NUL]);
      assert value == (value + [NUL])[..|value|] == v[..i - 1];
      assert v[i - 1] in v;
      OwnPrefixHasNoQuote(value);
    } else if ParseBody(Dump(key, value)) == Buffer(value + [NUL]) {
      assert value == (value + [NUL])[..|value|] == v;
    }
  }

  // In a value that needs no escape the end mark can only be met at its beginning.
  lemma PlainStopsAtStart(s: string)
    requires Plain(s)
    ensures Stops(s) <==> s != [] && s[0] == '}'
  {
    if s != [] && s[0] == '}' {
      assert StopsAt(s, 0);
    }
  }

  // Where nothing needs an escape, the value comes back exactly when neither text begins with `}`.
  lemma PlainRoundTripIff(key: string, value: string)
    requires Plain(key) && Plain(value)
    ensures ParseBody(Dump(key, value)) == Buffer(value + [NUL]) <==>
            (key == [] || key[0] != '}') && (value == [] || value[0] != '}')
  {
    BodyRoundTripIff(key, value);
    PlainStopsAtStart(key);
    PlainStopsAtStart(value);
  }

  // ----- targets -----

  function PutTarget(key: string, text: string): string {
    "/" + key + "/" + text
  }

  // What the server takes a PUT target for: a key, and the bytes of a value with their NUL.
  datatype PutCall = PutCall(key: string, bytes: string) | BadTarget | EmptyTarget

  function ParsePut(target: string): PutCall {
    if target == [] then EmptyTarget
    else if target[0] != '/' then BadTarget
    else
      var i := Find(target[1..], "/");
      if i < 0 then BadTarget else PutCall(target[1..][..i], target[1..][i + 1..] + [NUL])
  }

  // A PUT means the call that was made exactly when the key has no slash and the value ends in NUL.
  lemma PutRoundTripIff(key: string, bytes: string)
    requires bytes != []
    ensures ParsePut(PutTarget(key, bytes[..|bytes| - 1])) == PutCall(key, bytes) <==>
            '/' !in key && bytes[|bytes| - 1] == NUL
  {
    var text := bytes[..|bytes| - 1];
    var target := PutTarget(key, text);
    var rest := key + "/" + text;
    assert target[1..] == rest;
    FindIsFirst(rest, "/");
    var i := Find(rest, "/");
    SlashOccurs(key, text, |key|);
    SlashOccurs(key, text, i);
    assert bytes == text + [bytes[|bytes| - 1]];
    if '/' in key {
      var j :| 0 <= j < |key| && key[j] == '/';
      SlashOccurs(key, text, j);
    } else {
      assert rest[..|key|] == key && rest[|key| + 1..] == text;
    }
  }

  lemma SlashOccurs(key: string, text: string, j: int)
    ensures 0 <= j <= |key| ==>
              (OccursAt(key + "/" + text, "/", j) <==> j == |key| || key[j] == '/')
  {
    var rest := key + "/" + text;
    if 0 <= j <= |key| {
      assert rest[j..j + 1] == [rest[j]];
    }
  }
}
