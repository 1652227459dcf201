// The networked client, and what it makes of the cache behind it: for keys and values that the
// wire format carries, calls through the client are calls on the cache.

module Client {
  import opened Basics
  import opened CacheModel
  import opened CacheRuns
  import opened Codec
  import opened Server

  // ----- reading the body of a response -----

  // Finds the value in a body and copies it to a fresh buffer with a NUL behind it. Answers null
  // if the body is no object, and stops where the searches lead out of bounds.
  method ReadBody(ret: string) returns (outOfBounds: bool, val: array?<char>, valSize: nat)
    ensures outOfBounds <==> ParseBody(ret) == OutOfBounds
    ensures !outOfBounds && val == null ==> ParseBody(ret) == Null && valSize == 0
    ensures !outOfBounds && val != null ==>
              fresh(val) && ParseBody(ret) == Buffer(val[..]) && valSize == val.Length
  {
    if ret == [] || ret[0] != '{' {
      return false, null, 0;
    }
    var x := Find(ret, VALUE_MARK);
    var y := Find(ret, END_MARK);
    if x + 8 > |ret| || y - x - 8 < 0 {
      return true, null, 0;
    }
    var value := ret[x + 8..y];
    valSize := y - x - 8 + 1;
    val := new char[valSize];
    for i := 0 to valSize - 1
      invariant val[..i] == value[..i]
    {
      val[i] := value[i];
    }
    val[valSize - 1] := NUL;
    assert val[..] == val[..valSize - 1] + [NUL];
    return false, val, valSize;
  }

  // ----- calls through the client -----

  function RequestOf(op: Op<string>): Request
    requires op.SetOp? ==> op.entry.data != []
  {
    match op
    case SetOp(k, e) => Request(PutVerb, PutTarget(k, e.data[..|e.data| - 1]))
    case GetOp(k) => Request(GetVerb, "/" + k)
    case DelOp(k) => Request(DeleteVerb, "/" + k)
    case ResetOp => Request(PostVerb, "/reset")
    case SpaceOp => Request(HeadVerb, "/")
  }

  // What the caller sees of a call. `set`, `reset` and, through the client, `del` tell nothing; a
  // fault of the server leaves the client without a response.
  datatype Seen = Quiet | Returned(value: Parsed) | Space(bytes: nat) | Down

  function BodyOf(r: Response): Option<string> {
    match r
    case Json(body) => Some(body)
    case NotFound(key) => Some("The resource '" + key + "' was not found.")
    case BadRequest(why) => Some(why)
    case Done(_) => Some("")
    case Uncaught => None
    case Overread => None
    case CacheFault => None
  }

  function SeenRemotely(op: Op<string>, r: Response): Seen {
    match BodyOf(r)
    case None => Down
    case Some(body) =>
      if op.GetOp? then Returned(ParseBody(body))
      else if op.SpaceOp? && r.Done? then Space(r.spaceUsed)
      else Quiet
  }

  function SeenDirectly(r: Reply<string>): Seen {
    if r.Hit? then Returned(Buffer(r.data))
    else if r.Miss? then Returned(Null)
    else if r.Faulty() then Down
    else if r.Used? then Space(r.bytes)
    else Quiet
  }

  // ----- what the wire carries -----

  // A text that goes through the JSON body and its NUL.
  predicate Carried(bytes: string) {
    && bytes != [] && bytes[|bytes| - 1] == NUL
    && Plain(bytes[..|bytes| - 1]) && !Stops(bytes[..|bytes| - 1])
  }

  predicate CarriedEntry(e: Entry<string>) {
    |e.data| == e.size && Carried(e.data)
  }

  ghost predicate CarriedTable(t: Table<string>) {
    forall k :: k in t ==> CarriedEntry(t[k])
  }

  predicate AllCarried(ops: seq<Op<string>>) {
    forall i :: 0 <= i < |ops| ==> CarriedOp(ops[i])
  }

  predicate CarriedOp(op: Op<string>) {
    op.SetOp? ==> '/' !in op.key && CarriedEntry(op.entry)
  }

  // A get that hits comes back only if the end mark does not meet the key.
  predicate HitCarried(op: Op<string>, r: Reply<string>) {
    op.GetOp? && r.Hit? ==> !Stops(op.key)
  }

  predicate HitsCarried(ops: seq<Op<string>>, rs: seq<Reply<string>>) {
    ops != [] && rs != [] ==> HitCarried(ops[0], rs[0]) && HitsCarried(ops[1..], rs[1..])
  }

  lemma EscapedHasNoNul(c: char)
    ensures NUL !in Escaped(c)
  {
  }

  lemma {:induction false} LiteralHasNoNul(s: string)
    ensures NUL !in Literal(s)
  {
    if s != [] {
      LiteralHasNoNul(s[1..]);
      EscapedHasNoNul(s[0]);
    }
  }

  // A body never answers a NUL before the last byte.
  lemma BodyHasOneNul(key: string, text: string)
    ensures var p := ParseBody(Dump(key, text));
            p.Buffer? ==> p.bytes != [] && NUL !in p.bytes[..|p.bytes| - 1]
  {
    var v := Literal(text);
    LiteralEscapesQuotes(key);
    LiteralHasNoNul(text);
    ParseFramed(Literal(key), v);
    var p := ParseBody(Dump(key, text));
    if p == Buffer(v + [NUL]) {
      assert p.bytes[..|p.bytes| - 1] == v;
    } else if p.Buffer? {
      var i :| 0 < i < |v| && StopsAt(v, i) && p == Buffer(v[..i - 1] + [NUL]);
      assert p.bytes[..|p.bytes| - 1] == v[..i - 1];
    }
  }

  // A hit comes back through the client as it is exactly when its bytes are carried and the key
  // does not meet the end mark.
  lemma RemoteHitIff(s: State<string>, key: Key)
    requires key in s.table
    ensures var data := s.table[key].data;
            SeenRemotely(GetOp(key), Serve(s, RequestOf(GetOp(key))).response) == Returned(Buffer(data)) <==>
            Carried(data) && !Stops(key)
  {
    var data := s.table[key].data;
    assert ("/" + key)[1..] == key;
    CStringIsFirst(data);
    if CString(data).Some? {
      TextComesBackIff(key, data, CString(data).value);
    }
  }

  lemma {:induction false} TextComesBackIff(key: Key, data: string, text: string)
    requires CString(data) == Some(text)
    ensures ParseBody(Dump(key, text)) == Buffer(data) <==> Carried(data) && !Stops(key)
  {
    CStringIsFirst(data);
    BodyRoundTripIff(key, text);
    if data == text + [NUL] {
      assert data[..|data| - 1] == text;
    } else {
      InnerNul(data, text);
      BodyHasOneNul(key, text);
    }
  }

  // Bytes that go on behind their first NUL are not carried.
  lemma InnerNul(data: string, text: string)
    requires |text| < |data| && data[..|text|] == text && data[|text|] == NUL && data != text + [NUL]
    ensures NUL in data[..|data| - 1] && !Carried(data)
  {
    assert data == data[..|text|] + [data[|text|]] + data[|text| + 1..];
    assert |text| < |data| - 1;
    assert data[..|data| - 1][|text|] == NUL;
  }

  // ----- calls through the client are calls on the cache -----

  lemma PutIsParsed(k: Key, e: Entry<string>)
    requires '/' !in k && CarriedEntry(e)
    ensures ParsePut(RequestOf(SetOp(k, e)).target) == PutCall(k, e.data)
    ensures EntryOf(e.data) == e
  {
    PutRoundTripIff(k, e.data);
    assert e.data[..e.size] == e.data;
  }

  lemma PutIsSet(s: State<string>, k: Key, e: Entry<string>)
    requires '/' !in k && CarriedEntry(e)
    ensures Serve(s, RequestOf(SetOp(k, e))) == Report(Set(s, k, e))
  {
    PutIsParsed(k, e);
    assert ServePut(s, PutCall(k, e.data)) == Report(Set(s, k, e));
  }

  lemma ReportIsSeenAlike(op: Op<string>, o: Outcome<string>)
    requires !op.GetOp? && !op.SpaceOp? && !o.reply.Hit? && !o.reply.Miss? && !o.reply.Used?
    ensures SeenRemotely(op, Report(o).response) == SeenDirectly(o.reply)
  {
  }

  // One carried call through the client does to the cache what the direct call does, and charges
  // the same bytes. It shows the caller the same exactly when it is no hit whose key meets the end
  // mark.
  lemma RemoteStepIsDirectIff(s: State<string>, op: Op<string>)
    requires CarriedTable(s.table) && CarriedOp(op)
    ensures var o, d := Serve(s, RequestOf(op)), Step(s, op);
            && o.state == d.state
            && (SeenRemotely(op, o.response) == SeenDirectly(d.reply) <==> HitCarried(op, d.reply))
            && (SeenRemotely(op, o.response).Down? <==> d.reply.Faulty())
  {
    match op {
      case SetOp(k, e) =>
        PutIsSet(s, k, e);
        SetReplies(s, k, e);
        ReportIsSeenAlike(op, Set(s, k, e));
      case GetOp(k) =>
        assert ("/" + k)[1..] == k;
        if k in s.table {
          CStringIsFirst(s.table[k].data);
          RemoteHitIff(s, k);
        }
      case DelOp(k) =>
        assert ("/" + k)[1..] == k;
      case ResetOp =>
      case SpaceOp =>
    }
  }

  lemma StepKeepsCarried(s: State<string>, op: Op<string>)
    requires CarriedTable(s.table) && CarriedOp(op) && !Step(s, op).reply.Faulty()
    ensures CarriedTable(Step(s, op).state.table)
  {
    StepWithinMap(s, op, s.table);
  }

  // What the callers see of a run, and the state it ends in, through the client and directly.
  ghost function RemoteRun(s: State<string>, ops: seq<Op<string>>): (seq<Seen>, State<string>)
    requires AllCarried(ops)
    decreases |ops|
  {
    if ops == [] then ([], s)
    else
      assert CarriedOp(ops[0]);
      var o := Serve(s, RequestOf(ops[0]));
      var seen := SeenRemotely(ops[0], o.response);
      if seen.Down? then ([seen], o.state)
      else
        var rest := RemoteRun(o.state, ops[1..]);
        ([seen] + rest.0, rest.1)
  }

  function AllSeen(rs: seq<Reply<string>>): seq<Seen> {
    if rs == [] then [] else [SeenDirectly(rs[0])] + AllSeen(rs[1..])
  }

  // Every run of carried calls ends alike through the client and directly, and shows the same
  // exactly when no hit's key meets the end mark.
  lemma {:induction false} RemoteRunIsDirectIff(s: State<string>, ops: seq<Op<string>>)
    requires CarriedTable(s.table) && AllCarried(ops)
    ensures RemoteRun(s, ops).1 == Run(s, ops).state
    ensures RemoteRun(s, ops).0 == AllSeen(Run(s, ops).replies) <==> HitsCarried(ops, Run(s, ops).replies)
    decreases |ops|
  {
    if ops != [] {
      var d := Step(s, ops[0]);
      assert CarriedOp(ops[0]) && AllCarried(ops[1..]);
      RemoteStepIsDirectIff(s, ops[0]);
      if d.reply.Faulty() {
        assert AllSeen([d.reply]) == [SeenDirectly(d.reply)];
      } else {
        StepKeepsCarried(s, ops[0]);
        RemoteRunIsDirectIff(d.state, ops[1..]);
        RunUnfold(s, ops);
        var seen := SeenRemotely(ops[0], Serve(s, RequestOf(ops[0])).response);
        ConsEqualIff(seen, RemoteRun(d.state, ops[1..]).0, SeenDirectly(d.reply), AllSeen(Run(d.state, ops[1..]).replies));
      }
    }
  }

  lemma ConsEqualIff<T>(x: T, a: seq<T>, y: T, b: seq<T>)
    ensures [x] + a == [y] + b <==> x == y && a == b
  {
    if [x] + a == [y] + b {
      assert a == ([x] + a)[1..] == ([y] + b)[1..] == b;
      assert x == ([x] + a)[0] == ([y] + b)[0] == y;
    }
  }
}
