// What a client may rely on, request by request, whatever the evictor: which requests change which
// rows, what each answer says, and that the printed key and value can be read back.

module ServerContract {
  import opened Basics
  import opened CacheModel
  import opened SetIsExact
  import opened CacheRuns
  import opened CacheContract
  import opened Codec
  import opened JsonReader
  import opened Server

  function GetOf(k: Key): Request {
    Request(GetVerb, "/" + k)
  }

  function DeleteOf(k: Key): Request {
    Request(DeleteVerb, "/" + k)
  }

  function PutOf(k: Key, v: string): Request {
    Request(PutVerb, PutTarget(k, v))
  }

  const RESET := Request(PostVerb, "/reset")

  // ----- what is refused -----

  // A request that the handler can make sense of.
  predicate Understood(req: Request) {
    match req.verb
    case GetVerb => req.target != [] && req == GetOf(req.target[1..])
    case DeleteVerb => req.target != [] && req == DeleteOf(req.target[1..])
    case PutVerb => req.target != [] && req.target[0] == '/' && '/' in req.target[1..]
    case PostVerb => req == RESET
    case HeadVerb => true
    case OtherVerb => false
  }

  // A request is refused, or ends in an escaping exception, exactly when it makes no sense.
  lemma RefusedIff(s: State<string>, req: Request)
    ensures var r := Serve(s, req).response;
            && (r.BadRequest? || r.Uncaught? <==> !Understood(req))
            && (r.Uncaught? <==> req.target == [] && (req.verb.GetVerb? || req.verb.PutVerb? || req.verb.DeleteVerb?))
            && (r.BadRequest? ==> r.why == if req.verb.OtherVerb? then "request method undefined" else BAD_TARGET)
  {
    if req.target != [] {
      var k := req.target[1..];
      assert ("/" + k)[0] == '/';
      assert req.target[0] == '/' ==> req.target == "/" + k;
    }
    if req.verb.PutVerb? {
      PutRefusalIff(s, req.target);
    }
  }

  // No answer but these three comes with a change of the cache.
  lemma RefusalChangesNothing(s: State<string>, req: Request)
    ensures var o := Serve(s, req);
            o.response.Done? || o.response.Json? || o.response.CacheFault? || o.response.Overread? || o.state == s
  {
  }

  // ----- which rows change -----

  function Lookup(t: Table<string>, k: Key): Option<Entry<string>> {
    if k in t then Some(t[k]) else None
  }

  // A row that is gone was deleted, reset, or made way for a value; a row that is new or has
  // another value was put.
  lemma {:induction false} RowChanges(s: State<string>, req: Request, k: Key)
    requires var o := Serve(s, req);
             !o.response.CacheFault? && Lookup(o.state.table, k) != Lookup(s.table, k)
    ensures var o := Serve(s, req);
            && o.response.Done?
            && (k !in o.state.table ==> req == DeleteOf(k) || req == RESET || req.verb.PutVerb?)
            && (k in o.state.table ==> req.verb.PutVerb? && '/' !in k && "/" + k + "/" <= req.target)
  {
    if req.verb.DeleteVerb? && req.target != [] {
      assert req.target[0] == '/' ==> req.target == "/" + req.target[1..];
    }
    if req.verb.PutVerb? && ParsePut(req.target).PutCall? {
      var call := ParsePut(req.target);
      PutKeyIsFirst(req.target);
      StepWithinMap(s, SetOp(call.key, EntryOf(call.bytes)), s.table);
    }
  }

  // The key of a PUT is what stands between the first two slashes.
  lemma PutKeyIsFirst(target: string)
    requires ParsePut(target).PutCall?
    ensures var k := ParsePut(target).key; '/' !in k && "/" + k + "/" <= target
  {
    var rest, k := target[1..], ParsePut(target).key;
    FindIsFirst(rest, "/");
    assert target == "/" + k + "/" + rest[|k| + 1..];
    if i :| 0 <= i < |k| && k[i] == '/' {
      assert rest[i..i + 1] == "/";
      assert OccursAt(rest, "/", i);
    }
  }

  // ----- what is reported -----

  // A value whose size is within int.
  predicate ProperRequest(req: Request) {
    req.verb.PutVerb? ==> |req.target| <= INT_MAX
  }

  // An answer without a body carries the bytes in use after the request: those in the table.
  lemma ReportsBytes(s: State<string>, req: Request)
    ensures var o := Serve(s, req);
            && (o.response.Done? ==> o.response.spaceUsed == o.state.cur)
            && (Sound(s) && ProperRequest(req) && !o.response.CacheFault? ==>
                  && Sound(o.state) && o.state.maxmem == s.maxmem
                  && (o.response.Done? ==> o.response.spaceUsed == Mem(o.state.table)))
  {
    if Sound(s) && ProperRequest(req) && !Serve(s, req).response.CacheFault? {
      ServeKeepsSound(s, req);
    }
  }

  lemma ServeKeepsSound(s: State<string>, req: Request)
    requires Sound(s) && ProperRequest(req) && !Serve(s, req).response.CacheFault?
    ensures Sound(Serve(s, req).state) && Serve(s, req).state.maxmem == s.maxmem
  {
    match req.verb {
      case GetVerb =>
      case PutVerb =>
        var call := ParsePut(req.target);
        if call.PutCall? {
          StepKeepsConserved(s, SetOp(call.key, EntryOf(call.bytes)));
        }
      case DeleteVerb =>
        if req.target != [] {
          DelContract(s, req.target[1..]);
        }
      case HeadVerb =>
      case PostVerb => ResetContract(s);
      case OtherVerb =>
    }
  }

  // ----- request by request -----

  // A hit is answered with a body in which a reader finds the key asked for and the text before
  // the first NUL of the value; a miss names the key. The rows stay as they are.
  lemma {:induction false} GetAnswers(s: State<string>, k: Key)
    ensures var o := Serve(s, GetOf(k));
            && o.state == Get(s, k).state && o.state.table == s.table && o.state.cur == s.cur
            && (k !in s.table <==> o.response.NotFound?) && (o.response.NotFound? ==> o.response.key == k)
            && (k in s.table && NUL !in s.table[k].data <==> o.response == Overread)
            && forall text: string | k in s.table && text + [NUL] <= s.table[k].data && NUL !in text ::
                 o.response.Json? && ReadObject(o.response.body) == Some([Member("key", k), Member("value", text)])
  {
    assert ("/" + k)[0] == '/' && ("/" + k)[1..] == k;
    if k in s.table {
      var data := s.table[k].data;
      CStringIsFirst(data);
      forall text: string | text + [NUL] <= data && NUL !in text
        ensures CString(data) == Some(text)
      {
        FirstIsUnique(data, text);
      }
      if CString(data).Some? {
        ObjectIsRead(k, CString(data).value);
      }
    }
  }

  lemma {:induction false} FirstIsUnique(data: string, text: string)
    requires text + [NUL] <= data && NUL !in text
    ensures CString(data) == Some(text)
  {
    assert data[|text|] == (text + [NUL])[|text|] == NUL;
    assert text == data[..|text|];
    CStringIsFirst(data);
    var found := CString(data).value;
    assert forall i :: 0 <= i < |text| ==> data[i] == text[i];
    assert forall i :: 0 <= i < |found| ==> data[i] == found[i];
  }

  // A deletion removes the one row, and is answered alike whether there was one or not.
  lemma {:induction false} DeleteAnswers(s: State<string>, k: Key)
    requires Conserved(s)
    ensures var o := Serve(s, DeleteOf(k));
            && o.state.table == s.table - {k} && o.state.evictor == s.evictor && o.state.maxmem == s.maxmem
            && o.response.Done? && o.response.spaceUsed == Mem(s.table - {k})
  {
    assert ("/" + k)[0] == '/' && ("/" + k)[1..] == k;
    DelContract(s, k);
  }

  lemma ResetAnswers(s: State<string>)
    requires Conserved(s)
    ensures var o := Serve(s, RESET);
            o.response == Done(0) && o.state.table == map[]
  {
  }

  // The bytes in use, for every target.
  lemma HeadAnswers(s: State<string>, target: string)
    requires Conserved(s)
    ensures Serve(s, Request(HeadVerb, target)) == Served(Done(Mem(s.table)), s)
  {
  }

  // A PUT is a `set` of the characters behind the second slash and their NUL, with a size cut to 32
  // bits; a refused value is answered like an accepted one.
  lemma {:induction false} PutAnswers(s: State<string>, k: Key, v: string)
    requires '/' !in k
    ensures var o, size := Serve(s, PutOf(k, v)), (|v| + 1) % TWO_32;
            var d := Step(s, SetOp(k, Entry((v + [NUL])[..size], size)));
            o.state == d.state && (if d.reply.Faulty() then o.response == CacheFault else o.response == Done(d.state.cur))
  {
    var bytes := v + [NUL];
    assert bytes[..|bytes| - 1] == v;
    PutRoundTripIff(k, bytes);
  }

  lemma {:induction false} ShortPutAnswers(s: State<string>, k: Key, v: string)
    requires '/' !in k && |v| < INT_MAX
    ensures var o, d := Serve(s, PutOf(k, v)), Step(s, SetOp(k, Entry(v + [NUL], |v| + 1)));
            o.state == d.state && (if d.reply.Faulty() then o.response == CacheFault else o.response == Done(d.state.cur))
  {
    assert (|v| + 1) % TWO_32 == |v| + 1 && (v + [NUL])[..|v| + 1] == v + [NUL];
    PutAnswers(s, k, v);
  }

  // ----- what was put is got -----

  // A value that fits is stored as it was put. One that does not fit is dropped without a word,
  // unless it overwrites a row in the way that ends in the failing assertion.
  lemma {:induction false} PutStores(s: State<string>, k: Key, v: string)
    requires Good(s) && k != NO_KEY && '/' !in k && |v| < INT_MAX
    ensures var o := Serve(s, PutOf(k, v));
            && (|v| + 1 <= Room(s, k) ==>
                  o.response.Done? && k in o.state.table && o.state.table[k] == Entry(v + [NUL], |v| + 1))
            && (|v| + 1 > Room(s, k) ==> o.response.CacheFault? || (o.response == Done(s.cur) && o.state == s))
  {
    ShortPutAnswers(s, k, v);
    SetStores(s, k, Entry(v + [NUL], |v| + 1));
  }

  // And it is read back from the answer to a GET, under its key and with every character as it was
  // put, also those that were escaped.
  lemma {:induction false} PutThenGet(s: State<string>, k: Key, v: string)
    requires Good(s) && k != NO_KEY && '/' !in k && NUL !in v && |v| < INT_MAX && |v| + 1 <= Room(s, k)
    ensures var got := Serve(Serve(s, PutOf(k, v)).state, GetOf(k)).response;
            got.Json? && ReadObject(got.body) == Some([Member("key", k), Member("value", v)])
  {
    var t := Serve(s, PutOf(k, v)).state;
    PutStores(s, k, v);
    GetAnswers(t, k);
    assert v + [NUL] <= t.table[k].data;
  }
}
