// The server's request handler, and the networked client on top of it.

module Server {
  import opened Basics
  import opened CacheModel
  import opened Codec
  import Heap = CacheLib

  datatype Verb = GetVerb | PutVerb | DeleteVerb | HeadVerb | PostVerb | OtherVerb

  datatype Request = Request(verb: Verb, target: string)

  // A response with its body; or no response, because an exception escapes the handler, because
  // the stored bytes are read past their end, or because the cache ran into a fault.
  datatype Response =
    | BadRequest(why: string)
    | NotFound(key: Key)
    | Json(body: string)
    | Done(spaceUsed: u32)
    | Uncaught | Overread | CacheFault

  const BAD_TARGET := "bad target delimitation"

  // `std::string(val)`: the bytes before the first NUL, if there is one.
  function CString(bytes: string): Option<string> {
    if bytes == [] then None
    else if bytes[0] == NUL then Some([])
    else
      match CString(bytes[1..])
      case None => None
      case Some(s) => Some([bytes[0]] + s)
  }

  lemma {:induction false} CStringIsFirst(bytes: string)
    ensures match CString(bytes)
            case None => NUL !in bytes
            case Some(s) => |s| < |bytes| && bytes[..|s|] == s && bytes[|s|] == NUL && NUL !in s
  {
    if bytes != [] && bytes[0] != NUL {
      CStringIsFirst(bytes[1..]);
      assert bytes == [bytes[0]] + bytes[1..];
    }
  }

  // ----- the handler on the state -----

  datatype Served = Served(response: Response, state: State<string>)

  // After a call that changes the cache: the response carries the bytes in use.
  function Report(o: Outcome<string>): Served {
    Served(if o.reply.Faulty() then CacheFault else Done(o.state.cur), o.state)
  }

  ghost function Serve(s: State<string>, req: Request): Served {
    var target := req.target;
    match req.verb
    case GetVerb =>
      if target == [] then Served(Uncaught, s)
      else if target[0] != '/' then Served(BadRequest(BAD_TARGET), s)
      else
        var o := Get(s, target[1..]);
        Served(if o.reply.Miss? then NotFound(target[1..]) else JsonOf(target[1..], o.reply.data), o.state)
    case PutVerb => ServePut(s, ParsePut(target))
    case DeleteVerb =>
      if target == [] then Served(Uncaught, s)
      else if target[0] != '/' then Served(BadRequest(BAD_TARGET), s)
      else Report(Del(s, target[1..]))
    case HeadVerb => Served(Done(s.cur), s)
    case PostVerb =>
      if target != "/reset" then Served(BadRequest(BAD_TARGET), s) else Report(Reset(s))
    case OtherVerb => Served(BadRequest("request method undefined"), s)
  }

  function ServePut(s: State<string>, call: PutCall): Served {
    match call
    case EmptyTarget => Served(Uncaught, s)
    case BadTarget => Served(BadRequest(BAD_TARGET), s)
    case PutCall(key, bytes) => Report(Set(s, key, EntryOf(bytes)))
  }

  // The size passed on is cut to 32 bits, and so many bytes are copied.
  function EntryOf(bytes: string): Entry<string> {
    var size := |bytes| % TWO_32;
    Entry(bytes[..size], size)
  }

  function JsonOf(key: Key, bytes: string): Response {
    match CString(bytes)
    case None => Overread
    case Some(text) => Json(Dump(key, text))
  }

  // ----- what is refused, and what is reported -----

  ghost predicate Reported(s: State<string>, r: Served) {
    && (r.response.BadRequest? || r.response.Uncaught? || r.response.NotFound? ==> r.state == s)
    && (r.response.Done? ==> r.response.spaceUsed == r.state.cur)
  }

  // A PUT is refused exactly when its target does not begin with a slash or has no second one.
  lemma PutRefusalIff(s: State<string>, target: string)
    ensures var r := ServePut(s, ParsePut(target));
            && (r.response.BadRequest? <==> target != [] && (target[0] != '/' || '/' !in target[1..]))
            && (r.response.Uncaught? <==> target == [])
            && Reported(s, r)
  {
    if target != [] {
      SlashFoundIff(target[1..]);
    }
    ReportIsDone(s, ParsePut(target));
  }

  lemma ReportIsDone(s: State<string>, call: PutCall)
    ensures var r := ServePut(s, call);
            && (r.response.BadRequest? <==> call.BadTarget?) && (r.response.Uncaught? <==> call.EmptyTarget?)
            && Reported(s, r)
  {
  }

  lemma {:induction false} SlashFoundIff(text: string)
    ensures Codec.Find(text, "/") >= 0 <==> '/' in text
  {
    FindIsFirst(text, "/");
    var i := Codec.Find(text, "/");
    if i >= 0 {
      OccursAtChars(text, "/", i, 0);
    }
    if '/' in text {
      var j :| 0 <= j < |text| && text[j] == '/';
      assert text[j..j + 1] == "/";
      assert OccursAt(text, "/", j);
    }
  }

  // ----- the handler -----

  method HandleRequest(cache: Heap.Cache, req: Request) returns (res: Response)
    requires cache.Valid()
    modifies cache, cache.evictor.Footprint()
    ensures cache.Valid() && fresh(cache.evictor.Footprint() - old(cache.evictor.Footprint()))
    ensures res == Serve(old(cache.Model()), req).response
    ensures res != CacheFault ==> cache.Model() == Serve(old(cache.Model()), req).state
  {
    var target := req.target;
    match req.verb {
      case GetVerb =>
        res := HandleGet(cache, target);
      case PutVerb =>
        res := HandlePut(cache, target);
      case DeleteVerb =>
        res := HandleDelete(cache, target);
      case HeadVerb =>
        var used := cache.SpaceUsed();
        res := Done(used);
      case PostVerb =>
        res := HandlePost(cache, target);
      case OtherVerb =>
        res := BadRequest("request method undefined");
    }
  }

  // The response after a call that has changed the cache, with the space used in its header.
  method WithHeader(cache: Heap.Cache, reply: Reply<string>) returns (res: Response)
    requires cache.Valid()
    ensures Served(res, cache.Model()) == Report(Outcome(reply, cache.Model()))
  {
    if reply.Faulty() {
      return CacheFault;
    }
    var used := cache.SpaceUsed();
    return Done(used);
  }

  method HandleGet(cache: Heap.Cache, target: string) returns (res: Response)
    requires cache.Valid()
    modifies cache.evictor.Footprint()
    ensures cache.Valid() && fresh(cache.evictor.Footprint() - old(cache.evictor.Footprint()))
    ensures Served(res, cache.Model()) == Serve(old(cache.Model()), Request(GetVerb, target))
  {
    if target == [] {
      return Uncaught;
    }
    if target[0] != '/' {
      return BadRequest(BAD_TARGET);
    }
    var key := target[1..];
    var val, size := cache.Get(key);
    if val == null {
      return NotFound(key);
    }
    res := JsonOf(key, val[..]);
  }

  method HandleDelete(cache: Heap.Cache, target: string) returns (res: Response)
    requires cache.Valid()
    modifies cache
    ensures cache.Valid()
    ensures Served(res, cache.Model()) == Serve(old(cache.Model()), Request(DeleteVerb, target))
  {
    if target == [] {
      return Uncaught;
    }
    if target[0] != '/' {
      return BadRequest(BAD_TARGET);
    }
    res := DeleteKey(cache, target[1..]);
  }

  method DeleteKey(cache: Heap.Cache, key: Key) returns (res: Response)
    requires cache.Valid()
    modifies cache
    ensures cache.Valid()
    ensures Served(res, cache.Model()) == Report(Del(old(cache.Model()), key))
  {
    var reply := cache.Del(key);
    res := WithHeader(cache, reply);
  }

  method HandlePost(cache: Heap.Cache, target: string) returns (res: Response)
    requires cache.Valid()
    modifies cache, cache.evictor.Footprint()
    ensures cache.Valid() && cache.evictor.Footprint() <= old(cache.evictor.Footprint())
    ensures res == Serve(old(cache.Model()), Request(PostVerb, target)).response
    ensures res != CacheFault ==> cache.Model() == Serve(old(cache.Model()), Request(PostVerb, target)).state
  {
    if target != "/reset" {
      return BadRequest(BAD_TARGET);
    }
    var reply := cache.Reset();
    res := WithHeader(cache, reply);
  }

  method HandlePut(cache: Heap.Cache, target: string) returns (res: Response)
    requires cache.Valid()
    modifies cache, cache.evictor.Footprint()
    ensures cache.Valid() && fresh(cache.evictor.Footprint() - old(cache.evictor.Footprint()))
    ensures Served(res, cache.Model()) == Serve(old(cache.Model()), Request(PutVerb, target))
  {
    if target == [] {
      return Uncaught;
    }
    if target[0] != '/' {
      return BadRequest(BAD_TARGET);
    }
    var keyValue := target[1..];
    var delimPos := Codec.Find(keyValue, "/");
    if delimPos < 0 {
      return BadRequest(BAD_TARGET);
    }
    res := StoreValue(cache, keyValue[..delimPos], keyValue[delimPos + 1..]);
  }

  // Passes the characters of the value, with their NUL, to the cache.
  method StoreValue(cache: Heap.Cache, key: Key, value: string) returns (res: Response)
    requires cache.Valid()
    modifies cache, cache.evictor.Footprint()
    ensures cache.Valid() && fresh(cache.evictor.Footprint() - old(cache.evictor.Footprint()))
    ensures Served(res, cache.Model()) == Report(Set(old(cache.Model()), key, EntryOf(value + [NUL])))
  {
    var bytes := value + [NUL];
    var size := |bytes| % TWO_32;
    var valPtr := CStr(bytes);
    assert Entry(valPtr[..size], size) == EntryOf(bytes);
    res := StoreBuffer(cache, key, valPtr, size);
  }

  method StoreBuffer(cache: Heap.Cache, key: Key, valPtr: array<char>, size: u32) returns (res: Response)
    requires cache.Valid() && size <= valPtr.Length
    modifies cache, cache.evictor.Footprint()
    ensures cache.Valid() && fresh(cache.evictor.Footprint() - old(cache.evictor.Footprint()))
    ensures Served(res, cache.Model()) == Report(Set(old(cache.Model()), key, Entry(old(valPtr[..size]), size)))
  {
    var reply, _ := cache.Set(key, valPtr, size);
    res := WithHeader(cache, reply);
  }

  // A buffer that holds the characters of a string with their NUL.
  method CStr(bytes: string) returns (buf: array<char>)
    ensures fresh(buf) && buf[..] == bytes
  {
    buf := new char[|bytes|](i requires 0 <= i < |bytes| => bytes[i]);
    assert buf[..] == bytes;
  }
}
