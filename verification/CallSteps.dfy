// A call on the cache in the small steps between taking and giving back the cache's mutex. The
// calls of an LRU evictor take and give back a second mutex inside.

module CallSteps {
  import opened Basics
  import opened EvictionPolicy
  import opened CacheModel
  import opened SetIsExact
  import opened CacheRuns

  type Thread = nat

  // ----- one call, step by step -----

  // Where the owner of the mutex is in its call.
  datatype Pc<+V> =
    | Begin
    | Room(change: int) | WantEvict(change: int) | Evicting(change: int)
    | EvictDone(change: int, answer: Key) | Answered(change: int, answer: Key)
    | Fits | Fresh
    | WantTouch(reply: Reply<V>) | Touching(reply: Reply<V>) | TouchDone(reply: Reply<V>)
    | Freeing | WantDrain | Draining | DrainDone(answer: Key)
    | Finished(reply: Reply<V>)
  {
    // Inside a call of the evictor.
    predicate InEvictor() {
      Evicting? || EvictDone? || Touching? || TouchDone? || Draining? || DrainDone?
    }

    predicate OfSet() {
      Room? || WantEvict? || Evicting? || EvictDone? || Answered? || Fits? || Fresh?
    }

    predicate OfReset() {
      Freeing? || WantDrain? || Draining? || DrainDone?
    }

    predicate OfTouch() {
      WantTouch? || Touching? || TouchDone?
    }
  }

  ghost predicate At<V>(s: State<V>, op: Op<V>, pc: Pc<V>) {
    && (pc.OfSet() ==> op.SetOp?)
    && (pc.OfReset() ==> op.ResetOp?)
    && (pc.OfTouch() ==> (op.SetOp? || op.GetOp?) && !pc.reply.Faulty())
    && (pc.Fresh? ==> op.key !in s.table)
    && (pc.WantDrain? || pc.Draining? || pc.DrainDone? ==> s.table == map[] && s.cur == 0)
    && (pc.InEvictor() || pc.WantEvict? || pc.WantTouch? || pc.WantDrain? ==> s.evictor.Evictor?)
  }

  datatype Move = Stay | Take | Give

  datatype Turn<+V> = Turn(state: State<V>, pc: Pc<V>, move: Move)

  function TakeFor<V>(s: State<V>): Move {
    if s.evictor.Evictor? && s.evictor.policy.Lru? then Take else Stay
  }

  function GiveFor<V>(s: State<V>): Move {
    if s.evictor.Evictor? && s.evictor.policy.Lru? then Give else Stay
  }

  function ToTouch<V>(s: State<V>, r: Reply<V>): Turn<V> {
    Turn(s, if s.evictor.NoEvictor? then Finished(r) else WantTouch(r), Stay)
  }

  function TurnOfBegin<V>(s: State<V>, op: Op<V>): Turn<V> {
    match op
    case SetOp(key, e) =>
      var change := SizeChange(s, key, e.size);
      if !FitsInt(change) then Turn(s, Finished(SignedOverflow), Stay)
      else if s.cur > s.maxmem then Turn(s, Finished(AssertFails(OnEntry)), Stay)
      else if change > AsInt(s.maxmem) then Turn(s, Finished(TooLarge), Stay)
      else if s.evictor.NoEvictor? && FitsInt(AsInt(s.cur) + change) && AsInt(s.cur) + change > AsInt(s.maxmem) then
        Turn(s, Finished(NoRoom), Stay)
      else Turn(s, Room(change), Stay)
    case GetOp(key) =>
      if key !in s.table then Turn(s, Finished(Miss), Stay)
      else ToTouch(s, Hit(s.table[key].data, s.table[key].size))
    case DelOp(key) =>
      if key !in s.table then Turn(s, Finished(Deleted(false)), Stay)
      else if s.cur < s.table[key].size then Turn(s, Finished(AssertFails(InFree)), Stay)
      else Turn(Freed(s, key), Finished(Deleted(true)), Stay)
    case ResetOp => Turn(s, Freeing, Stay)
    case SpaceOp => Turn(s, Finished(Used(s.cur)), Stay)
  }

  // A step of `set` after its guards.
  ghost function TurnOfSet<V>(s: State<V>, key: Key, e: Entry<V>, pc: Pc<V>): Turn<V>
    requires pc.OfSet() && (pc.WantEvict? || pc.InEvictor() ==> s.evictor.Evictor?)
  {
    match pc
    case Room(change) =>
      var sum := AsInt(s.cur) + change;
      if !FitsInt(sum) then Turn(s, Finished(SignedOverflow), Stay)
      else if sum <= AsInt(s.maxmem) || s.evictor.NoEvictor? then Turn(s, Fits, Stay)
      else Turn(s, WantEvict(change), Stay)
    case WantEvict(change) => Turn(s, Evicting(change), TakeFor(s))
    case Evicting(change) => Turn(WithPop(s), EvictDone(change, Front(s.evictor.queue)), Stay)
    case EvictDone(change, k) => Turn(s, Answered(change, k), GiveFor(s))
    case Answered(change, k) =>
      if k == NO_KEY then Turn(s, Finished(AssertFails(OnEviction)), Stay)
      else if k !in s.table then Turn(s, Room(change), Stay)
      else if s.cur < s.table[k].size then Turn(s, Finished(AssertFails(InFree)), Stay)
      else Turn(Freed(s, k), Room(if k == key then AsInt(e.size) else change), Stay)
    case Fits =>
      if key !in s.table then Turn(s, Fresh, Stay)
      else if s.cur < s.table[key].size then Turn(s, Finished(AssertFails(InFree)), Stay)
      else Turn(Freed(s, key), Fresh, Stay)
    case Fresh =>
      var t := WithRow(s, key, e);
      if t.cur > t.maxmem then Turn(t, Finished(AssertFails(OnExit)), Stay) else ToTouch(t, Stored)
  }

  // A step of `reset`; the row to free next is anyone's choice.
  ghost function TurnOfReset<V>(s: State<V>, pc: Pc<V>, pick: Key): Turn<V>
    requires pc.OfReset() && (pc.Freeing? && s.table != map[] ==> pick in s.table)
    requires pc.WantDrain? || pc.InEvictor() ==> s.evictor.Evictor?
  {
    match pc
    case Freeing =>
      if s.table == map[] then
        Turn(s.(cur := 0), if s.evictor.NoEvictor? then Finished(Cleared) else WantDrain, Stay)
      else if s.cur < s.table[pick].size then Turn(s, Finished(AssertFails(InFree)), Stay)
      else Turn(Freed(s, pick), Freeing, Stay)
    case WantDrain => Turn(s, Draining, TakeFor(s))
    case Draining => Turn(WithPop(s), DrainDone(Front(s.evictor.queue)), Stay)
    case DrainDone(k) => Turn(s, if k == NO_KEY then Finished(Cleared) else WantDrain, GiveFor(s))
  }

  ghost function TurnOf<V>(s: State<V>, op: Op<V>, pc: Pc<V>, pick: Key): Turn<V>
    requires At(s, op, pc) && !pc.Finished?
    requires pc.Freeing? && s.table != map[] ==> pick in s.table
  {
    if pc.Begin? then TurnOfBegin(s, op)
    else if pc.OfSet() then TurnOfSet(s, op.key, op.entry, pc)
    else if pc.OfReset() then TurnOfReset(s, pc, pick)
    else
      match pc
      case WantTouch(r) => Turn(s, Touching(r), TakeFor(s))
      case Touching(r) => Turn(WithTouch(s, op.key), TouchDone(r), Stay)
      case TouchDone(r) => Turn(s, Finished(r), GiveFor(s))
  }

  // What is left of the call: the outcome it will have when nobody interferes.
  ghost function Rest<V>(s: State<V>, op: Op<V>, pc: Pc<V>): Outcome<V>
    requires At(s, op, pc)
  {
    match pc
    case Begin => Step(s, op)
    case Room(change) => MakeRoom(s, op.key, op.entry, change)
    case WantEvict(change) => AfterAnswer(WithPop(s), Front(s.evictor.queue), op.key, op.entry, change)
    case Evicting(change) => AfterAnswer(WithPop(s), Front(s.evictor.queue), op.key, op.entry, change)
    case EvictDone(change, k) => AfterAnswer(s, k, op.key, op.entry, change)
    case Answered(change, k) => AfterAnswer(s, k, op.key, op.entry, change)
    case Fits => Replace(s, op.key, op.entry)
    case Fresh => Insert(s, op.key, op.entry)
    case WantTouch(r) => Outcome(r, WithTouch(s, op.key))
    case Touching(r) => Outcome(r, WithTouch(s, op.key))
    case TouchDone(r) => Outcome(r, s)
    case Freeing => Reset(s)
    case WantDrain => Outcome(Cleared, s.(evictor := Drainage(s.evictor)))
    case Draining => Outcome(Cleared, s.(evictor := Drainage(s.evictor)))
    case DrainDone(k) => Outcome(Cleared, if k == NO_KEY then s else s.(evictor := Drainage(s.evictor)))
    case Finished(r) => Outcome(r, s)
  }

  // The same reply, and the same state unless the reply is a fault.
  ghost predicate Same<V>(a: Outcome<V>, b: Outcome<V>) {
    a.reply == b.reply && (!a.reply.Faulty() ==> a.state == b.state)
  }

  lemma BeginKeepsRest<V>(s: State<V>, op: Op<V>)
    ensures var t := TurnOfBegin(s, op);
            At(t.state, op, t.pc) && Same(Rest(t.state, op, t.pc), Step(s, op))
  {
  }

  lemma SetKeepsRest<V>(s: State<V>, op: Op<V>, pc: Pc<V>)
    requires At(s, op, pc) && pc.OfSet()
    ensures var t := TurnOfSet(s, op.key, op.entry, pc);
            At(t.state, op, t.pc) && Rest(t.state, op, t.pc) == Rest(s, op, pc)
  {
  }

  lemma ResetKeepsRest<V>(s: State<V>, op: Op<V>, pc: Pc<V>, pick: Key)
    requires At(s, op, pc) && pc.OfReset() && (pc.Freeing? && s.table != map[] ==> pick in s.table)
    ensures var t := TurnOfReset(s, pc, pick);
            At(t.state, op, t.pc) && Same(Rest(t.state, op, t.pc), Rest(s, op, pc))
  {
    if pc.Freeing? && s.table != map[] {
      MemSplit(s.table, pick);
    }
  }

  // No step of a call changes what the whole call will come to.
  lemma TurnKeepsRest<V>(s: State<V>, op: Op<V>, pc: Pc<V>, pick: Key)
    requires At(s, op, pc) && !pc.Finished?
    requires pc.Freeing? && s.table != map[] ==> pick in s.table
    ensures var t := TurnOf(s, op, pc, pick);
            At(t.state, op, t.pc) && Same(Rest(t.state, op, t.pc), Rest(s, op, pc))
  {
    if pc.Begin? {
      BeginKeepsRest(s, op);
    } else if pc.OfSet() {
      SetKeepsRest(s, op, pc);
    } else if pc.OfReset() {
      ResetKeepsRest(s, op, pc, pick);
    }
  }

  // How many more steps a call can take while it has the mutex.
  ghost function Rank<V>(s: State<V>, pc: Pc<V>): nat {
    var q := 10 * QueueLength(s);
    match pc
    case Begin => q + |s.table| + 13
    case Freeing => q + |s.table| + 12
    case EvictDone(_, k) => if k == NO_KEY then 2 else q + 17
    case Answered(_, k) => if k == NO_KEY then 1 else q + 16
    case DrainDone(k) => if k == NO_KEY then 1 else q + 17
    case Room(_) => q + 10
    case WantEvict(_) => q + 9
    case WantDrain => q + 9
    case Evicting(_) => q + 8
    case Draining => q + 8
    case Fits => 5
    case Fresh => 4
    case WantTouch(_) => 3
    case Touching(_) => 2
    case TouchDone(_) => 1
    case Finished(_) => 0
  }

  lemma SetGetsCloser<V>(s: State<V>, op: Op<V>, pc: Pc<V>)
    requires At(s, op, pc) && pc.OfSet()
    ensures var t := TurnOfSet(s, op.key, op.entry, pc);
            Rank(t.state, t.pc) < Rank(s, pc)
  {
    match pc {
      case Room(_) =>
      case WantEvict(_) =>
      case Evicting(_) =>
        assert QueueLength(WithPop(s)) == if s.evictor.queue == [] then 0 else QueueLength(s) - 1;
      case EvictDone(_, _) =>
      case Answered(_, _) =>
      case Fits =>
      case Fresh =>
    }
  }

  lemma ResetGetsCloser<V>(s: State<V>, op: Op<V>, pc: Pc<V>, pick: Key)
    requires At(s, op, pc) && pc.OfReset() && (pc.Freeing? && s.table != map[] ==> pick in s.table)
    ensures var t := TurnOfReset(s, pc, pick);
            Rank(t.state, t.pc) < Rank(s, pc)
  {
    if pc.Freeing? && s.table != map[] {
      assert (s.table - {pick}).Keys == s.table.Keys - {pick};
      assert |(s.table - {pick}).Keys| < |s.table.Keys|;
    }
  }

  // Every step of a call brings it closer to its end, also through dead keys and while draining.
  lemma TurnGetsCloser<V>(s: State<V>, op: Op<V>, pc: Pc<V>, pick: Key)
    requires At(s, op, pc) && !pc.Finished?
    requires pc.Freeing? && s.table != map[] ==> pick in s.table
    ensures var t := TurnOf(s, op, pc, pick);
            Rank(t.state, t.pc) < Rank(s, pc)
  {
    if pc.OfSet() {
      SetGetsCloser(s, op, pc);
    } else if pc.OfReset() {
      ResetGetsCloser(s, op, pc, pick);
    }
  }

  // The byte count is right, and within the capacity, between any two steps of a call.
  lemma TurnKeepsConserved<V>(s: State<V>, op: Op<V>, pc: Pc<V>, pick: Key)
    requires At(s, op, pc) && !pc.Finished? && ProperSize(op)
    requires pc.Freeing? && s.table != map[] ==> pick in s.table
    requires Conserved(s) && 2 * s.maxmem <= INT_MAX
    ensures var t := TurnOf(s, op, pc, pick);
            t.state.maxmem == s.maxmem && (Conserved(t.state) || t.pc == Finished(AssertFails(OnExit)))
  {
    MemDrop(s.table, pick);
    if !op.ResetOp? && !op.SpaceOp? {
      MemDrop(s.table, op.key);
    }
    if pc.Answered? {
      MemDrop(s.table, pc.answer);
    }
    if pc.Fresh? {
      MemUpdate(s.table, op.key, op.entry);
    }
  }
}
