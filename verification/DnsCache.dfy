/** cachedResolver: a DNS cache whose lock is released between the lookup and the store.

    Each `Resolve` call goes through atomic steps: it reads the clock, looks the name up
    under the lock, asks the inner resolver without it, and stores a positive answer
    under it.  A run is any interleaving of the steps of any number of calls.
 */
module DnsCache {
  import opened Basics

  type Name = string
  type Address = seq<nat>

  const TTL: nat := 120_000_000_000
  const CAPACITY: nat := 512

  /** `ip` is a slice in the source and could be nil. */
  datatype Entry = Entry(ip: Option<Address>, exp: nat)

  /** What the inner resolver may return. */
  datatype Answer = Answer(ip: Option<Address>, failed: bool)

  // ----- The two critical sections -----

  function Lookup(m: map<Name, Entry>, name: Name, now: nat): (r: Option<Entry>)
    ensures r.Some? <==> name in m && now < m[name].exp
    ensures r.Some? ==> r.value == m[name]
  {
    if name in m && now < m[name].exp then Some(m[name]) else None
  }

  /** `m'` has `e` for `name`; the other entries are those of `m`, or none if that was full. */
  ghost predicate Holds(m: map<Name, Entry>, m': map<Name, Entry>, name: Name, e: Entry) {
    && name in m' && m'[name] == e
    && (forall n :: n in m' && n != name ==> |m| < CAPACITY && n in m && m'[n] == m[n])
    && (|m| < CAPACITY ==> forall n :: n in m ==> n in m')
  }

  function Stored(m: map<Name, Entry>, name: Name, ip: Option<Address>, now: nat): (r: map<Name, Entry>)
    ensures |m| <= CAPACITY ==> |r| <= CAPACITY
    ensures Holds(m, r, name, Entry(ip, now + TTL))
  {
    var room := if |m| >= CAPACITY then map[] else m;
    assert room[name := Entry(ip, now + TTL)].Keys == room.Keys + {name};
    room[name := Entry(ip, now + TTL)]
  }

  class CachedResolver {
    var m: map<Name, Entry>

    constructor ()
      ensures m == map[]
    {
      m := map[];
    }

    method LookUp(name: Name, now: nat) returns (hit: bool, ip: Option<Address>)
      ensures hit == Lookup(m, name, now).Some?
      ensures hit ==> ip == Lookup(m, name, now).value.ip
    {
      if name in m && now < m[name].exp { return true, m[name].ip; }
      return false, None;
    }

    method Store(name: Name, ip: Option<Address>, now: nat)
      modifies this
      ensures m == Stored(old(m), name, ip, now)
      ensures Holds(old(m), m, name, Entry(ip, now + TTL))
    {
      if |m| >= CAPACITY { m := map[]; }
      m := m[name := Entry(ip, now + TTL)];
    }

    /** Resolve without interference: `answer` is what the inner resolver would say. */
    method Resolve(name: Name, now: nat, answer: Answer) returns (r: Answer)
      modifies this
      ensures var e := Lookup(old(m), name, now);
              if e.Some? then r == Answer(e.value.ip, false) && m == old(m)
              else r == answer && m == if answer.failed || answer.ip == None then old(m)
                                       else Stored(old(m), name, answer.ip, now)
      ensures Lookup(old(m), name, now) == None && !answer.failed && answer.ip != None ==>
        Holds(old(m), m, name, Entry(answer.ip, now + TTL))
    {
      var hit, ip := LookUp(name, now);
      if hit { return Answer(ip, false); }
      if answer.failed || answer.ip == None { return answer; }
      Store(name, answer.ip, now);
      return answer;
    }
  }

  // ----- Runs -----

  /** Where a call is; `start` is the time it read first of all. */
  datatype Call =
    | Begun(name: Name, start: nat)
    | Asking(name: Name, start: nat)
    | Storing(name: Name, start: nat, ip: Option<Address>)
    | Returned(name: Name, start: nat, result: Answer, hit: bool)

  /** A positive answer of the inner resolver to the call that began at `start`. */
  datatype Reply = Reply(name: Name, start: nat, ip: Address)

  datatype World = World(clock: nat, cache: map<Name, Entry>, calls: map<nat, Call>, replies: set<Reply>)

  datatype Step =
    | Wait(d: nat)
    | Begin(id: nat, name: Name)
    | Look(id: nat)
    | Ask(id: nat, answer: Answer)
    | Save(id: nat)

  predicate Enabled(w: World, s: Step) {
    match s
    case Wait(_) => true
    case Begin(id, _) => id !in w.calls
    case Look(id) => id in w.calls && w.calls[id].Begun?
    case Ask(id, _) => id in w.calls && w.calls[id].Asking?
    case Save(id) => id in w.calls && w.calls[id].Storing?
  }

  function Next(w: World, s: Step): World
    requires Enabled(w, s)
  {
    match s
    case Wait(d) => w.(clock := w.clock + d)
    case Begin(id, name) => w.(calls := w.calls[id := Begun(name, w.clock)])
    case Look(id) =>
      var c := w.calls[id];
      var c' := match Lookup(w.cache, c.name, c.start)
                case Some(e) => Returned(c.name, c.start, Answer(e.ip, false), true)
                case None => Asking(c.name, c.start);
      w.(calls := w.calls[id := c'])
    case Ask(id, answer) =>
      var c := w.calls[id];
      if answer.failed || answer.ip == None then
        w.(calls := w.calls[id := Returned(c.name, c.start, answer, false)])
      else
        w.(calls := w.calls[id := Storing(c.name, c.start, answer.ip)],
           replies := w.replies + {Reply(c.name, c.start, answer.ip.value)})
    case Save(id) =>
      var c := w.calls[id];
      w.(cache := Stored(w.cache, c.name, c.ip, c.start),
         calls := w.calls[id := Returned(c.name, c.start, Answer(c.ip, false), false)])
  }

  /** Every step of the run is possible when it comes. */
  predicate IsRun(w: World, steps: seq<Step>)
    decreases |steps|, 0
  {
    steps == [] || (IsRun(w, steps[..|steps| - 1]) && Enabled(After(w, steps[..|steps| - 1]), steps[|steps| - 1]))
  }

  function After(w: World, steps: seq<Step>): World
    requires IsRun(w, steps)
    decreases |steps|, 1
  {
    if steps == [] then w else Next(After(w, steps[..|steps| - 1]), steps[|steps| - 1])
  }

  const INITIAL: World := World(0, map[], map[], {})

  /** The steps of a call that no other step comes between. */
  function Alone(w: World, id: nat, answer: Answer): seq<Step>
    requires Enabled(w, Look(id))
  {
    if Lookup(w.cache, w.calls[id].name, w.calls[id].start).Some? then [Look(id)]
    else if answer.failed || answer.ip == None then [Look(id), Ask(id, answer)]
    else [Look(id), Ask(id, answer), Save(id)]
  }

  /** They have the effect of CachedResolver.Resolve. */
  lemma AloneResolves(w: World, id: nat, answer: Answer)
    requires Enabled(w, Look(id))
    ensures var steps, c, e := Alone(w, id, answer), w.calls[id], Lookup(w.cache, w.calls[id].name, w.calls[id].start);
            && IsRun(w, steps)
            && (if e.Some? then
                  After(w, steps) == w.(calls := w.calls[id := Returned(c.name, c.start, Answer(e.value.ip, false), true)])
                else
                  && After(w, steps).calls == w.calls[id := Returned(c.name, c.start, answer, false)]
                  && After(w, steps).cache == if answer.failed || answer.ip == None then w.cache
                                              else Stored(w.cache, c.name, answer.ip, c.start))
  {
    hide IsRun, After;
    var w1, c := Next(w, Look(id)), w.calls[id];
    NoStep(w);
    OneStep(w, [], Look(id));
    assert [] + [Look(id)] == [Look(id)] && [Look(id)] + [Ask(id, answer)] == [Look(id), Ask(id, answer)];
    if Lookup(w.cache, c.name, c.start) == None {
      var w2 := Next(w1, Ask(id, answer));
      OneStep(w, [Look(id)], Ask(id, answer));
      if answer.failed || answer.ip == None {
        assert w2.calls == w.calls[id := Returned(c.name, c.start, answer, false)];
      } else {
        OneStep(w, [Look(id), Ask(id, answer)], Save(id));
        assert [Look(id), Ask(id, answer)] + [Save(id)] == Alone(w, id, answer);
        assert Next(w2, Save(id)).calls == w.calls[id := Returned(c.name, c.start, answer, false)];
      }
    }
  }

  lemma NoStep(w: World)
    ensures IsRun(w, []) && After(w, []) == w
  {
  }

  lemma OneStep(w: World, steps: seq<Step>, s: Step)
    requires IsRun(w, steps) && Enabled(After(w, steps), s)
    ensures IsRun(w, steps + [s]) && After(w, steps + [s]) == Next(After(w, steps), s)
  {
    assert (steps + [s])[..|steps|] == steps;
  }

  // ----- Safety -----

  /** The inner resolver gave `ip` for `name` to a call begun less than TTL before `now`. */
  ghost predicate Justified(replies: set<Reply>, name: Name, now: nat, ip: Option<Address>) {
    ip.Some? && exists r :: r in replies && r.name == name && r.ip == ip.value && now < r.start + TTL
  }

  ghost predicate CacheOk(w: World) {
    && |w.cache| <= CAPACITY
    && forall n :: n in w.cache ==>
         && w.cache[n].ip.Some? && TTL <= w.cache[n].exp
         && Reply(n, w.cache[n].exp - TTL, w.cache[n].ip.value) in w.replies
  }

  ghost predicate CallOk(w: World, c: Call) {
    && c.start <= w.clock
    && match c
       case Storing(name, start, ip) => ip.Some? && Reply(name, start, ip.value) in w.replies
       case Returned(name, start, result, hit) =>
         hit ==> !result.failed && Justified(w.replies, name, start, result.ip)
       case _ => true
  }

  ghost predicate Safe(w: World) {
    CacheOk(w) && forall id :: id in w.calls ==> CallOk(w, w.calls[id])
  }

  lemma JustifiedKept(replies: set<Reply>, more: set<Reply>, name: Name, now: nat, ip: Option<Address>)
    requires Justified(replies, name, now, ip) && replies <= more
    ensures Justified(more, name, now, ip)
  {
  }

  lemma CallKept(w: World, w': World, c: Call)
    requires CallOk(w, c) && w.clock <= w'.clock && w.replies <= w'.replies
    ensures CallOk(w', c)
  {
    if c.Returned? && c.hit {
      JustifiedKept(w.replies, w'.replies, c.name, c.start, c.result.ip);
    }
  }

  /** A hit is justified by the answer that was stored. */
  lemma HitIsJustified(w: World, name: Name, now: nat)
    requires CacheOk(w) && Lookup(w.cache, name, now).Some?
    ensures Justified(w.replies, name, now, Lookup(w.cache, name, now).value.ip)
  {
    var e := w.cache[name];
    var r := Reply(name, e.exp - TTL, e.ip.value);
    assert r in w.replies && now < r.start + TTL;
  }

  lemma CacheStaysOk(w: World, s: Step)
    requires Safe(w) && Enabled(w, s)
    ensures CacheOk(Next(w, s))
  {
    if s.Save? {
      assert CallOk(w, w.calls[s.id]);
    }
  }

  lemma CallStaysOk(w: World, s: Step, id: nat)
    requires Safe(w) && Enabled(w, s) && id in Next(w, s).calls
    ensures CallOk(Next(w, s), Next(w, s).calls[id])
  {
    hide CacheOk, Justified;
    if s.Look? && Lookup(w.cache, w.calls[s.id].name, w.calls[s.id].start).Some? {
      HitIsJustified(w, w.calls[s.id].name, w.calls[s.id].start);
    }
    if id in w.calls {
      assert CallOk(w, w.calls[id]);
      CallKept(w, Next(w, s), w.calls[id]);
    }
  }

  lemma StepSafe(w: World, s: Step)
    requires Safe(w) && Enabled(w, s)
    ensures Safe(Next(w, s))
  {
    hide CacheOk, CallOk, Next;
    CacheStaysOk(w, s);
    forall id | id in Next(w, s).calls ensures CallOk(Next(w, s), Next(w, s).calls[id]) {
      CallStaysOk(w, s, id);
    }
  }

  /** In every run: at most 512 entries, none of them nil, and every hit returned an
      address that the inner resolver gave for that name to a call begun less than TTL
      before the hit's own start. */
  lemma {:induction false} RunsAreSafe(steps: seq<Step>)
    requires IsRun(INITIAL, steps)
    ensures Safe(After(INITIAL, steps))
  {
    if steps != [] {
      RunsAreSafe(steps[..|steps| - 1]);
      StepSafe(After(INITIAL, steps[..|steps| - 1]), steps[|steps| - 1]);
    }
  }

  // ----- What a store is good for -----

  /** Every store in between is for another name and finds fewer than 512 names. */
  predicate Spares(w: World, steps: seq<Step>, name: Name)
    requires IsRun(w, steps)
  {
    steps == [] ||
    (var front, s := steps[..|steps| - 1], steps[|steps| - 1];
     && Spares(w, front, name)
     && (s.Save? ==> After(w, front).calls[s.id].name != name && |After(w, front).cache| < CAPACITY))
  }

  lemma {:induction false} EntryStays(w: World, steps: seq<Step>, name: Name)
    requires name in w.cache && IsRun(w, steps) && Spares(w, steps, name)
    ensures name in After(w, steps).cache && After(w, steps).cache[name] == w.cache[name]
  {
    if steps != [] {
      EntryStays(w, steps[..|steps| - 1], name);
    }
  }

  /** A stored answer is served to every call for the name that begins before it expires,
      and the inner resolver is not asked: stores for other names do no harm, as long as
      the cache is not full. */
  lemma StoredIsServed(w: World, id: nat, steps: seq<Step>, id': nat)
    requires Enabled(w, Save(id)) && IsRun(Next(w, Save(id)), steps) && Spares(Next(w, Save(id)), steps, w.calls[id].name)
    requires var w' := After(Next(w, Save(id)), steps);
             && Enabled(w', Look(id')) && w'.calls[id'].name == w.calls[id].name
             && w'.calls[id'].start < w.calls[id].start + TTL
    ensures var w' := After(Next(w, Save(id)), steps);
            Next(w', Look(id')).calls[id']
              == Returned(w.calls[id].name, w'.calls[id'].start, Answer(w.calls[id].ip, false), true)
  {
    hide Stored;
    EntryStays(Next(w, Save(id)), steps, w.calls[id].name);
  }

  /** Failures leave no trace: the cache changes only with a positive answer. */
  lemma OnlyAnswersAreStored(w: World, s: Step)
    requires Safe(w) && Enabled(w, s) && Next(w, s).cache != w.cache
    ensures s.Save? && w.calls[s.id].ip.Some?
    ensures Reply(w.calls[s.id].name, w.calls[s.id].start, w.calls[s.id].ip.value) in w.replies
  {
    assert CallOk(w, w.calls[s.id]);
  }
}
