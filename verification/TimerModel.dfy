/** The versioned timer queue: deleting or renewing a timer only changes a version number. */
module TimerModel {
  import opened CString

  /** One queued entry. The callback is named by a number; it may be empty. */
  datatype Timer = Timer(id: int, expire: int, callback: Option<int>, version: int)

  /** The priority queue is a bag of entries; its top is some entry with a smallest deadline. */
  datatype Clock = Clock(queue: multiset<Timer>, versions: map<int, int>)

  // ----- the operations, one locked region each -----

  function Add(c: Clock, now: int, id: int, without: int, callback: Option<int>, version: int): Clock {
    Clock(c.queue + multiset{Timer(id, now + without, callback, version)}, c.versions[id := version])
  }

  function VersionOf(c: Clock, id: int): int {
    if id in c.versions then c.versions[id] else 0
  }

  /** The increment inside the lock of `mod_timer`; a missing id counts from 0. */
  function Bump(c: Clock, id: int): Clock {
    c.(versions := c.versions[id := VersionOf(c, id) + 1])
  }

  /** The read after the lock; reading a missing id inserts 0. */
  function Read(c: Clock, id: int): Clock {
    c.(versions := c.versions[id := VersionOf(c, id)])
  }

  function Mod(c: Clock, now: int, id: int, without: int, callback: Option<int>): Clock {
    var read := Read(Bump(c, id), id);
    Add(read, now, id, without, callback, VersionOf(read, id))
  }

  /** Undisturbed, a renewal adds with the next version. */
  lemma ModIsAdd(c: Clock, now: int, id: int, without: int, callback: Option<int>)
    ensures Mod(c, now, id, without, callback) == Add(c, now, id, without, callback, VersionOf(c, id) + 1)
  {
    var v := VersionOf(c, id) + 1;
    assert c.versions[id := v][id := v][id := v] == c.versions[id := v];
  }

  function Del(c: Clock, id: int): Clock {
    if id in c.versions then c.(versions := c.versions[id := 0]) else c
  }

  function DelAll(c: Clock): Clock {
    c.(queue := multiset{})
  }

  predicate IsTop(q: multiset<Timer>, top: Timer) {
    top in q && forall e :: e in q ==> top.expire <= e.expire
  }

  /** What the loop of `handle_timer` does with one entry that surfaces. */
  function Surface(versions: map<int, int>, e: Timer): (map<int, int>, seq<Timer>) {
    if e.id in versions && versions[e.id] != e.version then (versions, [])
    else if e.version == 0 then (versions - {e.id}, [])
    else (versions, if e.callback.Some? then [e] else [])
  }

  /** Surfacing entries one after the other: the versions left, and the entries whose callbacks are collected. */
  function Drain(versions: map<int, int>, order: seq<Timer>): (r: (map<int, int>, seq<Timer>))
    ensures forall e :: e in r.1 ==> e in order && e.callback.Some? && e.version != 0
    decreases |order|
  {
    if order == [] then (versions, []) else
      var (v, fired) := Surface(versions, order[0]);
      var (v', later) := Drain(v, order[1..]);
      (v', fired + later)
  }

  ghost predicate Sorted(order: seq<Timer>) {
    forall i, j :: 0 <= i < j < |order| ==> order[i].expire <= order[j].expire
  }

  /** The due entries, in an order in which they can surface. */
  ghost predicate Surfaces(q: multiset<Timer>, now: int, order: seq<Timer>) {
    multiset(order) <= q && Sorted(order)
    && (forall i :: 0 <= i < |order| ==> order[i].expire <= now)
    && forall e :: e in q - multiset(order) ==> now < e.expire
  }

  function CallbacksOf(fired: seq<Timer>): seq<int>
    requires forall e :: e in fired ==> e.callback.Some?
  {
    seq(|fired|, i requires 0 <= i < |fired| => fired[i].callback.value)
  }

  function Handle(c: Clock, order: seq<Timer>): (r: (Clock, seq<Timer>))
    ensures forall e :: e in r.1 ==> e in order && e.callback.Some? && e.version != 0
  {
    var (v, fired) := Drain(c.versions, order);
    (Clock(c.queue - multiset(order), v), fired)
  }

  lemma {:induction false} TopExists(q: multiset<Timer>)
    requires q != multiset{}
    ensures exists top :: IsTop(q, top)
    decreases |q|
  {
    var e :| e in q;
    var rest := q - multiset{e};
    if rest == multiset{} {
      assert IsTop(q, e) by {
        assert forall x :: x in q ==> x == e || x in rest;
      }
    } else {
      TopExists(rest);
      var top :| IsTop(rest, top);
      var best := if e.expire < top.expire then e else top;
      assert IsTop(q, best) by {
        assert forall x :: x in q ==> x == e || x in rest;
      }
    }
  }

  lemma SortedConcat(a: seq<Timer>, b: seq<Timer>)
    requires Sorted(a) && Sorted(b)
    requires forall i, j :: 0 <= i < |a| && 0 <= j < |b| ==> a[i].expire <= b[j].expire
    ensures Sorted(a + b)
  {
  }

  /** Entries that surface before all others can be put in front. */
  lemma SurfacesAfter(q: multiset<Timer>, now: int, first: seq<Timer>, rest: seq<Timer>)
    requires multiset(first) <= q && Sorted(first) && Surfaces(q - multiset(first), now, rest)
    requires forall i :: 0 <= i < |first| ==> first[i].expire <= now
    requires forall i, e :: 0 <= i < |first| && e in q - multiset(first) ==> first[i].expire <= e.expire
    ensures Surfaces(q, now, first + rest)
  {
    var order := first + rest;
    assert multiset(order) == multiset(first) + multiset(rest);
    assert q - multiset(order) == (q - multiset(first)) - multiset(rest);
    forall j | 0 <= j < |rest| ensures rest[j] in q - multiset(first) {
      assert rest[j] in multiset(rest);
    }
    SortedConcat(first, rest);
  }

  lemma SurfacesNext(q: multiset<Timer>, now: int, top: Timer, rest: seq<Timer>)
    requires top in q && top.expire <= now && Surfaces(q - multiset{top}, now, rest)
    requires forall e :: e in q - multiset{top} ==> top.expire <= e.expire
    ensures Surfaces(q, now, [top] + rest)
  {
    assert multiset([top]) == multiset{top};
    SurfacesAfter(q, now, [top], rest);
  }

  /** At any time the due entries can surface in some order. */
  lemma {:induction false} OrderExists(q: multiset<Timer>, now: int) returns (order: seq<Timer>)
    ensures Surfaces(q, now, order)
    decreases |q|
  {
    hide Surfaces;
    if e :| e in q && e.expire <= now {
      TopExists(q);
      var top :| IsTop(q, top);
      var rest := OrderExists(q - multiset{top}, now);
      SurfacesNext(q, now, top, rest);
      order := [top] + rest;
    } else {
      order := [];
      NothingSurfaces(q, now);
    }
  }

  lemma NothingSurfaces(q: multiset<Timer>, now: int)
    requires forall e :: e in q ==> now < e.expire
    ensures Surfaces(q, now, [])
  {
  }

  lemma Regroup(a: seq<Timer>, b: seq<Timer>, c: seq<Timer>)
    ensures (a + b) + c == a + (b + c)
  {
  }

  lemma {:induction false} DrainConcat(versions: map<int, int>, a: seq<Timer>, b: seq<Timer>)
    ensures var (v, fired) := Drain(versions, a);
            Drain(versions, a + b) == (Drain(v, b).0, fired + Drain(v, b).1)
    decreases |a|
  {
    if a == [] {
      assert a + b == b && [] + Drain(versions, b).1 == Drain(versions, b).1;
    } else {
      var (v, fired) := Surface(versions, a[0]);
      DrainConcat(v, a[1..], b);
      assert (a + b)[0] == a[0] && (a + b)[1..] == a[1..] + b;
      var mid := Drain(v, a[1..]);
      Regroup(fired, mid.1, Drain(mid.0, b).1);
    }
  }

  // ----- runs in which no queued version is 0 -----

  /** No entry of version 0 is queued, and no entry's id is missing from the version map. */
  ghost predicate NoZero(c: Clock) {
    forall e :: e in c.queue ==> e.version != 0 && e.id in c.versions
  }

  predicate Live(versions: map<int, int>, e: Timer) {
    e.id in versions && versions[e.id] == e.version && e.callback.Some?
  }

  function LiveOf(versions: map<int, int>, order: seq<Timer>): seq<Timer>
    decreases |order|
  {
    if order == [] then [] else
      (if Live(versions, order[0]) then [order[0]] else []) + LiveOf(versions, order[1..])
  }

  /** The version-0 branch never runs, no version is erased, and exactly the live entries fire. */
  lemma {:induction false} DrainIsFilter(versions: map<int, int>, order: seq<Timer>)
    requires forall e :: e in order ==> e.version != 0 && e.id in versions
    ensures Drain(versions, order) == (versions, LiveOf(versions, order))
    decreases |order|
  {
    if order != [] {
      assert order[0] in order;
      DrainIsFilter(versions, order[1..]);
    }
  }

  lemma {:induction false} LiveOfCounts(versions: map<int, int>, order: seq<Timer>, e: Timer)
    ensures multiset(LiveOf(versions, order))[e] == if Live(versions, e) then multiset(order)[e] else 0
    decreases |order|
  {
    if order != [] {
      LiveOfCounts(versions, order[1..], e);
      assert order == [order[0]] + order[1..];
      assert multiset(order) == multiset{order[0]} + multiset(order[1..]);
    }
  }

  lemma {:induction false} LiveOfMembers(versions: map<int, int>, order: seq<Timer>)
    ensures forall e :: e in LiveOf(versions, order) ==> e in order && Live(versions, e)
    decreases |order|
  {
    if order != [] {
      LiveOfMembers(versions, order[1..]);
    }
  }

  lemma SortedTail(order: seq<Timer>)
    requires Sorted(order) && order != []
    ensures Sorted(order[1..]) && forall e :: e in order[1..] ==> order[0].expire <= e.expire
  {
  }

  lemma SortedCons(e: Timer, rest: seq<Timer>)
    requires Sorted(rest) && forall x :: x in rest ==> e.expire <= x.expire
    ensures Sorted([e] + rest)
  {
  }

  lemma {:induction false} LiveOfSorted(versions: map<int, int>, order: seq<Timer>)
    requires Sorted(order)
    ensures Sorted(LiveOf(versions, order))
    decreases |order|
  {
    if order != [] {
      SortedTail(order);
      LiveOfSorted(versions, order[1..]);
      LiveOfMembers(versions, order[1..]);
      SortedCons(order[0], LiveOf(versions, order[1..]));
      assert [] + LiveOf(versions, order[1..]) == LiveOf(versions, order[1..]);
    }
  }

  /** Collecting the due entries of such a queue. */
  lemma HandleNoZero(c: Clock, now: int, order: seq<Timer>)
    requires NoZero(c) && Surfaces(c.queue, now, order)
    ensures Handle(c, order) == (Clock(c.queue - multiset(order), c.versions), LiveOf(c.versions, order))
    ensures NoZero(Handle(c, order).0)
  {
    forall e | e in order ensures e in c.queue {
      assert e in multiset(order);
    }
    DrainIsFilter(c.versions, order);
  }

  // ----- the map the queue stands for -----

  datatype Alarm = Alarm(expire: int, callback: int)

  /** Which id fires when; a timer with an empty callback never does. */
  type Book = map<int, Alarm>

  function BookAdd(b: Book, now: int, id: int, without: int, callback: Option<int>): Book {
    match callback case Some(cb) => b[id := Alarm(now + without, cb)] case None => b - {id}
  }

  function BookAfter(b: Book, now: int): Book {
    map id | id in b && now < b[id].expire :: b[id]
  }

  function EntryOf(c: Clock, b: Book, id: int): Timer
    requires id in b
  {
    Timer(id, b[id].expire, Some(b[id].callback), VersionOf(c, id))
  }

  /** The live entries of the queue are the map's alarms, one each. */
  ghost predicate Matches(c: Clock, b: Book) {
    (forall id :: id in b ==> id in c.versions && c.queue[EntryOf(c, b, id)] == 1)
    && forall e :: e in c.queue && Live(c.versions, e) ==> e.id in b && e == EntryOf(c, b, e.id)
  }

  ghost predicate Coupled(c: Clock, b: Book) {
    NoZero(c) && Matches(c, b)
  }

  /** No pending entry of this id would come alive with this version. */
  ghost predicate Unused(c: Clock, id: int, version: int) {
    forall e :: e in c.queue && e.id == id && e.version == version ==> e.callback.None?
  }

  lemma AddKeepsStep(c: Clock, b: Book, now: int, id: int, without: int, callback: Option<int>, version: int)
    requires Coupled(c, b) && version != 0 && Unused(c, id, version)
    ensures Coupled(Add(c, now, id, without, callback, version), BookAdd(b, now, id, without, callback))
  {
    var c', b' := Add(c, now, id, without, callback, version), BookAdd(b, now, id, without, callback);
    var e' := Timer(id, now + without, callback, version);
    assert e' in c'.queue && c'.queue[e'] == c.queue[e'] + 1;
    forall k | k in b' ensures k in c'.versions && c'.queue[EntryOf(c', b', k)] == 1 {
      if k == id {
        assert EntryOf(c', b', k) == e' && e' !in c.queue;
      } else {
        assert EntryOf(c', b', k) == EntryOf(c, b, k);
      }
    }
    forall e | e in c'.queue && Live(c'.versions, e) ensures e.id in b' && e == EntryOf(c', b', e.id) {
      if e.id != id {
        assert e in c.queue && Live(c.versions, e);
      } else {
        assert e == e' || e in c.queue;
      }
    }
  }

  /** Giving an id another version silences its pending entries, if none has that version. */
  lemma NewVersionKeepsStep(c: Clock, b: Book, id: int, version: int)
    requires Coupled(c, b) && Unused(c, id, version)
    ensures Coupled(c.(versions := c.versions[id := version]), b - {id})
  {
    var c', b' := c.(versions := c.versions[id := version]), b - {id};
    forall k | k in b' ensures k in c'.versions && c'.queue[EntryOf(c', b', k)] == 1 {
      assert EntryOf(c', b', k) == EntryOf(c, b, k);
    }
    forall e | e in c'.queue && Live(c'.versions, e) ensures e.id in b' && e == EntryOf(c', b', e.id) {
      assert e in c.queue && Live(c.versions, e);
    }
  }

  lemma DelKeepsStep(c: Clock, b: Book, id: int)
    requires Coupled(c, b)
    ensures Coupled(Del(c, id), b - {id})
  {
    if id in c.versions {
      NewVersionKeepsStep(c, b, id, 0);
    } else {
      assert b - {id} == b;
    }
  }

  lemma ReadKeepsStep(c: Clock, b: Book, id: int)
    requires Coupled(c, b)
    ensures Coupled(Read(c, id), b)
  {
    if id in c.versions {
      assert Read(c, id) == c;
    } else {
      NewVersionKeepsStep(c, b, id, 0);
      assert b - {id} == b;
    }
  }

  /** The callbacks the map would fire at this time: each once, in order of their deadlines. */
  ghost predicate Fires(b: Book, now: int, fired: seq<Timer>) {
    Sorted(fired)
    && (forall i, j :: 0 <= i < j < |fired| ==> fired[i].id != fired[j].id)
    && (forall e :: e in fired ==>
          e.id in b && e.expire == b[e.id].expire <= now && e.callback == Some(b[e.id].callback))
    && forall id :: id in b && b[id].expire <= now ==> FiresFor(fired, id)
  }

  /** Whether some entry that fired has this id. */
  ghost predicate FiresFor(fired: seq<Timer>, id: int) {
    exists i :: 0 <= i < |fired| && fired[i].id == id
  }

  lemma TwiceIsTwo(s: seq<Timer>, i: nat, j: nat)
    requires i < j < |s| && s[i] == s[j]
    ensures 2 <= multiset(s)[s[i]]
  {
    assert s == s[..j] + [s[j]] + s[j + 1..];
    assert s[i] == s[..j][i] && s[i] in multiset(s[..j]);
    assert multiset(s) == multiset(s[..j]) + multiset{s[j]} + multiset(s[j + 1..]);
  }

  /** The live entries among the due ones are what the map would fire. */
  lemma LiveOfFires(c: Clock, b: Book, now: int, order: seq<Timer>)
    requires Matches(c, b) && Surfaces(c.queue, now, order)
    ensures Fires(b, now, LiveOf(c.versions, order))
  {
    var fired := LiveOf(c.versions, order);
    FiredAreBooked(c, b, now, order);
    LiveOfSorted(c.versions, order);
    forall k | k in b && b[k].expire <= now ensures FiresFor(fired, k) {
      var e := EntryOf(c, b, k);
      LiveDueFires(c, now, order, e);
      var i :| 0 <= i < |fired| && fired[i] == e;
      assert fired[i].id == k;
    }
  }

  lemma FiredAreBooked(c: Clock, b: Book, now: int, order: seq<Timer>)
    requires Matches(c, b) && Surfaces(c.queue, now, order)
    ensures var fired := LiveOf(c.versions, order);
            (forall e :: e in fired ==>
               e.id in b && e.expire == b[e.id].expire <= now && e.callback == Some(b[e.id].callback))
            && forall i, j :: 0 <= i < j < |fired| ==> fired[i].id != fired[j].id
  {
    var fired := LiveOf(c.versions, order);
    forall e | e in fired
      ensures e in order && e in c.queue && e.id in b && e == EntryOf(c, b, e.id) && multiset(fired)[e] <= 1
    {
      LiveOfCounts(c.versions, order, e);
      assert e in multiset(fired);
      assert e in multiset(order);
    }
    forall i, j | 0 <= i < j < |fired| ensures fired[i].id != fired[j].id {
      if fired[i].id == fired[j].id {
        assert fired[i] in fired && fired[j] in fired;
        TwiceIsTwo(fired, i, j);
      }
    }
  }

  /** A live entry that is due is as often among the live ones as it is queued. */
  lemma LiveDueFires(c: Clock, now: int, order: seq<Timer>, e: Timer)
    requires Surfaces(c.queue, now, order) && e in c.queue && Live(c.versions, e) && e.expire <= now
    ensures multiset(LiveOf(c.versions, order))[e] == c.queue[e] && e in LiveOf(c.versions, order)
  {
    LiveOfCounts(c.versions, order, e);
    assert e !in c.queue - multiset(order);
    assert e in multiset(LiveOf(c.versions, order));
  }

  lemma {:induction false} HandleKeepsStep(c: Clock, b: Book, now: int, order: seq<Timer>)
    requires Coupled(c, b) && Surfaces(c.queue, now, order)
    ensures Coupled(Handle(c, order).0, BookAfter(b, now))
    ensures Fires(b, now, Handle(c, order).1)
  {
    HandleNoZero(c, now, order);
    LiveOfFires(c, b, now, order);
    var c', b' := Handle(c, order).0, BookAfter(b, now);
    forall k | k in b' ensures k in c'.versions && c'.queue[EntryOf(c', b', k)] == 1 {
      var e := EntryOf(c, b, k);
      assert EntryOf(c', b', k) == e && e !in order;
      assert multiset(order)[e] == 0;
    }
    forall e | e in c'.queue && Live(c'.versions, e) ensures e.id in b' && e == EntryOf(c', b', e.id) {
      assert e in c.queue && Live(c.versions, e);
    }
  }

  // ----- whole runs -----

  /** A renewal is `OpBump`, `OpRead` and `OpAdd` with the version that was read; anything may happen in between. */
  datatype Op =
    | OpAdd(now: int, id: int, without: int, callback: Option<int>, version: int)
    | OpBump(id: int)
    | OpRead(id: int)
    | OpDel(id: int)
    | OpDelAll
    | OpHandle(now: int, order: seq<Timer>)

  function Step(c: Clock, op: Op): (Clock, seq<Timer>) {
    match op
    case OpAdd(now, id, without, callback, version) => (Add(c, now, id, without, callback, version), [])
    case OpBump(id) => (Bump(c, id), [])
    case OpRead(id) => (Read(c, id), [])
    case OpDel(id) => (Del(c, id), [])
    case OpDelAll => (DelAll(c), [])
    case OpHandle(now, order) => Handle(c, order)
  }

  /** On the map, a renewal takes the alarm away with its first part and sets the new one with its last. */
  function BookStep(b: Book, op: Op): Book {
    match op
    case OpAdd(now, id, without, callback, version) => BookAdd(b, now, id, without, callback)
    case OpBump(id) => b - {id}
    case OpRead(id) => b
    case OpDel(id) => b - {id}
    case OpDelAll => map[]
    case OpHandle(now, order) => BookAfter(b, now)
  }

  function After(c: Clock, ops: seq<Op>): Clock
    decreases |ops|
  {
    if ops == [] then c else After(Step(c, ops[0]).0, ops[1..])
  }

  /** What a caller can check before each operation; for handle, that the order is one the queue allows. */
  ghost predicate Guarded(c: Clock, op: Op) {
    match op
    case OpAdd(now, id, without, callback, version) => version != 0 && Unused(c, id, version)
    case OpBump(id) => Unused(c, id, VersionOf(c, id) + 1)
    case OpHandle(now, order) => Surfaces(c.queue, now, order)
    case _ => true
  }

  ghost predicate GuardedRun(c: Clock, ops: seq<Op>)
    decreases |ops|
  {
    ops == [] || (Guarded(c, ops[0]) && GuardedRun(Step(c, ops[0]).0, ops[1..]))
  }

  /** Every handle pass of the run collects what the map would fire at that moment. */
  ghost predicate FollowsBook(c: Clock, b: Book, ops: seq<Op>)
    decreases |ops|
  {
    ops == [] ||
    ((ops[0].OpHandle? ==> Fires(b, ops[0].now, Step(c, ops[0]).1))
     && FollowsBook(Step(c, ops[0]).0, BookStep(b, ops[0]), ops[1..]))
  }

  lemma StepKeepsStep(c: Clock, b: Book, op: Op)
    requires Coupled(c, b) && Guarded(c, op)
    ensures Coupled(Step(c, op).0, BookStep(b, op))
    ensures op.OpHandle? ==> Fires(b, op.now, Step(c, op).1)
  {
    match op
    case OpAdd(now, id, without, callback, version) => AddKeepsStep(c, b, now, id, without, callback, version);
    case OpBump(id) => NewVersionKeepsStep(c, b, id, VersionOf(c, id) + 1);
    case OpRead(id) => ReadKeepsStep(c, b, id);
    case OpDel(id) => DelKeepsStep(c, b, id);
    case OpDelAll =>
    case OpHandle(now, order) => HandleKeepsStep(c, b, now, order);
  }

  /** The versioned queue refines the map over every guarded run, however renewals are interrupted. */
  lemma {:induction false} QueueRefinesBook(c: Clock, b: Book, ops: seq<Op>)
    requires Coupled(c, b) && GuardedRun(c, ops)
    ensures FollowsBook(c, b, ops)
    decreases |ops|
  {
    hide Coupled, Guarded, Step, BookStep, Fires;
    if ops != [] {
      StepKeepsStep(c, b, ops[0]);
      QueueRefinesBook(Step(c, ops[0]).0, BookStep(b, ops[0]), ops[1..]);
    }
  }

  /** Undisturbed, the three parts make up the whole renewal. */
  lemma {:induction false} RenewalIsMod(c: Clock, now: int, id: int, without: int, callback: Option<int>)
    ensures After(c, [OpBump(id), OpRead(id), OpAdd(now, id, without, callback, VersionOf(c, id) + 1)])
            == Mod(c, now, id, without, callback)
  {
    var push := OpAdd(now, id, without, callback, VersionOf(c, id) + 1);
    hide After;
    AfterCons(c, OpBump(id), [OpRead(id), push]);
    AfterCons(Bump(c, id), OpRead(id), [push]);
    AfterCons(Read(Bump(c, id), id), push, []);
    assert [OpBump(id)] + [OpRead(id), push] == [OpBump(id), OpRead(id), push];
    assert [OpRead(id)] + [push] == [OpRead(id), push];
  }

  lemma AfterCons(c: Clock, op: Op, ops: seq<Op>)
    ensures After(c, [op] + ops) == if ops == [] then Step(c, op).0 else After(Step(c, op).0, ops)
    ensures [op] + [] == [op]
  {
    hide Step;
    assert ([op] + ops)[1..] == ops;
  }

  // ----- a discipline of versions that meets the guards -----

  /** Versions are counted up from 1, and pending ones never exceed the current one, unless the id was deleted. */
  ghost predicate Ordered(c: Clock) {
    (forall e :: e in c.queue ==> 1 <= e.version && e.id in c.versions)
    && (forall id :: id in c.versions ==> 0 <= c.versions[id])
    && forall e :: e in c.queue ==> e.version <= VersionOf(c, e.id) || VersionOf(c, e.id) == 0
  }

  ghost predicate AbovePending(c: Clock, id: int, version: int) {
    1 <= version && forall e :: e in c.queue && e.id == id ==> e.version < version
  }

  /** Added versions are above all pending ones; a deleted id is renewed only once drained. */
  ghost predicate Disciplined(c: Clock, op: Op) {
    match op
    case OpAdd(now, id, without, callback, version) => AbovePending(c, id, version)
    case OpBump(id) => VersionOf(c, id) == 0 ==> forall e :: e in c.queue ==> e.id != id
    case OpHandle(now, order) => Surfaces(c.queue, now, order)
    case _ => true
  }

  ghost predicate DisciplinedRun(c: Clock, ops: seq<Op>)
    decreases |ops|
  {
    ops == [] || (Disciplined(c, ops[0]) && DisciplinedRun(Step(c, ops[0]).0, ops[1..]))
  }

  lemma AddKeepsOrdered(c: Clock, now: int, id: int, without: int, callback: Option<int>, version: int)
    requires Ordered(c) && AbovePending(c, id, version)
    ensures Ordered(Add(c, now, id, without, callback, version)) && version != 0 && Unused(c, id, version)
  {
    var c' := Add(c, now, id, without, callback, version);
    forall e | e in c'.queue
      ensures 1 <= e.version && e.id in c'.versions
      ensures e.version <= VersionOf(c', e.id) || VersionOf(c', e.id) == 0
    {
      assert e == Timer(id, now + without, callback, version) || e in c.queue;
    }
  }

  lemma BumpKeepsOrdered(c: Clock, id: int)
    requires Ordered(c) && Disciplined(c, OpBump(id))
    ensures Ordered(Bump(c, id)) && Unused(c, id, VersionOf(c, id) + 1)
    ensures AbovePending(Bump(c, id), id, VersionOf(Bump(c, id), id))
  {
    assert forall k :: k != id ==> VersionOf(Bump(c, id), k) == VersionOf(c, k);
  }

  lemma DelKeepsOrdered(c: Clock, id: int)
    requires Ordered(c)
    ensures Ordered(Del(c, id))
  {
    assert forall k :: VersionOf(Del(c, id), k) == VersionOf(c, k) || VersionOf(Del(c, id), k) == 0;
  }

  lemma ReadKeepsOrdered(c: Clock, id: int)
    requires Ordered(c)
    ensures Ordered(Read(c, id))
  {
    assert forall k :: VersionOf(Read(c, id), k) == VersionOf(c, k);
  }

  lemma HandleKeepsOrdered(c: Clock, now: int, order: seq<Timer>)
    requires Ordered(c) && Surfaces(c.queue, now, order)
    ensures Ordered(Handle(c, order).0) && Handle(c, order).0.versions == c.versions
  {
    HandleNoZero(c, now, order);
  }

  lemma DisciplineIsGuard(c: Clock, op: Op)
    requires Ordered(c) && Disciplined(c, op)
    ensures Guarded(c, op) && Ordered(Step(c, op).0)
  {
    hide Add, Bump, Read, Del, Handle, Unused, Surfaces, Ordered, AbovePending;
    match op
    case OpAdd(now, id, without, callback, version) =>
      AddKeepsOrdered(c, now, id, without, callback, version);
    case OpBump(id) => BumpKeepsOrdered(c, id);
    case OpRead(id) => ReadKeepsOrdered(c, id);
    case OpDel(id) => DelKeepsOrdered(c, id);
    case OpDelAll => DelAllKeepsOrdered(c);
    case OpHandle(now, order) => HandleKeepsOrdered(c, now, order);
  }

  lemma DelAllKeepsOrdered(c: Clock)
    requires Ordered(c)
    ensures Ordered(DelAll(c))
  {
  }

  lemma {:induction false} DisciplineIsGuardedRun(c: Clock, ops: seq<Op>)
    requires Ordered(c) && DisciplinedRun(c, ops)
    ensures GuardedRun(c, ops) && Ordered(After(c, ops))
    decreases |ops|
  {
    hide Ordered, Guarded, Disciplined, Step;
    if ops != [] {
      DisciplineIsGuard(c, ops[0]);
      DisciplineIsGuardedRun(Step(c, ops[0]).0, ops[1..]);
    }
  }

  /** Every disciplined run collects what the map would fire. */
  lemma {:induction false} DisciplinedRunsFollowBook(c: Clock, b: Book, ops: seq<Op>)
    requires Ordered(c) && Matches(c, b) && DisciplinedRun(c, ops)
    ensures FollowsBook(c, b, ops)
  {
    hide DisciplinedRun, GuardedRun, Matches, FollowsBook;
    assert NoZero(c);
    DisciplineIsGuardedRun(c, ops);
    QueueRefinesBook(c, b, ops);
  }

  predicate Touches(op: Op, id: int) {
    (op.OpAdd? || op.OpBump?) && op.id == id
  }

  /** While nobody adds to an id, a version above its pending ones stays above them. */
  lemma {:induction false} StaysAbovePending(c: Clock, ops: seq<Op>, id: int, version: int)
    requires Ordered(c) && AbovePending(c, id, version) && DisciplinedRun(c, ops)
    requires forall i :: 0 <= i < |ops| ==> !Touches(ops[i], id)
    ensures Ordered(After(c, ops)) && AbovePending(After(c, ops), id, version)
    ensures (forall i :: 0 <= i < |ops| ==> ops[i] != OpDel(id)) ==> VersionOf(After(c, ops), id) == VersionOf(c, id)
    decreases |ops|
  {
    if ops != [] {
      DisciplineIsGuard(c, ops[0]);
      StepStaysAbove(c, ops[0], id, version);
      hide Ordered, AbovePending, Step, Disciplined;
      StaysAbovePending(Step(c, ops[0]).0, ops[1..], id, version);
    }
  }

  lemma StepStaysAbove(c: Clock, op: Op, id: int, version: int)
    requires Ordered(c) && AbovePending(c, id, version) && Disciplined(c, op) && !Touches(op, id)
    ensures AbovePending(Step(c, op).0, id, version)
    ensures op != OpDel(id) ==> VersionOf(Step(c, op).0, id) == VersionOf(c, id)
  {
    if op.OpHandle? {
      HandleNoZero(c, op.now, op.order);
    }
  }

  /** A renewal that starts with discipline ends with it, if no deletion of the id comes before its read. */
  lemma {:induction false} RenewalIsDisciplined(c: Clock, id: int, ops: seq<Op>, more: seq<Op>)
    requires Ordered(c) && Disciplined(c, OpBump(id))
    requires DisciplinedRun(Bump(c, id), ops) && DisciplinedRun(Read(After(Bump(c, id), ops), id), more)
    requires forall i :: 0 <= i < |ops| ==> !Touches(ops[i], id) && ops[i] != OpDel(id)
    requires forall i :: 0 <= i < |more| ==> !Touches(more[i], id)
    ensures var read := After(Bump(c, id), ops);
            AbovePending(After(Read(read, id), more), id, VersionOf(read, id))
  {
    hide Ordered, DisciplinedRun, Bump, After;
    BumpKeepsOrdered(c, id);
    var version := VersionOf(Bump(c, id), id);
    StaysAbovePending(Bump(c, id), ops, id, version);
    ReadKeepsOrdered(After(Bump(c, id), ops), id);
    StaysAbovePending(Read(After(Bump(c, id), ops), id), more, id, version);
  }

  // ----- deleted timers stay silent -----

  /** Operations that queue no version 0. */
  ghost predicate NonZeroOp(c: Clock, op: Op) {
    (op.OpAdd? ==> op.version != 0) && (op.OpHandle? ==> Surfaces(c.queue, op.now, op.order))
  }

  ghost predicate NonZeroRun(c: Clock, ops: seq<Op>)
    decreases |ops|
  {
    ops == [] || (NonZeroOp(c, ops[0]) && NonZeroRun(Step(c, ops[0]).0, ops[1..]))
  }

  ghost predicate Silent(c: Clock, id: int) {
    VersionOf(c, id) == 0
  }

  lemma StepKeepsNoZero(c: Clock, op: Op, id: int)
    requires NoZero(c) && NonZeroOp(c, op)
    ensures NoZero(Step(c, op).0)
    ensures c.versions.Keys <= Step(c, op).0.versions.Keys
    ensures Silent(c, id) && !Touches(op, id) ==> Silent(Step(c, op).0, id)
    ensures Silent(c, id) ==> forall e :: e in Step(c, op).1 ==> e.id != id
  {
    hide Handle, Surfaces, Drain;
    if op.OpHandle? {
      HandleSparesSilent(c, op.now, op.order, id);
    } else if op.OpAdd? {
      var e' := Timer(op.id, op.now + op.without, op.callback, op.version);
      assert forall e :: e in Step(c, op).0.queue ==> e == e' || e in c.queue;
    }
  }

  lemma HandleSparesSilent(c: Clock, now: int, order: seq<Timer>, id: int)
    requires NoZero(c) && Surfaces(c.queue, now, order)
    ensures NoZero(Handle(c, order).0) && Handle(c, order).0.versions == c.versions
    ensures Silent(c, id) ==> forall e :: e in Handle(c, order).1 ==> e.id != id
  {
    HandleNoZero(c, now, order);
    forall e | e in LiveOf(c.versions, order) ensures VersionOf(c, e.id) != 0 {
      LiveOfCounts(c.versions, order, e);
      assert e in multiset(LiveOf(c.versions, order));
      assert e in multiset(order) && e in c.queue;
    }
  }

  /** No pass of the run collects a callback of this id, and no version is ever erased. */
  ghost predicate NeverFires(c: Clock, ops: seq<Op>, id: int)
    decreases |ops|
  {
    ops == [] ||
    ((forall e :: e in Step(c, ops[0]).1 ==> e.id != id)
     && c.versions.Keys <= Step(c, ops[0]).0.versions.Keys
     && NeverFires(Step(c, ops[0]).0, ops[1..], id))
  }

  lemma {:induction false} SilentNeverFires(c: Clock, ops: seq<Op>, id: int)
    requires NoZero(c) && Silent(c, id) && NonZeroRun(c, ops)
    requires forall i :: 0 <= i < |ops| ==> !Touches(ops[i], id)
    ensures NeverFires(c, ops, id)
    decreases |ops|
  {
    hide NoZero, NonZeroOp, Step, Silent;
    if ops != [] {
      StepKeepsNoZero(c, ops[0], id);
      SilentNeverFires(Step(c, ops[0]).0, ops[1..], id);
    }
  }

  /** After `del_timer` no pass collects a callback for the id until it is added or bumped again,
      even when the deletion falls into the middle of a renewal. */
  lemma {:induction false} DeletedNeverFires(c: Clock, ops: seq<Op>, id: int)
    requires NoZero(c) && NonZeroRun(Del(c, id), ops)
    requires forall i :: 0 <= i < |ops| ==> !Touches(ops[i], id)
    ensures NeverFires(Del(c, id), ops, id)
  {
    SilentNeverFires(Del(c, id), ops, id);
  }

  // ----- with version 0 in the queue -----

  /** An entry that can fire, unless it is stale. */
  predicate Loaded(e: Timer, id: int) {
    e.id == id && e.version != 0 && e.callback.Some?
  }

  ghost predicate HasLoaded(order: seq<Timer>, id: int) {
    exists j :: 0 <= j < |order| && Loaded(order[j], id)
  }

  ghost predicate HasZero(order: seq<Timer>, id: int) {
    exists i :: 0 <= i < |order| && order[i].id == id && order[i].version == 0
  }

  /** Whether a loaded entry surfaces behind an entry of the id with version 0. */
  ghost predicate LoadedBehindZero(order: seq<Timer>, id: int) {
    exists i, j :: 0 <= i < j < |order| && order[i].id == id && order[i].version == 0 && Loaded(order[j], id)
  }

  lemma HasConcat(a: seq<Timer>, b: seq<Timer>, id: int)
    ensures FiresFor(a + b, id) <==> FiresFor(a, id) || FiresFor(b, id)
    ensures HasLoaded(a + b, id) <==> HasLoaded(a, id) || HasLoaded(b, id)
    ensures HasZero(a + b, id) <==> HasZero(a, id) || HasZero(b, id)
  {
    assert forall i :: 0 <= i < |a| ==> (a + b)[i] == a[i];
    assert forall i :: 0 <= i < |b| ==> (a + b)[|a| + i] == b[i];
  }

  lemma BehindConcat(a: seq<Timer>, b: seq<Timer>, id: int)
    ensures LoadedBehindZero(a + b, id)
            <==> LoadedBehindZero(a, id) || LoadedBehindZero(b, id) || (HasZero(a, id) && HasLoaded(b, id))
  {
    var s := a + b;
    assert forall i :: 0 <= i < |a| ==> s[i] == a[i];
    assert forall i :: 0 <= i < |b| ==> s[|a| + i] == b[i];
    if i, j :| 0 <= i < j < |s| && s[i].id == id && s[i].version == 0 && Loaded(s[j], id) {
      assert |a| <= i ==> s[i] == b[i - |a|] && s[j] == b[j - |a|];
      assert |a| <= j ==> s[j] == b[j - |a|];
    }
    if i, j :| 0 <= i < j < |b| && b[i].id == id && b[i].version == 0 && Loaded(b[j], id) {
      assert s[|a| + i] == b[i] && s[|a| + j] == b[j];
    }
    if HasZero(a, id) && HasLoaded(b, id) {
      var i :| 0 <= i < |a| && a[i].id == id && a[i].version == 0;
      var j :| 0 <= j < |b| && Loaded(b[j], id);
      assert s[i] == a[i] && s[|a| + j] == b[j];
    }
  }

  /** Where an order begins with one entry. */
  lemma OrderCons(order: seq<Timer>, id: int)
    requires order != []
    ensures HasLoaded(order, id) <==> Loaded(order[0], id) || HasLoaded(order[1..], id)
    ensures HasZero(order, id) <==> (order[0].id == id && order[0].version == 0) || HasZero(order[1..], id)
    ensures LoadedBehindZero(order, id)
            <==> LoadedBehindZero(order[1..], id)
                 || (order[0].id == id && order[0].version == 0 && HasLoaded(order[1..], id))
  {
    var first := [order[0]];
    assert order == first + order[1..];
    HasConcat(first, order[1..], id);
    BehindConcat(first, order[1..], id);
    assert first[0] == order[0];
  }

  /** The id is deleted: its version is 0, or the version-0 branch has erased it. */
  predicate Deleted(versions: map<int, int>, id: int) {
    id in versions ==> versions[id] == 0
  }

  /** One entry that surfaces for a deleted id. */
  lemma SurfaceDeleted(versions: map<int, int>, e: Timer, id: int)
    requires Deleted(versions, id)
    ensures var (v, fired) := Surface(versions, e);
            Deleted(v, id)
            && (id in v <==> id in versions && !(e.id == id && e.version == 0))
            && (FiresFor(fired, id) <==> id !in versions && Loaded(e, id))
  {
    assert FiresFor([e], id) <==> e.id == id by {
      assert [e][0] == e;
    }
  }

  /** A deleted id fires in a pass exactly when a loaded entry surfaces behind version 0, in this pass or before. */
  lemma {:induction false} PassFiresDeleted(versions: map<int, int>, order: seq<Timer>, id: int)
    requires Deleted(versions, id)
    ensures var (v, fired) := Drain(versions, order);
            Deleted(v, id) && (id in v <==> id in versions && !HasZero(order, id))
            && (FiresFor(fired, id) <==> if id in versions then LoadedBehindZero(order, id) else HasLoaded(order, id))
    decreases |order|
  {
    if order != [] {
      var (v, fired) := Surface(versions, order[0]);
      SurfaceDeleted(versions, order[0], id);
      hide FiresFor, HasLoaded, HasZero, LoadedBehindZero, Surface;
      PassFiresDeleted(v, order[1..], id);
      HasConcat(fired, Drain(v, order[1..]).1, id);
      OrderCons(order, id);
      BehindIsLoaded(order[1..], id);
    }
  }

  lemma BehindIsLoaded(order: seq<Timer>, id: int)
    ensures LoadedBehindZero(order, id) ==> HasLoaded(order, id)
  {
  }

  /** All entries that surface over a run, and all that fire. */
  function Surfaced(ops: seq<Op>): seq<Timer>
    decreases |ops|
  {
    if ops == [] then [] else (if ops[0].OpHandle? then ops[0].order else []) + Surfaced(ops[1..])
  }

  function Fired(c: Clock, ops: seq<Op>): seq<Timer>
    decreases |ops|
  {
    if ops == [] then [] else Step(c, ops[0]).1 + Fired(Step(c, ops[0]).0, ops[1..])
  }

  /** Over any run that leaves a deleted id alone, some pass fires it exactly when an entry of version 0 surfaces
      before one of its stale entries, be it in an earlier pass. */
  lemma {:induction false} DeletedFiresExactly(c: Clock, ops: seq<Op>, id: int)
    requires Deleted(c.versions, id)
    requires forall i :: 0 <= i < |ops| ==> !Touches(ops[i], id) && ops[i] != OpRead(id)
    ensures FiresFor(Fired(c, ops), id)
            <==> if id in c.versions then LoadedBehindZero(Surfaced(ops), id) else HasLoaded(Surfaced(ops), id)
    decreases |ops|
  {
    if ops != [] {
      var (c', fired) := Step(c, ops[0]);
      StepKeepsDeleted(c, ops[0], id);
      hide FiresFor, HasLoaded, HasZero, LoadedBehindZero, Step, Deleted;
      DeletedFiresExactly(c', ops[1..], id);
      HasConcat(fired, Fired(c', ops[1..]), id);
      var order, later := if ops[0].OpHandle? then ops[0].order else [], Surfaced(ops[1..]);
      HasConcat(order, later, id);
      BehindConcat(order, later, id);
      BehindIsLoaded(later, id);
    }
  }

  /** Reading the version of an erased id makes its stale entries stale again. */
  lemma {:induction false} ReadSilencesErased(c: Clock, ops: seq<Op>, id: int)
    requires Deleted(c.versions, id)
    requires forall i :: 0 <= i < |ops| ==> !Touches(ops[i], id) && ops[i] != OpRead(id)
    ensures FiresFor(Fired(Read(c, id), ops), id) <==> LoadedBehindZero(Surfaced(ops), id)
  {
    DeletedFiresExactly(Read(c, id), ops, id);
  }

  lemma StepKeepsDeleted(c: Clock, op: Op, id: int)
    requires Deleted(c.versions, id) && !Touches(op, id) && op != OpRead(id)
    ensures var (c', fired) := Step(c, op);
            var order := if op.OpHandle? then op.order else [];
            Deleted(c'.versions, id) && (id in c'.versions <==> id in c.versions && !HasZero(order, id))
            && (FiresFor(fired, id) <==> if id in c.versions then LoadedBehindZero(order, id) else HasLoaded(order, id))
  {
    if op.OpHandle? {
      PassFiresDeleted(c.versions, op.order, id);
    }
  }

  // ----- exactly when an added timer fires as the map says -----

  /** Every pass from some time on collects what the map would fire. */
  ghost predicate FiresRight(c: Clock, b: Book, from: int) {
    forall at, order :: from <= at && Surfaces(c.queue, at, order) ==> Fires(b, at, Handle(c, order).1)
  }

  /** The version is new to the id; version 0 does only as an empty timer that surfaces behind all that could fire. */
  ghost predicate AddIsSafe(c: Clock, now: int, id: int, without: int, callback: Option<int>, version: int) {
    if version != 0 then Unused(c, id, version)
    else callback.None? && forall e :: e in c.queue && Loaded(e, id) ==> e.expire < now + without
  }

  lemma {:induction false} LateExists(q: multiset<Timer>, from: int) returns (at: int)
    ensures from <= at && forall e :: e in q ==> e.expire <= at
    decreases |q|
  {
    at := from;
    if e :| e in q {
      at := LateExists(q - multiset{e}, from);
      assert forall x :: x in q ==> x == e || x in q - multiset{e};
      at := if at < e.expire then e.expire else at;
    }
  }

  /** Whatever was queued before, an added timer fires as the map says exactly when its version is safe. */
  lemma AddFiresExactly(c: Clock, b: Book, now: int, id: int, without: int, callback: Option<int>, version: int,
                        from: int)
    requires Coupled(c, b)
    ensures FiresRight(Add(c, now, id, without, callback, version), BookAdd(b, now, id, without, callback), from)
            <==> AddIsSafe(c, now, id, without, callback, version)
  {
    var c', b' := Add(c, now, id, without, callback, version), BookAdd(b, now, id, without, callback);
    if AddIsSafe(c, now, id, without, callback, version) {
      forall at, order | from <= at && Surfaces(c'.queue, at, order) ensures Fires(b', at, Handle(c', order).1) {
        if version != 0 {
          AddKeepsStep(c, b, now, id, without, callback, version);
          HandleKeepsStep(c', b', at, order);
        } else {
          EmptyZeroFires(c, b, now, id, without, at, order);
        }
      }
    } else {
      var at := LateExists(c'.queue, from);
      if version != 0 {
        var order := OrderExists(c'.queue, at);
        ReusedVersionMisfires(c, b, now, id, without, callback, version, at, order);
      } else {
        var order := ZeroMisfires(c, b, now, id, without, callback, at);
      }
    }
  }

  /** A reused version brings a stale entry back: no late enough pass fires what the map would. */
  lemma ReusedVersionMisfires(c: Clock, b: Book, now: int, id: int, without: int, callback: Option<int>, version: int,
                              at: int, order: seq<Timer>)
    requires Coupled(c, b) && version != 0 && !Unused(c, id, version)
    requires var c' := Add(c, now, id, without, callback, version);
             Surfaces(c'.queue, at, order) && forall e :: e in c'.queue && e.id == id ==> e.expire <= at
    ensures !Fires(BookAdd(b, now, id, without, callback), at,
                   Handle(Add(c, now, id, without, callback, version), order).1)
  {
    hide Handle, Surfaces, Fires;
    var c' := Add(c, now, id, without, callback, version);
    var e' := Timer(id, now + without, callback, version);
    var e :| e in c.queue && e.id == id && e.version == version && e.callback.Some?;
    assert forall x :: x in c'.queue ==> x == e' || x in c.queue;
    var b' := BookAdd(b, now, id, without, callback);
    if Fires(b', at, Handle(c', order).1) {
      LiveFiresOnce(c', b', at, order, e);
    }
  }

  /** If a pass fires what the map says, a live entry that is due is the alarm of its id, and queued once. */
  lemma LiveFiresOnce(c: Clock, b: Book, at: int, order: seq<Timer>, e: Timer)
    requires NoZero(c) && Surfaces(c.queue, at, order) && Fires(b, at, Handle(c, order).1)
    requires e in c.queue && Live(c.versions, e) && e.expire <= at
    ensures e.id in b && b[e.id] == Alarm(e.expire, e.callback.value) && c.queue[e] == 1
  {
    hide Surfaces, LiveOf, NoZero, Handle;
    HandleNoZero(c, at, order);
    LiveDueFires(c, at, order, e);
    if 2 <= c.queue[e] {
      var i, j := TwoPlaces(LiveOf(c.versions, order), e);
    }
  }

  lemma TwoPlaces(s: seq<Timer>, e: Timer) returns (i: nat, j: nat)
    requires 2 <= multiset(s)[e]
    ensures i < j < |s| && s[i] == e && s[j] == e
  {
    assert e in s;
    i :| 0 <= i < |s| && s[i] == e;
    assert s == s[..i] + [s[i]] + s[i + 1..];
    assert multiset(s) == multiset(s[..i]) + multiset{e} + multiset(s[i + 1..]);
    if e in s[..i] {
      j := i;
      i :| 0 <= i < j && s[..j][i] == e;
    } else {
      assert multiset(s[..i])[e] == 0;
      assert e in multiset(s[i + 1..]);
      assert e in s[i + 1..];
      var k :| 0 <= k < |s[i + 1..]| && s[i + 1..][k] == e;
      j := i + 1 + k;
    }
  }

  /** An order in which one due entry surfaces behind all entries due by `mid` and before all others. */
  lemma OrderAround(q: multiset<Timer>, e': Timer, mid: int, at: int) returns (before: seq<Timer>, after: seq<Timer>)
    requires e' in q && e'.expire - 1 <= mid <= e'.expire <= at
    ensures Surfaces(q, at, before + ([e'] + after))
    ensures forall e :: e in before ==> e in q - multiset{e'} && e.expire <= mid
    ensures forall e :: e in after ==> e in q - multiset{e'} && mid < e.expire
    ensures forall e :: e in q - multiset{e'} && mid < e.expire <= at ==> e in after
  {
    var others := q - multiset{e'};
    before := OrderExists(others, mid);
    var rest := others - multiset(before);
    after := OrderExists(rest, at);
    assert forall e :: e in before ==> e in multiset(before);
    assert forall e :: e in after ==> e in multiset(after) && e in rest;
    forall e | e in others && mid < e.expire <= at ensures e in after {
      assert e !in before && multiset(before)[e] == 0;
      assert e !in rest - multiset(after);
      assert e in multiset(after);
    }
    SurfacesAround(q, e', mid, at, before, after);
  }

  lemma FirstInFront(q: multiset<Timer>, at: int, first: seq<Timer>, rest: seq<Timer>, mid: int)
    requires multiset(first) <= q && Sorted(first) && Surfaces(q - multiset(first), at, rest) && mid <= at
    requires forall i :: 0 <= i < |first| ==> first[i].expire <= mid
    requires forall e :: e in q - multiset(first) ==> mid <= e.expire
    ensures Surfaces(q, at, first + rest)
  {
    SurfacesAfter(q, at, first, rest);
  }

  lemma SurfacesAround(q: multiset<Timer>, e': Timer, mid: int, at: int, before: seq<Timer>, after: seq<Timer>)
    requires e' in q && e'.expire - 1 <= mid <= e'.expire <= at
    requires Surfaces(q - multiset{e'}, mid, before) && Surfaces(q - multiset{e'} - multiset(before), at, after)
    ensures Surfaces(q, at, before + ([e'] + after))
  {
    var rest := q - multiset(before);
    assert rest - multiset{e'} == q - multiset{e'} - multiset(before);
    SurfacesNext(rest, at, e', after);
    assert forall i :: 0 <= i < |before| ==> before[i].expire <= mid;
    assert forall e :: e in rest ==> e == e' || mid < e.expire;
    FirstInFront(q, at, before, [e'] + after, mid);
  }

  /** Version 0 with a callback never fires; an empty one lets the loaded entries behind it fire. */
  lemma ZeroMisfires(c: Clock, b: Book, now: int, id: int, without: int, callback: Option<int>, at: int)
    returns (order: seq<Timer>)
    requires Coupled(c, b) && !AddIsSafe(c, now, id, without, callback, 0)
    requires forall e :: e in Add(c, now, id, without, callback, 0).queue ==> e.expire <= at
    ensures var c' := Add(c, now, id, without, callback, 0);
            Surfaces(c'.queue, at, order)
            && !Fires(BookAdd(b, now, id, without, callback), at, Handle(c', order).1)
  {
    hide Surfaces, Drain, Fires;
    var c' := Add(c, now, id, without, callback, 0);
    var e' := Timer(id, now + without, callback, 0);
    assert e' in c'.queue && c'.queue - multiset{e'} == c.queue;
    var mid := if callback.Some? then e'.expire else e'.expire - 1;
    var before, after := OrderAround(c'.queue, e', mid, at);
    order := before + ([e'] + after);
    if callback.Some? {
      ZeroIsLate(BookAdd(b, now, id, without, callback), at, c'.versions, before, e', after);
    } else {
      var e :| e in c.queue && Loaded(e, id) && e'.expire <= e.expire;
      ZeroLetsFire(b - {id}, at, c'.versions, before, e', after, e);
    }
  }

  /** Behind an entry of version 0, a loaded entry fires for an id that the map lacks. */
  lemma ZeroLetsFire(b: Book, at: int, versions: map<int, int>, before: seq<Timer>, e': Timer, after: seq<Timer>,
                     e: Timer)
    requires e'.id in versions && versions[e'.id] == 0 == e'.version && e in after && Loaded(e, e'.id)
    requires e'.id !in b
    ensures !Fires(b, at, Drain(versions, before + ([e'] + after)).1)
  {
    var fired := Drain(versions, before + ([e'] + after)).1;
    PassFiresDeleted(versions, before + ([e'] + after), e'.id);
    assert [e'][0] == e';
    BehindConcat([e'], after, e'.id);
    BehindConcat(before, [e'] + after, e'.id);
    var i :| 0 <= i < |fired| && fired[i].id == e'.id;
    assert fired[i] in fired;
  }

  /** An alarm that only an entry of version 0 stands for does not fire in time. */
  lemma ZeroIsLate(b: Book, at: int, versions: map<int, int>, before: seq<Timer>, e': Timer, after: seq<Timer>)
    requires e'.id in versions && versions[e'.id] == 0 == e'.version && forall e :: e in before ==> e.version != 0
    requires e'.id in b && b[e'.id].expire == e'.expire <= at && forall e :: e in after ==> e'.expire < e.expire
    ensures !Fires(b, at, Drain(versions, before + ([e'] + after)).1)
  {
    var fired := Drain(versions, before + ([e'] + after)).1;
    NotFiredInTime(versions, before, e', after);
    if i :| 0 <= i < |fired| && fired[i].id == e'.id {
      assert fired[i] in fired;
    }
  }

  /** What fires behind the entry of version 0 is due later than it. */
  lemma NotFiredInTime(versions: map<int, int>, before: seq<Timer>, e': Timer, after: seq<Timer>)
    requires e'.id in versions && versions[e'.id] == 0 == e'.version && forall e :: e in before ==> e.version != 0
    requires forall e :: e in after ==> e'.expire < e.expire
    ensures forall e :: e in Drain(versions, before + ([e'] + after)).1 && e.id == e'.id ==> e'.expire < e.expire
  {
    DrainConcat(versions, before, [e'] + after);
    assert forall i :: 0 <= i < |before| ==> before[i] in before;
    PassFiresDeleted(versions, before, e'.id);
    var fired := Drain(versions, before).1;
    forall e | e in fired ensures e.id != e'.id {
      var i :| 0 <= i < |fired| && fired[i] == e;
    }
  }

  /** With version 0 for the id and nothing of it to fire, the live entries fire as ever. */
  lemma {:induction false} QuietZeroIsFilter(versions: map<int, int>, order: seq<Timer>, id: int)
    requires Deleted(versions, id)
    requires if id in versions then !LoadedBehindZero(order, id) else !HasLoaded(order, id)
    requires forall e :: e in order ==> if e.id == id then e.version == 0 ==> e.callback.None?
                                        else e.version != 0 && e.id in versions
    ensures Drain(versions, order).1 == LiveOf(versions, order)
    decreases |order|
  {
    if order != [] {
      var e, rest := order[0], order[1..];
      var (v, fired) := Surface(versions, e);
      assert e in order;
      SurfaceDeleted(versions, e, id);
      OrderCons(order, id);
      QuietZeroIsFilter(v, rest, id);
      if v != versions {
        LiveOfErased(versions, rest, id);
      }
    }
  }

  lemma {:induction false} LiveOfErased(versions: map<int, int>, order: seq<Timer>, id: int)
    requires forall e :: e in order && Live(versions, e) ==> e.id != id
    ensures LiveOf(versions - {id}, order) == LiveOf(versions, order)
    decreases |order|
  {
    if order != [] {
      assert order[0] in order;
      LiveOfErased(versions, order[1..], id);
    }
  }

  /** An empty timer of version 0 behind all that could fire does no harm. */
  lemma EmptyZeroFires(c: Clock, b: Book, now: int, id: int, without: int, at: int, order: seq<Timer>)
    requires Coupled(c, b) && AddIsSafe(c, now, id, without, None, 0)
    requires Surfaces(Add(c, now, id, without, None, 0).queue, at, order)
    ensures Fires(b - {id}, at, Handle(Add(c, now, id, without, None, 0), order).1)
  {
    var c' := Add(c, now, id, without, None, 0);
    var e' := Timer(id, now + without, None, 0);
    forall e | e in order ensures e == e' || e in c.queue {
      assert e in multiset(order) && e in c'.queue;
    }
    assert forall i :: 0 <= i < |order| ==> order[i] in order;
    assert !LoadedBehindZero(order, id);
    QuietZeroIsFilter(c'.versions, order, id);
    NewVersionKeepsStep(c, b, id, 0);
    assert Matches(c', b - {id}) by {
      EmptyKeepsMatch(c.(versions := c'.versions), b - {id}, e');
    }
    LiveOfFires(c', b - {id}, at, order);
  }

  lemma EmptyKeepsMatch(c: Clock, b: Book, e': Timer)
    requires Matches(c, b) && e'.callback.None?
    ensures Matches(c.(queue := c.queue + multiset{e'}), b)
  {
    var c' := c.(queue := c.queue + multiset{e'});
    forall k | k in b ensures k in c'.versions && c'.queue[EntryOf(c', b, k)] == 1 {
      assert EntryOf(c', b, k) == EntryOf(c, b, k) != e';
    }
    forall e | e in c'.queue && Live(c'.versions, e) ensures e.id in b && e == EntryOf(c', b, e.id) {
      assert e in c.queue && Live(c.versions, e);
    }
  }

  /** The first part of a renewal silences the id, as the map says, exactly when the next version is unused. */
  lemma {:induction false} BumpFiresExactly(c: Clock, b: Book, id: int, from: int)
    requires Coupled(c, b)
    ensures FiresRight(Bump(c, id), b - {id}, from) <==> Unused(c, id, VersionOf(c, id) + 1)
  {
    hide Surfaces, Fires, Handle, LiveOf, Coupled;
    var c', version := Bump(c, id), VersionOf(c, id) + 1;
    if Unused(c, id, version) {
      NewVersionKeepsStep(c, b, id, version);
      forall at, order | from <= at && Surfaces(c'.queue, at, order) ensures Fires(b - {id}, at, Handle(c', order).1) {
        HandleKeepsStep(c', b - {id}, at, order);
      }
    } else {
      var at := LateExists(c'.queue, from);
      var order := OrderExists(c'.queue, at);
      BumpMisfires(c, b, id, at, order);
    }
  }

  lemma BumpMisfires(c: Clock, b: Book, id: int, at: int, order: seq<Timer>)
    requires Coupled(c, b) && !Unused(c, id, VersionOf(c, id) + 1)
    requires Surfaces(c.queue, at, order) && forall e :: e in c.queue ==> e.expire <= at
    ensures !Fires(b - {id}, at, Handle(Bump(c, id), order).1)
  {
    hide Handle, Surfaces, Fires;
    var c' := Bump(c, id);
    var e :| e in c.queue && e.id == id && e.version == VersionOf(c, id) + 1 && e.callback.Some?;
    if Fires(b - {id}, at, Handle(c', order).1) {
      LiveFiresOnce(c', b - {id}, at, order, e);
    }
  }

  /** An undisturbed renewal fires as the map says exactly when the next version is safe. */
  lemma ModFiresExactly(c: Clock, b: Book, now: int, id: int, without: int, callback: Option<int>, from: int)
    requires Coupled(c, b)
    ensures FiresRight(Mod(c, now, id, without, callback), BookAdd(b, now, id, without, callback), from)
            <==> AddIsSafe(c, now, id, without, callback, VersionOf(c, id) + 1)
  {
    ModIsAdd(c, now, id, without, callback);
    AddFiresExactly(c, b, now, id, without, callback, VersionOf(c, id) + 1, from);
  }
}
