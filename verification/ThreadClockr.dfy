/** The timer object: its locked methods update the queue and the version map in place. */
module ThreadClockr {
  import opened CString
  import opened TimerModel

  /** These are the callbacks of the entries that fired. */
  ghost predicate Collected(callbacks: seq<int>, fired: seq<Timer>) {
    (forall e :: e in fired ==> e.callback.Some?) && callbacks == CallbacksOf(fired)
  }

  lemma CollectedSnoc(callbacks: seq<int>, fired: seq<Timer>, e: Timer)
    requires Collected(callbacks, fired)
    ensures e.callback.Some? ==> Collected(callbacks + [e.callback.value], fired + [e])
    ensures fired + [] == fired
  {
  }

  /** Part way through a pass: these entries have been taken off the queue, in this order. */
  ghost predicate Popped(before: multiset<Timer>, q: multiset<Timer>, now: int, order: seq<Timer>) {
    q + multiset(order) == before && Sorted(order)
    && (forall i :: 0 <= i < |order| ==> order[i].expire <= now)
    && forall i, e :: 0 <= i < |order| && e in q ==> order[i].expire <= e.expire
  }

  lemma PopStep(before: multiset<Timer>, q: multiset<Timer>, now: int, order: seq<Timer>, top: Timer)
    requires Popped(before, q, now, order) && IsTop(q, top) && top.expire <= now
    ensures Popped(before, q - multiset{top}, now, order + [top])
  {
    assert multiset(order + [top]) == multiset(order) + multiset{top};
  }

  lemma PopEnd(before: multiset<Timer>, q: multiset<Timer>, now: int, order: seq<Timer>)
    requires Popped(before, q, now, order) && forall e :: e in q ==> now < e.expire
    ensures Surfaces(before, now, order) && q == before - multiset(order)
  {
  }

  lemma DrainSnoc(versions: map<int, int>, order: seq<Timer>, top: Timer)
    ensures var (v, fired) := Drain(versions, order);
            Drain(versions, order + [top]) == (Surface(v, top).0, fired + Surface(v, top).1)
  {
    var (v, fired) := Drain(versions, order);
    DrainConcat(versions, order, [top]);
    var (v', more) := Surface(v, top);
    assert [top][1..] == [] && more + [] == more;
  }

  /** Part way through a pass that began with one state and is now in another. */
  ghost predicate Passing(before: Clock, c: Clock, now: int, order: seq<Timer>, callbacks: seq<int>) {
    Popped(before.queue, c.queue, now, order)
    && Drain(before.versions, order).0 == c.versions && Collected(callbacks, Drain(before.versions, order).1)
  }

  lemma PassBegin(c: Clock, now: int)
    ensures Passing(c, c, now, [], [])
  {
  }

  lemma PassStep(before: Clock, c: Clock, now: int, order: seq<Timer>, callbacks: seq<int>,
                 top: Timer, collected: Option<int>)
    requires Passing(before, c, now, order, callbacks) && IsTop(c.queue, top) && top.expire <= now
    requires var fired := Surface(c.versions, top).1;
             if collected.Some? then fired == [top] && top.callback == collected else fired == []
    ensures Passing(before, Clock(c.queue - multiset{top}, Surface(c.versions, top).0), now, order + [top],
                    callbacks + if collected.Some? then [collected.value] else [])
  {
    var fired := Drain(before.versions, order).1;
    DrainSnoc(before.versions, order, top);
    PopStep(before.queue, c.queue, now, order, top);
    hide Drain, Popped, Surface, Collected;
    CollectedSnoc(callbacks, fired, top);
    assert callbacks + [] == callbacks;
  }

  lemma PassEnd(before: Clock, c: Clock, now: int, order: seq<Timer>, callbacks: seq<int>)
    requires Passing(before, c, now, order, callbacks) && forall e :: e in c.queue ==> now < e.expire
    ensures Surfaces(before.queue, now, order)
    ensures c == Handle(before, order).0 && Collected(callbacks, Handle(before, order).1)
  {
    PopEnd(before.queue, c.queue, now, order);
  }

  class ThreadClockr {
    var timerQueue: multiset<Timer>
    var timerMap: map<int, int>

    ghost function State(): Clock
      reads this
    {
      Clock(timerQueue, timerMap)
    }

    constructor ()
      ensures State() == Clock(multiset{}, map[])
    {
      timerQueue, timerMap := multiset{}, map[];
    }

    method AddTimer(now: int, id: int, without: int, callback: Option<int>, version: int) returns (r: int)
      modifies this
      ensures State() == Add(old(State()), now, id, without, callback, version) && r == id
    {
      var expire := now + without;
      timerQueue := timerQueue + multiset{Timer(id, expire, callback, version)};
      timerMap := timerMap[id := version];
      r := id;
    }

    method DelAllTimer() returns (r: bool)
      modifies this
      ensures State() == DelAll(old(State())) && r
    {
      while timerQueue != multiset{}
        invariant timerMap == old(timerMap)
        decreases |timerQueue|
      {
        var top := Top();
        timerQueue := timerQueue - multiset{top};
      }
      r := true;
    }

    /** The subscript of the version map: a missing id is inserted with 0. */
    method Subscript(id: int) returns (version: int)
      modifies this
      ensures State() == Read(old(State()), id) && version == VersionOf(old(State()), id)
    {
      if id !in timerMap {
        timerMap := timerMap[id := 0];
      }
      version := timerMap[id];
    }

    /** The locked part of `mod_timer`. */
    method BumpVersion(id: int)
      modifies this
      ensures State() == Bump(old(State()), id)
    {
      var version := Subscript(id);
      timerMap := timerMap[id := version + 1];
    }

    method ModTimer(now: int, id: int, without: int, callback: Option<int>) returns (r: bool)
      modifies this
      ensures State() == Mod(old(State()), now, id, without, callback) && r
    {
      BumpVersion(id);
      var newVersion := Subscript(id);
      var added := AddTimer(now, id, without, callback, newVersion);
      r := true;
    }

    method DelTimer(id: int) returns (r: bool)
      modifies this
      ensures State() == Del(old(State()), id) && (r <==> id in old(State()).versions)
    {
      if id in timerMap {
        timerMap := timerMap[id := 0];
        return true;
      }
      r := false;
    }

    /** One turn of the loop in `handle_timer`, after the top was found due. */
    method SurfaceOne(top: Timer) returns (collected: Option<int>)
      modifies this`timerMap
      ensures timerMap == Surface(old(timerMap), top).0
      ensures var fired := Surface(old(timerMap), top).1;
              if collected.Some? then fired == [top] && top.callback == collected else fired == []
    {
      if top.id in timerMap && timerMap[top.id] != top.version {
        return None;
      }
      if top.version == 0 {
        timerMap := timerMap - {top.id};
        return None;
      }
      collected := top.callback;
    }

    /** The locked part of `handle_timer`: the callbacks to run, in the order they were collected. */
    method HandleTimer(now: int) returns (callbacks: seq<int>, ghost order: seq<Timer>)
      modifies this
      ensures Surfaces(old(State()).queue, now, order)
      ensures State() == Handle(old(State()), order).0
      ensures Collected(callbacks, Handle(old(State()), order).1)
    {
      hide Passing, Surface, Surfaces, Handle, Collected;
      callbacks, order := [], [];
      PassBegin(State(), now);
      while timerQueue != multiset{}
        invariant Passing(old(State()), State(), now, order, callbacks)
        decreases |timerQueue|
      {
        var top := Top();
        if now < top.expire {
          break;
        }
        ghost var c := State();
        var collected := SurfaceOne(top);
        timerQueue := timerQueue - multiset{top};
        PassStep(old(State()), c, now, order, callbacks, top, collected);
        order := order + [top];
        callbacks := callbacks + if collected.Some? then [collected.value] else [];
      }
      PassEnd(old(State()), State(), now, order, callbacks);
    }

    /** `top` of the priority queue: some entry with a smallest deadline. */
    method Top() returns (top: Timer)
      requires timerQueue != multiset{}
      ensures IsTop(timerQueue, top)
    {
      TopExists(timerQueue);
      top :| IsTop(timerQueue, top);
    }
  }
}
