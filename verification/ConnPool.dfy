/** The connection pool: a fixed arena of blocks, a free list threaded through it, and the id bindings. */
module ConnPool {
  import opened CString

  // ----- the pool as a value -----

  /** Free blocks in list order, blocks that hold a connection, and which id is bound to which block. */
  datatype Pool = Pool(total: nat, free: seq<nat>, live: set<nat>, bound: map<int, nat>)

  function Blocks(total: nat): (r: set<nat>)
    ensures |r| == total && forall b: nat :: b in r <==> b < total
  {
    if total == 0 then {} else Blocks(total - 1) + {total - 1}
  }

  ghost predicate Distinct(s: seq<nat>) {
    forall i, j :: 0 <= i < j < |s| ==> s[i] != s[j]
  }

  /** Free and live blocks partition the arena; bindings name live blocks, each at most once. */
  ghost predicate PoolOk(p: Pool) {
    Distinct(p.free)
    && (forall b: nat :: b in p.free ==> b !in p.live)
    && (forall b: nat :: b in p.free || b in p.live <==> b < p.total)
    && (forall id :: id in p.bound ==> p.bound[id] in p.live)
    && forall id, id' :: id in p.bound && id' in p.bound && p.bound[id] == p.bound[id'] ==> id == id'
  }

  function Fresh(total: nat): Pool {
    Pool(total, seq(total, i => i), {}, map[])
  }

  function AcquireFrom(p: Pool): (Pool, Option<nat>) {
    if p.free == [] then (p, None)
    else (p.(free := p.free[1..], live := p.live + {p.free[0]}), Some(p.free[0]))
  }

  /** Inserting an id that is already bound changes nothing. */
  function Bind(p: Pool, id: int, b: nat): Pool {
    if id in p.bound then p else p.(bound := p.bound[id := b])
  }

  function Lookup(p: Pool, id: int): Option<nat> {
    if id in p.bound then Some(p.bound[id]) else None
  }

  /** A released block goes to the front of the free list, and its binding ends. */
  function ReleaseTo(p: Pool, b: nat): Pool {
    p.(free := [b] + p.free, live := p.live - {b}, bound := map id | id in p.bound && p.bound[id] != b :: p.bound[id])
  }

  datatype Op = OpAcquire | OpBind(id: int, block: nat) | OpRelease(block: nat)

  /** Callers bind a block they hold and have not bound, and release a block they hold. */
  ghost predicate Allowed(p: Pool, op: Op) {
    match op
    case OpAcquire => true
    case OpBind(id, b) => b in p.live && b !in p.bound.Values
    case OpRelease(b) => b in p.live
  }

  function Step(p: Pool, op: Op): Pool {
    match op
    case OpAcquire => AcquireFrom(p).0
    case OpBind(id, b) => Bind(p, id, b)
    case OpRelease(b) => ReleaseTo(p, b)
  }

  lemma StepKeepsPool(p: Pool, op: Op)
    requires PoolOk(p) && Allowed(p, op)
    ensures PoolOk(Step(p, op)) && Step(p, op).total == p.total
  {
    var p' := Step(p, op);
    match op
    case OpAcquire =>
      if p.free != [] {
        assert p.free == [p.free[0]] + p.free[1..];
        assert forall i :: 0 < i < |p.free| ==> p.free[i] != p.free[0];
        assert forall b :: b in p.free <==> b == p.free[0] || b in p'.free;
      }
    case OpBind(id, b) =>
    case OpRelease(b) =>
      assert forall x :: x in p'.free <==> x == b || x in p.free;
      assert b !in p.free;
  }

  ghost predicate AllowedRun(p: Pool, ops: seq<Op>)
    decreases |ops|
  {
    ops == [] || (Allowed(p, ops[0]) && AllowedRun(Step(p, ops[0]), ops[1..]))
  }

  function Run(p: Pool, ops: seq<Op>): Pool
    decreases |ops|
  {
    if ops == [] then p else Run(Step(p, ops[0]), ops[1..])
  }

  lemma {:induction false} RunKeepsPool(p: Pool, ops: seq<Op>)
    requires PoolOk(p) && AllowedRun(p, ops)
    ensures PoolOk(Run(p, ops)) && Run(p, ops).total == p.total
    decreases |ops|
  {
    hide PoolOk, Step, Allowed;
    if ops != [] {
      StepKeepsPool(p, ops[0]);
      RunKeepsPool(Step(p, ops[0]), ops[1..]);
    }
  }

  /** After any run: `acquire` hands out no live block, and fails exactly when all blocks are live. */
  lemma {:induction false} AcquireIsSafe(total: nat, ops: seq<Op>)
    requires AllowedRun(Fresh(total), ops)
    ensures var p := Run(Fresh(total), ops);
            var (p', r) := AcquireFrom(p);
            PoolOk(p) && |p.live| <= total
            && (r.None? <==> |p.live| == total)
            && (r.Some? ==> r.value < total && r.value !in p.live && p'.live == p.live + {r.value})
  {
    FreshIsOk(total);
    RunKeepsPool(Fresh(total), ops);
    var p := Run(Fresh(total), ops);
    SubsetSize(p.live, Blocks(total));
    if p.free == [] {
      assert p.live == Blocks(total);
    } else {
      var b := p.free[0];
      assert b in p.free;
      SubsetSize(p.live, Blocks(total) - {b});
    }
  }

  lemma FreshIsOk(total: nat)
    ensures PoolOk(Fresh(total))
  {
    var p := Fresh(total);
    forall b: nat | b < total ensures b in p.free {
      assert p.free[b] == b;
    }
  }

  lemma {:induction false} SubsetSize(a: set<nat>, b: set<nat>)
    requires a <= b
    ensures |a| <= |b|
    decreases |a|
  {
    if a != {} {
      var x :| x in a;
      SubsetSize(a - {x}, b - {x});
    }
  }

  /** Different ids never share a block, and every id found leads to a live block. */
  lemma {:induction false} LookupIsSafe(total: nat, ops: seq<Op>, id: int, id': int)
    requires AllowedRun(Fresh(total), ops)
    ensures var p := Run(Fresh(total), ops);
            (Lookup(p, id).Some? ==> Lookup(p, id).value in p.live)
            && (Lookup(p, id).Some? && id != id' ==> Lookup(p, id) != Lookup(p, id'))
  {
    FreshIsOk(total);
    RunKeepsPool(Fresh(total), ops);
  }

  lemma {:induction false} RunConcat(p: Pool, a: seq<Op>, b: seq<Op>)
    ensures Run(p, a + b) == Run(Run(p, a), b)
    ensures AllowedRun(p, a + b) <==> AllowedRun(p, a) && AllowedRun(Run(p, a), b)
    decreases |a|
  {
    hide Step, Allowed;
    if a == [] {
      assert a + b == b;
    } else {
      RunConcat(Step(p, a[0]), a[1..], b);
      assert (a + b)[0] == a[0] && (a + b)[1..] == a[1..] + b;
    }
  }

  /** A binding lasts until its block is released, whatever else happens. */
  lemma {:induction false} BoundStaysBound(p: Pool, ops: seq<Op>, id: int, b: nat)
    requires Lookup(p, id) == Some(b) && OpRelease(b) !in ops
    ensures Lookup(Run(p, ops), id) == Some(b)
    decreases |ops|
  {
    if ops != [] {
      assert ops[0] != OpRelease(b);
      BoundStaysBound(Step(p, ops[0]), ops[1..], id, b);
    }
  }

  /** An unbound id stays unbound until it is bound. */
  lemma {:induction false} UnboundStaysUnbound(p: Pool, ops: seq<Op>, id: int)
    requires Lookup(p, id).None? && forall i :: 0 <= i < |ops| ==> !(ops[i].OpBind? && ops[i].id == id)
    ensures Lookup(Run(p, ops), id).None?
    decreases |ops|
  {
    if ops != [] {
      assert !(ops[0].OpBind? && ops[0].id == id);
      UnboundStaysUnbound(Step(p, ops[0]), ops[1..], id);
    }
  }

  /** Over any run: a block bound to a free id is found under it until the block is released. */
  lemma {:induction false} BoundIsFound(total: nat, pre: seq<Op>, id: int, b: nat, post: seq<Op>)
    requires AllowedRun(Fresh(total), pre + [OpBind(id, b)] + post)
    requires Lookup(Run(Fresh(total), pre), id).None? && OpRelease(b) !in post
    ensures Lookup(Run(Fresh(total), pre + [OpBind(id, b)] + post), id) == Some(b)
  {
    var p := Run(Fresh(total), pre);
    RunConcat(Fresh(total), pre, [OpBind(id, b)]);
    RunConcat(Fresh(total), pre + [OpBind(id, b)], post);
    RunOne(p, OpBind(id, b));
    BoundStaysBound(Step(p, OpBind(id, b)), post, id, b);
  }

  lemma RunOne(p: Pool, op: Op)
    ensures Run(p, [op]) == Step(p, op)
  {
    hide Step;
    assert [op][1..] == [];
  }

  /** Over any run: once its block has been released, an id is not found until it is bound again. */
  lemma {:induction false} ReleasedIsNotFound(total: nat, pre: seq<Op>, id: int, b: nat, post: seq<Op>)
    requires AllowedRun(Fresh(total), pre + [OpRelease(b)] + post)
    requires Lookup(Run(Fresh(total), pre), id) == Some(b)
    requires forall i :: 0 <= i < |post| ==> !(post[i].OpBind? && post[i].id == id)
    ensures Lookup(Run(Fresh(total), pre + [OpRelease(b)] + post), id).None?
  {
    var p := Run(Fresh(total), pre);
    RunConcat(Fresh(total), pre, [OpRelease(b)]);
    RunConcat(Fresh(total), pre + [OpRelease(b)], post);
    RunOne(p, OpRelease(b));
    UnboundStaysUnbound(Step(p, OpRelease(b)), post, id);
  }

  /** Binding an id that is bound already changes nothing. */
  lemma {:induction false} BindKeepsFirst(total: nat, pre: seq<Op>, id: int, b: nat)
    requires AllowedRun(Fresh(total), pre + [OpBind(id, b)]) && Lookup(Run(Fresh(total), pre), id).Some?
    ensures Run(Fresh(total), pre + [OpBind(id, b)]) == Run(Fresh(total), pre)
  {
    RunConcat(Fresh(total), pre, [OpBind(id, b)]);
    RunOne(Run(Fresh(total), pre), OpBind(id, b));
  }

  /** The block released last is handed out first. */
  lemma {:induction false} ReleasedIsNext(total: nat, ops: seq<Op>, b: nat)
    requires AllowedRun(Fresh(total), ops + [OpRelease(b)])
    ensures AcquireFrom(Run(Fresh(total), ops + [OpRelease(b)])).1 == Some(b)
    ensures var p := AcquireFrom(Run(Fresh(total), ops + [OpRelease(b)])).0;
            p.free == Run(Fresh(total), ops).free && p.live == Run(Fresh(total), ops).live
  {
    RunConcat(Fresh(total), ops, [OpRelease(b)]);
    var p := Run(Fresh(total), ops);
    RunOne(p, OpRelease(b));
    assert AllowedRun(p, [OpRelease(b)]) && b in p.live;
    assert ([b] + p.free)[1..] == p.free;
    assert p.live - {b} + {b} == p.live;
  }

  function Acquires(n: nat): (ops: seq<Op>)
    ensures |ops| == n
  {
    seq(n, _ => OpAcquire)
  }

  /** A fresh pool hands out its blocks in address order. */
  lemma {:induction false} FreshInOrder(total: nat, n: nat)
    requires n <= total
    ensures Run(Fresh(total), Acquires(n)).free == seq(total - n, i requires 0 <= i < total - n => n + i)
    ensures AcquireFrom(Run(Fresh(total), Acquires(n))).1 == if n < total then Some(n) else None
  {
    if n != 0 {
      FreshInOrder(total, n - 1);
      assert Acquires(n) == Acquires(n - 1) + [OpAcquire];
      RunConcat(Fresh(total), Acquires(n - 1), [OpAcquire]);
      RunOne(Run(Fresh(total), Acquires(n - 1)), OpAcquire);
    } else {
      assert Acquires(0) == [];
    }
  }

  // ----- the pool as it is built: a list threaded through the arena -----

  /** A block holds either the link of the free list or a connection with its fd. */
  datatype Block = Link(next: Option<nat>) | Connection(fd: int)

  class ConnPool {
    const arena: array<Block>
    var freeList: Option<nat>
    var bindings: map<int, nat>
    ghost var free: seq<nat>

    static function HeadOf(s: seq<nat>): Option<nat> {
      if s == [] then None else Some(s[0])
    }

    ghost function Live(): set<nat>
      reads arena
    {
      set b: nat | 0 <= b < arena.Length && arena[b].Connection?
    }

    ghost function State(): Pool
      reads this, arena
    {
      Pool(arena.Length, free, Live(), bindings)
    }

    /** The list that starts at `freeList` runs through exactly the free blocks, in this order. */
    ghost predicate Valid()
      reads this, arena
    {
      PoolOk(State()) && freeList == HeadOf(free)
      && forall j :: 0 <= j < |free| ==> free[j] < arena.Length && arena[free[j]] == Link(HeadOf(free[j + 1..]))
    }

    constructor (total: nat)
      requires 0 < total
      ensures Valid() && fresh(arena) && State() == Fresh(total)
    {
      arena := new Block[total](_ => Link(None));
      freeList, bindings := Some(0), map[];
      free := seq(total, i => i);
      new;
      var current := 0;
      for i := 0 to total - 1
        invariant current == i
        invariant forall b :: 0 <= b < i ==> arena[b] == Link(Some(b + 1))
        invariant forall b :: i <= b < total ==> arena[b].Link?
        modifies arena
      {
        arena[current] := Link(Some(current + 1));
        current := current + 1;
      }
      arena[current] := Link(None);
      FreshIsOk(total);
      assert Live() == {};
      forall j | 0 <= j < |free| ensures arena[free[j]] == Link(HeadOf(free[j + 1..])) {
        assert free[j] == j;
        if j + 1 < total {
          assert free[j + 1..][0] == free[j + 1] == j + 1;
        }
      }
    }

    method Acquire() returns (r: Option<nat>)
      requires Valid()
      modifies this`freeList, this`free, arena
      ensures Valid() && (State(), r) == AcquireFrom(old(State()))
      ensures forall x :: 0 <= x < arena.Length && Some(x) != r ==> arena[x] == old(arena[x])
      ensures r.Some? ==> r.value < arena.Length && arena[r.value] == Connection(-1)
    {
      StepKeepsPool(State(), OpAcquire);
      if freeList.None? {
        return None;
      }
      var b := freeList.value;
      assert free[0] == b && arena[b] == Link(HeadOf(free[1..]));
      freeList := arena[b].next;
      free := free[1..];
      arena[b] := Connection(-1);
      r := Some(b);
      assert Live() == old(Live()) + {b};
    }

    method AddMap(id: int, b: nat)
      requires Valid() && Allowed(State(), OpBind(id, b))
      modifies this`bindings, arena
      ensures Valid() && State() == Bind(old(State()), id, b)
      ensures arena[b] == Connection(id)
      ensures forall x :: 0 <= x < arena.Length && x != b ==> arena[x] == old(arena[x])
    {
      StepKeepsPool(State(), OpBind(id, b));
      arena[b] := Connection(id);
      if id !in bindings {
        bindings := bindings[id := b];
      }
      assert Live() == old(Live());
    }

    method Get(id: int) returns (r: Option<nat>)
      requires Valid()
      ensures r == Lookup(State(), id)
    {
      r := if id in bindings then Some(bindings[id]) else None;
    }

    method Release(b: nat)
      requires Valid() && Allowed(State(), OpRelease(b))
      modifies this, arena
      ensures Valid() && State() == ReleaseTo(old(State()), b)
      ensures forall x :: 0 <= x < arena.Length && x != b ==> arena[x] == old(arena[x])
    {
      StepKeepsPool(State(), OpRelease(b));
      arena[b] := Link(freeList);
      freeList := Some(b);
      free := [b] + free;
      bindings := map id | id in bindings && bindings[id] != b :: bindings[id];
      assert free[1..] == old(free);
      assert Live() == old(Live()) - {b};
    }
  }
}
