/** The hash table as a value: a fixed number of chains of bindings, and the map it stands for. */
module HashModel {
  import opened CString

  const MAX_TABLE_SIZE: nat := 102400

  datatype Entry = Entry(key: string, value: string)
  type Chain = seq<Entry>
  type Table = seq<Chain>

  function CharSum(key: string): nat {
    if key == "" then 0 else CharSum(key[..|key| - 1]) + key[|key| - 1] as nat
  }

  function Slot(key: string): (slot: nat)
    ensures slot < MAX_TABLE_SIZE
  {
    CharSum(key) % MAX_TABLE_SIZE
  }

  /** The sum counts every character once, wherever it stands: keys with the same characters share a slot. */
  lemma {:induction false} CharSumAdds(a: string, b: string)
    ensures CharSum(a + b) == CharSum(a) + CharSum(b) && Slot(a + b) == Slot(b + a)
    ensures |b| == 1 ==> CharSum(b) == b[0] as nat
  {
    CharSumConcat(a, b);
    CharSumConcat(b, a);
    if |b| == 1 {
      assert b[..0] == "";
    }
  }

  lemma {:induction false} CharSumConcat(a: string, b: string)
    ensures CharSum(a + b) == CharSum(a) + CharSum(b)
    decreases |b|
  {
    if b == "" {
      assert a + b == a;
    } else {
      CharSumConcat(a, b[..|b| - 1]);
      assert (a + b)[..|a + b| - 1] == a + b[..|b| - 1];
    }
  }

  /** Where a walk along the chain stops: at the first node with this key, or at the end. */
  function Position(c: Chain, key: string): (p: nat)
    ensures p <= |c|
    ensures forall j :: 0 <= j < p ==> c[j].key != key
    ensures p < |c| ==> c[p].key == key
  {
    if c == [] || c[0].key == key then 0 else 1 + Position(c[1..], key)
  }

  // ----- the shape of a table -----

  ghost predicate DistinctKeys(c: Chain) {
    forall j, k :: 0 <= j < k < |c| ==> c[j].key != c[k].key
  }

  ghost predicate ChainOk(c: Chain, slot: nat) {
    DistinctKeys(c) && forall j :: 0 <= j < |c| ==> Slot(c[j].key) == slot
  }

  ghost predicate TableOk(t: Table) {
    |t| == MAX_TABLE_SIZE && forall i :: 0 <= i < |t| ==> ChainOk(t[i], i)
  }

  function Empty(): (t: Table)
    ensures TableOk(t)
  {
    seq(MAX_TABLE_SIZE, _ => [])
  }

  // ----- what the operations do to the table -----

  function Put(t: Table, key: string, value: string): (Table, int)
    requires |t| == MAX_TABLE_SIZE
  {
    var s := Slot(key);
    if Position(t[s], key) < |t[s]| then (t, 1) else (t[s := [Entry(key, value)] + t[s]], 0)
  }

  function Get(t: Table, key: string): Option<string>
    requires |t| == MAX_TABLE_SIZE
  {
    var c := t[Slot(key)];
    var p := Position(c, key);
    if p < |c| then Some(c[p].value) else None
  }

  function Delete(t: Table, key: string): (Table, int)
    requires |t| == MAX_TABLE_SIZE
  {
    var s := Slot(key);
    var p := Position(t[s], key);
    if p < |t[s]| then (t[s := t[s][..p] + t[s][p + 1..]], 0) else (t, -1)
  }

  function Modify(t: Table, key: string, value: string): (Table, int)
    requires |t| == MAX_TABLE_SIZE
  {
    var s := Slot(key);
    var p := Position(t[s], key);
    if p < |t[s]| then (t[s := t[s][p := Entry(key, value)]], 0) else (t, -1)
  }

  /** A walk that stopped at `p` has found the position. */
  lemma PositionIs(c: Chain, key: string, p: nat)
    requires p <= |c| && (forall j :: 0 <= j < p ==> c[j].key != key) && (p < |c| ==> c[p].key == key)
    ensures Position(c, key) == p
  {
  }

  // The operations by the outcome of the walk. These unfold the definitions for proofs that otherwise hide them.

  lemma PutByPosition(t: Table, key: string, value: string)
    requires |t| == MAX_TABLE_SIZE
    ensures var s := Slot(key);
            Put(t, key, value) ==
            if Position(t[s], key) < |t[s]| then (t, 1) else (t[s := [Entry(key, value)] + t[s]], 0)
  {
  }

  lemma GetByPosition(t: Table, key: string)
    requires |t| == MAX_TABLE_SIZE
    ensures var s := Slot(key);
            var p := Position(t[s], key);
            Get(t, key) == if p < |t[s]| then Some(t[s][p].value) else None
  {
  }

  lemma DeleteByPosition(t: Table, key: string)
    requires |t| == MAX_TABLE_SIZE
    ensures var s := Slot(key);
            var p := Position(t[s], key);
            Delete(t, key) == if p < |t[s]| then (t[s := t[s][..p] + t[s][p + 1..]], 0) else (t, -1)
  {
  }

  lemma ModifyByPosition(t: Table, key: string, value: string)
    requires |t| == MAX_TABLE_SIZE
    ensures var s := Slot(key);
            var p := Position(t[s], key);
            Modify(t, key, value) ==
            if p < |t[s]| then (t[s := t[s][p := Entry(t[s][p].key, value)]], 0) else (t, -1)
  {
  }

  // ----- the map a table stands for -----

  type Store = map<string, string>

  ghost function Keys(t: Table): set<string> {
    set i, j | 0 <= i < |t| && 0 <= j < |t[i]| :: t[i][j].key
  }

  ghost function Abs(t: Table): Store
    requires |t| == MAX_TABLE_SIZE
  {
    map k | k in Keys(t) && Get(t, k).Some? :: Get(t, k).value
  }

  function MapPut(m: Store, key: string, value: string): (Store, int) {
    if key in m then (m, 1) else (m[key := value], 0)
  }

  function MapGet(m: Store, key: string): Option<string> {
    if key in m then Some(m[key]) else None
  }

  function MapDelete(m: Store, key: string): (Store, int) {
    if key in m then (m - {key}, 0) else (m, -1)
  }

  function MapModify(m: Store, key: string, value: string): (Store, int) {
    if key in m then (m[key := value], 0) else (m, -1)
  }

  /** A key is bound in the map exactly when a chain walk finds it, and to the value found. */
  lemma {:induction false} GetIsMapGet(t: Table, key: string)
    requires |t| == MAX_TABLE_SIZE
    ensures Get(t, key) == MapGet(Abs(t), key)
  {
    var c := t[Slot(key)];
    var p := Position(c, key);
    if p < |c| {
      assert t[Slot(key)][p].key in Keys(t);
    }
  }

  lemma AbsIs(t: Table, m: Store)
    requires |t| == MAX_TABLE_SIZE
    requires forall k :: Get(t, k) == MapGet(m, k)
    ensures Abs(t) == m
  {
    forall k
      ensures k in Abs(t) <==> k in m
      ensures k in m ==> Abs(t)[k] == m[k]
    {
      GetIsMapGet(t, k);
    }
  }

  lemma EmptyIsEmptyMap()
    ensures Abs(Empty()) == map[]
  {
    AbsIs(Empty(), map[]);
  }

  /** In a well-formed table every stored binding is the one the map holds. */
  lemma StoredIsBound(t: Table, i: nat, e: Entry)
    requires TableOk(t) && i < |t| && e in t[i]
    ensures e.key in Abs(t) && Abs(t)[e.key] == e.value
  {
    var j :| 0 <= j < |t[i]| && t[i][j] == e;
    assert Slot(t[i][j].key) == i;
    assert Position(t[i], e.key) == j;
    GetIsMapGet(t, e.key);
  }

  lemma {:induction false} PutIsMapPut(t: Table, key: string, value: string)
    requires TableOk(t)
    ensures TableOk(Put(t, key, value).0)
    ensures (Abs(Put(t, key, value).0), Put(t, key, value).1) == MapPut(Abs(t), key, value)
    ensures |Abs(Put(t, key, value).0)| == |Abs(t)| + (if Put(t, key, value).1 == 0 then 1 else 0)
  {
    hide Abs;
    GetIsMapGet(t, key);
    var (t', r) := Put(t, key, value);
    if r == 0 {
      assert ChainOk(t[Slot(key)], Slot(key));
      forall k ensures Get(t', k) == MapGet(Abs(t)[key := value], k) {
        GetIsMapGet(t, k);
        PositionInFront(Entry(key, value), t[Slot(key)], k);
      }
      AbsIs(t', Abs(t)[key := value]);
    }
  }

  lemma PositionInFront(e: Entry, c: Chain, key: string)
    ensures Position([e] + c, key) == if e.key == key then 0 else 1 + Position(c, key)
  {
    assert ([e] + c)[1..] == c;
  }

  lemma {:induction false} PositionAfterRemoval(c: Chain, p: nat, key: string)
    requires DistinctKeys(c) && p < |c|
    ensures var d := c[..p] + c[p + 1..];
            var q := Position(d, key);
            if key == c[p].key then q == |d|
            else (q < |d| <==> Position(c, key) < |c|) && (q < |d| ==> d[q] == c[Position(c, key)])
  {
    var d := c[..p] + c[p + 1..];
    var q := Position(d, key);
    var q0 := Position(c, key);
    if q < |d| {
      assert d[q] == c[if q < p then q else q + 1];
    }
    if q0 < |c| && key != c[p].key {
      assert c[q0] == d[if q0 < p then q0 else q0 - 1];
    }
  }

  lemma RemovalKeepsChain(c: Chain, p: nat, slot: nat)
    requires ChainOk(c, slot) && p < |c|
    ensures ChainOk(c[..p] + c[p + 1..], slot)
  {
    var d := c[..p] + c[p + 1..];
    assert forall j :: 0 <= j < |d| ==> d[j] == c[if j < p then j else j + 1];
  }

  lemma {:induction false} DeleteIsMapDelete(t: Table, key: string)
    requires TableOk(t)
    ensures TableOk(Delete(t, key).0)
    ensures (Abs(Delete(t, key).0), Delete(t, key).1) == MapDelete(Abs(t), key)
    ensures |Abs(Delete(t, key).0)| == |Abs(t)| - (if Delete(t, key).1 == 0 then 1 else 0)
  {
    hide Abs;
    GetIsMapGet(t, key);
    var (t', r) := Delete(t, key);
    if r == 0 {
      var s := Slot(key);
      assert ChainOk(t[s], s);
      var p := Position(t[s], key);
      RemovalKeepsChain(t[s], p, s);
      forall k ensures Get(t', k) == MapGet(Abs(t) - {key}, k) {
        GetIsMapGet(t, k);
        if Slot(k) == s {
          PositionAfterRemoval(t[s], p, k);
        }
      }
      AbsIs(t', Abs(t) - {key});
    }
  }

  lemma {:induction false} SameKeysSamePosition(c: Chain, d: Chain, key: string)
    requires |c| == |d| && forall j :: 0 <= j < |c| ==> c[j].key == d[j].key
    ensures Position(c, key) == Position(d, key)
  {
    if c != [] {
      SameKeysSamePosition(c[1..], d[1..], key);
    }
  }

  lemma {:induction false} ModifyIsMapModify(t: Table, key: string, value: string)
    requires TableOk(t)
    ensures TableOk(Modify(t, key, value).0)
    ensures (Abs(Modify(t, key, value).0), Modify(t, key, value).1) == MapModify(Abs(t), key, value)
    ensures |Abs(Modify(t, key, value).0)| == |Abs(t)|
  {
    hide Abs;
    GetIsMapGet(t, key);
    var (t', r) := Modify(t, key, value);
    if r == 0 {
      var s := Slot(key);
      assert ChainOk(t[s], s);
      forall k ensures Get(t', k) == MapGet(Abs(t)[key := value], k) {
        GetIsMapGet(t, k);
        SameKeysSamePosition(t[s], t'[s], k);
      }
      AbsIs(t', Abs(t)[key := value]);
    }
  }

  // ----- what the operations do to the layout -----

  /** Deleting a key that was just put restores the table, chain for chain. */
  lemma {:induction false} DeleteUndoesPut(t: Table, key: string, value: string)
    requires |t| == MAX_TABLE_SIZE && Get(t, key).None?
    ensures Put(t, key, value).1 == 0 && Delete(Put(t, key, value).0, key) == (t, 0)
  {
    hide Slot, Position;
    var s := Slot(key);
    var t' := t[s := [Entry(key, value)] + t[s]];
    PositionInFront(Entry(key, value), t[s], key);
    assert t'[s][..0] + t'[s][0 + 1..] == t[s];
    assert t'[s := t[s]] == t;
  }

  /** A chain without the bindings of one key. */
  function Without(c: Chain, key: string): Chain {
    if c == [] then [] else (if c[0].key == key then [] else [c[0]]) + Without(c[1..], key)
  }

  lemma {:induction false} WithoutAbsent(c: Chain, key: string)
    requires forall j :: 0 <= j < |c| ==> c[j].key != key
    ensures Without(c, key) == c
  {
    if c != [] {
      WithoutAbsent(c[1..], key);
    }
  }

  lemma CutBehind(c: Chain, p: nat)
    requires c != [] && p <= |c[1..]|
    ensures p < |c[1..]| ==> [c[0]] + (c[1..][..p] + c[1..][p + 1..]) == c[..p + 1] + c[p + 2..]
    ensures [c[0]] + c[1..] == c
  {
  }

  lemma {:induction false} CutIsWithout(c: Chain, key: string)
    requires DistinctKeys(c)
    ensures var p := Position(c, key);
            Without(c, key) == if p < |c| then c[..p] + c[p + 1..] else c
  {
    if c != [] {
      if c[0].key == key {
        WithoutAbsent(c[1..], key);
        assert c[..0] + c[1..] == c[1..] == [] + c[1..];
      } else {
        CutIsWithout(c[1..], key);
        CutBehind(c, Position(c[1..], key));
      }
    }
  }

  /** Deleting takes the key's binding out of its chain; all others stay where they are, in order. */
  lemma {:induction false} DeleteKeepsOrder(t: Table, key: string)
    requires TableOk(t)
    ensures Delete(t, key).0 == t[Slot(key) := Without(t[Slot(key)], key)]
  {
    assert ChainOk(t[Slot(key)], Slot(key));
    CutIsWithout(t[Slot(key)], key);
  }

  /** Modifying changes one value where it stands. */
  lemma {:induction false} ModifyKeepsOrder(t: Table, key: string, value: string, slot: nat, j: nat)
    requires TableOk(t) && slot < |t| && j < |t[slot]|
    ensures var t' := Modify(t, key, value).0;
            |t'| == |t| && |t'[slot]| == |t[slot]|
            && t'[slot][j] == if t[slot][j].key == key then Entry(key, value) else t[slot][j]
  {
    assert ChainOk(t[slot], slot) && Slot(t[slot][j].key) == slot;
  }

}
