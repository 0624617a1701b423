/** The chained hash table as the program builds it: an array of slots and linked nodes. */
module HashTable {
  import opened CString
  import opened Sequences
  import opened HashModel

  const INT_MAX: nat := 0x7FFF_FFFF

  /** Keys for which the character sum is a non-negative `int`. */
  ghost predicate IsKey(key: string) {
    NulFree(key) && (forall i :: 0 <= i < |key| ==> key[i] as int <= 127) && CharSum(key) <= INT_MAX
  }

  lemma {:induction false} CharSumPrefix(key: string, i: nat)
    requires i <= |key|
    ensures CharSum(key[..i]) <= CharSum(key)
    decreases |key|
  {
    if i == |key| {
      assert key[..i] == key;
    } else {
      CharSumPrefix(key[..|key| - 1], i);
      assert key[..|key| - 1][..i] == key[..i];
    }
  }

  lemma CharSumStep(key: string, i: nat)
    requires i < |key|
    ensures CharSum(key[..i + 1]) == CharSum(key[..i]) + key[i] as int <= CharSum(key)
  {
    assert key[..i + 1][..i] == key[..i];
    CharSumPrefix(key, i + 1);
  }

  /** A C string stands in the buffer at this offset. */
  ghost predicate HasString(buf: array<char>, off: nat)
    reads buf
  {
    off < buf.Length && off + |CStr(buf[..], off)| < buf.Length
  }

  /** This buffer holds exactly one string and its terminator. */
  ghost predicate IsString(a: array<char>, s: string)
    reads a
  {
    NulFree(s) && a.Length == |s| + 1 && a[..] == s + [NUL]
  }

  lemma StringAt(buf: array<char>, off: nat, i: nat)
    requires HasString(buf, off) && i <= |CStr(buf[..], off)|
    ensures i < |CStr(buf[..], off)| ==> buf[off + i] == CStr(buf[..], off)[i]
    ensures off + |CStr(buf[..], off)| < buf.Length
    ensures buf[off + i] == NUL <==> i == |CStr(buf[..], off)|
  {
    var s := CStr(buf[..], off);
    if i < |s| {
      assert buf[..][off..off + |s|][i] == s[i] && s[i] in s;
    }
  }

  lemma StringIsCStr(a: array<char>, s: string)
    requires IsString(a, s)
    ensures CStr(a[..], 0) == s
  {
    CStrIs(a[..], 0, s);
  }

  /** `_hash`: adds the characters up to the terminator in an `int` and reduces by the number of slots. */
  method HashOf(buf: array<char>, off: nat, size: nat) returns (slot: nat)
    requires HasString(buf, off) && IsKey(CStr(buf[..], off)) && 0 < size
    ensures slot == CharSum(CStr(buf[..], off)) % size
  {
    ghost var key := CStr(buf[..], off);
    assert CharSum(key[..0]) == 0;
    hide CStr, CharSum;
    var sum, i := 0, 0;
    StringAt(buf, off, 0);
    while buf[off + i] != NUL
      invariant 0 <= i <= |key| && sum == CharSum(key[..i])
      invariant buf[off + i] == NUL <==> i == |key|
      decreases |key| - i
    {
      StringAt(buf, off, i);
      CharSumStep(key, i);
      sum := sum + buf[off + i] as int;
      assert sum <= INT_MAX;
      i := i + 1;
      StringAt(buf, off, i);
    }
    assert key[..i] == key;
    slot := sum % size;
  }

  /** The slot of the key that stands at an offset. */
  method SlotOf(buf: array<char>, off: nat) returns (slot: nat)
    requires HasString(buf, off) && IsKey(CStr(buf[..], off))
    ensures slot == Slot(CStr(buf[..], off))
  {
    slot := HashOf(buf, off, MAX_TABLE_SIZE);
  }

  /** A copy of the string at an offset, in memory of its own. */
  method StrDup(buf: array<char>, off: nat) returns (copy: array<char>)
    requires HasString(buf, off)
    ensures fresh(copy) && IsString(copy, CStr(buf[..], off))
  {
    var n := |CStr(buf[..], off)|;
    copy := new char[n + 1];
    for i := 0 to n
      invariant forall j :: 0 <= j < i ==> copy[j] == buf[off + j]
    {
      copy[i] := buf[off + i];
    }
    copy[n] := NUL;
    assert copy[..] == buf[off..off + n] + [NUL];
  }

  class Node {
    const key: array<char>
    var value: array<char>
    var next: Node?

    constructor (key: array<char>, value: array<char>)
      ensures this.key == key && this.value == value && next == null
    {
      this.key, this.value, next := key, value, null;
    }
  }

  /** `_create_node`: key and value are copied out of the caller's buffer. */
  method CreateNode(buf: array<char>, k: nat, v: nat) returns (n: Node)
    requires HasString(buf, k) && HasString(buf, v)
    ensures fresh(n) && fresh(n.key) && fresh(n.value) && n.key != n.value && n.next == null
    ensures IsString(n.key, CStr(buf[..], k)) && IsString(n.value, CStr(buf[..], v))
  {
    var key := StrDup(buf, k);
    var value := StrDup(buf, v);
    n := new Node(key, value);
  }

  /** What the table's string buffers are known to hold. */
  type Texts = map<array<char>, string>

  class Hashtable {
    var nodes: array<Node?>
    var count: int
    ghost var chains: seq<seq<Node>>
    ghost var table: Table
    ghost var texts: Texts
    ghost var repr: set<object>

    /** The list that starts at `head` runs through exactly these nodes and holds these bindings. */
    static ghost predicate Linked(head: Node?, c: seq<Node>, es: Chain, texts: Texts)
      reads c
    {
      |c| == |es|
      && head == NodeAt(c, 0)
      && (forall j :: 0 <= j < |c| ==> Holds(c[j], es[j], texts))
      && forall j {:trigger c[j].next} :: 0 <= j < |c| ==> c[j].next == NodeAt(c, j + 1)
    }

    static ghost predicate Holds(n: Node, e: Entry, texts: Texts)
      reads n`value
    {
      n.key in texts && texts[n.key] == e.key && n.value in texts && texts[n.value] == e.value
    }

    /** The table's string buffers hold what is recorded of them. */
    static ghost predicate Strings(texts: Texts)
      reads texts.Keys
    {
      forall a :: a in texts ==> IsString(a, texts[a])
    }

    static ghost function NodeAt(c: seq<Node>, j: nat): Node? {
      if j < |c| then c[j] else null
    }

    static ghost predicate Owned(c: seq<Node>, repr: set<object>) {
      forall j :: 0 <= j < |c| ==> c[j] in repr
    }

    ghost predicate Sized()
      reads this, repr
    {
      this in repr && nodes in repr && texts.Keys <= repr && Strings(texts)
      && nodes.Length == MAX_TABLE_SIZE && |chains| == MAX_TABLE_SIZE && |table| == MAX_TABLE_SIZE
      && forall i :: 0 <= i < |chains| ==> Owned(chains[i], repr)
    }

    /** All lists are right, except perhaps the one of this slot. */
    ghost predicate ShapeBut(slot: nat)
      reads this, repr
    {
      Sized() && forall i :: 0 <= i < |chains| && i != slot ==> Linked(nodes[i], chains[i], table[i], texts)
    }

    ghost predicate Shape()
      reads this, repr
    {
      Sized() && forall i :: 0 <= i < |chains| ==> Linked(nodes[i], chains[i], table[i], texts)
    }

    /** What the shape says about one slot. */
    lemma ListAt(slot: nat)
      requires Shape() && slot < MAX_TABLE_SIZE
      ensures this in repr && nodes in repr && nodes.Length == MAX_TABLE_SIZE == |chains| == |table|
      ensures Linked(nodes[slot], chains[slot], table[slot], texts) && Strings(texts) && texts.Keys <= repr
      ensures forall j :: 0 <= j < |chains[slot]| ==> chains[slot][j] in repr
    {
      assert Owned(chains[slot], repr);
    }

    /** Records what the list of one slot has become. */
    ghost method Record(slot: nat, c: seq<Node>, es: Chain)
      requires slot < MAX_TABLE_SIZE && ShapeBut(slot) && Linked(nodes[slot], c, es, texts) && Owned(c, repr)
      modifies this`chains, this`table
      ensures Shape() && chains == old(chains)[slot := c] && table == old(table)[slot := es]
    {
      chains := chains[slot := c];
      table := table[slot := es];
    }

    ghost predicate Valid()
      reads this, repr
      ensures Valid() ==> this in repr
    {
      Shape() && TableOk(table) && count == |Abs(table)|
    }

    /** The node occurs at this place of the chains and nowhere else. */
    ghost predicate OnlyAt(n: Node, slot: nat, p: nat)
      reads this
    {
      slot < |chains| && p < |chains[slot]| && chains[slot][p] == n
      && (forall i :: 0 <= i < |chains| && i != slot ==> n !in chains[i])
      && forall j :: 0 <= j < |chains[slot]| && chains[slot][j] == n ==> j == p
    }

    /** Every node sits in the slot its key names; no node is in two places, so chains end and share nothing. */
    lemma {:induction false} NodesApart(slot: nat, p: nat)
      requires Valid() && slot < |chains| && p < |chains[slot]|
      ensures OnlyAt(chains[slot][p], slot, p)
      ensures chains[slot][p].key in texts && Slot(texts[chains[slot][p].key]) == slot
    {
      forall i, j | 0 <= i < |chains| && 0 <= j < |chains[i]|
        ensures chains[i][j].key in texts && Slot(texts[chains[i][j].key]) == i
                && texts[chains[i][j].key] == table[i][j].key
      {
        assert ChainOk(table[i], i);
        assert Linked(nodes[i], chains[i], table[i], texts);
      }
      assert ChainOk(table[slot], slot);
    }

    constructor ()
      ensures Valid() && fresh(repr)
      ensures table == Empty()
    {
      nodes := new Node?[MAX_TABLE_SIZE](_ => null);
      count := 0;
      chains := seq(MAX_TABLE_SIZE, _ => []);
      table, texts := Empty(), map[];
      new;
      repr := {this, nodes};
      EmptyIsEmptyMap();
    }

    /** `strcmp` between a node's key and the string at an offset. */
    static method SameKey(node: Node, buf: array<char>, k: nat, ghost e: Entry, ghost texts: Texts)
      returns (same: bool)
      requires Holds(node, e, texts) && Strings(texts) && HasString(buf, k)
      ensures same <==> e.key == CStr(buf[..], k)
    {
      StringIsCStr(node.key, e.key);
      same := CStr(node.key[..], 0) == CStr(buf[..], k);
    }

    /** The walk along one chain that put, get and modify start with. */
    static method Walk(head: Node?, buf: array<char>, k: nat,
                       ghost c: seq<Node>, ghost es: Chain, ghost texts: Texts) returns (node: Node?)
      requires Linked(head, c, es, texts) && Strings(texts) && HasString(buf, k)
      ensures var p := Position(es, CStr(buf[..], k)); node == NodeAt(c, p)
    {
      ghost var key := CStr(buf[..], k);
      hide Strings, HasString, CStr, Holds, Position;
      node := head;
      ghost var j := 0;
      while node != null
        invariant 0 <= j <= |c| && node == NodeAt(c, j)
        invariant forall i :: 0 <= i < j ==> es[i].key != key
        decreases |c| - j
      {
        var same := SameKey(node, buf, k, es[j], texts);
        if same {
          PositionIs(es, key, j);
          return;
        }
        node := node.next;
        j := j + 1;
      }
      PositionIs(es, key, j);
    }

    // ----- the pointer updates -----

    static lemma LinkedCons(n: Node, c: seq<Node>, e: Entry, es: Chain, texts: Texts)
      requires Linked(n.next, c, es, texts) && Holds(n, e, texts)
      ensures Linked(n, [n] + c, [e] + es, texts)
    {
      forall j | 0 <= j < |[n] + c|
        ensures Holds(([n] + c)[j], ([e] + es)[j], texts) && ([n] + c)[j].next == NodeAt([n] + c, j + 1)
      {
        if 0 < j {
          assert Holds(c[j - 1], es[j - 1], texts);
        }
      }
    }

    /** Recording more strings changes nothing about a list. */
    static lemma MoreTexts(head: Node?, c: seq<Node>, es: Chain, texts: Texts, more: Texts)
      requires Linked(head, c, es, texts) && forall a :: a in texts ==> a in more && more[a] == texts[a]
      ensures Linked(head, c, es, more)
    {
      forall j | 0 <= j < |c| ensures Holds(c[j], es[j], more) {
        assert Holds(c[j], es[j], texts);
      }
    }

    /** Takes over a new node with its strings, in front of the chain of a slot. */
    static lemma NewTexts(n: Node, e: Entry, before: Texts, texts: Texts)
      requires n.key != n.value && texts == before[n.key := e.key][n.value := e.value]
      ensures Holds(n, e, texts)
    {
    }

    method InsertHead(slot: nat, n: Node, ghost e: Entry)
      requires Shape() && slot < MAX_TABLE_SIZE
      requires n !in repr && n.key !in repr && n.value !in repr && n.key != n.value
      requires IsString(n.key, e.key) && IsString(n.value, e.value)
      modifies this, nodes, n
      ensures Shape() && repr == old(repr) + {n, n.key, n.value} && n.value == old(n.value)
      ensures count == old(count) + 1
      ensures table == old(table)[slot := [e] + old(table)[slot]]
    {
      hide IsString, Holds;
      ListAt(slot);
      ghost var c, es, before := chains[slot], table[slot], texts;
      n.next := nodes[slot];
      nodes[slot] := n;
      count := count + 1;
      texts := texts[n.key := e.key][n.value := e.value];
      repr := repr + {n, n.key, n.value};
      forall i | 0 <= i < MAX_TABLE_SIZE
        ensures Owned(chains[i], repr)
        ensures Linked(if i == slot then n.next else nodes[i], chains[i], table[i], texts)
      {
        assert old(Linked(nodes[i], chains[i], table[i], texts)) && old(Owned(chains[i], repr));
        MoreTexts(if i == slot then n.next else nodes[i], chains[i], table[i], before, texts);
      }
      assert Holds(n, e, texts) by {
        NewTexts(n, e, before, texts);
      }
      LinkedCons(n, c, e, es, texts);
      Record(slot, [n] + c, [e] + es);
    }

    method UnlinkHead(slot: nat)
      requires Shape() && slot < MAX_TABLE_SIZE && chains[slot] != []
      modifies this, nodes
      ensures Shape() && repr == old(repr) && count == old(count) - 1
      ensures table == old(table)[slot := old(table)[slot][1..]]
    {
      hide Holds, Strings, IsString;
      ListAt(slot);
      ghost var c, es := chains[slot], table[slot];
      nodes[slot] := nodes[slot].next;
      count := count - 1;
      TailLinked(c, es, texts, old(nodes[slot]));
      forall i | 0 <= i < MAX_TABLE_SIZE && i != slot
        ensures Linked(nodes[i], chains[i], table[i], texts)
      {
        assert old(Linked(nodes[i], chains[i], table[i], texts));
      }
      Record(slot, c[1..], es[1..]);
    }

    static lemma TailLinked(c: seq<Node>, es: Chain, texts: Texts, head: Node?)
      requires Linked(head, c, es, texts) && c != []
      ensures Linked(c[0].next, c[1..], es[1..], texts)
    {
      hide Holds;
      forall j | 0 <= j < |c[1..]|
        ensures Holds(c[1..][j], es[1..][j], texts) && c[1..][j].next == NodeAt(c[1..], j + 1)
      {
        assert Holds(c[j + 1], es[j + 1], texts);
      }
    }

    /** Takes the node after `cur` out of one list. */
    static method CutAfter(head: Node, ghost p: nat, cur: Node,
                           ghost c: seq<Node>, ghost es: Chain, ghost texts: Texts)
      requires Linked(head, c, es, texts) && p + 1 < |c|
      requires forall j :: 0 <= j < |c| ==> (c[j] == cur <==> j == p)
      modifies cur`next
      ensures Linked(head, c[..p + 1] + c[p + 2..], es[..p + 1] + es[p + 2..], texts)
    {
      hide Holds;
      assert c[p] == cur && cur.next == NodeAt(c, p + 1) && Holds(c[p + 1], es[p + 1], texts);
      var tmp := cur.next;
      cur.next := tmp.next;
      ghost var c', es' := c[..p + 1] + c[p + 2..], es[..p + 1] + es[p + 2..];
      forall j | 0 <= j < |c'|
        ensures Holds(c'[j], es'[j], texts) && c'[j].next == NodeAt(c', j + 1)
      {
        if j <= p {
          assert old(Holds(c[j], es[j], texts));
        } else {
          assert old(Holds(c[j + 1], es[j + 1], texts));
        }
      }
    }

    method UnlinkAfter(slot: nat, ghost p: nat, head: Node, cur: Node)
      requires Shape() && slot < MAX_TABLE_SIZE && OnlyAt(cur, slot, p) && p + 1 < |chains[slot]| && nodes[slot] == head
      modifies this, cur`next
      ensures Shape() && repr == old(repr) && count == old(count) - 1
      ensures table == old(table)[slot := old(table)[slot][..p + 1] + old(table)[slot][p + 2..]]
    {
      hide Strings, Linked;
      ListAt(slot);
      CutAfter(head, p, cur, chains[slot], table[slot], texts);
      count := count - 1;
      forall i | 0 <= i < MAX_TABLE_SIZE && i != slot
        ensures Linked(nodes[i], chains[i], table[i], texts)
      {
        assert old(Linked(nodes[i], chains[i], table[i], texts));
      }
      Record(slot, chains[slot][..p + 1] + chains[slot][p + 2..], table[slot][..p + 1] + table[slot][p + 2..]);
    }

    /** Points one node of a list to a new value string. */
    static method AssignValue(head: Node, ghost p: nat, node: Node, copy: array<char>, ghost value: string,
                              ghost c: seq<Node>, ghost es: Chain, ghost texts: Texts, ghost more: Texts)
      requires Linked(head, c, es, texts) && p < |c|
      requires forall j :: 0 <= j < |c| ==> (c[j] == node <==> j == p)
      requires copy in more && more[copy] == value && forall a :: a in texts ==> a in more && more[a] == texts[a]
      modifies node`value
      ensures Linked(head, c, es[p := Entry(es[p].key, value)], more)
    {
      node.value := copy;
      forall j | 0 <= j < |c|
        ensures Holds(c[j], es[p := Entry(es[p].key, value)][j], more) && c[j].next == NodeAt(c, j + 1)
      {
        assert old(Holds(c[j], es[j], texts));
      }
    }

    /** Gives a node a new value string. */
    method SetValue(slot: nat, ghost p: nat, head: Node, node: Node, copy: array<char>, ghost value: string)
      requires Shape() && slot < MAX_TABLE_SIZE && OnlyAt(node, slot, p) && nodes[slot] == head
      requires copy !in repr && IsString(copy, value)
      modifies this, node
      ensures Shape() && repr == old(repr) + {copy} && count == old(count)
      ensures old(p < |table[slot]|)
      ensures table == old(table)[slot := old(table)[slot][p := Entry(old(table)[slot][p].key, value)]]
    {
      hide IsString, Holds;
      ListAt(slot);
      ghost var c, es, before := chains[slot], table[slot], texts;
      AssignValue(head, p, node, copy, value, c, es, texts, texts[copy := value]);
      texts := texts[copy := value];
      repr := repr + {copy};
      forall i | 0 <= i < MAX_TABLE_SIZE
        ensures Owned(chains[i], repr) && (i != slot ==> Linked(nodes[i], chains[i], table[i], texts))
      {
        assert old(Linked(nodes[i], chains[i], table[i], texts)) && old(Owned(chains[i], repr));
        if i != slot {
          MoreTexts(nodes[i], chains[i], table[i], before, texts);
        }
      }
      Record(slot, c, es[p := Entry(es[p].key, value)]);
    }

    // ----- the operations -----

    /** The buffer is the caller's: the table owns no part of it, before or after. */
    ghost predicate Foreign(buf: array<char>)
      reads this
    {
      buf !in repr
    }

    /** Each node keeps its binding in buffers that are not the caller's: later writes there do not reach it. */
    lemma {:induction false} StoredApart(buf: array<char>, slot: nat, p: nat)
      requires Valid() && Foreign(buf) && slot < |chains| && p < |chains[slot]|
      ensures |table| == |chains| && p < |table[slot]|
      ensures var n, e := chains[slot][p], table[slot][p];
              n.key != buf && n.value != buf && IsString(n.key, e.key) && IsString(n.value, e.value)
    {
      hide Abs, ChainOk, IsString;
      ListAt(slot);
      assert Holds(chains[slot][p], table[slot][p], texts);
    }

    method Put(buf: array<char>, k: nat, v: nat) returns (r: int)
      requires Valid() && Foreign(buf) && HasString(buf, k) && HasString(buf, v) && IsKey(CStr(buf[..], k))
      modifies repr
      ensures Valid() && fresh(repr - old(repr)) && Foreign(buf)
      ensures (table, r) == HashModel.Put(old(table), CStr(buf[..], k), CStr(buf[..], v))
      ensures r == 0 || r == 1
    {
      ghost var key, value := CStr(buf[..], k), CStr(buf[..], v);
      hide Abs, TableOk, Shape, HashModel.Put, MapPut, IsKey, HasString, CStr;
      PutIsMapPut(table, key, value);
      r := LinkNew(buf, k, v);
    }

    /** The pointer work of put: nothing if a node has the key, else a new head. */
    method LinkNew(buf: array<char>, k: nat, v: nat) returns (r: int)
      requires Shape() && Foreign(buf) && HasString(buf, k) && HasString(buf, v) && IsKey(CStr(buf[..], k))
      modifies repr
      ensures Shape() && fresh(repr - old(repr)) && Foreign(buf)
      ensures (table, r) == HashModel.Put(old(table), CStr(buf[..], k), CStr(buf[..], v))
      ensures if r == 0 then count == old(count) + 1 else r == 1 && count == old(count)
    {
      ghost var key, value := CStr(buf[..], k), CStr(buf[..], v);
      hide CStr, HasString, Shape, Slot, IsKey, HashModel.Put;
      var slot := SlotOf(buf, k);
      r := LinkNewIn(slot, buf, k, v, key, value);
    }

    method LinkNewIn(slot: nat, buf: array<char>, k: nat, v: nat, ghost key: string, ghost value: string)
      returns (r: int)
      requires Shape() && Foreign(buf) && HasString(buf, k) && HasString(buf, v)
      requires key == CStr(buf[..], k) && value == CStr(buf[..], v) && slot == Slot(key)
      modifies repr
      ensures Shape() && fresh(repr - old(repr)) && Foreign(buf)
      ensures (table, r) == HashModel.Put(old(table), key, value)
      ensures if r == 0 then count == old(count) + 1 else r == 1 && count == old(count)
    {
      hide CStr, HasString, IsString, Linked, Strings, Shape, Position, Slot, HashModel.Put;
      ListAt(slot);
      PutByPosition(table, key, value);
      var node := Walk(nodes[slot], buf, k, chains[slot], table[slot], texts);
      if node != null {
        return 1;
      }
      AddNode(slot, buf, k, v);
      r := 0;
    }

    method AddNode(slot: nat, buf: array<char>, k: nat, v: nat)
      requires Shape() && slot < MAX_TABLE_SIZE && Foreign(buf) && HasString(buf, k) && HasString(buf, v)
      modifies repr
      ensures Shape() && fresh(repr - old(repr)) && Foreign(buf) && count == old(count) + 1
      ensures table == old(table)[slot := [Entry(CStr(buf[..], k), CStr(buf[..], v))] + old(table)[slot]]
    {
      ghost var e := Entry(CStr(buf[..], k), CStr(buf[..], v));
      hide CStr, HasString, IsString, Shape;
      ListAt(slot);
      var n := CreateNode(buf, k, v);
      InsertHead(slot, n, e);
    }

    method Get(buf: array<char>, k: nat) returns (r: Option<string>)
      requires Valid() && HasString(buf, k) && IsKey(CStr(buf[..], k))
      ensures r == HashModel.Get(table, CStr(buf[..], k))
    {
      r := ReadValue(buf, k);
    }

    /** The value found is read out of the node's own buffer. */
    method ReadValue(buf: array<char>, k: nat) returns (r: Option<string>)
      requires Shape() && HasString(buf, k) && IsKey(CStr(buf[..], k))
      ensures r == HashModel.Get(table, CStr(buf[..], k))
    {
      ghost var key := CStr(buf[..], k);
      hide CStr, HasString, Linked, Strings, Shape, Position, Slot, HashModel.Get, IsKey;
      var slot := SlotOf(buf, k);
      ListAt(slot);
      GetByPosition(table, key);
      var node := Walk(nodes[slot], buf, k, chains[slot], table[slot], texts);
      if node == null {
        return None;
      }
      var value := ValueOf(node, Position(table[slot], key), nodes[slot], chains[slot], table[slot], texts);
      r := Some(value);
    }

    /** The string that a node's value pointer stands for. */
    static method ValueOf(node: Node, ghost p: nat, ghost head: Node?, ghost c: seq<Node>, ghost es: Chain,
                          ghost texts: Texts) returns (value: string)
      requires Linked(head, c, es, texts) && Strings(texts) && p < |c| && node == c[p]
      ensures value == es[p].value
    {
      assert Holds(c[p], es[p], texts);
      StringIsCStr(node.value, es[p].value);
      value := CStr(node.value[..], 0);
    }

    method Modify(buf: array<char>, k: nat, v: nat) returns (r: int)
      requires Valid() && Foreign(buf) && HasString(buf, k) && HasString(buf, v) && IsKey(CStr(buf[..], k))
      modifies repr
      ensures Valid() && fresh(repr - old(repr)) && Foreign(buf)
      ensures (table, r) == HashModel.Modify(old(table), CStr(buf[..], k), CStr(buf[..], v))
    {
      ghost var key, value := CStr(buf[..], k), CStr(buf[..], v);
      hide Abs, TableOk, Shape, HashModel.Modify, MapModify, PathApart, IsKey, HasString, CStr;
      ModifyIsMapModify(table, key, value);
      PathIsApart(key);
      r := Replace(buf, k, v);
    }

    /** The pointer work of modify: a new value string for the node found. */
    method Replace(buf: array<char>, k: nat, v: nat) returns (r: int)
      requires Shape() && Foreign(buf) && HasString(buf, k) && HasString(buf, v) && IsKey(CStr(buf[..], k))
      requires PathApart(CStr(buf[..], k))
      modifies repr
      ensures Shape() && fresh(repr - old(repr)) && Foreign(buf) && count == old(count)
      ensures (table, r) == HashModel.Modify(old(table), CStr(buf[..], k), CStr(buf[..], v))
    {
      ghost var key, value := CStr(buf[..], k), CStr(buf[..], v);
      hide CStr, HasString, Shape, PathApart, Slot, IsKey, HashModel.Modify;
      var slot := SlotOf(buf, k);
      NodeIsApart(key, slot);
      r := ReplaceIn(slot, buf, k, v, key, value);
    }

    method ReplaceIn(slot: nat, buf: array<char>, k: nat, v: nat, ghost key: string, ghost value: string)
      returns (r: int)
      requires Shape() && Foreign(buf) && HasString(buf, k) && HasString(buf, v)
      requires key == CStr(buf[..], k) && value == CStr(buf[..], v) && slot == Slot(key)
      requires slot < |chains| == |table| == MAX_TABLE_SIZE
      requires var p := Position(table[slot], key); p < |chains[slot]| ==> OnlyAt(chains[slot][p], slot, p)
      modifies repr
      ensures Shape() && fresh(repr - old(repr)) && Foreign(buf) && count == old(count)
      ensures (table, r) == HashModel.Modify(old(table), key, value)
    {
      hide CStr, HasString, Linked, Strings, Shape, Position, Slot, HashModel.Modify, OnlyAt;
      ListAt(slot);
      ModifyByPosition(table, key, value);
      var node := Walk(nodes[slot], buf, k, chains[slot], table[slot], texts);
      if node == null {
        return -1;
      }
      ReplaceAt(slot, Position(table[slot], key), node, buf, v);
      r := 0;
    }

    method ReplaceAt(slot: nat, ghost p: nat, node: Node, buf: array<char>, v: nat)
      requires Shape() && slot < MAX_TABLE_SIZE && OnlyAt(node, slot, p) && Foreign(buf) && HasString(buf, v)
      modifies repr
      ensures Shape() && fresh(repr - old(repr)) && Foreign(buf) && count == old(count)
      ensures old(p < |table[slot]|)
      ensures table == old(table)[slot := old(table)[slot][p := Entry(old(table)[slot][p].key, CStr(buf[..], v))]]
    {
      ghost var value := CStr(buf[..], v);
      hide CStr, HasString, IsString, Shape;
      ListAt(slot);
      var copy := StrDup(buf, v);
      SetValue(slot, p, nodes[slot], node, copy, value);
    }

    /** The node at position `p` of the chain, if there is one, is in no other place. */
    ghost predicate ApartAt(slot: nat, p: nat)
      reads this
    {
      slot < |chains| && p < |chains[slot]| ==> OnlyAt(chains[slot][p], slot, p)
    }

    /** The node with this key, and the one before it, are in no other place. */
    ghost predicate PathApart(key: string)
      reads this
    {
      |table| == |chains| == MAX_TABLE_SIZE
      && var p := Position(table[Slot(key)], key);
      ApartAt(Slot(key), p) && (0 < p ==> ApartAt(Slot(key), p - 1))
    }

    lemma NodeIsApart(key: string, slot: nat)
      requires PathApart(key) && slot == Slot(key)
      ensures |table| == |chains| == MAX_TABLE_SIZE
      ensures var p := Position(table[slot], key); p < |chains[slot]| ==> OnlyAt(chains[slot][p], slot, p)
    {
    }

    lemma PathIsApart(key: string)
      requires Valid()
      ensures PathApart(key)
    {
      hide Abs;
      var p := Position(table[Slot(key)], key);
      if p < |chains[Slot(key)]| {
        NodesApart(Slot(key), p);
      }
      if 0 < p <= |chains[Slot(key)]| {
        NodesApart(Slot(key), p - 1);
      }
    }

    method Delete(buf: array<char>, k: nat) returns (r: int)
      requires Valid() && Foreign(buf) && HasString(buf, k) && IsKey(CStr(buf[..], k))
      modifies repr
      ensures Valid() && repr == old(repr)
      ensures (table, r) == HashModel.Delete(old(table), CStr(buf[..], k))
    {
      ghost var key := CStr(buf[..], k);
      hide Abs, TableOk, Shape, HashModel.Delete, MapDelete, PathApart, IsKey, HasString, CStr;
      DeleteIsMapDelete(table, key);
      PathIsApart(key);
      r := Unlink(buf, k);
    }

    /** The pointer work of delete: the head of the chain, a later node, or nothing. */
    method Unlink(buf: array<char>, k: nat) returns (r: int)
      requires Shape() && Foreign(buf) && HasString(buf, k) && IsKey(CStr(buf[..], k)) && PathApart(CStr(buf[..], k))
      modifies repr
      ensures Shape() && repr == old(repr)
      ensures (table, r) == HashModel.Delete(old(table), CStr(buf[..], k))
      ensures if r == 0 then count == old(count) - 1 else r == -1 && count == old(count)
    {
      ghost var key := CStr(buf[..], k);
      hide CStr, HasString, Shape, PathApart, Slot, IsKey, HashModel.Delete;
      var slot := SlotOf(buf, k);
      r := UnlinkIn(slot, buf, k, key);
    }

    method UnlinkIn(slot: nat, buf: array<char>, k: nat, ghost key: string) returns (r: int)
      requires Shape() && HasString(buf, k) && key == CStr(buf[..], k) && slot == Slot(key) && PathApart(key)
      modifies repr
      ensures Shape() && repr == old(repr)
      ensures (table, r) == HashModel.Delete(old(table), key)
      ensures if r == 0 then count == old(count) - 1 else r == -1 && count == old(count)
    {
      hide CStr, HasString, Strings, Slot, HashModel.Delete, ApartAt;
      ListAt(slot);
      DeleteByPosition(table, key);
      ghost var es := table[slot];
      var head := nodes[slot];
      if head == null {
        return -1;
      }
      assert Holds(head, es[0], texts);
      var same := SameKey(head, buf, k, es[0], texts);
      if same {
        assert es[..0] + es[1..] == es[1..];
        UnlinkHead(slot);
        return 0;
      }
      r := UnlinkLater(buf, k, key, slot, head);
    }

    method UnlinkLater(buf: array<char>, k: nat, ghost key: string, slot: nat, head: Node) returns (r: int)
      requires Shape() && HasString(buf, k) && key == CStr(buf[..], k)
      requires slot < MAX_TABLE_SIZE == |chains| == |table| == nodes.Length
      requires nodes[slot] == head && table[slot] != [] && table[slot][0].key != key
      requires var p := Position(table[slot], key); 0 < p ==> ApartAt(slot, p - 1)
      modifies repr
      ensures Shape() && repr == old(repr)
      ensures var es := old(table)[slot];
              var p := Position(es, key);
              if p < |es| then r == 0 && table == old(table)[slot := es[..p] + es[p + 1..]] && count == old(count) - 1
              else r == -1 && table == old(table) && count == old(count)
    {
      hide Shape, OnlyAt, CStr, HasString, Strings;
      ListAt(slot);
      ghost var p := Position(table[slot], key);
      var cur := WalkBefore(head, buf, k, chains[slot], table[slot], texts);
      if cur.next == null {
        return -1;
      }
      UnlinkAfter(slot, p - 1, head, cur);
      r := 0;
    }

    /** The walk of delete: stops at the node before the one with this key, or at the last node. */
    static method WalkBefore(head: Node, buf: array<char>, k: nat,
                             ghost c: seq<Node>, ghost es: Chain, ghost texts: Texts) returns (cur: Node)
      requires Linked(head, c, es, texts) && Strings(texts) && HasString(buf, k) && es[0].key != CStr(buf[..], k)
      ensures var p := Position(es, CStr(buf[..], k));
              0 < p && cur == c[p - 1] && (cur.next == null <==> p == |c|)
    {
      ghost var key := CStr(buf[..], k);
      hide Strings, HasString, CStr, Holds, Position;
      cur := head;
      ghost var j := 0;
      while cur.next != null
        invariant 0 <= j < |c| && cur == c[j]
        invariant forall i :: 0 <= i <= j ==> es[i].key != key
        decreases |c| - j
      {
        var same := SameKey(cur.next, buf, k, es[j + 1], texts);
        if same {
          PositionIs(es, key, j + 1);
          return;
        }
        cur := cur.next;
        j := j + 1;
      }
      PositionIs(es, key, j + 1);
    }

    lemma ChainsApart()
      requires Valid()
      ensures Apart(chains, (n: Node) => n)
    {
      hide Abs;
      forall i, j, i', j' |
        0 <= i < |chains| && 0 <= j < |chains[i]| && 0 <= i' < |chains| && 0 <= j' < |chains[i']|
        && chains[i][j] == chains[i'][j']
        ensures i == i' && j == j'
      {
        NodesApart(i, j);
      }
    }

    /** Frees the nodes of one slot from the head on. */
    static method DestroyChain(nodes: array<Node?>, i: nat, ghost c: seq<Node>, ghost es: Chain,
                               ghost texts: Texts) returns (ghost freed: seq<Node>)
      requires i < nodes.Length && Linked(nodes[i], c, es, texts)
      modifies nodes
      ensures freed == c && nodes[i] == null
      ensures forall k :: 0 <= k < nodes.Length && k != i ==> nodes[k] == old(nodes[k])
    {
      hide Holds;
      freed := [];
      var node := nodes[i];
      ghost var j := 0;
      while node != null
        invariant 0 <= j <= |c| && node == NodeAt(c, j) && nodes[i] == node && freed == c[..j]
        invariant forall k :: 0 <= k < nodes.Length && k != i ==> nodes[k] == old(nodes[k])
        decreases |c| - j
      {
        var tmp := node;
        node := node.next;
        nodes[i] := node;
        freed := freed + [tmp];
        j := j + 1;
      }
    }

    /** `dest_hashtable`: frees the nodes of every slot in order, each exactly once. */
    method Destroy() returns (ghost freed: seq<Node>)
      requires Valid()
      modifies nodes
      ensures freed == Flatten(chains) && Distinct(freed, (n: Node) => n)
      ensures forall i :: 0 <= i < nodes.Length ==> nodes[i] == null
    {
      hide Abs;
      ChainsApart();
      freed := [];
      var i := 0;
      while i < MAX_TABLE_SIZE
        invariant 0 <= i <= MAX_TABLE_SIZE
        invariant forall k :: 0 <= k < i ==> nodes[k] == null
        invariant forall k :: i <= k < MAX_TABLE_SIZE ==> nodes[k] == old(nodes[k])
        invariant freed == Flatten(chains[..i])
      {
        assert old(Linked(nodes[i], chains[i], table[i], texts));
        var chain := DestroyChain(nodes, i, chains[i], table[i], texts);
        freed := freed + chain;
        FlattenSnoc(chains, i);
        i := i + 1;
      }
      assert chains[..i] == chains;
      FlattenDistinct(chains, (n: Node) => n);
    }
  }
}
