/** The command interpreter, its reference meaning on maps, and what a restart may change. */
module KvStore {
  import opened CString
  import opened HashModel
  import opened DiskFormat
  import opened Decimal
  import Tokenizer

  const COMMANDS: seq<string> := [
    "SET", "GET", "DEL", "MOD", "COUNT", "RSET", "RGET", "RDEL",
    "RMOD", "RCOUNT", "HSET", "HGET", "HDEL", "HMOD", "HCOUNT"
  ]
  const KVS_CMD_HSET: nat := 10
  const KVS_CMD_HGET: nat := 11
  const KVS_CMD_HDEL: nat := 12
  const KVS_CMD_HMOD: nat := 13
  const KVS_CMD_HCOUNT: nat := 14
  const KVS_CMD_SIZE: nat := 15

  /** Requests that hold the tokens their command reads. */
  predicate Complete(req: seq<string>) {
    req != []
    && (req[0] in ["HSET", "HMOD"] ==> 3 <= |req|)
    && (req[0] in ["HGET", "HDEL"] ==> 2 <= |req|)
  }

  /** What `snprintf` leaves of a text in the reply buffer. */
  function Truncate(s: string): (r: string)
    ensures r <= s && |r| <= BUFFER_LENGTH - 1
    ensures |r| == BUFFER_LENGTH - 1 || r == s
  {
    if |s| < BUFFER_LENGTH then s else s[..BUFFER_LENGTH - 1]
  }

  // ----- the reference meaning: an interpreter over a map -----

  function Answer(m: Store, req: seq<string>): (Store, string)
    requires Complete(req)
  {
    match req[0]
    case "HSET" => if req[1] in m then (m, "EXISTS") else (m[req[1] := req[2]], "SUCCESS")
    case "HGET" => (m, if req[1] in m then Truncate(m[req[1]]) else "NO EXIST")
    case "HDEL" => if req[1] in m then (m - {req[1]}, "SUCCESS") else (m, "ERROR")
    case "HMOD" => if req[1] in m then (m[req[1] := req[2]], "SUCCESS") else (m, "ERROR")
    case "HCOUNT" => (m, Truncate(ToDecimal(|m|)))
    case _ => (m, "ERROR")
  }

  // ----- the interpreter as coded, over a table -----

  function SetReply(res: int): string {
    if res < 0 then "ERROR" else if res == 0 then "SUCCESS" else "EXISTS"
  }

  function ChangeReply(res: int): string {
    if res < 0 then "ERROR" else if res == 0 then "SUCCESS" else "NO EXIST"
  }

  /** The first command of this name, or one past the last. */
  function CommandIndex(name: string, from: nat): (cmd: nat)
    requires from <= KVS_CMD_SIZE
    ensures from <= cmd <= KVS_CMD_SIZE && (cmd < KVS_CMD_SIZE ==> COMMANDS[cmd] == name)
    ensures forall i :: from <= i < cmd ==> COMMANDS[i] != name
    decreases KVS_CMD_SIZE - from
  {
    if from == KVS_CMD_SIZE || COMMANDS[from] == name then from else CommandIndex(name, from + 1)
  }

  ghost function Execute(t: Table, req: seq<string>): (r: (Table, string))
    requires |t| == MAX_TABLE_SIZE && Complete(req)
    ensures |r.0| == MAX_TABLE_SIZE && |r.1| < BUFFER_LENGTH
  {
    var cmd := CommandIndex(req[0], 0);
    CommandNames(req[0]);
    if cmd == KVS_CMD_HSET then
      var (t', res) := Put(t, req[1], req[2]); (t', SetReply(res))
    else if cmd == KVS_CMD_HGET then
      (t, match Get(t, req[1]) case Some(value) => Truncate(value) case None => "NO EXIST")
    else if cmd == KVS_CMD_HDEL then
      var (t', res) := Delete(t, req[1]); (t', ChangeReply(res))
    else if cmd == KVS_CMD_HMOD then
      var (t', res) := Modify(t, req[1], req[2]); (t', ChangeReply(res))
    else if cmd == KVS_CMD_HCOUNT then
      (t, Truncate(ToDecimal(|Abs(t)|)))
    else
      (t, "ERROR")
  }

  lemma {:induction false} CommandNames(name: string)
    ensures var cmd := CommandIndex(name, 0);
            (cmd == KVS_CMD_HSET <==> name == "HSET") && (cmd == KVS_CMD_HGET <==> name == "HGET")
            && (cmd == KVS_CMD_HDEL <==> name == "HDEL") && (cmd == KVS_CMD_HMOD <==> name == "HMOD")
            && (cmd == KVS_CMD_HCOUNT <==> name == "HCOUNT")
  {
    var cmd := CommandIndex(name, 0);
    HashCommandNames();
    if name in ["HSET", "HGET", "HDEL", "HMOD", "HCOUNT"] {
      assert name[0] == 'H' && KVS_CMD_HSET <= cmd;
    }
  }

  /** The hash commands are told from all others by their first letter. */
  lemma HashCommandNames()
    ensures forall i :: 0 <= i < KVS_CMD_HSET ==> COMMANDS[i] != "" && COMMANDS[i][0] != 'H'
    ensures COMMANDS[10] == "HSET" && COMMANDS[11] == "HGET" && COMMANDS[12] == "HDEL"
            && COMMANDS[13] == "HMOD" && COMMANDS[14] == "HCOUNT"
  {
  }

  /** One request: the coded interpreter answers as the map does and keeps the table in step with it. */
  lemma {:induction false} ExecuteIsAnswer(t: Table, req: seq<string>)
    requires TableOk(t) && Complete(req)
    ensures TableOk(Execute(t, req).0)
    ensures (Abs(Execute(t, req).0), Execute(t, req).1) == Answer(Abs(t), req)
    ensures req[0] !in ["HSET", "HDEL", "HMOD"] ==> Execute(t, req).0 == t
  {
    hide Abs, ChainOk, Put, Get, Delete, Modify, ToDecimal, CommandIndex;
    CommandNames(req[0]);
    if req[0] == "HSET" {
      PutIsMapPut(t, req[1], req[2]);
    } else if req[0] == "HGET" {
      GetIsMapGet(t, req[1]);
    } else if req[0] == "HDEL" {
      DeleteIsMapDelete(t, req[1]);
    } else if req[0] == "HMOD" {
      ModifyIsMapModify(t, req[1], req[2]);
    }
  }

  // ----- runs of requests -----

  ghost predicate AllComplete(reqs: seq<seq<string>>) {
    forall i :: 0 <= i < |reqs| ==> Complete(reqs[i])
  }

  ghost function Run(t: Table, reqs: seq<seq<string>>): (r: (Table, seq<string>))
    requires |t| == MAX_TABLE_SIZE && AllComplete(reqs)
    ensures |r.0| == MAX_TABLE_SIZE
    decreases |reqs|
  {
    if reqs == [] then (t, []) else
      var (t', reply) := Execute(t, reqs[0]);
      var (last, replies) := Run(t', reqs[1..]);
      (last, [reply] + replies)
  }

  ghost function MapRun(m: Store, reqs: seq<seq<string>>): (Store, seq<string>)
    requires AllComplete(reqs)
    decreases |reqs|
  {
    if reqs == [] then (m, []) else
      var (m', reply) := Answer(m, reqs[0]);
      var (last, replies) := MapRun(m', reqs[1..]);
      (last, [reply] + replies)
  }

  /** Any run of requests is answered as the map-based interpreter answers it. */
  lemma {:induction false} RunIsMapRun(t: Table, reqs: seq<seq<string>>)
    requires TableOk(t) && AllComplete(reqs)
    ensures TableOk(Run(t, reqs).0)
    ensures (Abs(Run(t, reqs).0), Run(t, reqs).1) == MapRun(Abs(t), reqs)
    decreases |reqs|
  {
    hide Execute, Answer, Abs, ChainOk;
    if reqs != [] {
      ExecuteIsAnswer(t, reqs[0]);
      RunIsMapRun(Execute(t, reqs[0]).0, reqs[1..]);
    }
  }

  lemma {:induction false} RunConcat(t: Table, first: seq<seq<string>>, second: seq<seq<string>>)
    requires |t| == MAX_TABLE_SIZE && AllComplete(first) && AllComplete(second)
    ensures AllComplete(first + second)
    ensures Run(t, first + second).0 == Run(Run(t, first).0, second).0
    ensures Run(t, first + second).1 == Run(t, first).1 + Run(Run(t, first).0, second).1
    decreases |first|
  {
    hide Execute;
    var all := first + second;
    if first == [] {
      assert all == second;
    } else {
      var t' := Execute(t, first[0]).0;
      RunConcat(t', first[1..], second);
      assert all[0] == first[0] && all[1..] == first[1..] + second;
      assert Run(t, all).1 == [Execute(t, first[0]).1] + Run(t', all[1..]).1;
    }
  }

  // ----- what is written is read -----

  lemma {:induction false} MapRunConcat(m: Store, a: seq<seq<string>>, b: seq<seq<string>>)
    requires AllComplete(a) && AllComplete(b)
    ensures AllComplete(a + b)
    ensures var (mid, first) := MapRun(m, a);
            MapRun(m, a + b) == (MapRun(mid, b).0, first + MapRun(mid, b).1)
    decreases |a|
  {
    hide Answer, Complete;
    if a == [] {
      assert a + b == b && [] + MapRun(m, b).1 == MapRun(m, b).1;
    } else {
      var (m', reply) := Answer(m, a[0]);
      MapRunConcat(m', a[1..], b);
      assert (a + b)[0] == a[0] && (a + b)[1..] == a[1..] + b;
      var (mid, first) := MapRun(m', a[1..]);
      assert [reply] + (first + MapRun(mid, b).1) == ([reply] + first) + MapRun(mid, b).1;
    }
  }

  /** A request that can change or end the binding of this key. */
  predicate Rewrites(req: seq<string>, key: string)
    requires Complete(req)
  {
    req[0] in ["HMOD", "HDEL"] && req[1] == key
  }

  predicate Sets(req: seq<string>, key: string)
    requires Complete(req)
  {
    req[0] == "HSET" && req[1] == key
  }

  lemma {:induction false} BindingStays(m: Store, reqs: seq<seq<string>>, key: string)
    requires AllComplete(reqs) && key in m && forall i :: 0 <= i < |reqs| ==> !Rewrites(reqs[i], key)
    ensures key in MapRun(m, reqs).0 && MapRun(m, reqs).0[key] == m[key]
    decreases |reqs|
  {
    if reqs != [] {
      assert !Rewrites(reqs[0], key);
      BindingStays(Answer(m, reqs[0]).0, reqs[1..], key);
    }
  }

  lemma {:induction false} AbsenceStays(m: Store, reqs: seq<seq<string>>, key: string)
    requires AllComplete(reqs) && key !in m && forall i :: 0 <= i < |reqs| ==> !Sets(reqs[i], key)
    ensures key !in MapRun(m, reqs).0
    decreases |reqs|
  {
    if reqs != [] {
      assert !Sets(reqs[0], key);
      AbsenceStays(Answer(m, reqs[0]).0, reqs[1..], key);
    }
  }

  /** One request, some others, and a look at a key. */
  lemma {:induction false} ThenGet(m: Store, write: seq<string>, mid: seq<seq<string>>, key: string)
    requires Complete(write) && AllComplete(mid)
    ensures AllComplete([write] + mid + [["HGET", key]])
    ensures var (m', reply) := Answer(m, write);
            MapRun(m, [write] + mid + [["HGET", key]]).1
            == [reply] + MapRun(m', mid).1 + [Answer(MapRun(m', mid).0, ["HGET", key]).1]
  {
    hide Answer;
    var get := ["HGET", key];
    assert Complete(get);
    assert [write][1..] == [] && [get][1..] == [];
    MapRunConcat(m, [write], mid);
    MapRunConcat(m, [write] + mid, [get]);
    var m' := Answer(m, write).0;
    assert MapRun(m, [write]) == (m', [Answer(m, write).1] + []);
    var last := MapRun(m', mid).0;
    assert MapRun(last, [get]) == (Answer(last, get).0, [Answer(last, get).1] + []);
  }

  /** A value that was set is read back until its key is modified or deleted; setting it again does not change it. */
  lemma {:induction false} SetIsRead(m: Store, key: string, value: string, mid: seq<seq<string>>)
    requires AllComplete(mid) && key !in m && forall i :: 0 <= i < |mid| ==> !Rewrites(mid[i], key)
    ensures AllComplete([["HSET", key, value]] + mid + [["HGET", key]])
    ensures var replies := MapRun(m, [["HSET", key, value]] + mid + [["HGET", key]]).1;
            |replies| == |mid| + 2 && replies[0] == "SUCCESS" && replies[|mid| + 1] == Truncate(value)
  {
    ThenGet(m, ["HSET", key, value], mid, key);
    BindingStays(m[key := value], mid, key);
    RepliesCount(m[key := value], mid);
  }

  /** A value that was modified is read back until its key is modified or deleted. */
  lemma {:induction false} ModifiedIsRead(m: Store, key: string, value: string, mid: seq<seq<string>>)
    requires AllComplete(mid) && key in m && forall i :: 0 <= i < |mid| ==> !Rewrites(mid[i], key)
    ensures AllComplete([["HMOD", key, value]] + mid + [["HGET", key]])
    ensures var replies := MapRun(m, [["HMOD", key, value]] + mid + [["HGET", key]]).1;
            |replies| == |mid| + 2 && replies[0] == "SUCCESS" && replies[|mid| + 1] == Truncate(value)
  {
    ThenGet(m, ["HMOD", key, value], mid, key);
    BindingStays(m[key := value], mid, key);
    RepliesCount(m[key := value], mid);
  }

  /** A key that was deleted is not found until it is set again. */
  lemma {:induction false} DeletedIsGone(m: Store, key: string, mid: seq<seq<string>>)
    requires AllComplete(mid) && forall i :: 0 <= i < |mid| ==> !Sets(mid[i], key)
    ensures AllComplete([["HDEL", key]] + mid + [["HGET", key]])
    ensures var replies := MapRun(m, [["HDEL", key]] + mid + [["HGET", key]]).1;
            |replies| == |mid| + 2 && replies[0] == (if key in m then "SUCCESS" else "ERROR")
            && replies[|mid| + 1] == "NO EXIST"
  {
    ThenGet(m, ["HDEL", key], mid, key);
    var m' := Answer(m, ["HDEL", key]).0;
    AbsenceStays(m', mid, key);
    RepliesCount(m', mid);
  }

  lemma {:induction false} RepliesCount(m: Store, reqs: seq<seq<string>>)
    requires AllComplete(reqs)
    ensures |MapRun(m, reqs).1| == |reqs|
    decreases |reqs|
  {
    hide Answer, Complete;
    if reqs != [] {
      RepliesCount(Answer(m, reqs[0]).0, reqs[1..]);
    }
  }

  // ----- restarts -----

  /** Saving and loading between two runs changes no later reply, if what is saved can be stored. */
  lemma {:induction false} RestartTransparent(t: Table, first: seq<seq<string>>, second: seq<seq<string>>)
    requires TableOk(t) && AllComplete(first) && AllComplete(second)
    requires AllStorable(Abs(Run(t, first).0))
    ensures AllComplete(first + second)
    ensures Run(t, first).1 + Run(Reloaded(Run(t, first).0), second).1 == Run(t, first + second).1
    ensures Abs(Run(Reloaded(Run(t, first).0), second).0) == Abs(Run(t, first + second).0)
  {
    hide Abs, ChainOk, Reloaded;
    var mid := Run(t, first).0;
    RunIsMapRun(t, first);
    ReloadedIsSame(mid);
    RunIsMapRun(mid, second);
    RunIsMapRun(Reloaded(mid), second);
    RunConcat(t, first, second);
  }

  lemma ReloadedIsSame(t: Table)
    requires TableOk(t)
    ensures TableOk(Reloaded(t))
    ensures Abs(Reloaded(t)) == Abs(t) <==> AllStorable(Abs(t))
  {
    LoadUndoesSave(t);
  }

  /** Requests that store only what the file format can hold keep the table that way. */
  predicate StoresStorable(req: seq<string>)
    requires Complete(req)
  {
    req[0] in ["HSET", "HMOD"] ==> Storable(Entry(req[1], req[2]))
  }

  lemma {:induction false} StorableRuns(t: Table, reqs: seq<seq<string>>)
    requires TableOk(t) && AllComplete(reqs) && AllStorable(Abs(t))
    requires forall i :: 0 <= i < |reqs| ==> StoresStorable(reqs[i])
    ensures AllStorable(Abs(Run(t, reqs).0))
    decreases |reqs|
  {
    hide Execute, Abs, Storable, ChainOk;
    if reqs != [] {
      ExecuteIsAnswer(t, reqs[0]);
      var t' := Execute(t, reqs[0]).0;
      assert StoresStorable(reqs[0]);
      StorableRuns(t', reqs[1..]);
    }
  }

  // ----- when a restart can be observed -----

  /** A request as it can arrive: complete, and made of words. */
  ghost predicate Sendable(req: seq<string>) {
    Complete(req) && forall i :: 0 <= i < |req| ==> Tokenizer.IsToken(req[i])
  }

  /** Bindings the file cannot hold were stored by a request, so their keys are words. */
  ghost predicate Reachable(m: Store) {
    forall k :: k in m ==> Storable(Entry(k, m[k])) || Tokenizer.IsToken(k)
  }

  lemma {:induction false} RunsAreReachable(t: Table, reqs: seq<seq<string>>)
    requires TableOk(t) && Reachable(Abs(t))
    requires forall i :: 0 <= i < |reqs| ==> Sendable(reqs[i])
    ensures AllComplete(reqs) && Reachable(Abs(Run(t, reqs).0))
    decreases |reqs|
  {
    hide Execute, Abs, Storable, ChainOk, Tokenizer.IsToken;
    if reqs != [] {
      ExecuteIsAnswer(t, reqs[0]);
      var t' := Execute(t, reqs[0]).0;
      assert Sendable(reqs[0]);
      RunsAreReachable(t', reqs[1..]);
    }
  }

  /** A table loaded from any file holds only storable bindings. */
  lemma LoadedIsStorable(text: string)
    ensures TableOk(LoadText(Empty(), text)) && AllStorable(Abs(LoadText(Empty(), text)))
  {
    var m := Abs(LoadText(Empty(), text));
    LoadIsMerge(Empty(), ParseFile(text));
    EmptyIsEmptyMap();
    ParsedAreStorable(text);
    forall k | k in m ensures Storable(Entry(k, m[k])) {
      MergeMeaning(map[], ParseFile(text), k);
      var p := Position(ParseFile(text), k);
      assert ParseFile(text)[p] in ParseFile(text);
    }
  }

  /** A binding that cannot be stored is exposed by one request after the restart. */
  lemma {:induction false} LostBindingShows(t: Table, key: string) returns (req: seq<string>)
    requires TableOk(t) && key in Abs(t) && Tokenizer.IsToken(key) && !Storable(Entry(key, Abs(t)[key]))
    ensures Sendable(req) && Run(Reloaded(t), [req]).1 != Run(t, [req]).1
  {
    hide Abs, ChainOk, Execute, Storable, Reloaded, Tokenizer.IsToken;
    var m, m' := Abs(t), Abs(Reloaded(t));
    ReloadedIsStorable(t);
    req := if key in m' then ["HGET", key] else ["HSET", key, "x"];
    WordsAreTokens(key);
    RunOne(t, req);
    RunOne(Reloaded(t), req);
    if key in m' {
      StorableFits(key, m'[key]);
    }
  }

  lemma ReloadedIsStorable(t: Table)
    requires TableOk(t)
    ensures TableOk(Reloaded(t)) && AllStorable(Abs(Reloaded(t)))
  {
    LoadedIsStorable(SaveText(t));
  }

  lemma WordsAreTokens(key: string)
    requires Tokenizer.IsToken(key)
    ensures Sendable(["HGET", key]) && Sendable(["HSET", key, "x"])
  {
  }

  lemma StorableFits(key: string, value: string)
    requires Storable(Entry(key, value))
    ensures |value| < BUFFER_LENGTH - 1
  {
  }

  lemma RunOne(t: Table, req: seq<string>)
    requires TableOk(t) && Complete(req)
    ensures Run(t, [req]).1 == [Answer(Abs(t), req).1]
  {
    hide Abs, ChainOk, Execute, Answer;
    ExecuteIsAnswer(t, req);
  }

  /** A restart is unobservable exactly when every binding at that moment is storable. */
  lemma {:induction false} RestartUnobservable(t: Table)
    requires TableOk(t) && Reachable(Abs(t))
    ensures TableOk(Reloaded(t))
    ensures AllStorable(Abs(t)) <==>
            forall reqs :: AllSendable(reqs) ==> Run(Reloaded(t), reqs).1 == Run(t, reqs).1
  {
    hide Abs, ChainOk, Reloaded, Storable, Complete, Tokenizer.IsToken;
    ReloadedIsSame(t);
    if AllStorable(Abs(t)) {
      forall reqs | AllSendable(reqs) ensures Run(Reloaded(t), reqs).1 == Run(t, reqs).1 {
        RunIsMapRun(t, reqs);
        RunIsMapRun(Reloaded(t), reqs);
      }
    } else {
      var key :| key in Abs(t) && !Storable(Entry(key, Abs(t)[key]));
      var req := LostBindingShows(t, key);
      assert AllSendable([req]);
    }
  }

  ghost predicate AllSendable(reqs: seq<seq<string>>)
    ensures AllSendable(reqs) ==> AllComplete(reqs)
  {
    forall i :: 0 <= i < |reqs| ==> Sendable(reqs[i])
  }
}
