/** The engine as the program runs it: requests and replies in buffers, the table kept across restarts in a file. */
module KvEngine {
  import opened CString
  import opened Sequences
  import opened HashModel
  import opened HashTable
  import opened DiskFormat
  import opened DiskIO
  import opened Decimal
  import opened KvStore
  import Tokenizer

  const KVSTORE_MAX_TOKENS: nat := 128

  /** The whole reply buffer after `memset` and `snprintf`. */
  function Padded(reply: string): (buf: seq<char>)
    requires |reply| < BUFFER_LENGTH
    ensures |buf| == BUFFER_LENGTH && buf[..|reply|] == reply
    ensures forall i :: |reply| <= i < BUFFER_LENGTH ==> buf[i] == NUL
  {
    reply + seq(BUFFER_LENGTH - |reply|, _ => NUL)
  }

  method WriteReply(wmsg: array<char>, text: string)
    requires wmsg.Length == BUFFER_LENGTH
    modifies wmsg
    ensures wmsg[..] == Padded(Truncate(text))
  {
    for i := 0 to BUFFER_LENGTH
      invariant forall k :: 0 <= k < i ==> wmsg[k] == NUL
    {
      wmsg[i] := NUL;
    }
    var n := if |text| < BUFFER_LENGTH then |text| else BUFFER_LENGTH - 1;
    for i := 0 to n
      invariant forall k :: 0 <= k < i ==> wmsg[k] == text[k]
      invariant forall k :: i <= k < BUFFER_LENGTH ==> wmsg[k] == NUL
    {
      wmsg[i] := text[i];
    }
  }

  /** The search through the command names. */
  method FindCommand(name: string) returns (cmd: nat)
    ensures cmd == CommandIndex(name, 0)
  {
    cmd := 0;
    while cmd < KVS_CMD_SIZE && COMMANDS[cmd] != name
      invariant cmd <= KVS_CMD_SIZE && CommandIndex(name, cmd) == CommandIndex(name, 0)
      decreases KVS_CMD_SIZE - cmd
    {
      cmd := cmd + 1;
    }
  }

  /** Requests whose key the table takes. */
  ghost predicate Answerable(req: seq<string>) {
    Complete(req) && (req[0] in ["HSET", "HGET", "HDEL", "HMOD"] ==> IsKey(req[1]))
  }

  /** What a request makes of the table and of the reply buffer. */
  ghost function Respond(t: Table, wmsg: seq<char>, req: seq<string>): (r: (Table, seq<char>))
    requires |t| == MAX_TABLE_SIZE && (req != [] ==> Answerable(req))
    ensures |r.0| == MAX_TABLE_SIZE
  {
    if req == [] then (t, wmsg) else var (t', reply) := Execute(t, req); (t', Padded(reply))
  }

  ghost predicate Strings(req: seq<string>) {
    forall i :: 0 <= i < |req| ==> NulFree(req[i])
  }

  lemma WordsAreStrings(s: string)
    requires NulFree(s)
    ensures Strings(Tokenizer.Tokens(s))
  {
  }

  /** The token pointers yield these words as C strings. */
  ghost predicate Points(msg: array<char>, tokens: array<nat>, count: nat, req: seq<string>)
    reads msg, tokens
  {
    count == |req| <= tokens.Length
    && forall i :: 0 <= i < count ==> HasString(msg, tokens[i]) && CStr(msg[..], tokens[i]) == req[i]
  }

  /** The command switch, with the key and value pointers: does the work and says what to reply. */
  method RunCommand(hash: Hashtable, cmd: nat, msg: array<char>, key: nat, value: nat, ghost req: seq<string>)
    returns (reply: string)
    requires hash.Valid() && hash.Foreign(msg) && Answerable(req) && cmd == CommandIndex(req[0], 0)
    requires 1 < |req| ==> HasString(msg, key) && CStr(msg[..], key) == req[1]
    requires 2 < |req| ==> HasString(msg, value) && CStr(msg[..], value) == req[2]
    modifies hash.repr
    ensures hash.Valid() && fresh(hash.repr - old(hash.repr)) && hash.Foreign(msg)
    ensures (hash.table, Truncate(reply)) == Execute(old(hash.table), req)
  {
    hide Abs, ChainOk, Hashtable.Shape, HashModel.Put, HashModel.Get, HashModel.Delete, HashModel.Modify;
    hide IsKey, CStr, HasString, CommandIndex, Truncate, ToDecimal;
    CommandNames(req[0]);
    reply := "ERROR";
    if cmd == KVS_CMD_HSET {
      var res := hash.Put(msg, key, value);
      reply := SetReply(res);
    } else if cmd == KVS_CMD_HGET {
      var val := hash.Get(msg, key);
      reply := if val.Some? then val.value else "NO EXIST";
    } else if cmd == KVS_CMD_HDEL {
      var res := hash.Delete(msg, key);
      reply := ChangeReply(res);
    } else if cmd == KVS_CMD_HMOD {
      var res := hash.Modify(msg, key, value);
      reply := ChangeReply(res);
    } else if cmd == KVS_CMD_HCOUNT {
      reply := if hash.count < 0 then "ERROR" else ToDecimal(hash.count);
    }
  }

  /** `kvstore_parser_protocol`; without tokens it returns before it writes anything. */
  method ParserProtocol(hash: Hashtable, wmsg: array<char>, msg: array<char>, tokens: array<nat>, count: nat,
                        ghost req: seq<string>)
    requires hash.Valid() && hash.Foreign(msg) && hash.Foreign(wmsg) && tokens !in hash.repr
    requires wmsg != msg && wmsg.Length == BUFFER_LENGTH
    requires Points(msg, tokens, count, req) && (req != [] ==> Answerable(req))
    modifies hash.repr, wmsg
    ensures hash.Valid() && fresh(hash.repr - old(hash.repr)) && hash.Foreign(msg) && hash.Foreign(wmsg)
    ensures (hash.table, wmsg[..]) == Respond(old(hash.table), old(wmsg[..]), req)
  {
    hide Hashtable.Valid, Execute, Padded, CStr, HasString, CommandIndex, IsKey;
    if count == 0 {
      return;
    }
    var cmd := FindCommand(CStr(msg[..], tokens[0]));
    var key := if 1 < count then tokens[1] else 0;
    var value := if 2 < count then tokens[2] else 0;
    var reply := RunCommand(hash, cmd, msg, key, value, req);
    WriteReply(wmsg, reply);
  }

  lemma WordsArePoints(msg: array<char>, tokens: array<nat>, count: nat, req: seq<string>)
    requires count == |req| <= tokens.Length
    requires forall i :: 0 <= i < count ==> tokens[i] + |req[i]| < msg.Length && CStr(msg[..], tokens[i]) == req[i]
    ensures Points(msg, tokens, count, req)
  {
  }

  /** The table `init_kvengine` starts with. */
  function Started(file: Option<string>): (t: Table)
    ensures |t| == MAX_TABLE_SIZE
  {
    match file case Some(text) => LoadText(Empty(), text) case None => Empty()
  }

  class Engine {
    var hash: Hashtable
    var file: Option<string>

    ghost predicate Valid()
      reads this, hash, hash.repr
    {
      hash.Valid() && this !in hash.repr
    }

    /** `init_kvengine` */
    constructor Init(file: Option<string>)
      requires file.Some? ==> FileOk(file.value)
      ensures Valid() && fresh(hash.repr)
      ensures hash.table == Started(file) && this.file == file
    {
      var h := new Hashtable();
      this.hash, this.file := h, file;
      new;
      var r := LoadFromDisk(hash, file);
    }

    /** `exit_kvengine`; the table is gone afterwards, the file holds it. */
    method Exit()
      requires Valid()
      modifies this`file, hash.repr
      ensures file == Some(SaveText(old(hash.table)))
    {
      hide Abs, ChainOk, Hashtable.Linked, Hashtable.Owned;
      var text := SaveToDisk(hash);
      file := Some(text);
      ghost var freed := hash.Destroy();
    }

    /** `kvstore_request`: cuts the request into words in place and answers into `wmsg`.
        Afterwards the table owns no part of either buffer, so later writes to them do not reach what it stores. */
    method Request(rmsg: array<char>, wmsg: array<char>)
      requires Valid() && rmsg != wmsg && hash.Foreign(rmsg) && hash.Foreign(wmsg)
      requires HasString(rmsg, 0) && wmsg.Length == BUFFER_LENGTH
      requires var req := Tokenizer.Tokens(CStr(rmsg[..], 0));
               |req| <= KVSTORE_MAX_TOKENS && (req != [] ==> Answerable(req))
      modifies hash.repr, rmsg, wmsg
      ensures Valid() && hash == old(hash) && fresh(hash.repr - old(hash.repr))
      ensures hash.Foreign(rmsg) && hash.Foreign(wmsg)
      ensures (hash.table, wmsg[..]) ==
              Respond(old(hash.table), old(wmsg[..]), Tokenizer.Tokens(old(CStr(rmsg[..], 0))))
      ensures var req := Tokenizer.Tokens(old(CStr(rmsg[..], 0)));
              TextsOk(Abs(old(hash.table))) && req != [] ==>
                (Abs(hash.table), CStr(wmsg[..], 0)) == Answer(Abs(old(hash.table)), req)
    {
      hide Abs, ChainOk, Hashtable.Shape, Tokenizer.Tokens, Execute, CStr, Answerable, Padded, Respond, Points;
      ghost var text, before, buffer := CStr(rmsg[..], 0), hash.table, wmsg[..];
      ghost var words := Tokenizer.Tokens(text);
      var tokens := new nat[KVSTORE_MAX_TOKENS];
      var count := Tokenizer.SplitToken(rmsg, tokens);
      WordsArePoints(rmsg, tokens, count, words);
      ParserProtocol(hash, wmsg, rmsg, tokens, count, words);
      if TextsOk(Abs(before)) && words != [] {
        WordsAreStrings(text);
        RespondAnswers(before, buffer, words);
      }
    }
  }

  // ----- the saved file can be loaded again -----

  /** What the table holds can be written as C strings and hashed. */
  ghost predicate TextsOk(m: Store) {
    forall k :: k in m ==> NulFree(k) && Ascii(k) && NulFree(m[k])
  }

  lemma RequestKeepsTexts(t: Table, req: seq<string>)
    requires TableOk(t) && TextsOk(Abs(t)) && Answerable(req) && Strings(req)
    ensures TextsOk(Abs(Execute(t, req).0))
  {
    hide Abs, ChainOk, Execute;
    ExecuteIsAnswer(t, req);
  }

  lemma {:induction false} ParsedAreNulFree(s: string)
    requires NulFree(s)
    ensures forall e :: e in ParseFile(s) ==> NulFree(e.key) && NulFree(e.value)
    decreases |s|
  {
    if s != "" {
      ParsedAreNulFree(s[ChunkLen(s)..]);
    }
  }

  lemma StartedTexts(text: string)
    requires FileOk(text)
    ensures TextsOk(Abs(Started(Some(text))))
  {
    var es := ParseFile(text);
    EmptyIsEmptyMap();
    LoadIsMerge(Empty(), es);
    ParsedAreNulFree(text);
    forall k | k in Merge(map[], es)
      ensures NulFree(k) && Ascii(k) && NulFree(Merge(map[], es)[k])
    {
      MergeMeaning(map[], es, k);
      assert es[Position(es, k)] in es;
    }
  }

  lemma {:induction false} LinesAreNulFree(es: seq<Entry>)
    requires forall e :: e in es ==> NulFree(e.key) && NulFree(e.value)
    ensures NulFree(Lines(es))
  {
    if es != [] {
      assert es[0] in es;
      LinesAreNulFree(es[1..]);
    }
  }

  /** What `exit_kvengine` saves meets what `init_kvengine` needs, if every binding is storable. */
  lemma {:induction false} SavedFileIsOk(t: Table)
    requires TableOk(t) && AllStorable(Abs(t)) && TextsOk(Abs(t))
    ensures FileOk(SaveText(t)) && Started(Some(SaveText(t))) == Reloaded(t)
  {
    forall e | e in Flatten(t) ensures Storable(e) && NulFree(e.key) && NulFree(e.value) && Ascii(e.key) {
      SavedIsBound(t, e);
    }
    LinesAreNulFree(Flatten(t));
    ParseStorableLines(Flatten(t));
  }

  // ----- whole lives of the engine -----

  /** A request the engine takes: at most 128 words, complete, and with a key that can be hashed. */
  ghost predicate Acceptable(req: seq<string>) {
    |req| <= KVSTORE_MAX_TOKENS && Strings(req) && (req != [] ==> Answerable(req))
  }

  ghost predicate AllAcceptable(reqs: seq<seq<string>>) {
    forall i :: 0 <= i < |reqs| ==> Acceptable(reqs[i])
  }

  /** The table after a run of requests, and what the reply buffer held after each. */
  ghost function Serves(t: Table, wmsg: seq<char>, reqs: seq<seq<string>>): (r: (Table, seq<seq<char>>))
    requires |t| == MAX_TABLE_SIZE && AllAcceptable(reqs)
    ensures |r.0| == MAX_TABLE_SIZE && |r.1| == |reqs|
    decreases |reqs|
  {
    if reqs == [] then (t, []) else
      var (t', buffer) := Respond(t, wmsg, reqs[0]);
      var (last, buffers) := Serves(t', buffer, reqs[1..]);
      (last, [buffer] + buffers)
  }

  /** What the reply buffer holds in the end. */
  function LastOf(wmsg: seq<char>, buffers: seq<seq<char>>): seq<char> {
    if buffers == [] then wmsg else buffers[|buffers| - 1]
  }

  lemma BuffersCons(wmsg: seq<char>, buffer: seq<char>, first: seq<seq<char>>, second: seq<seq<char>>)
    ensures LastOf(wmsg, [buffer] + first) == LastOf(buffer, first)
    ensures [buffer] + (first + second) == ([buffer] + first) + second
  {
  }

  lemma {:induction false} ServesConcat(t: Table, wmsg: seq<char>, a: seq<seq<string>>, b: seq<seq<string>>)
    requires |t| == MAX_TABLE_SIZE && AllAcceptable(a) && AllAcceptable(b)
    ensures AllAcceptable(a + b)
    ensures var (mid, first) := Serves(t, wmsg, a);
            var (last, second) := Serves(mid, LastOf(wmsg, first), b);
            Serves(t, wmsg, a + b) == (last, first + second)
    decreases |a|
  {
    hide Respond, Answerable, Strings;
    if a == [] {
      assert a + b == b;
      assert [] + Serves(t, wmsg, b).1 == Serves(t, wmsg, b).1;
    } else {
      var (t', buffer) := Respond(t, wmsg, a[0]);
      ServesConcat(t', buffer, a[1..], b);
      assert (a + b)[0] == a[0] && (a + b)[1..] == a[1..] + b;
      var first := Serves(t', buffer, a[1..]);
      BuffersCons(wmsg, buffer, first.1, Serves(first.0, LastOf(buffer, first.1), b).1);
    }
  }

  lemma RespondKeeps(t: Table, wmsg: seq<char>, req: seq<string>)
    requires TableOk(t) && TextsOk(Abs(t)) && Acceptable(req)
    ensures TableOk(Respond(t, wmsg, req).0) && TextsOk(Abs(Respond(t, wmsg, req).0))
  {
    hide Abs, ChainOk, Execute, Padded;
    if req != [] {
      ExecuteIsAnswer(t, req);
      RequestKeepsTexts(t, req);
    }
  }

  /** Whatever runs of requests do, what the table holds can be written as C strings and hashed. */
  lemma {:induction false} ServesKeeps(t: Table, wmsg: seq<char>, reqs: seq<seq<string>>)
    requires TableOk(t) && TextsOk(Abs(t)) && AllAcceptable(reqs)
    ensures TableOk(Serves(t, wmsg, reqs).0) && TextsOk(Abs(Serves(t, wmsg, reqs).0))
    decreases |reqs|
  {
    hide Abs, ChainOk, TextsOk, Respond, Answerable, Strings;
    if reqs != [] {
      var (t', buffer) := Respond(t, wmsg, reqs[0]);
      RespondKeeps(t, wmsg, reqs[0]);
      ServesKeeps(t', buffer, reqs[1..]);
    }
  }

  lemma RespondDependsOnMap(t: Table, u: Table, wmsg: seq<char>, req: seq<string>)
    requires TableOk(t) && TableOk(u) && Abs(t) == Abs(u) && Acceptable(req)
    ensures var (t', w), (u', v) := Respond(t, wmsg, req), Respond(u, wmsg, req);
            TableOk(t') && TableOk(u') && Abs(t') == Abs(u') && w == v
  {
    hide Abs, ChainOk, Execute, Padded;
    if req != [] {
      ExecuteIsAnswer(t, req);
      ExecuteIsAnswer(u, req);
    }
  }

  /** Replies depend on the bindings only, not on how the chains hold them. */
  lemma {:induction false} ServesDependsOnMap(t: Table, u: Table, wmsg: seq<char>, reqs: seq<seq<string>>)
    requires TableOk(t) && TableOk(u) && Abs(t) == Abs(u) && AllAcceptable(reqs)
    ensures Serves(t, wmsg, reqs).1 == Serves(u, wmsg, reqs).1
    decreases |reqs|
  {
    hide Abs, ChainOk, Respond, Answerable, Strings;
    if reqs != [] {
      RespondDependsOnMap(t, u, wmsg, reqs[0]);
      var (t', buffer) := Respond(t, wmsg, reqs[0]);
      ServesDependsOnMap(t', Respond(u, wmsg, reqs[0]).0, buffer, reqs[1..]);
    }
  }

  lemma StartedIsOk(file: Option<string>)
    requires file.Some? ==> FileOk(file.value)
    ensures TableOk(Started(file)) && TextsOk(Abs(Started(file)))
  {
    match file
    case Some(text) =>
      LoadedIsStorable(text);
      StartedTexts(text);
    case None => EmptyIsEmptyMap();
  }

  // ----- the replies are those of the map -----

  lemma PaddedIsReply(reply: string)
    requires |reply| < BUFFER_LENGTH && NulFree(reply)
    ensures CStr(Padded(reply), 0) == reply
  {
    CStrIs(Padded(reply), 0, reply);
  }

  lemma AnswerIsText(m: Store, req: seq<string>)
    requires TextsOk(m) && Complete(req)
    ensures NulFree(Answer(m, req).1)
  {
  }

  /** Read as a C string, the buffer holds the reply of the map-based interpreter, and the bindings follow it. */
  lemma {:induction false} RespondAnswers(t: Table, wmsg: seq<char>, req: seq<string>)
    requires TableOk(t) && TextsOk(Abs(t)) && Acceptable(req) && req != []
    ensures var (t', buffer) := Respond(t, wmsg, req);
            |buffer| == BUFFER_LENGTH && (Abs(t'), CStr(buffer, 0)) == Answer(Abs(t), req)
  {
    hide Abs, ChainOk, Execute, Padded, TextsOk, Answer, CStr;
    ExecuteIsAnswer(t, req);
    AnswerIsText(Abs(t), req);
    PaddedIsReply(Execute(t, req).1);
  }

  /** A message without words leaves everything as it was. */
  lemma BlankChangesNothing(t: Table, wmsg: seq<char>)
    requires |t| == MAX_TABLE_SIZE
    ensures Respond(t, wmsg, []) == (t, wmsg)
  {
  }

  /** The requests that have words. */
  function NonBlank(reqs: seq<seq<string>>): (r: seq<seq<string>>)
    decreases |reqs|
  {
    if reqs == [] then [] else (if reqs[0] == [] then [] else [reqs[0]]) + NonBlank(reqs[1..])
  }

  /** What a client reads: after each request that has words, the reply buffer as a C string. */
  function ReadReplies(reqs: seq<seq<string>>, buffers: seq<seq<char>>): seq<string>
    requires |reqs| == |buffers|
    decreases |reqs|
  {
    if reqs == [] then [] else
      (if reqs[0] == [] then [] else [CStr(buffers[0], 0)]) + ReadReplies(reqs[1..], buffers[1..])
  }

  lemma {:induction false} NonBlankAreComplete(reqs: seq<seq<string>>)
    requires AllAcceptable(reqs)
    ensures AllComplete(NonBlank(reqs))
    decreases |reqs|
  {
    if reqs != [] {
      assert Acceptable(reqs[0]);
      NonBlankAreComplete(reqs[1..]);
    }
  }

  /** A request without words leaves the buffer as the one before it did. */
  ghost predicate LeavesBlanks(wmsg: seq<char>, reqs: seq<seq<string>>, buffers: seq<seq<char>>) {
    |reqs| == |buffers| && (reqs != [] && reqs[0] == [] ==> buffers[0] == wmsg)
    && forall i :: 0 < i < |reqs| && reqs[i] == [] ==> buffers[i] == buffers[i - 1]
  }

  lemma LeavesBlanksCons(wmsg: seq<char>, req: seq<string>, reqs: seq<seq<string>>,
                         buffer: seq<char>, buffers: seq<seq<char>>)
    requires LeavesBlanks(buffer, reqs, buffers) && (req == [] ==> buffer == wmsg)
    ensures LeavesBlanks(wmsg, [req] + reqs, [buffer] + buffers)
  {
    var rs, bs := [req] + reqs, [buffer] + buffers;
    forall i | 0 < i < |rs| && rs[i] == [] ensures bs[i] == bs[i - 1] {
      assert rs[i] == reqs[i - 1] && bs[i] == buffers[i - 1];
      assert 1 < i ==> bs[i - 1] == buffers[i - 2];
    }
  }

  lemma EmptyLeavesBlanks(wmsg: seq<char>)
    ensures LeavesBlanks(wmsg, [], [])
  {
  }

  /** Over every run, the replies read and the bindings are those of the map-based interpreter,
      and the buffer is left alone by messages without words. */
  lemma {:induction false} ServesAnswers(t: Table, wmsg: seq<char>, reqs: seq<seq<string>>)
    requires TableOk(t) && TextsOk(Abs(t)) && AllAcceptable(reqs)
    ensures AllComplete(NonBlank(reqs))
    ensures var (last, buffers) := Serves(t, wmsg, reqs);
            (Abs(last), ReadReplies(reqs, buffers)) == MapRun(Abs(t), NonBlank(reqs))
            && LeavesBlanks(wmsg, reqs, buffers)
    decreases |reqs|
  {
    hide Abs, ChainOk, Respond, TextsOk, Answer, IsKey, Strings, CStr, AllComplete, LeavesBlanks;
    NonBlankAreComplete(reqs);
    EmptyLeavesBlanks(wmsg);
    if reqs != [] {
      var req, later := reqs[0], reqs[1..];
      assert Acceptable(req);
      var (t', buffer) := Respond(t, wmsg, req);
      RespondKeeps(t, wmsg, req);
      ServesAnswers(t', buffer, later);
      var buffers := Serves(t, wmsg, reqs).1;
      var rest := Serves(t', buffer, later).1;
      assert buffers[0] == buffer && buffers[1..] == rest;
      BlankChangesNothing(t, wmsg);
      assert reqs == [req] + later && buffers == [buffer] + rest;
      LeavesBlanksCons(wmsg, req, later, buffer, rest);
      if req == [] {
        assert [] + NonBlank(later) == NonBlank(later);
        assert [] + ReadReplies(later, rest) == ReadReplies(later, rest);
      } else {
        RespondAnswers(t, wmsg, req);
        MapRunCons(Abs(t), req, NonBlank(later));
      }
    }
  }

  lemma MapRunCons(m: Store, req: seq<string>, reqs: seq<seq<string>>)
    requires Complete(req) && AllComplete(reqs)
    ensures AllComplete([req] + reqs)
    ensures var (m', reply) := Answer(m, req);
            MapRun(m, [req] + reqs) == (MapRun(m', reqs).0, [reply] + MapRun(m', reqs).1)
  {
    hide Answer, Complete;
    assert ([req] + reqs)[1..] == reqs;
  }

  /** The engine starts from nothing, or from what the file's bindings merge to. */
  lemma {:induction false} StartedBindings(file: Option<string>)
    requires file.Some? ==> FileOk(file.value)
    ensures Abs(Started(file)) == match file case None => map[] case Some(text) => Merge(map[], ParseFile(text))
  {
    EmptyIsEmptyMap();
    if file.Some? {
      LoadIsMerge(Empty(), ParseFile(file.value));
    }
  }

  /** From any file the engine accepts and over any requests it takes: when every binding is storable at that moment,
      what exit saves can be loaded, and the replies after exit and init are those without them. */
  lemma RestartedEngineReplies(file: Option<string>, wmsg: seq<char>, a: seq<seq<string>>, b: seq<seq<string>>)
    requires (file.Some? ==> FileOk(file.value)) && AllAcceptable(a) && AllAcceptable(b)
    requires AllStorable(Abs(Serves(Started(file), wmsg, a).0))
    ensures var (mid, first) := Serves(Started(file), wmsg, a);
            var saved := SaveText(mid);
            FileOk(saved) && AllAcceptable(a + b)
            && first + Serves(Started(Some(saved)), LastOf(wmsg, first), b).1 == Serves(Started(file), wmsg, a + b).1
  {
    hide Abs, ChainOk, TextsOk, Serves, AllStorable, Started;
    StartedIsOk(file);
    ServesKeeps(Started(file), wmsg, a);
    var (mid, first) := Serves(Started(file), wmsg, a);
    SavedFileIsOk(mid);
    ReloadedIsSame(mid);
    ServesDependsOnMap(mid, Reloaded(mid), LastOf(wmsg, first), b);
    ServesConcat(Started(file), wmsg, a, b);
  }

  /** A message as the handler passes it on: a C string whose words make a request the engine takes. */
  ghost predicate IsMessage(msg: string)
    ensures IsMessage(msg) ==> Acceptable(Tokenizer.Tokens(msg))
  {
    NulFree(msg) &&
    (WordsAreStrings(msg);
     var req := Tokenizer.Tokens(msg);
     |req| <= KVSTORE_MAX_TOKENS && (req != [] ==> Answerable(req)))
  }

  ghost predicate AllMessages(msgs: seq<string>) {
    forall i :: 0 <= i < |msgs| ==> IsMessage(msgs[i])
  }

  ghost function Words(msgs: seq<string>): (reqs: seq<seq<string>>)
    requires AllMessages(msgs)
    ensures AllAcceptable(reqs)
  {
    seq(|msgs|, i requires 0 <= i < |msgs| => Tokenizer.Tokens(msgs[i]))
  }

  /** Answers one message that arrives in a buffer of its own. */
  method ServeOne(engine: Engine, wmsg: array<char>, msg: string)
    requires engine.Valid() && engine.hash.Foreign(wmsg) && wmsg.Length == BUFFER_LENGTH && IsMessage(msg)
    modifies engine.hash.repr, wmsg
    ensures engine.Valid() && engine.hash == old(engine.hash) && fresh(engine.hash.repr - old(engine.hash.repr))
    ensures engine.hash.Foreign(wmsg)
    ensures (engine.hash.table, wmsg[..]) == Respond(old(engine.hash.table), old(wmsg[..]), Tokenizer.Tokens(msg))
  {
    hide Tokenizer.Tokens, Respond, Hashtable.Valid, Strings, Answerable;
    var n := |msg|;
    var rmsg := new char[n + 1](i => if 0 <= i < n then msg[i] else NUL);
    assert rmsg[..][..n] == msg && rmsg[..][n] == NUL;
    CStrIs(rmsg[..], 0, msg);
    engine.Request(rmsg, wmsg);
  }

  /** Answers messages one after the other in one reply buffer. */
  method Serve(engine: Engine, wmsg: array<char>, msgs: seq<string>) returns (replies: seq<seq<char>>)
    requires engine.Valid() && engine.hash.Foreign(wmsg) && wmsg.Length == BUFFER_LENGTH && AllMessages(msgs)
    modifies engine.hash.repr, wmsg
    ensures engine.Valid() && engine.hash == old(engine.hash) && fresh(engine.hash.repr - old(engine.hash.repr))
    ensures engine.hash.Foreign(wmsg) && wmsg[..] == LastOf(old(wmsg[..]), replies)
    ensures (engine.hash.table, replies) == Serves(old(engine.hash.table), old(wmsg[..]), Words(msgs))
    ensures TextsOk(Abs(old(engine.hash.table))) ==>
              AllComplete(NonBlank(Words(msgs)))
              && (Abs(engine.hash.table), ReadReplies(Words(msgs), replies))
                 == MapRun(Abs(old(engine.hash.table)), NonBlank(Words(msgs)))
  {
    hide Respond, Hashtable.Shape, Abs, ChainOk, Tokenizer.Tokens, Answerable, Strings;
    ghost var t, w := engine.hash.table, wmsg[..];
    replies := [];
    var i := 0;
    while i < |msgs|
      invariant 0 <= i == |replies| <= |msgs|
      invariant engine.Valid() && engine.hash == old(engine.hash) && fresh(engine.hash.repr - old(engine.hash.repr))
      invariant engine.hash.Foreign(wmsg) && wmsg[..] == LastOf(w, replies)
      invariant (engine.hash.table, replies) == Serves(t, w, Words(msgs[..i]))
    {
      ServeOne(engine, wmsg, msgs[i]);
      ServesSnoc(t, w, msgs, i);
      replies := replies + [wmsg[..]];
      i := i + 1;
    }
    assert msgs[..i] == msgs;
    if TextsOk(Abs(t)) {
      ServesAnswers(t, w, Words(msgs));
    }
  }

  lemma ServesSnoc(t: Table, wmsg: seq<char>, msgs: seq<string>, i: nat)
    requires |t| == MAX_TABLE_SIZE && AllMessages(msgs) && i < |msgs|
    ensures var (mid, buffers) := Serves(t, wmsg, Words(msgs[..i]));
            var (last, buffer) := Respond(mid, LastOf(wmsg, buffers), Tokenizer.Tokens(msgs[i]));
            Serves(t, wmsg, Words(msgs[..i + 1])) == (last, buffers + [buffer])
  {
    hide Respond, Tokenizer.Tokens, Answerable, Strings;
    var one := [Tokenizer.Tokens(msgs[i])];
    assert IsMessage(msgs[i]);
    assert Words(msgs[..i + 1]) == Words(msgs[..i]) + one;
    ServesConcat(t, wmsg, Words(msgs[..i]), one);
    ServesSingle(Serves(t, wmsg, Words(msgs[..i])).0, LastOf(wmsg, Serves(t, wmsg, Words(msgs[..i])).1), one[0]);
  }

  lemma ServesSingle(t: Table, wmsg: seq<char>, req: seq<string>)
    requires |t| == MAX_TABLE_SIZE && Acceptable(req)
    ensures AllAcceptable([req])
    ensures var (last, buffer) := Respond(t, wmsg, req); Serves(t, wmsg, [req]) == (last, [buffer])
  {
    hide Respond, Answerable, Strings;
    var (last, buffer) := Respond(t, wmsg, req);
    assert [req][1..] == [] && [buffer] + [] == [buffer];
  }

  /** Two lives of the server with the file between them answer as one, if what is saved is storable. */
  method ServeAcrossRestart(file: Option<string>, wmsg: array<char>, a: seq<string>, b: seq<string>)
    returns (replies: seq<seq<char>>)
    requires (file.Some? ==> FileOk(file.value)) && wmsg.Length == BUFFER_LENGTH && AllMessages(a) && AllMessages(b)
    requires AllStorable(Abs(Serves(Started(file), wmsg[..], Words(a)).0))
    modifies wmsg
    ensures AllMessages(a + b)
    ensures replies == Serves(Started(file), old(wmsg[..]), Words(a + b)).1
    ensures AllComplete(NonBlank(Words(a + b)))
    ensures ReadReplies(Words(a + b), replies) == MapRun(Abs(Started(file)), NonBlank(Words(a + b))).1
  {
    hide Abs, ChainOk, Serves, AllStorable, Started, FileOk, IsMessage, Hashtable.Valid, SaveText, Tokenizer.Tokens;
    RestartedEngineReplies(file, wmsg[..], Words(a), Words(b));
    assert Words(a + b) == Words(a) + Words(b);
    StartedIsOk(file);
    ServesAnswers(Started(file), wmsg[..], Words(a + b));
    var engine := new Engine.Init(file);
    var first := Serve(engine, wmsg, a);
    engine.Exit();
    var again := new Engine.Init(engine.file);
    var second := Serve(again, wmsg, b);
    replies := first + second;
  }
}
