/** Saving and loading as the program does it: a file written line by line, read through a line buffer. */
module DiskIO {
  import opened CString
  import opened Sequences
  import opened HashModel
  import opened DiskFormat
  import opened HashTable

  lemma Regroup(x: string, y: string, z: string)
    ensures x + (y + z) == (x + y) + z
  {
  }

  lemma {:induction false} LinesConcat(a: seq<Entry>, b: seq<Entry>)
    ensures Lines(a + b) == Lines(a) + Lines(b)
  {
    hide Line;
    if a == [] {
      assert a + b == b;
    } else {
      LinesConcat(a[1..], b);
      assert (a + b)[0] == a[0] && (a + b)[1..] == a[1..] + b;
      Regroup(Line(a[0]), Lines(a[1..]), Lines(b));
    }
  }

  lemma LinesSnoc(es: seq<Entry>, j: nat)
    requires j < |es|
    ensures Lines(es[..j + 1]) == Lines(es[..j]) + Line(es[j])
  {
    assert es[..j + 1] == es[..j] + [es[j]];
    LinesConcat(es[..j], [es[j]]);
    assert Lines([es[j]]) == Line(es[j]) + Lines([]);
  }

  /** The lines of one chain, in chain order. */
  method SaveChain(head: Node?, ghost c: seq<Node>, ghost es: Chain, ghost texts: Texts, before: string)
    returns (file: string)
    requires Hashtable.Linked(head, c, es, texts) && Hashtable.Strings(texts)
    ensures file == before + Lines(es)
  {
    assert Lines([]) == "";
    hide Lines, CStr;
    file := before;
    var node := head;
    ghost var j := 0;
    while node != null
      invariant 0 <= j <= |c| && node == Hashtable.NodeAt(c, j)
      invariant file == before + Lines(es[..j])
      decreases |c| - j
    {
      assert Hashtable.Holds(c[j], es[j], texts);
      LinesSnoc(es, j);
      var line := PrintLine(node, es[j], texts);
      file := file + line;
      node := node.next;
      j := j + 1;
    }
    assert es[..j] == es;
  }

  /** One `fprintf`. */
  method PrintLine(node: Node, ghost e: Entry, ghost texts: Texts) returns (line: string)
    requires Hashtable.Holds(node, e, texts) && Hashtable.Strings(texts)
    ensures line == Line(e)
  {
    StringIsCStr(node.key, e.key);
    StringIsCStr(node.value, e.value);
    line := CStr(node.key[..], 0) + ":" + CStr(node.value[..], 0) + "\n";
  }

  method SaveToDisk(hash: Hashtable) returns (file: string)
    requires hash.Valid()
    ensures file == SaveText(hash.table)
  {
    hide Abs, TableOk, Hashtable.Linked;
    file := "";
    var i := 0;
    while i < MAX_TABLE_SIZE
      invariant 0 <= i <= MAX_TABLE_SIZE
      invariant file == Lines(Flatten(hash.table[..i]))
    {
      hash.ListAt(i);
      file := SaveChain(hash.nodes[i], hash.chains[i], hash.table[i], hash.texts, file);
      FlattenSnoc(hash.table, i);
      LinesConcat(Flatten(hash.table[..i]), hash.table[i]);
      i := i + 1;
    }
    assert hash.table[..i] == hash.table;
  }

  /** `fgets`: moves the next chunk of the stream into the buffer and terminates it. */
  method Fgets(line: array<char>, stream: string) returns (got: bool, rest: string)
    requires line.Length == BUFFER_LENGTH && NulFree(stream)
    modifies line
    ensures got <==> stream != ""
    ensures got ==> CStr(line[..], 0) == stream[..ChunkLen(stream)] && rest == stream[ChunkLen(stream)..]
    ensures !got ==> rest == "" && line[..] == old(line[..])
  {
    if stream == "" {
      return false, "";
    }
    got := true;
    var n := 0;
    while n < line.Length - 1 && n < |stream| && (n == 0 || line[n - 1] != '\n')
      invariant 0 <= n <= line.Length - 1 && n <= |stream|
      invariant line[..n] == stream[..n] && '\n' !in stream[..if n == 0 then 0 else n - 1]
    {
      assert 0 < n ==> line[..n][n - 1] == stream[n - 1];
      line[n] := stream[n];
      n := n + 1;
      assert 1 < n ==> stream[..n - 1] == stream[..n - 2] + [stream[n - 2]];
    }
    ChunkEndsHere(stream, n);
    line[n] := NUL;
    rest := stream[n..];
    CStrIs(line[..], 0, stream[..n]);
  }

  ghost predicate Ascii(key: string) {
    forall i :: 0 <= i < |key| ==> key[i] as int <= 127
  }

  /** File texts whose keys can be hashed. */
  ghost predicate FileOk(text: string) {
    NulFree(text) && forall e :: e in ParseFile(text) ==> Ascii(e.key)
  }

  lemma {:induction false} CharSumBound(key: string)
    requires Ascii(key)
    ensures CharSum(key) <= 127 * |key|
  {
    if key != "" {
      CharSumBound(key[..|key| - 1]);
    }
  }

  /** Cuts the buffered chunk in place: a terminator over its newline, another over its first colon. */
  method CutLine(line: array<char>, ghost chunk: string) returns (delimiter: Option<nat>)
    requires line.Length == BUFFER_LENGTH && |chunk| < BUFFER_LENGTH && CStr(line[..], 0) == chunk
    modifies line
    ensures match ParseChunk(chunk)
            case Some(e) =>
              delimiter.Some? && HasString(line, 0) && HasString(line, delimiter.value + 1)
              && CStr(line[..], 0) == e.key && CStr(line[..], delimiter.value + 1) == e.value
            case None => delimiter.None?
  {
    var newline := IndexOf(CStr(line[..], 0), '\n');
    line[newline] := NUL;
    ghost var text := chunk[..newline];
    assert line[..][..newline] == text;
    CStrIs(line[..], 0, text);
    var colon := IndexOf(CStr(line[..], 0), ':');
    if colon == |CStr(line[..], 0)| {
      return None;
    }
    line[colon] := NUL;
    delimiter := Some(colon);
    assert line[..][..colon] == text[..colon];
    CStrIs(line[..], 0, text[..colon]);
    assert line[..][colon + 1..newline] == text[colon + 1..];
    CStrIs(line[..], colon + 1, text[colon + 1..]);
  }

  /** Stores the binding a buffered chunk holds, if it holds one. */
  method LoadLine(hash: Hashtable, line: array<char>, ghost chunk: string)
    requires hash.Valid() && hash.Foreign(line)
    requires line.Length == BUFFER_LENGTH && |chunk| < BUFFER_LENGTH && CStr(line[..], 0) == chunk
    requires match ParseChunk(chunk)
             case Some(e) => NulFree(e.key) && NulFree(e.value) && Ascii(e.key) && |e.key| < BUFFER_LENGTH
             case None => true
    modifies hash.repr, line
    ensures hash.Valid() && fresh(hash.repr - old(hash.repr)) && hash.Foreign(line)
    ensures hash.table == match ParseChunk(chunk)
                          case Some(e) => HashModel.Put(old(hash.table), e.key, e.value).0
                          case None => old(hash.table)
  {
    hide Abs, ChainOk, HashModel.Put, ParseChunk, Hashtable.Shape, CStr, HasString;
    var delimiter := CutLine(line, chunk);
    if delimiter.Some? {
      CharSumBound(CStr(line[..], 0));
      var result := hash.Put(line, 0, delimiter.value + 1);
    }
  }

  /** What remains to be loaded after one chunk. */
  lemma LoadStep(t: Table, s: string)
    requires |t| == MAX_TABLE_SIZE && s != "" && FileOk(s)
    ensures var n := ChunkLen(s);
            var chunk := ParseChunk(s[..n]);
            FileOk(s[n..])
            && match chunk
               case Some(e) => NulFree(e.key) && NulFree(e.value) && Ascii(e.key) && |e.key| < BUFFER_LENGTH
                               && LoadText(t, s) == LoadText(HashModel.Put(t, e.key, e.value).0, s[n..])
               case None => LoadText(t, s) == LoadText(t, s[n..])
  {
    hide HashModel.Put;
    var n := ChunkLen(s);
    var chunk := ParseChunk(s[..n]);
    if chunk.Some? {
      assert ParseFile(s) == [chunk.value] + ParseFile(s[n..]);
      assert chunk.value in ParseFile(s);
      assert forall e :: e in ParseFile(s[n..]) ==> e in ParseFile(s);
      assert ([chunk.value] + ParseFile(s[n..]))[1..] == ParseFile(s[n..]);
    }
  }

  /** A missing file is not an error and loads nothing. */
  method LoadFromDisk(hash: Hashtable, file: Option<string>) returns (r: int)
    requires hash.Valid() && (file.Some? ==> FileOk(file.value))
    modifies hash.repr
    ensures hash.Valid() && fresh(hash.repr - old(hash.repr))
    ensures hash.table == match file case Some(text) => LoadText(old(hash.table), text) case None => old(hash.table)
    ensures r == 0
  {
    hide Abs, ChainOk, HashModel.Put, ParseChunk, LoadText, FileOk, Hashtable.Shape, CStr, ChunkLen;
    r := 0;
    if file.None? {
      return;
    }
    var line := new char[BUFFER_LENGTH];
    ghost var todo := file.value;
    FileOkIsNulFree(todo);
    var got, rest := Fgets(line, file.value);
    while got
      invariant hash.Valid() && fresh(hash.repr - old(hash.repr)) && fresh(line) && hash.Foreign(line)
      invariant got <==> todo != ""
      invariant got ==> CStr(line[..], 0) == todo[..ChunkLen(todo)] && rest == todo[ChunkLen(todo)..]
      invariant FileOk(todo)
      invariant LoadText(hash.table, todo) == LoadText(old(hash.table), file.value)
      decreases |todo|
    {
      LoadStep(hash.table, todo);
      LoadLine(hash, line, todo[..ChunkLen(todo)]);
      todo := rest;
      FileOkIsNulFree(todo);
      got, rest := Fgets(line, rest);
      assert hash.Valid();
    }
    LoadNothing(hash.table);
  }

  lemma FileOkIsNulFree(text: string)
    requires FileOk(text)
    ensures NulFree(text)
  {
  }

  lemma LoadNothing(t: Table)
    requires |t| == MAX_TABLE_SIZE
    ensures LoadText(t, "") == t
  {
  }
}
