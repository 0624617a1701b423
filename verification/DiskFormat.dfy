/** The saved file as text: what is written, how it is cut into chunks, and what reading it gives back. */
module DiskFormat {
  import opened CString
  import opened Sequences
  import opened HashModel

  const BUFFER_LENGTH: nat := 512

  function Line(e: Entry): string {
    e.key + ":" + e.value + "\n"
  }

  function Lines(es: seq<Entry>): string {
    if es == [] then "" else Line(es[0]) + Lines(es[1..])
  }

  function SaveText(t: Table): string {
    Lines(Flatten(t))
  }

  /** How much one `fgets` call takes: through a newline, but never more than fits the buffer. */
  function ChunkLen(s: string): (n: nat)
    requires s != ""
    ensures 0 < n <= |s| && n <= BUFFER_LENGTH - 1
    ensures '\n' !in s[..n - 1]
    ensures s[n - 1] == '\n' || n == BUFFER_LENGTH - 1 || n == |s|
  {
    var i := IndexOf(s, '\n');
    var n := if i < |s| then i + 1 else i;
    assert forall m :: 0 <= m <= i ==> s[..m] == s[..i][..m];
    if n < BUFFER_LENGTH - 1 then n else BUFFER_LENGTH - 1
  }

  /** A chunk, cut at its newline, is split at its first colon, or ignored if it has none. */
  function ParseChunk(chunk: string): Option<Entry> {
    var line := chunk[..IndexOf(chunk, '\n')];
    var d := IndexOf(line, ':');
    if d < |line| then Some(Entry(line[..d], line[d + 1..])) else None
  }

  function ParseFile(s: string): seq<Entry>
    decreases |s|
  {
    if s == "" then [] else
      var n := ChunkLen(s);
      match ParseChunk(s[..n])
      case Some(e) => [e] + ParseFile(s[n..])
      case None => ParseFile(s[n..])
  }

  function LoadEntries(t: Table, es: seq<Entry>): (r: Table)
    requires |t| == MAX_TABLE_SIZE
    ensures |r| == MAX_TABLE_SIZE
    decreases |es|
  {
    if es == [] then t else LoadEntries(Put(t, es[0].key, es[0].value).0, es[1..])
  }

  function LoadText(t: Table, s: string): (r: Table)
    requires |t| == MAX_TABLE_SIZE
    ensures |r| == MAX_TABLE_SIZE
  {
    LoadEntries(t, ParseFile(s))
  }

  // ----- loading is a left-biased merge -----

  function Merge(m: Store, es: seq<Entry>): Store
    decreases |es|
  {
    if es == [] then m else Merge(MapPut(m, es[0].key, es[0].value).0, es[1..])
  }

  lemma {:induction false} LoadIsMerge(t: Table, es: seq<Entry>)
    requires TableOk(t)
    ensures TableOk(LoadEntries(t, es)) && Abs(LoadEntries(t, es)) == Merge(Abs(t), es)
    decreases |es|
  {
    hide Abs;
    if es != [] {
      PutIsMapPut(t, es[0].key, es[0].value);
      LoadIsMerge(Put(t, es[0].key, es[0].value).0, es[1..]);
    }
  }

  /** Existing bindings win; a new key gets the value of the first chunk that names it. */
  lemma {:induction false} MergeMeaning(m: Store, es: seq<Entry>, key: string)
    ensures MapGet(Merge(m, es), key) ==
            if key in m then Some(m[key]) else
              var p := Position(es, key); if p < |es| then Some(es[p].value) else None
    decreases |es|
  {
    if es != [] {
      MergeMeaning(MapPut(m, es[0].key, es[0].value).0, es[1..], key);
    }
  }

  ghost function KeysOf(es: seq<Entry>): set<string> {
    set e | e in es :: e.key
  }

  lemma NamedByEntry(es: seq<Entry>, key: string)
    ensures key in KeysOf(es) <==> Position(es, key) < |es|
  {
    var p := Position(es, key);
    if p < |es| {
      assert es[p] in es;
    }
    if e :| e in es && e.key == key {
      var j :| 0 <= j < |es| && es[j] == e;
      assert p <= j;
    }
  }

  lemma MergeKeys(m: Store, es: seq<Entry>)
    ensures Merge(m, es).Keys == m.Keys + KeysOf(es)
  {
    forall k ensures k in Merge(m, es).Keys <==> k in m.Keys || k in KeysOf(es) {
      MergeMeaning(m, es, k);
      NamedByEntry(es, k);
    }
  }

  /** The number of bindings grows by the number of new distinct keys. */
  lemma MergeSize(m: Store, es: seq<Entry>)
    ensures |Merge(m, es)| == |m| + |KeysOf(es) - m.Keys|
  {
    hide Merge, KeysOf;
    MergeKeys(m, es);
    var added := KeysOf(es) - m.Keys;
    assert m.Keys + KeysOf(es) == m.Keys + added;
    assert |m.Keys + added| == |m.Keys| + |added|;
  }

  /** What `load_from_disk` does to any table, for any file text. */
  lemma {:induction false} LoadMeaning(t: Table, s: string, key: string)
    requires TableOk(t)
    ensures TableOk(LoadText(t, s))
    ensures var es := ParseFile(s);
            var p := Position(es, key);
            MapGet(Abs(LoadText(t, s)), key) ==
            if key in Abs(t) then Some(Abs(t)[key]) else if p < |es| then Some(es[p].value) else None
    ensures |Abs(LoadText(t, s))| == |Abs(t)| + |KeysOf(ParseFile(s)) - Abs(t).Keys|
  {
    LoadIsMerge(t, ParseFile(s));
    MergeMeaning(Abs(t), ParseFile(s), key);
    MergeSize(Abs(t), ParseFile(s));
  }

  // ----- which bindings survive the file -----

  /** A binding the file format can hold. */
  predicate Storable(e: Entry) {
    ':' !in e.key && '\n' !in e.key && '\n' !in e.value && |e.key| + 1 + |e.value| <= BUFFER_LENGTH - 1
  }

  /** Whatever the file holds, only storable bindings come out of it. */
  lemma {:induction false} ParsedAreStorable(s: string)
    ensures forall e :: e in ParseFile(s) ==> Storable(e)
    decreases |s|
  {
    if s != "" {
      var n := ChunkLen(s);
      ParsedAreStorable(s[n..]);
      var chunk := s[..n];
      var line := chunk[..IndexOf(chunk, '\n')];
      var d := IndexOf(line, ':');
      if d < |line| {
        assert forall j :: 0 <= j < |line| ==> line[j] != '\n';
        assert Storable(Entry(line[..d], line[d + 1..]));
      }
    }
  }

  /** The first chunk of a text that starts with a short enough, newline-free run and a newline. */
  lemma FirstChunk(line: string, rest: string)
    requires '\n' !in line
    ensures ChunkLen(line + "\n" + rest) == if |line| < BUFFER_LENGTH - 1 then |line| + 1 else BUFFER_LENGTH - 1
  {
    IndexOfSplit(line, '\n', rest);
    assert line + "\n" + rest == line + ['\n'] + rest;
  }

  lemma ParseLine(key: string, value: string)
    requires ':' !in key && '\n' !in key && '\n' !in value
    ensures ParseChunk(key + ":" + value) == Some(Entry(key, value))
  {
    var line := key + ":" + value;
    IndexOfSplit(line, '\n', "");
    assert line[..|line|] == line;
    IndexOfSplit(key, ':', value);
    assert line == key + [':'] + value;
    assert line[..|key|] == key && line[|key| + 1..] == value;
  }

  lemma NewlineIsCut(line: string)
    requires '\n' !in line
    ensures ParseChunk(line + "\n") == ParseChunk(line)
  {
    IndexOfSplit(line, '\n', "");
    assert line + "\n" == line + ['\n'] + "";
    assert (line + "\n")[..|line|] == line[..|line|];
  }

  lemma NewlineAlone(rest: string)
    ensures ParseFile("\n" + rest) == ParseFile(rest)
  {
    FirstChunk("", rest);
    assert "" + "\n" + rest == "\n" + rest;
    NewlineIsCut("");
    assert "" + "\n" == "\n";
    assert ("\n" + rest)[..1] == "\n" && ("\n" + rest)[1..] == rest;
  }

  /** A line that fits the buffer is read as one binding, also when its newline is left for the next chunk. */
  lemma {:induction false} ReadLine(line: string, rest: string, e: Entry)
    requires '\n' !in line && |line| <= BUFFER_LENGTH - 1 && ParseChunk(line) == Some(e)
    ensures ParseFile(line + "\n" + rest) == [e] + ParseFile(rest)
  {
    hide ParseChunk;
    var s := line + "\n" + rest;
    FirstChunk(line, rest);
    if |line| < BUFFER_LENGTH - 1 {
      NewlineIsCut(line);
      assert s[..|line| + 1] == line + "\n" && s[|line| + 1..] == rest;
    } else {
      assert s[..|line|] == line && s[|line|..] == "\n" + rest;
      NewlineAlone(rest);
    }
  }

  lemma ParseStorableLine(e: Entry, rest: string)
    requires Storable(e)
    ensures ParseFile(Line(e) + rest) == [e] + ParseFile(rest)
  {
    hide ParseFile, ParseChunk;
    ParseLine(e.key, e.value);
    ReadLine(e.key + ":" + e.value, rest, e);
  }

  lemma {:induction false} ParseStorableLines(es: seq<Entry>)
    requires forall e :: e in es ==> Storable(e)
    ensures ParseFile(Lines(es)) == es
  {
    if es != [] {
      ParseStorableLines(es[1..]);
      ParseStorableLine(es[0], Lines(es[1..]));
    }
  }

  lemma LineRegroup(e: Entry, rest: string)
    ensures Line(e) + rest == (e.key + ":" + e.value) + "\n" + rest
  {
  }

  /** One line that is too long is read back with its value cut to what fits one chunk;
      what is cut off is read as a line of its own. */
  lemma {:induction false} LongLineIsCut(e: Entry, rest: string)
    requires ':' !in e.key && '\n' !in e.key && '\n' !in e.value
    requires |e.key| + 1 < BUFFER_LENGTH <= |e.key| + 1 + |e.value|
    ensures var kept := BUFFER_LENGTH - 2 - |e.key|;
            kept < |e.value|
            && ParseFile(Line(e) + rest)
               == [Entry(e.key, e.value[..kept])] + ParseFile(e.value[kept..] + "\n" + rest)
            && (':' !in e.value[kept..] ==>
                  ParseFile(Line(e) + rest) == [Entry(e.key, e.value[..kept])] + ParseFile(rest))
  {
    hide ParseChunk;
    var line := e.key + ":" + e.value;
    var kept := BUFFER_LENGTH - 2 - |e.key|;
    LineRegroup(e, rest);
    FirstChunk(line, rest);
    ParseLine(e.key, e.value[..kept]);
    assert (line + "\n" + rest)[..BUFFER_LENGTH - 1] == e.key + ":" + e.value[..kept];
    assert (line + "\n" + rest)[BUFFER_LENGTH - 1..] == e.value[kept..] + "\n" + rest;
    if ':' !in e.value[kept..] {
      PlainLineIsIgnored(e.value[kept..], rest);
    }
  }

  /** With a key too long for the buffer, the line begins with a chunk that is ignored. */
  lemma {:induction false} LongKeyIsCut(e: Entry, rest: string)
    requires ':' !in e.key && '\n' !in e.key && '\n' !in e.value && BUFFER_LENGTH - 1 <= |e.key|
    ensures ParseFile(Line(e) + rest) == ParseFile(Line(Entry(e.key[BUFFER_LENGTH - 1..], e.value)) + rest)
  {
    hide ParseChunk;
    var line, n := e.key + ":" + e.value, BUFFER_LENGTH - 1;
    LineRegroup(e, rest);
    LineRegroup(Entry(e.key[n..], e.value), rest);
    FirstChunk(line, rest);
    var s := line + "\n" + rest;
    assert s[..n] == e.key[..n];
    assert s[n..] == (e.key[n..] + ":" + e.value) + "\n" + rest;
    PlainChunk(e.key[..n]);
  }

  lemma PlainChunk(text: string)
    requires ':' !in text && '\n' !in text
    ensures ParseChunk(text).None?
  {
    IndexOfSplit(text, '\n', "");
    assert text[..|text|] == text;
  }

  /** A line without a colon is ignored, however long it is. */
  lemma {:induction false} PlainLineIsIgnored(line: string, rest: string)
    requires ':' !in line && '\n' !in line
    ensures ParseFile(line + "\n" + rest) == ParseFile(rest)
    decreases |line|
  {
    hide ParseChunk;
    var s, n := line + "\n" + rest, BUFFER_LENGTH - 1;
    FirstChunk(line, rest);
    if |line| < n {
      PlainChunk(line);
      NewlineIsCut(line);
      assert s[..|line| + 1] == line + "\n" && s[|line| + 1..] == rest;
    } else {
      PlainChunk(line[..n]);
      assert s[..n] == line[..n] && s[n..] == line[n..] + "\n" + rest;
      PlainLineIsIgnored(line[n..], rest);
    }
  }

  lemma {:induction false} PlainLineLoadsNothing(t: Table, line: string, rest: string)
    requires |t| == MAX_TABLE_SIZE && ':' !in line && '\n' !in line
    ensures LoadText(t, line + "\n" + rest) == LoadText(t, rest)
  {
    PlainLineIsIgnored(line, rest);
  }

  // ----- what a file holds, told without the functions that read it -----

  /** Not empty, within the buffer, with no newline but at its end. */
  ghost predicate IsChunk(chunk: string) {
    0 < |chunk| <= BUFFER_LENGTH - 1 && '\n' !in chunk[..|chunk| - 1]
  }

  /** Nothing more would have been read into it. */
  ghost predicate IsFull(chunk: string) {
    IsChunk(chunk) && (chunk[|chunk| - 1] == '\n' || |chunk| == BUFFER_LENGTH - 1)
  }

  /** A file comes in full chunks; the last one may be cut short by its end. */
  ghost predicate AreChunks(chunks: seq<string>) {
    forall i :: 0 <= i < |chunks| ==> if i + 1 < |chunks| then IsFull(chunks[i]) else IsChunk(chunks[i])
  }

  /** The text of a chunk is a key, the first colon and a value; without a colon it holds nothing. */
  ghost predicate ChunkHolds(chunk: string, es: seq<Entry>) {
    exists text ::
      (chunk == text || chunk == text + "\n") && '\n' !in text
      && if ':' in text then |es| == 1 && ':' !in es[0].key && text == es[0].key + ":" + es[0].value else es == []
  }

  lemma ChunkEndsHere(s: string, n: nat)
    requires 0 < n <= |s| && n <= BUFFER_LENGTH - 1 && '\n' !in s[..n - 1]
    requires s[n - 1] == '\n' || n == BUFFER_LENGTH - 1 || n == |s|
    ensures ChunkLen(s) == n
  {
    var c := ChunkLen(s);
    assert forall j :: 0 <= j < n - 1 ==> s[j] in s[..n - 1];
    assert forall j :: 0 <= j < c - 1 ==> s[j] in s[..c - 1];
  }

  lemma ParseChunkMeaning(chunk: string, es: seq<Entry>)
    requires ChunkHolds(chunk, es)
    ensures ParseChunk(chunk) == if es == [] then None else Some(es[0])
  {
    var text :| (chunk == text || chunk == text + "\n") && '\n' !in text
      && if ':' in text then |es| == 1 && ':' !in es[0].key && text == es[0].key + ":" + es[0].value else es == [];
    NewlineIsCut(text);
    if es == [] {
      PlainChunk(text);
    } else {
      assert forall i :: 0 <= i < |es[0].key| ==> text[i] == es[0].key[i];
      assert forall i :: 0 <= i < |es[0].value| ==> text[|es[0].key| + 1 + i] == es[0].value[i];
      ParseLine(es[0].key, es[0].value);
    }
  }

  /** Reading a file gives what its chunks hold, in order. */
  lemma {:induction false} ParseMeaning(chunks: seq<string>, parts: seq<seq<Entry>>)
    requires AreChunks(chunks) && |parts| == |chunks|
    requires forall i :: 0 <= i < |chunks| ==> ChunkHolds(chunks[i], parts[i])
    ensures ParseFile(Flatten(chunks)) == Flatten(parts)
    decreases |chunks|
  {
    hide ChunkLen, ParseChunk, ChunkHolds;
    if chunks != [] {
      var s, n := Flatten(chunks), |chunks[0]|;
      FirstOfChunks(chunks);
      ParseChunkMeaning(chunks[0], parts[0]);
      ParseMeaning(chunks[1..], parts[1..]);
      OneOrNone(chunks[0], parts[0]);
    }
  }

  lemma OneOrNone(chunk: string, es: seq<Entry>)
    requires ChunkHolds(chunk, es)
    ensures es == [] || es == [es[0]]
  {
  }

  lemma TailAreChunks(chunks: seq<string>)
    requires AreChunks(chunks) && chunks != []
    ensures AreChunks(chunks[1..]) && IsChunk(chunks[0]) && (|chunks| == 1 || IsFull(chunks[0]))
  {
    hide IsChunk;
    forall i | 0 <= i < |chunks[1..]|
      ensures if i + 1 < |chunks[1..]| then IsFull(chunks[1..][i]) else IsChunk(chunks[1..][i])
    {
      assert chunks[1..][i] == chunks[i + 1];
    }
  }

  lemma FirstOfChunks(chunks: seq<string>)
    requires AreChunks(chunks) && chunks != []
    ensures var s := Flatten(chunks);
            s != "" && ChunkLen(s) == |chunks[0]| && s[..|chunks[0]|] == chunks[0]
            && s[|chunks[0]|..] == Flatten(chunks[1..])
    ensures AreChunks(chunks[1..])
  {
    TailAreChunks(chunks);
    hide AreChunks;
    FirstChunkEnds(chunks[0], Flatten(chunks[1..]));
    if |chunks| == 1 {
      assert Flatten(chunks[1..]) == [];
    }
  }

  lemma FirstChunkEnds(chunk: string, rest: string)
    requires IsChunk(chunk) && (rest == "" || IsFull(chunk))
    ensures ChunkLen(chunk + rest) == |chunk|
  {
    hide ChunkLen;
    var s, n := chunk + rest, |chunk|;
    assert s[..n - 1] == chunk[..n - 1] && s[n - 1] == chunk[n - 1];
    ChunkEndsHere(s, n);
  }

  /** Every text comes in such chunks. */
  lemma {:induction false} EveryFileIsRead(s: string) returns (chunks: seq<string>, parts: seq<seq<Entry>>)
    ensures AreChunks(chunks) && Flatten(chunks) == s && |parts| == |chunks|
    ensures forall i :: 0 <= i < |chunks| ==> ChunkHolds(chunks[i], parts[i])
    decreases |s|
  {
    chunks, parts := [], [];
    if s != "" {
      var n := ChunkLen(s);
      var later, more := EveryFileIsRead(s[n..]);
      var part := ChunkHasParts(s[..n]);
      chunks, parts := [s[..n]] + later, [part] + more;
      assert chunks[1..] == later && s == s[..n] + s[n..];
      if n == |s| {
        assert later == [] by {
          NothingToRead(later);
        }
      }
      assert s[..n][..n - 1] == s[..n - 1];
    }
  }

  lemma NothingToRead(chunks: seq<string>)
    requires AreChunks(chunks) && Flatten(chunks) == ""
    ensures chunks == []
  {
    if chunks != [] {
      FirstOfChunks(chunks);
    }
  }

  lemma ChunkHasParts(chunk: string) returns (es: seq<Entry>)
    requires chunk != "" && '\n' !in chunk[..|chunk| - 1]
    ensures ChunkHolds(chunk, es)
  {
    var last := |chunk| - 1;
    var text := if chunk[last] == '\n' then chunk[..last] else chunk;
    assert chunk == chunk[..last] + [chunk[last]];
    if ':' in text {
      var d := IndexOf(text, ':');
      assert d < |text| by {
        assert text[..|text|] == text;
      }
      es := [Entry(text[..d], text[d + 1..])];
      assert text == text[..d] + ":" + text[d + 1..];
    } else {
      es := [];
    }
    assert (chunk == text || chunk == text + "\n") && '\n' !in text;
  }

  // ----- the saved bindings are the map -----

  lemma SavedAreDistinct(t: Table)
    requires TableOk(t)
    ensures DistinctKeys(Flatten(t))
  {
    forall i, j, i', j' |
      0 <= i < |t| && 0 <= j < |t[i]| && 0 <= i' < |t| && 0 <= j' < |t[i']| && t[i][j].key == t[i'][j'].key
      ensures i == i' && j == j'
    {
      assert ChainOk(t[i], i) && ChainOk(t[i'], i');
    }
    var f := (e: Entry) => e.key;
    assert Apart(t, f);
    FlattenDistinct(t, f);
    assert forall i, j :: 0 <= i < j < |Flatten(t)| ==> f(Flatten(t)[i]) != f(Flatten(t)[j]);
  }

  lemma {:induction false} SavedIsBound(t: Table, e: Entry)
    requires TableOk(t)
    ensures e in Flatten(t) <==> e.key in Abs(t) && Abs(t)[e.key] == e.value
  {
    InFlatten(t, e);
    if i :| 0 <= i < |t| && e in t[i] {
      StoredIsBound(t, i, e);
    }
    if e.key in Abs(t) && Abs(t)[e.key] == e.value {
      var c := t[Slot(e.key)];
      assert c[Position(c, e.key)] == e;
    }
  }

  lemma MergeOfSaved(t: Table)
    requires TableOk(t)
    ensures Merge(map[], Flatten(t)) == Abs(t)
  {
    var es := Flatten(t);
    var m := Merge(map[], es);
    forall k ensures MapGet(m, k) == MapGet(Abs(t), k) {
      MergeMeaning(map[], es, k);
      var p := Position(es, k);
      if p < |es| {
        assert es[p] in es;
        SavedIsBound(t, es[p]);
      }
      if k in Abs(t) {
        SavedIsBound(t, Entry(k, Abs(t)[k]));
      }
    }
    forall k ensures (k in m <==> k in Abs(t)) && (k in m ==> m[k] == Abs(t)[k]) {
      assert MapGet(m, k) == MapGet(Abs(t), k);
    }
  }

  predicate AllStorable(m: Store) {
    forall k :: k in m ==> Storable(Entry(k, m[k]))
  }

  /** Load undoes save exactly when every binding is storable. */
  lemma {:induction false} LoadUndoesSave(t: Table)
    requires TableOk(t)
    ensures TableOk(LoadText(Empty(), SaveText(t)))
    ensures Abs(LoadText(Empty(), SaveText(t))) == Abs(t) <==> AllStorable(Abs(t))
  {
    var es := Flatten(t);
    var read := ParseFile(Lines(es));
    EmptyIsEmptyMap();
    LoadIsMerge(Empty(), read);
    if AllStorable(Abs(t)) {
      forall e | e in es ensures Storable(e) {
        SavedIsBound(t, e);
      }
      ParseStorableLines(es);
      MergeOfSaved(t);
    }
    if Merge(map[], read) == Abs(t) {
      ParsedAreStorable(Lines(es));
      forall k | k in Abs(t) ensures Storable(Entry(k, Abs(t)[k])) {
        MergeMeaning(map[], read, k);
        var p := Position(read, k);
        assert read[p] in read && read[p] == Entry(k, Abs(t)[k]);
      }
    }
  }

  // ----- the layout after a save and a load -----

  /** The bindings of one slot, in the order they come. */
  function Bucket(es: seq<Entry>, slot: nat): seq<Entry> {
    if es == [] then [] else
      (if Slot(es[0].key) == slot then [es[0]] else []) + Bucket(es[1..], slot)
  }

  lemma {:induction false} BucketConcat(a: seq<Entry>, b: seq<Entry>, slot: nat)
    ensures Bucket(a + b, slot) == Bucket(a, slot) + Bucket(b, slot)
  {
    if a == [] {
      assert a + b == b;
    } else {
      BucketConcat(a[1..], b, slot);
      assert (a + b)[1..] == a[1..] + b;
      var h := if Slot(a[0].key) == slot then [a[0]] else [];
      assert h + (Bucket(a[1..], slot) + Bucket(b, slot)) == (h + Bucket(a[1..], slot)) + Bucket(b, slot);
    }
  }

  ghost predicate InSlot(c: Chain, slot: nat) {
    forall j :: 0 <= j < |c| ==> Slot(c[j].key) == slot
  }

  lemma {:induction false} BucketOfOneChain(c: Chain, at: nat, slot: nat)
    requires InSlot(c, at)
    ensures Bucket(c, slot) == if at == slot then c else []
  {
    hide Slot;
    if c != [] {
      BucketOfOneChain(c[1..], at, slot);
      assert [c[0]] + c[1..] == c;
    }
  }

  /** Saving writes each chain whole and in order. */
  lemma {:induction false} BucketOfSaved(t: seq<Chain>, base: nat, slot: nat)
    requires forall i :: 0 <= i < |t| ==> InSlot(t[i], base + i)
    ensures Bucket(Flatten(t), slot) == if base <= slot < base + |t| then t[slot - base] else []
    decreases |t|
  {
    hide Slot, InSlot;
    if t != [] {
      forall i | 0 <= i < |t[1..]| ensures InSlot(t[1..][i], base + 1 + i) {
        assert InSlot(t[i + 1], base + (i + 1));
      }
      BucketOfSaved(t[1..], base + 1, slot);
      BucketConcat(t[0], Flatten(t[1..]), slot);
      assert InSlot(t[0], base + 0);
      BucketOfOneChain(t[0], base, slot);
    }
  }

  lemma PutNew(t: Table, es: seq<Entry>)
    requires |t| == MAX_TABLE_SIZE && es != [] && DistinctKeys(es)
    requires forall e :: e in es ==> Get(t, e.key).None?
    ensures var s := Slot(es[0].key); Put(t, es[0].key, es[0].value).0 == t[s := [es[0]] + t[s]]
    ensures DistinctKeys(es[1..])
    ensures forall e :: e in es[1..] ==> Get(Put(t, es[0].key, es[0].value).0, e.key).None?
  {
    assert es[0] in es && Get(t, es[0].key).None?;
    var s := Slot(es[0].key);
    var t' := t[s := [es[0]] + t[s]];
    forall x | x in es[1..] ensures Get(t', x.key).None? {
      assert x in es && Get(t, x.key).None?;
      assert t'[s][1..] == t[s];
      var j :| 0 <= j < |es[1..]| && es[1..][j] == x;
      assert es[0].key != es[j + 1].key;
    }
  }

  /** Loading new keys stacks the bindings of a slot on its chain, last one on top. */
  lemma {:induction false} LoadStacks(t: Table, es: seq<Entry>, slot: nat)
    requires |t| == MAX_TABLE_SIZE && slot < MAX_TABLE_SIZE && DistinctKeys(es)
    requires forall e :: e in es ==> Get(t, e.key).None?
    ensures LoadEntries(t, es)[slot] == Reverse(Bucket(es, slot)) + t[slot]
    decreases |es|
  {
    hide Put, Get, Slot, DistinctKeys, Reverse;
    if es != [] {
      PutNew(t, es);
      LoadStacks(Put(t, es[0].key, es[0].value).0, es[1..], slot);
      StackOne(es[0], Bucket(es[1..], slot), t[slot]);
      assert [] + Bucket(es[1..], slot) == Bucket(es[1..], slot);
    } else {
      assert Reverse<Entry>([]) == [] && [] + t[slot] == t[slot] by {
        ReverseOfOne<Entry>([]);
      }
    }
  }

  lemma StackOne(e: Entry, above: seq<Entry>, below: seq<Entry>)
    ensures Reverse(above) + ([e] + below) == Reverse([e] + above) + below
  {
    ReverseConcat([e], above);
    ReverseOfOne([e]);
    assert (Reverse(above) + [e]) + below == Reverse(above) + ([e] + below);
  }

  lemma ReverseOfOne<T>(s: seq<T>)
    requires |s| <= 1
    ensures Reverse(s) == s
  {
  }

  /** The table a restart builds from what this one saves. */
  function Reloaded(t: Table): (r: Table)
    ensures |r| == MAX_TABLE_SIZE
  {
    LoadText(Empty(), SaveText(t))
  }

  lemma ReloadStacks(t: Table, slot: nat)
    requires TableOk(t) && slot < MAX_TABLE_SIZE
    ensures LoadEntries(Empty(), Flatten(t))[slot] == Reverse(t[slot])
  {
    SavedAreDistinct(t);
    SavedBucket(t, slot);
    hide Reverse, Bucket, DistinctKeys, Flatten, TableOk, LoadEntries;
    LoadStacks(Empty(), Flatten(t), slot);
    assert Reverse(t[slot]) + [] == Reverse(t[slot]);
  }

  lemma SavedBucket(t: Table, slot: nat)
    requires TableOk(t) && slot < MAX_TABLE_SIZE
    ensures Bucket(Flatten(t), slot) == t[slot]
  {
    assert forall i :: 0 <= i < |t| ==> ChainOk(t[i], i) && InSlot(t[i], 0 + i);
    BucketOfSaved(t, 0, slot);
  }

  /** One save and load reverses every chain. */
  lemma {:induction false} CycleReversesChains(t: Table, slot: nat)
    requires TableOk(t) && AllStorable(Abs(t)) && slot < MAX_TABLE_SIZE
    ensures TableOk(Reloaded(t)) && Abs(Reloaded(t)) == Abs(t)
    ensures Reloaded(t)[slot] == Reverse(t[slot])
  {
    hide Abs;
    LoadUndoesSave(t);
    forall e | e in Flatten(t) ensures Storable(e) {
      SavedIsBound(t, e);
    }
    ParseStorableLines(Flatten(t));
    ReloadStacks(t, slot);
  }

  /** Two cycles restore the exact layout, so the third saved file is identical to the first. */
  lemma {:induction false} TwoCyclesRestoreLayout(t: Table)
    requires TableOk(t) && AllStorable(Abs(t))
    ensures Reloaded(Reloaded(t)) == t
    ensures SaveText(Reloaded(Reloaded(t))) == SaveText(t)
  {
    LoadUndoesSave(t);
    forall i | 0 <= i < MAX_TABLE_SIZE ensures Reloaded(Reloaded(t))[i] == t[i] {
      CycleReversesChains(t, i);
      CycleReversesChains(Reloaded(t), i);
      ReverseTwice(t[i]);
    }
  }
}
