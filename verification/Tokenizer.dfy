/** Splitting a request into words in place, as repeated `strtok` calls do. */
module Tokenizer {
  import opened CString

  const SPACE: char := ' '

  /** A word of a message: where it begins and where it ends. */
  datatype Run = Run(begin: nat, end: nat)

  /** The first position from `i` on that is not a space, or the end. */
  function SkipSpaces(s: string, i: nat): (b: nat)
    requires i <= |s|
    ensures i <= b <= |s| && forall j :: i <= j < b ==> s[j] == SPACE
    ensures b < |s| ==> s[b] != SPACE
    decreases |s| - i
  {
    if i == |s| || s[i] != SPACE then i else SkipSpaces(s, i + 1)
  }

  /** The first position from `i` on that is a space, or the end. */
  function RunEnd(s: string, i: nat): (e: nat)
    requires i <= |s|
    ensures i <= e <= |s| && forall j :: i <= j < e ==> s[j] != SPACE
    ensures e < |s| ==> s[e] == SPACE
    decreases |s| - i
  {
    if i == |s| || s[i] == SPACE then i else RunEnd(s, i + 1)
  }

  function Runs(s: string, i: nat): (rs: seq<Run>)
    requires i <= |s|
    ensures forall k :: 0 <= k < |rs| ==> i <= rs[k].begin < rs[k].end <= |s|
    decreases |s| - i
  {
    var b := SkipSpaces(s, i);
    if b == |s| then [] else
      var e := RunEnd(s, b);
      [Run(b, e)] + Runs(s, e)
  }

  ghost predicate InBounds(s: string, rs: seq<Run>) {
    forall k :: 0 <= k < |rs| ==> rs[k].begin <= rs[k].end <= |s|
  }

  function Words(s: string, rs: seq<Run>): seq<string>
    requires InBounds(s, rs)
  {
    seq(|rs|, k requires 0 <= k < |rs| => s[rs[k].begin..rs[k].end])
  }

  function Tokens(s: string): seq<string> {
    Words(s, Runs(s, 0))
  }

  // ----- what the tokens are: the maximal runs without a space, in order -----

  ghost predicate IsMaximal(s: string, r: Run) {
    r.begin < r.end <= |s|
    && (forall j :: r.begin <= j < r.end ==> s[j] != SPACE)
    && (r.begin == 0 || s[r.begin - 1] == SPACE)
    && (r.end == |s| || s[r.end] == SPACE)
  }

  /** All maximal runs from position `i` on, from left to right, none left out. */
  ghost predicate AreRuns(s: string, i: nat, rs: seq<Run>) {
    (forall k :: 0 <= k < |rs| ==> i <= rs[k].begin && IsMaximal(s, rs[k]))
    && (forall k, l :: 0 <= k < l < |rs| ==> rs[k].end <= rs[l].begin)
    && (forall j :: i <= j < |s| && s[j] != SPACE ==> Covered(rs, j))
  }

  ghost predicate Covered(rs: seq<Run>, j: nat) {
    exists k :: 0 <= k < |rs| && rs[k].begin <= j < rs[k].end
  }

  /** A position where a word can begin. */
  ghost predicate Boundary(s: string, i: nat) {
    i <= |s| && (i == 0 || s[i - 1] == SPACE || i == |s| || s[i] == SPACE)
  }

  lemma {:induction false} RunsAreRuns(s: string, i: nat)
    requires Boundary(s, i)
    ensures AreRuns(s, i, Runs(s, i))
    decreases |s| - i
  {
    var b := SkipSpaces(s, i);
    if b < |s| {
      var e := RunEnd(s, b);
      RunsAreRuns(s, e);
      assert IsMaximal(s, Run(b, e));
      forall j | i <= j < |s| && s[j] != SPACE ensures Covered([Run(b, e)] + Runs(s, e), j) {
        if e <= j {
          assert Covered(Runs(s, e), j);
        }
        CoveredCons(Run(b, e), Runs(s, e), j);
      }
    }
  }

  lemma CoveredCons(r: Run, rs: seq<Run>, j: nat)
    ensures Covered([r] + rs, j) <==> r.begin <= j < r.end || Covered(rs, j)
  {
    var all := [r] + rs;
    if r.begin <= j < r.end {
      assert all[0].begin <= j < all[0].end;
    }
    if k :| 0 <= k < |rs| && rs[k].begin <= j < rs[k].end {
      assert all[k + 1].begin <= j < all[k + 1].end;
    }
  }

  /** There is only one such list, so `Runs` leaves nothing open. */
  lemma {:induction false} RunsAreUnique(s: string, i: nat, rs: seq<Run>)
    requires Boundary(s, i) && AreRuns(s, i, rs)
    ensures rs == Runs(s, i)
    decreases |s| - i
  {
    var b := SkipSpaces(s, i);
    WordMeansNoSpace(s, i, rs);
    if b < |s| {
      FirstRun(s, i, rs);
      TailAreRuns(s, i, rs);
      hide AreRuns;
      RunsAreUnique(s, RunEnd(s, b), rs[1..]);
      assert rs == [rs[0]] + rs[1..];
    }
  }

  lemma TailAreRuns(s: string, i: nat, rs: seq<Run>)
    requires AreRuns(s, i, rs) && rs != []
    ensures AreRuns(s, rs[0].end, rs[1..])
  {
    var e := rs[0].end;
    forall j | e <= j < |s| && s[j] != SPACE ensures Covered(rs[1..], j) {
      assert IsMaximal(s, rs[0]) && Covered(rs, j);
      assert rs == [rs[0]] + rs[1..];
      CoveredCons(rs[0], rs[1..], j);
    }
    assert forall k :: 0 <= k < |rs[1..]| ==> rs[1..][k] == rs[k + 1] && rs[0].end <= rs[k + 1].begin;
  }

  lemma WordMeansNoSpace(s: string, i: nat, rs: seq<Run>)
    requires i <= |s| && AreRuns(s, i, rs)
    ensures rs != [] ==> SkipSpaces(s, i) < |s|
  {
    if rs != [] {
      assert IsMaximal(s, rs[0]) && s[rs[0].begin] != SPACE;
    }
  }

  lemma FirstRun(s: string, i: nat, rs: seq<Run>)
    requires Boundary(s, i) && AreRuns(s, i, rs) && SkipSpaces(s, i) < |s|
    ensures rs != [] && rs[0] == Run(SkipSpaces(s, i), RunEnd(s, SkipSpaces(s, i)))
  {
    var b := SkipSpaces(s, i);
    var e := RunEnd(s, b);
    assert Covered(rs, b);
    var k :| 0 <= k < |rs| && rs[k].begin <= b < rs[k].end;
    assert IsMaximal(s, rs[0]) && IsMaximal(s, rs[k]);
    assert s[rs[0].begin] != SPACE && b <= rs[0].begin;
    assert forall l :: 0 < l < |rs| ==> rs[0].end <= rs[l].begin;
    assert k == 0 && rs[0].begin == b;
    assert rs[0].end <= e by {
      assert e < |s| ==> s[e] == SPACE;
    }
    assert e <= rs[0].end by {
      assert rs[0].end < |s| ==> s[rs[0].end] == SPACE;
    }
  }

  // ----- splitting what was joined -----

  function Join(ts: seq<string>): string {
    if ts == [] then "" else if |ts| == 1 then ts[0] else ts[0] + [SPACE] + Join(ts[1..])
  }

  ghost predicate IsToken(t: string) {
    t != "" && SPACE !in t
  }

  ghost predicate Shifted(rs: seq<Run>, us: seq<Run>, i: nat) {
    |rs| == |us| && forall k :: 0 <= k < |rs| ==> rs[k].begin == us[k].begin + i && rs[k].end == us[k].end + i
  }

  lemma {:induction false} RunsOfSuffix(s: string, i: nat, j: nat)
    requires i <= j <= |s|
    ensures Shifted(Runs(s, j), Runs(s[i..], j - i), i)
    decreases |s| - j
  {
    SameSkip(s, i, j);
    var b := SkipSpaces(s, j);
    if b < |s| {
      SameRunEnd(s, i, b);
      var e := RunEnd(s, b);
      RunsOfSuffix(s, i, e);
      assert Runs(s, j) == [Run(b, e)] + Runs(s, e);
      assert Runs(s[i..], j - i) == [Run(b - i, e - i)] + Runs(s[i..], e - i);
      ShiftedCons(Run(b, e), Runs(s, e), Run(b - i, e - i), Runs(s[i..], e - i), i);
    }
  }

  lemma ShiftedCons(r: Run, rs: seq<Run>, u: Run, us: seq<Run>, i: nat)
    requires Shifted(rs, us, i) && r.begin == u.begin + i && r.end == u.end + i
    ensures Shifted([r] + rs, [u] + us, i)
  {
  }

  /** Words do not depend on where in a text they stand. */
  lemma WordsOfSuffix(s: string, i: nat)
    requires i <= |s|
    ensures Words(s, Runs(s, i)) == Tokens(s[i..])
  {
    RunsOfSuffix(s, i, i);
    hide Runs;
    var u, rs, us := s[i..], Runs(s, i), Runs(s[i..], 0);
    forall k | 0 <= k < |rs| ensures s[rs[k].begin..rs[k].end] == u[us[k].begin..us[k].end] {
      SliceOfSuffix(s, i, us[k].begin, us[k].end);
    }
  }

  lemma SliceOfSuffix(s: string, i: nat, b: nat, e: nat)
    requires i <= |s| && b <= e <= |s| - i
    ensures s[i + b..i + e] == s[i..][b..e]
  {
  }

  lemma WordsCons(s: string, r: Run, rs: seq<Run>)
    requires r.begin <= r.end <= |s| && InBounds(s, rs)
    ensures InBounds(s, [r] + rs) && Words(s, [r] + rs) == [s[r.begin..r.end]] + Words(s, rs)
  {
  }

  lemma {:induction false} SameSkip(s: string, i: nat, j: nat)
    requires i <= j <= |s|
    ensures SkipSpaces(s, j) - i == SkipSpaces(s[i..], j - i)
    decreases |s| - j
  {
    if j < |s| && s[j] == SPACE {
      SameSkip(s, i, j + 1);
    }
  }

  lemma {:induction false} SameRunEnd(s: string, i: nat, j: nat)
    requires i <= j <= |s|
    ensures RunEnd(s, j) - i == RunEnd(s[i..], j - i)
    decreases |s| - j
  {
    if j < |s| && s[j] != SPACE {
      SameRunEnd(s, i, j + 1);
    }
  }

  lemma RunEndOfToken(t: string, rest: string, i: nat)
    requires IsToken(t) && i <= |t| && (rest == "" || rest[0] == SPACE)
    ensures RunEnd(t + rest, i) == |t|
  {
    var s := t + rest;
    assert forall j :: 0 <= j < |t| ==> s[j] == t[j];
    assert rest != "" ==> s[|t|] == SPACE;
  }

  /** Splitting tokens joined by single spaces gives the tokens back. */
  lemma {:induction false} SplitOfJoin(ts: seq<string>)
    requires forall t :: t in ts ==> IsToken(t)
    ensures Tokens(Join(ts)) == ts
  {
    if ts != [] {
      var t, rest := ts[0], if |ts| == 1 then "" else [SPACE] + Join(ts[1..]);
      var s := Join(ts);
      assert s == t + rest;
      assert t in ts && IsToken(t) && s[0] == t[0];
      RunEndOfToken(t, rest, 0);
      WordsCons(s, Run(0, |t|), Runs(s, |t|));
      assert s[0..|t|] == t;
      if |ts| == 1 {
        assert Runs(s, |t|) == [];
      } else {
        SplitOfJoin(ts[1..]);
        assert s[|t| + 1..] == Join(ts[1..]);
        assert s[|t|] == SPACE && SkipSpaces(s, |t|) == SkipSpaces(s, |t| + 1);
        WordsOfSuffix(s, |t| + 1);
      }
    }
  }

  lemma {:induction false} TokensAreTokens(s: string)
    ensures forall t :: t in Tokens(s) ==> IsToken(t)
    ensures Tokens(Join(Tokens(s))) == Tokens(s)
  {
    RunsAreRuns(s, 0);
    var rs := Runs(s, 0);
    forall k | 0 <= k < |rs| ensures IsToken(Tokens(s)[k]) {
      assert IsMaximal(s, rs[k]);
    }
    SplitOfJoin(Tokens(s));
  }

  // ----- the calls that do it in place -----

  /** The buffer still holds the text from position `i` on. */
  ghost predicate Remaining(buf: seq<char>, s: string, i: nat) {
    i <= |s| < |buf| && NulFree(s) && buf[i..|s|] == s[i..] && buf[|s|] == NUL
  }

  /** The buffer holds this word of the text as a C string. */
  ghost predicate HasWord(buf: seq<char>, s: string, r: Run) {
    r.begin <= r.end <= |s| < |buf| && buf[r.begin..r.end] == s[r.begin..r.end] && buf[r.end] == NUL
  }

  /** What one `strtok` call does to a buffer that holds `s` from `save` on. */
  ghost predicate StrtokResult(before: seq<char>, after: seq<char>, s: string, save: nat, token: Option<nat>,
                               next: nat)
  {
    save <= |s| < |before|
    && var b := SkipSpaces(s, save);
    if b == |s| then token.None? && after == before
    else
      var e := RunEnd(s, b);
      token == Some(b) && next == (if e == |s| then e else e + 1)
      && after == before[e := NUL] && HasWord(after, s, Run(b, e))
  }

  /** One `strtok` call on a message `s`; `next` is the position kept for the call after it. */
  method Strtok(buf: array<char>, save: nat, ghost s: string) returns (token: Option<nat>, next: nat)
    requires Remaining(buf[..], s, save)
    modifies buf
    ensures StrtokResult(old(buf[..]), buf[..], s, save, token, next)
  {
    var b := save;
    while buf[b] == SPACE
      invariant buf[..] == old(buf[..])
      invariant save <= b <= |s| && SkipSpaces(s, b) == SkipSpaces(s, save)
      decreases |s| - b
    {
      SameText(buf[..], s, save, b);
      b := b + 1;
    }
    SameText(buf[..], s, save, b);
    if buf[b] == NUL {
      return None, b;
    }
    var e := b;
    while buf[e] != SPACE && buf[e] != NUL
      invariant buf[..] == old(buf[..])
      invariant b <= e <= |s| && RunEnd(s, e) == RunEnd(s, b)
      decreases |s| - e
    {
      SameText(buf[..], s, save, e);
      e := e + 1;
    }
    SameText(buf[..], s, save, e);
    SameSlice(buf[..], s, save, b, e);
    token := Some(b);
    next := if buf[e] == NUL then e else e + 1;
    buf[e] := NUL;
    assert buf[..] == old(buf[..])[e := NUL];
    assert buf[..][b..e] == old(buf[..])[b..e];
  }

  lemma SameText(buf: seq<char>, s: string, i: nat, j: nat)
    requires Remaining(buf, s, i) && i <= j <= |s|
    ensures j < |s| ==> buf[j] == s[j] && s[j] != NUL
    ensures buf[j] == NUL <==> j == |s|
  {
    if j < |s| {
      assert buf[j] == buf[i..|s|][j - i] == s[i..][j - i];
    }
  }

  lemma SameSlice(buf: seq<char>, s: string, i: nat, b: nat, e: nat)
    requires Remaining(buf, s, i) && i <= b <= e <= |s|
    ensures buf[b..e] == s[b..e]
  {
    forall j | b <= j < e ensures buf[j] == s[j] {
      SameText(buf, s, i, j);
    }
  }

  /** A word already cut out stays whole when a terminator is written behind it. */
  lemma WordKept(buf: seq<char>, s: string, r: Run, e: nat)
    requires HasWord(buf, s, r) && r.end <= e < |buf|
    ensures HasWord(buf[e := NUL], s, r)
  {
    assert buf[e := NUL][r.begin..r.end] == buf[r.begin..r.end];
  }

  lemma WordIsCStr(buf: seq<char>, s: string, r: Run)
    requires HasWord(buf, s, r) && NulFree(s)
    ensures CStr(buf, r.begin) == s[r.begin..r.end]
  {
    CStrIs(buf, r.begin, s[r.begin..r.end]);
  }

  /** The words done so far, cut out and listed, and what is left to split. */
  ghost predicate Splitting(buf: seq<char>, s: string, done: seq<nat>, save: nat) {
    var rs := Runs(s, 0);
    Remaining(buf, s, save)
    && |done| <= |rs| && rs[|done|..] == Runs(s, save)
    && forall k :: 0 <= k < |done| ==> done[k] == rs[k].begin && HasWord(buf, s, rs[k]) && rs[k].end <= save
  }

  lemma SplitBegin(buf: seq<char>, s: string)
    requires |s| < |buf| && CStr(buf, 0) == s
    ensures Splitting(buf, s, [], 0)
  {
    assert buf[0..|s|] == s[0..];
  }

  lemma NextRun(s: string, d: nat, save: nat)
    requires save <= |s| && d <= |Runs(s, 0)| && Runs(s, 0)[d..] == Runs(s, save) && SkipSpaces(s, save) < |s|
    ensures var b := SkipSpaces(s, save);
            var e := RunEnd(s, b);
            d < |Runs(s, 0)| && Runs(s, 0)[d] == Run(b, e)
            && Runs(s, 0)[d + 1..] == Runs(s, if e == |s| then e else e + 1)
  {
    var rs := Runs(s, 0);
    var b := SkipSpaces(s, save);
    var e := RunEnd(s, b);
    assert rs[d..] == [Run(b, e)] + Runs(s, e);
    assert rs[d] == rs[d..][0] && rs[d + 1..] == rs[d..][1..] == Runs(s, e);
    assert e < |s| ==> SkipSpaces(s, e) == SkipSpaces(s, e + 1);
  }

  /** Cutting out one more word. */
  lemma SplitStep(buf: seq<char>, after: seq<char>, s: string, done: seq<nat>, save: nat, token: Option<nat>, next: nat)
    requires Splitting(buf, s, done, save) && StrtokResult(buf, after, s, save, token, next) && token.Some?
    ensures |done| < |Tokens(s)| && Splitting(after, s, done + [token.value], next)
  {
    hide Runs, HasWord;
    var b := SkipSpaces(s, save);
    var e := RunEnd(s, b);
    SameSlice(buf, s, save, next, |s|);
    assert after[next..|s|] == buf[next..|s|];
    NextRun(s, |done|, save);
    forall k | 0 <= k < |done| ensures HasWord(after, s, Runs(s, 0)[k]) {
      WordKept(buf, s, Runs(s, 0)[k], e);
    }
  }

  lemma SplitDone(buf: seq<char>, after: seq<char>, s: string, done: seq<nat>, save: nat, token: Option<nat>, next: nat)
    requires Splitting(buf, s, done, save) && StrtokResult(buf, after, s, save, token, next) && token.None?
    ensures |done| == |Tokens(s)| && after == buf
    ensures forall k :: 0 <= k < |done| ==>
              done[k] + |Tokens(s)[k]| < |buf| && CStr(buf, done[k]) == Tokens(s)[k]
  {
    var rs := Runs(s, 0);
    assert |rs[|done|..]| == 0;
    forall k | 0 <= k < |done| ensures CStr(buf, done[k]) == Tokens(s)[k] {
      WordIsCStr(buf, s, rs[k]);
    }
  }

  /** `kvstore_split_token`: the words of the message, cut out of it where they stand. */
  method SplitToken(msg: array<char>, tokens: array<nat>) returns (count: nat)
    requires |CStr(msg[..], 0)| < msg.Length && |Tokens(CStr(msg[..], 0))| <= tokens.Length
    modifies msg, tokens
    ensures var ts := Tokens(old(CStr(msg[..], 0)));
            count == |ts| <= tokens.Length
            && forall k :: 0 <= k < count ==> tokens[k] + |ts[k]| < msg.Length && CStr(msg[..], tokens[k]) == ts[k]
  {
    ghost var s := CStr(msg[..], 0);
    ghost var save, before := 0, msg[..];
    SplitBegin(before, s);
    hide Runs, Words, StrtokResult;
    count := 0;
    var token, next := Strtok(msg, 0, s);
    while token.Some?
      invariant |before| == msg.Length && count <= tokens.Length
      invariant Splitting(before, s, tokens[..count], save)
      invariant StrtokResult(before, msg[..], s, save, token, next)
      decreases |Tokens(s)| - count
    {
      SplitStep(before, msg[..], s, tokens[..count], save, token, next);
      tokens[count] := token.value;
      assert tokens[..count + 1] == tokens[..count] + [token.value];
      count := count + 1;
      save, before := next, msg[..];
      token, next := Strtok(msg, next, s);
    }
    SplitDone(before, msg[..], s, tokens[..count], save, token, next);
    assert forall k :: 0 <= k < count ==> tokens[..count][k] == tokens[k];
  }
}
