/** Reversal and flattening of sequences, used for chains and for the saved file. */
module Sequences {

  function Reverse<T>(s: seq<T>): (r: seq<T>)
    ensures |r| == |s|
  {
    if s == [] then [] else Reverse(s[1..]) + [s[0]]
  }

  function Flatten<T>(ss: seq<seq<T>>): seq<T> {
    if ss == [] then [] else ss[0] + Flatten(ss[1..])
  }

  lemma {:induction false} ReverseConcat<T>(a: seq<T>, b: seq<T>)
    ensures Reverse(a + b) == Reverse(b) + Reverse(a)
  {
    if a == [] {
      assert a + b == b;
    } else {
      ReverseConcat(a[1..], b);
      assert (a + b)[1..] == a[1..] + b;
    }
  }

  lemma {:induction false} ReverseTwice<T>(s: seq<T>)
    ensures Reverse(Reverse(s)) == s
  {
    if s != [] {
      ReverseTwice(s[1..]);
      ReverseConcat(Reverse(s[1..]), [s[0]]);
    }
  }

  lemma {:induction false} FlattenConcat<T>(a: seq<seq<T>>, b: seq<seq<T>>)
    ensures Flatten(a + b) == Flatten(a) + Flatten(b)
  {
    if a == [] {
      assert a + b == b;
    } else {
      FlattenConcat(a[1..], b);
      assert (a + b)[1..] == a[1..] + b;
      var x, y := Flatten(a[1..]), Flatten(b);
      assert Flatten(a + b) == a[0] + (x + y) == (a[0] + x) + y;
    }
  }

  lemma FlattenSnoc<T>(ss: seq<seq<T>>, i: nat)
    requires i < |ss|
    ensures Flatten(ss[..i + 1]) == Flatten(ss[..i]) + ss[i]
  {
    assert ss[..i + 1] == ss[..i] + [ss[i]];
    FlattenConcat(ss[..i], [ss[i]]);
    assert Flatten([ss[i]]) == ss[i] + Flatten<T>([]);
  }

  /** An element is in the flattened sequence exactly when it is in one of the parts. */
  lemma {:induction false} InFlatten<T>(ss: seq<seq<T>>, x: T)
    ensures x in Flatten(ss) <==> exists i :: 0 <= i < |ss| && x in ss[i]
  {
    if ss != [] {
      InFlatten(ss[1..], x);
      if x in Flatten(ss[1..]) {
        var i :| 0 <= i < |ss[1..]| && x in ss[1..][i];
        assert x in ss[i + 1];
      }
      if i :| 0 <= i < |ss| && x in ss[i] {
        if i > 0 {
          assert x in ss[1..][i - 1];
        }
      }
    }
  }

  /** The elements at different places have different images. */
  ghost predicate Apart<T, K>(ss: seq<seq<T>>, f: T -> K) {
    forall i, j, i', j' ::
      0 <= i < |ss| && 0 <= j < |ss[i]| && 0 <= i' < |ss| && 0 <= j' < |ss[i']| && f(ss[i][j]) == f(ss[i'][j'])
      ==> i == i' && j == j'
  }

  ghost predicate Distinct<T, K>(s: seq<T>, f: T -> K) {
    forall i, j :: 0 <= i < j < |s| ==> f(s[i]) != f(s[j])
  }

  lemma {:induction false} FlattenDistinct<T, K>(ss: seq<seq<T>>, f: T -> K)
    requires Apart(ss, f)
    ensures Distinct(Flatten(ss), f)
  {
    if ss != [] {
      var tail := ss[1..];
      assert Apart(tail, f) by {
        forall i, j, i', j' |
          0 <= i < |tail| && 0 <= j < |tail[i]| && 0 <= i' < |tail| && 0 <= j' < |tail[i']|
          && f(tail[i][j]) == f(tail[i'][j'])
          ensures i == i' && j == j'
        {
          assert f(ss[i + 1][j]) == f(ss[i' + 1][j']);
        }
      }
      FlattenDistinct(tail, f);
      forall j, x | 0 <= j < |ss[0]| && x in Flatten(tail) ensures f(ss[0][j]) != f(x) {
        InFlatten(tail, x);
        var i :| 0 <= i < |tail| && x in tail[i];
        var j' :| 0 <= j' < |tail[i]| && tail[i][j'] == x;
        assert ss[i + 1][j'] == x;
      }
    }
  }
}
