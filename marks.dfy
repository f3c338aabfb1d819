/**
 * Scans over the flags of a list of options, and the flag writes that the highlight methods of
 * src/option-list.ts perform, written out as a sequence so that the effect of a recursive filter
 * on the `highlighted` flags can be stated.
 */
module Marks {

  /** The first index whose mark is set, or -1: the shape of every `for … return` scan. */
  function FirstTrue(bs: seq<bool>): (r: int)
    ensures -1 <= r < |bs|
    ensures r >= 0 ==> bs[r] && forall j :: 0 <= j < r ==> !bs[j]
    ensures r == -1 <==> forall j :: 0 <= j < |bs| ==> !bs[j]
  {
    if bs == [] then -1
    else if bs[0] then 0
    else
      var k := FirstTrue(bs[1..]);
      if k == -1 then -1 else k + 1
  }

  /** Position-wise conjunction of two mark lists. */
  function Both(a: seq<bool>, b: seq<bool>): (r: seq<bool>)
    requires |a| == |b|
    ensures |r| == |a| && forall i :: 0 <= i < |r| ==> (r[i] <==> a[i] && b[i])
  {
    seq(|a|, i requires 0 <= i < |a| => a[i] && b[i])
  }

  /** One assignment `target.flag = on`. */
  datatype Write<T> = Write(target: T, on: bool)

  /** The objects a sequence of writes assigns to. */
  function Targets<T>(w: seq<Write<T>>): (r: set<T>)
    ensures forall i :: 0 <= i < |w| ==> w[i].target in r
    ensures forall x :: x in r ==> exists i :: 0 <= i < |w| && w[i].target == x
  {
    set i | 0 <= i < |w| :: w[i].target
  }

  /** The flag of `x` after performing the writes `w` in order, starting from `init`. */
  function Replay<T(==)>(w: seq<Write<T>>, x: T, init: bool): (r: bool)
    ensures x !in Targets(w) ==> r == init
  {
    if w == [] then init
    else if w[|w| - 1].target == x then w[|w| - 1].on
    else Replay(w[..|w| - 1], x, init)
  }

  /** Performing `a` then `b` is performing `b` from the state `a` leaves. */
  lemma {:induction false} ReplayAppend<T>(a: seq<Write<T>>, b: seq<Write<T>>, x: T, init: bool)
    ensures Replay(a + b, x, init) == Replay(b, x, Replay(a, x, init))
  {
    if b != [] {
      var ab := a + b;
      assert ab[..|ab| - 1] == a + b[..|b| - 1];
      assert ab[|ab| - 1] == b[|b| - 1];
      ReplayAppend(a, b[..|b| - 1], x, init);
    } else {
      assert a + b == a;
    }
  }

  /** No entry of `s` occurs twice. */
  predicate Distinct<T(==)>(s: seq<T>)
  {
    forall i, j :: 0 <= i < j < |s| ==> s[i] != s[j]
  }

  /** The first position of `x` in `s`. */
  function Pos<T(==)>(s: seq<T>, x: T): (k: nat)
    requires x in s
    ensures k < |s| && s[k] == x && x !in s[..k]
  {
    if s[0] == x then 0
    else
      assert s == [s[0]] + s[1..];
      var k := Pos(s[1..], x);
      assert s[..k + 1] == [s[0]] + s[1..][..k];
      k + 1
  }

  /**
   * Every entry of `r` is an entry of `s`, and the entries of `r` appear in the order they have
   * in `s`, each once: what `Array.prototype.filter` returns for a list without repetitions.
   */
  ghost predicate InOrder<T>(r: seq<T>, s: seq<T>)
  {
    (forall i :: 0 <= i < |r| ==> r[i] in s) &&
    forall i, j :: 0 <= i < j < |r| ==> Pos(s, r[i]) < Pos(s, r[j])
  }

  /** An ordered selection from a list holds no entry twice. */
  lemma InOrderDistinct<T>(r: seq<T>, s: seq<T>)
    requires InOrder(r, s)
    ensures Distinct(r)
  {
  }

  /** A prefix of a list without repetitions has none either, and lacks the entries after it. */
  lemma DistinctPrefix<T>(s: seq<T>, n: nat)
    requires Distinct(s) && n <= |s|
    ensures Distinct(s[..n]) && forall k :: n <= k < |s| ==> s[k] !in s[..n]
  {
  }

  /** The first position of an entry comes no later than any position holding it. */
  lemma {:induction false} PosFirst<T>(s: seq<T>, x: T, i: nat)
    requires i < |s| && s[i] == x
    ensures Pos(s, x) <= i
  {
    if s[0] != x {
      PosFirst(s[1..], x, i - 1);
    }
  }

  /** An entry of a prefix keeps its position. */
  lemma PosPrefix<T>(s: seq<T>, n: nat, x: T)
    requires n <= |s| && x in s[..n]
    ensures Pos(s, x) == Pos(s[..n], x)
  {
    var k, k' := Pos(s, x), Pos(s[..n], x);
    PosFirst(s, x, k');
    PosFirst(s[..n], x, k);
  }

  /**
   * Filtering the last entry of a list without repetitions onto an ordered selection from the
   * rest keeps the selection ordered.
   */
  lemma InOrderSnoc<T>(r: seq<T>, s: seq<T>, keep: bool)
    requires s != [] && (Distinct(s[..|s| - 1]) ==> InOrder(r, s[..|s| - 1]))
    ensures Distinct(s) ==> InOrder(r + if keep then [s[|s| - 1]] else [], s)
  {
    if !Distinct(s) {
      return;
    }
    var n := |s| - 1;
    DistinctPrefix(s, n);
    forall i | 0 <= i < |r| ensures r[i] in s && Pos(s, r[i]) == Pos(s[..n], r[i]) {
      PosPrefix(s, n, r[i]);
    }
    var last := s[n];
    assert last !in s[..n];
    assert Pos(s, last) == n;
  }

  /** Joining two lists without repetitions and without common entries repeats nothing. */
  lemma AppendDistinct<T>(a: seq<T>, b: seq<T>)
    requires Distinct(a) && Distinct(b)
    requires forall i, j :: 0 <= i < |a| && 0 <= j < |b| ==> a[i] != b[j]
    ensures Distinct(a + b)
  {
    forall i, j | 0 <= i < j < |a + b| ensures (a + b)[i] != (a + b)[j] {
      if j < |a| {
        assert (a + b)[i] == a[i] && (a + b)[j] == a[j];
      } else if i < |a| {
        assert (a + b)[i] == a[i] && (a + b)[j] == b[j - |a|];
      } else {
        assert (a + b)[i] == b[i - |a|] && (a + b)[j] == b[j - |a|];
      }
    }
  }

  /** The entries of `r` that lie in `s`, in the order they have in `r`. */
  ghost function Within<T>(r: seq<T>, s: set<T>): (w: seq<T>)
    ensures |w| <= |r|
    ensures forall i :: 0 <= i < |w| ==> w[i] in r && w[i] in s
  {
    if r == [] then []
    else Within(r[..|r| - 1], s) + if r[|r| - 1] in s then [r[|r| - 1]] else []
  }

  /** Restricting a concatenation restricts each part. */
  lemma {:induction false} WithinAppend<T>(a: seq<T>, b: seq<T>, s: set<T>)
    ensures Within(a + b, s) == Within(a, s) + Within(b, s)
    decreases |b|
  {
    if b == [] {
      assert a + b == a;
    } else {
      var b' := b[..|b| - 1];
      assert (a + b)[..|a + b| - 1] == a + b';
      WithinAppend(a, b', s);
    }
  }

  /** Restricting to a set that holds every entry changes nothing. */
  lemma {:induction false} WithinAll<T>(r: seq<T>, s: set<T>)
    requires forall i :: 0 <= i < |r| ==> r[i] in s
    ensures Within(r, s) == r
    decreases |r|
  {
    if r != [] {
      WithinAll(r[..|r| - 1], s);
    }
  }

  /** Restricting to a set that holds no entry leaves nothing. */
  lemma {:induction false} WithinNone<T>(r: seq<T>, s: set<T>)
    requires forall i :: 0 <= i < |r| ==> r[i] !in s
    ensures Within(r, s) == []
    decreases |r|
  {
    if r != [] {
      WithinNone(r[..|r| - 1], s);
    }
  }

  /** A list without repetitions whose entries are all `x` has at most one entry. */
  lemma DistinctConstant<T>(s: seq<T>, x: T)
    requires Distinct(s) && forall i :: 0 <= i < |s| ==> s[i] == x
    ensures |s| <= 1
  {
    DistinctHeads(s);
  }

  lemma DistinctHeads<T>(s: seq<T>)
    requires Distinct(s)
    ensures |s| > 1 ==> s[0] != s[1]
  {
  }
}
