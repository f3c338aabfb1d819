/**
 * OptionList.equalValues (src/option-list.ts:283-296): two value lists are equal when they have
 * the same length and agree position by position once both are sorted. The default sort of
 * Array.prototype.sort compares strings by UTF-16 code units; here a string is a sequence of
 * Unicode scalar values and the order is the lexicographic order on them. The two orders agree
 * except between characters above U+FFFF and characters from U+E000 to U+FFFF.
 */
module Values {

  /** `a` sorts no later than `b` in the lexicographic order on characters. */
  predicate Below(a: string, b: string)
  {
    a == [] || (b != [] && (a[0] < b[0] || (a[0] == b[0] && Below(a[1..], b[1..]))))
  }

  lemma {:induction false} BelowReflexive(a: string)
    ensures Below(a, a)
  {
    if a != [] {
      BelowReflexive(a[1..]);
    }
  }

  lemma {:induction false} BelowTotal(a: string, b: string)
    ensures Below(a, b) || Below(b, a)
  {
    if a != [] && b != [] && a[0] == b[0] {
      BelowTotal(a[1..], b[1..]);
    }
  }

  lemma {:induction false} BelowAntisymmetric(a: string, b: string)
    requires Below(a, b) && Below(b, a)
    ensures a == b
  {
    if a != [] && b != [] {
      BelowAntisymmetric(a[1..], b[1..]);
      assert a == [a[0]] + a[1..] && b == [b[0]] + b[1..];
    }
  }

  lemma {:induction false} BelowTransitive(a: string, b: string, c: string)
    requires Below(a, b) && Below(b, c)
    ensures Below(a, c)
  {
    if a != [] && b != [] && c != [] && a[0] == b[0] && b[0] == c[0] {
      BelowTransitive(a[1..], b[1..], c[1..]);
    }
  }

  ghost predicate Sorted(s: seq<string>)
  {
    forall i, j :: 0 <= i < j < |s| ==> Below(s[i], s[j])
  }

  /** `x` put in its place in the sorted `s`. */
  function Insert(x: string, s: seq<string>): (r: seq<string>)
    ensures multiset(r) == multiset(s) + multiset{x} && |r| == |s| + 1
    ensures Sorted(s) ==> Sorted(r)
  {
    if s == [] then [x]
    else if Below(x, s[0]) then
      SortedFront(x, s);
      [x] + s
    else
      var rest := Insert(x, s[1..]);
      assert s == [s[0]] + s[1..];
      SortedAfterHead(x, s, rest);
      [s[0]] + rest
  }

  /** A string sorting before the head of a sorted list goes in front of it. */
  lemma SortedFront(x: string, s: seq<string>)
    requires s != [] && Below(x, s[0])
    ensures Sorted(s) ==> Sorted([x] + s)
  {
    if Sorted(s) {
      forall j | 0 <= j < |s| ensures Below(x, s[j]) {
        if j > 0 { BelowTransitive(x, s[0], s[j]); }
      }
      SortedCons(x, s);
    }
  }

  /** The head of a sorted list stays in front when `x`, sorting after it, joins the rest. */
  lemma SortedAfterHead(x: string, s: seq<string>, rest: seq<string>)
    requires s != [] && !Below(x, s[0])
    requires multiset(rest) == multiset(s[1..]) + multiset{x}
    requires Sorted(s[1..]) ==> Sorted(rest)
    ensures Sorted(s) ==> Sorted([s[0]] + rest)
  {
    if Sorted(s) {
      BelowTotal(x, s[0]);
      assert Sorted(s[1..]);
      forall j | 0 <= j < |rest| ensures Below(s[0], rest[j]) {
        assert rest[j] in multiset(rest);
        if rest[j] != x {
          assert rest[j] in multiset(s[1..]);
          var k :| 0 <= k < |s[1..]| && s[1..][k] == rest[j];
          assert s[k + 1] == rest[j];
        }
      }
      SortedCons(s[0], rest);
    }
  }

  /** A string sorting no later than every entry of a sorted list, put in front of it. */
  lemma SortedCons(x: string, s: seq<string>)
    requires Sorted(s) && forall j :: 0 <= j < |s| ==> Below(x, s[j])
    ensures Sorted([x] + s)
  {
    var r := [x] + s;
    forall i, j | 0 <= i < j < |r| ensures Below(r[i], r[j]) {
      assert r[j] == s[j - 1];
      if i > 0 {
        assert r[i] == s[i - 1];
      }
    }
  }

  /** `v.slice().sort()`: an insertion sort. */
  function Sort(v: seq<string>): (r: seq<string>)
    ensures multiset(r) == multiset(v) && |r| == |v|
    ensures Sorted(r)
  {
    if v == [] then []
    else
      assert v == [v[0]] + v[1..];
      Insert(v[0], Sort(v[1..]))
  }

  /** Two sorted lists holding the same strings start with the same string. */
  lemma SortedHeads(a: seq<string>, b: seq<string>)
    requires Sorted(a) && Sorted(b) && multiset(a) == multiset(b) && a != []
    ensures b != [] && a[0] == b[0]
  {
    assert a[0] in multiset(b) && b[0] in multiset(a);
    var i :| 0 <= i < |b| && b[i] == a[0];
    var j :| 0 <= j < |a| && a[j] == b[0];
    assert Below(b[0], a[0]) by { if i > 0 { assert Below(b[0], b[i]); } else { BelowReflexive(a[0]); } }
    assert Below(a[0], b[0]) by { if j > 0 { assert Below(a[0], a[j]); } else { BelowReflexive(b[0]); } }
    BelowAntisymmetric(a[0], b[0]);
  }

  /** Two sorted lists holding the same strings are the same list. */
  lemma {:induction false} SortedUnique(a: seq<string>, b: seq<string>)
    requires Sorted(a) && Sorted(b) && multiset(a) == multiset(b)
    ensures a == b
  {
    if a != [] {
      SortedHeads(a, b);
      SortedTail(a);
      SortedTail(b);
      SameTails(a, b);
      SortedUnique(a[1..], b[1..]);
      assert a == [a[0]] + a[1..] && b == [b[0]] + b[1..];
    } else {
      assert |multiset(b)| == 0;
    }
  }

  /** The tail of a sorted list is sorted. */
  lemma SortedTail(a: seq<string>)
    requires Sorted(a) && a != []
    ensures Sorted(a[1..])
  {
    forall i, j | 0 <= i < j < |a[1..]| ensures Below(a[1..][i], a[1..][j]) {
      assert a[1..][i] == a[i + 1] && a[1..][j] == a[j + 1];
    }
  }

  /** Lists holding the same strings and starting alike hold the same strings after the head. */
  lemma SameTails(a: seq<string>, b: seq<string>)
    requires a != [] && b != [] && a[0] == b[0] && multiset(a) == multiset(b)
    ensures multiset(a[1..]) == multiset(b[1..])
  {
    assert a == [a[0]] + a[1..] && b == [b[0]] + b[1..];
    calc {
      multiset(a[1..]);
      multiset(a) - multiset{a[0]};
      multiset(b) - multiset{b[0]};
      multiset(b[1..]);
    }
  }

  /** OptionList.equalValues. */
  function EqualValues(v0: seq<string>, v1: seq<string>): bool
  {
    if |v0| != |v1| then false
    else
      var a := Sort(v0);
      var b := Sort(v1);
      forall i :: 0 <= i < |a| ==> a[i] == b[i]
  }

  /** Value lists are equal exactly when each is a reordering of the other. */
  lemma EqualValuesIffPermutation(v0: seq<string>, v1: seq<string>)
    ensures EqualValues(v0, v1) <==> multiset(v0) == multiset(v1)
  {
    var a, b := Sort(v0), Sort(v1);
    assert |a| == |v0| && |b| == |v1| by {
      assert |multiset(a)| == |multiset(v0)| && |multiset(b)| == |multiset(v1)|;
    }
    if multiset(v0) == multiset(v1) {
      assert |v0| == |v1| by { assert |multiset(v0)| == |multiset(v1)|; }
      SortedUnique(a, b);
    }
    if EqualValues(v0, v1) {
      assert a == b;
    }
  }

  /** Lists of different lengths are never equal. */
  lemma EqualValuesLength(v0: seq<string>, v1: seq<string>)
    requires EqualValues(v0, v1)
    ensures |v0| == |v1|
  {
  }

  /** The comparison does not depend on the order of its arguments. */
  lemma EqualValuesCommutes(v0: seq<string>, v1: seq<string>)
    ensures EqualValues(v0, v1) == EqualValues(v1, v0)
  {
    EqualValuesIffPermutation(v0, v1);
    EqualValuesIffPermutation(v1, v0);
  }

  /** Reordering a list never changes the outcome of a comparison with it. */
  lemma EqualValuesIgnoresOrder(v0: seq<string>, w0: seq<string>, v1: seq<string>)
    requires multiset(v0) == multiset(w0)
    ensures EqualValues(v0, v1) == EqualValues(w0, v1)
  {
    EqualValuesIffPermutation(v0, v1);
    EqualValuesIffPermutation(w0, v1);
  }
}
