/** The editable row list shared by every form of the dashboard: an ordered
    sequence of records, removal of one row with JavaScript's
    `Array.prototype.splice(index, 1)`, and the `reduce` that sums a numeric
    projection of the rows from left to right. */
module LineItems {

  /** The result of a `find` (`undefined` is `None`) and a field the record
      may lack. It lives here with the row list because every module that
      looks up or reads optional fields of rows already imports this one. */
  datatype Option<+T> = None | Some(value: T)

  /** `copy.splice(i, 1)` on a copy of `s`: the row at `i` is deleted and the
      rows after it move up one place; an index past the end deletes nothing. */
  function Spliced<T>(s: seq<T>, i: nat): (r: seq<T>)
    ensures i < |s| ==> |r| == |s| - 1
    ensures i < |s| ==> forall k :: 0 <= k < i ==> r[k] == s[k]
    ensures i < |s| ==> forall k :: i <= k < |r| ==> r[k] == s[k + 1]
    ensures i < |s| ==> multiset(r) + multiset{s[i]} == multiset(s)
    ensures i >= |s| ==> r == s
  {
    if i < |s| then
      assert s == s[..i] + [s[i]] + s[i + 1..];
      s[..i] + s[i + 1..]
    else s
  }

  /** `s.reduce((total, x) => total + f(x), 0)`: the left-to-right sum. */
  function SumOf<T>(s: seq<T>, f: T -> int): int
  {
    if s == [] then 0 else SumOf(s[..|s| - 1], f) + f(s[|s| - 1])
  }

  lemma {:induction false} SumOfAppend<T>(a: seq<T>, b: seq<T>, f: T -> int)
    ensures SumOf(a + b, f) == SumOf(a, f) + SumOf(b, f)
    decreases |b|
  {
    if b == [] {
      assert a + b == a;
    } else {
      var n := |b| - 1;
      assert (a + b)[..|a + b| - 1] == a + b[..n];
      SumOfAppend(a, b[..n], f);
    }
  }

  lemma SumOfSingle<T>(x: T, f: T -> int)
    ensures SumOf([x], f) == f(x)
  {
    assert [x][..0] == [];
  }

  /** Summing front to back gives the same total as the `reduce`. */
  lemma {:induction false} SumOfCons<T>(x: T, s: seq<T>, f: T -> int)
    ensures SumOf([x] + s, f) == f(x) + SumOf(s, f)
  {
    SumOfAppend([x], s, f);
    SumOfSingle(x, f);
  }

  /** Deleting row `i` lowers the total by exactly that row's value. */
  lemma {:induction false} SumOfSpliced<T>(s: seq<T>, i: nat, f: T -> int)
    requires i < |s|
    ensures SumOf(Spliced(s, i), f) == SumOf(s, f) - f(s[i])
  {
    assert s == s[..i] + ([s[i]] + s[i + 1..]);
    SumOfAppend(s[..i], [s[i]] + s[i + 1..], f);
    SumOfCons(s[i], s[i + 1..], f);
    SumOfAppend(s[..i], s[i + 1..], f);
  }

  /** Replacing row `i` changes the total by the difference of the two rows. */
  lemma {:induction false} SumOfReplaced<T>(s: seq<T>, i: nat, x: T, f: T -> int)
    requires i < |s|
    ensures SumOf(s[i := x], f) == SumOf(s, f) - f(s[i]) + f(x)
  {
    assert s == s[..i] + ([s[i]] + s[i + 1..]);
    assert s[i := x] == s[..i] + ([x] + s[i + 1..]);
    SumOfAppend(s[..i], [s[i]] + s[i + 1..], f);
    SumOfCons(s[i], s[i + 1..], f);
    SumOfAppend(s[..i], [x] + s[i + 1..], f);
    SumOfCons(x, s[i + 1..], f);
  }

  /** The total does not depend on the order of the rows. */
  lemma {:induction false} SumOfPermutation<T>(a: seq<T>, b: seq<T>, f: T -> int)
    requires multiset(a) == multiset(b)
    ensures SumOf(a, f) == SumOf(b, f)
    decreases |a|
  {
    if a != [] {
      var x := a[0];
      assert x in multiset(b);
      var i :| 0 <= i < |b| && b[i] == x;
      var b' := Spliced(b, i);
      assert a == [x] + a[1..];
      assert multiset(a) == multiset{x} + multiset(a[1..]);
      assert multiset(b') + multiset{x} == multiset(b);
      assert multiset(a[1..]) == multiset(a) - multiset{x};
      assert multiset(b') == multiset(b) - multiset{x};
      SumOfPermutation(a[1..], b', f);
      SumOfCons(x, a[1..], f);
      SumOfSpliced(b, i, f);
    } else {
      assert |b| == |multiset(b)| == 0;
    }
  }

  /** A total of rows that are each non-negative is non-negative. */
  lemma {:induction false} SumOfNonNegative<T>(s: seq<T>, f: T -> int)
    requires forall k :: 0 <= k < |s| ==> f(s[k]) >= 0
    ensures SumOf(s, f) >= 0
    decreases |s|
  {
    if s != [] {
      SumOfNonNegative(s[..|s| - 1], f);
    }
  }
}
