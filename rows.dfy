/** Row selection over tables held as sequences: the boolean-mask selection,
    drop, count and first-match lookups that the store performs on its tables. */
module Rows {

  datatype Option<T> = None | Some(value: T)

  /** The rows of `s` that satisfy `keep`, in their original order. */
  function Filter<T(==,!new)>(s: seq<T>, keep: T -> bool): (r: seq<T>)
    ensures |r| <= |s|
    ensures forall x :: x in r <==> x in s && keep(x)
  {
    if s == [] then []
    else if keep(s[0]) then [s[0]] + Filter(s[1..], keep)
    else Filter(s[1..], keep)
  }

  /** The complement of a row selection. */
  function Not<T>(p: T -> bool): T -> bool
  {
    x => !p(x)
  }

  /** The rows of `s` left after deleting every row that satisfies `doomed`. */
  function Drop<T(==,!new)>(s: seq<T>, doomed: T -> bool): (r: seq<T>)
    ensures |r| <= |s|
    ensures forall x :: x in r <==> x in s && !doomed(x)
  {
    Filter(s, Not(doomed))
  }

  /** The number of rows of `s` that satisfy `p`. */
  function Count<T(==,!new)>(s: seq<T>, p: T -> bool): (n: nat)
    ensures n <= |s|
    ensures n == 0 <==> forall x :: x in s ==> !p(x)
  {
    var hits := Filter(s, p);
    assert hits != [] ==> hits[0] in hits;
    |hits|
  }

  /** The first row of `s` that satisfies `p`, if there is one. */
  function First<T(==,!new)>(s: seq<T>, p: T -> bool): (r: Option<T>)
    ensures r.None? <==> forall x :: x in s ==> !p(x)
    ensures r.Some? ==> exists i :: 0 <= i < |s| && s[i] == r.value && p(s[i]) &&
                                    forall j :: 0 <= j < i ==> !p(s[j])
  {
    if s == [] then None
    else if p(s[0]) then Some(s[0])
    else
      var r := First(s[1..], p);
      if r.Some? then
        var i :| 0 <= i < |s[1..]| && s[1..][i] == r.value && p(s[1..][i]) &&
                 forall j :: 0 <= j < i ==> !p(s[1..][j]);
        assert s[i + 1] == r.value;
        assert forall j :: 1 <= j < i + 1 ==> !p(s[j]) by {
          forall j | 1 <= j < i + 1 ensures !p(s[j]) { assert s[j] == s[1..][j - 1]; }
        }
        r
      else r
  }

  /** The column obtained by applying `f` to every row of `s`. */
  function Map<T(==,!new), U(==,!new)>(s: seq<T>, f: T -> U): (r: seq<U>)
    ensures |r| == |s|
    ensures forall i :: 0 <= i < |s| ==> r[i] == f(s[i])
    ensures forall y :: y in r <==> exists x :: x in s && y == f(x)
  {
    if s == [] then [] else [f(s[0])] + Map(s[1..], f)
  }

  /** Appending one row extends the selection by that row exactly when it is selected. */
  lemma {:induction false} FilterAppend<T(!new)>(s: seq<T>, x: T, keep: T -> bool)
    ensures Filter(s + [x], keep) == Filter(s, keep) + (if keep(x) then [x] else [])
  {
    if s == [] {
      assert [x][1..] == [];
    } else {
      assert (s + [x])[0] == s[0];
      assert (s + [x])[1..] == s[1..] + [x];
      FilterAppend(s[1..], x, keep);
    }
  }

  /** Counting after appending one row. */
  lemma CountAppend<T(!new)>(s: seq<T>, x: T, p: T -> bool)
    ensures Count(s + [x], p) == Count(s, p) + (if p(x) then 1 else 0)
  {
    FilterAppend(s, x, p);
  }

  /** Selecting with `q` from a selection by a weaker `keep` is selecting with `q` directly:
      the rows that a narrower deletion keeps are kept, in order. */
  lemma {:induction false} FilterOfFilter<T(!new)>(s: seq<T>, keep: T -> bool, q: T -> bool)
    requires forall x :: x in s && q(x) ==> keep(x)
    ensures Filter(Filter(s, keep), q) == Filter(s, q)
  {
    if s != [] {
      assert forall x :: x in s[1..] ==> x in s;
      FilterOfFilter(s[1..], keep, q);
    }
  }

  /** Two distinct matching positions make a count of at least two. */
  lemma {:induction false} CountTwo<T(!new)>(s: seq<T>, p: T -> bool, i: nat, j: nat)
    requires i < j < |s| && p(s[i]) && p(s[j])
    ensures Count(s, p) >= 2
  {
    if i == 0 {
      assert s[j] == s[1..][j - 1];
      assert s[j] in Filter(s[1..], p);
    } else {
      assert s[i] == s[1..][i - 1] && s[j] == s[1..][j - 1];
      CountTwo(s[1..], p, i - 1, j - 1);
    }
  }

  /** Rows that a deletion never removes are selected alike before and after it. */
  lemma DropThenFilter<T(!new)>(s: seq<T>, doomed: T -> bool, q: T -> bool)
    requires forall x :: x in s && q(x) ==> !doomed(x)
    ensures Filter(Drop(s, doomed), q) == Filter(s, q)
  {
    FilterOfFilter(s, Not(doomed), q);
  }

  /** A narrower selection never counts more rows. */
  lemma {:induction false} CountMono<T(!new)>(s: seq<T>, p: T -> bool, q: T -> bool)
    requires forall x :: x in s && p(x) ==> q(x)
    ensures Count(s, p) <= Count(s, q)
  {
    if s != [] {
      assert forall x :: x in s[1..] ==> x in s;
      CountMono(s[1..], p, q);
    }
  }

  /** A single matching position makes a count of exactly one. */
  lemma {:induction false} CountSingle<T(!new)>(s: seq<T>, p: T -> bool, i: nat)
    requires i < |s| && p(s[i])
    requires forall j :: 0 <= j < |s| && j != i ==> !p(s[j])
    ensures Count(s, p) == 1
  {
    if i == 0 {
      forall x | x in s[1..] ensures !p(x) {
        var j :| 0 <= j < |s[1..]| && s[1..][j] == x;
        assert s[j + 1] == x;
      }
      assert Count(s[1..], p) == 0;
      assert Filter(s, p) == [s[0]] + Filter(s[1..], p);
    } else {
      assert !p(s[0]);
      forall j | 0 <= j < |s[1..]| && j != i - 1 ensures !p(s[1..][j]) {
        assert s[1..][j] == s[j + 1];
      }
      CountSingle(s[1..], p, i - 1);
    }
  }
}
