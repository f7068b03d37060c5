/**
 Small sequence vocabulary shared by the parser model: an optional value and
 an order-preserving filter (the shape of a Python list comprehension with an
 `if` clause, and of an XPath node-set read in document order).
 */
module Seqs {

  datatype Option<+T> = None | Some(value: T)

  /** The elements of `xs` that satisfy `keep`, in their original order. */
  function Filter<T>(xs: seq<T>, keep: T -> bool): (r: seq<T>)
    ensures |r| <= |xs|
    ensures forall i :: 0 <= i < |r| ==> keep(r[i])
  {
    if |xs| == 0 then []
    else if keep(xs[0]) then [xs[0]] + Filter(xs[1..], keep)
    else Filter(xs[1..], keep)
  }

  /** Filtering a concatenation filters each part. */
  lemma {:induction false} FilterAppend<T>(a: seq<T>, b: seq<T>, keep: T -> bool)
    ensures Filter(a + b, keep) == Filter(a, keep) + Filter(b, keep)
  {
    if |a| == 0 {
      assert a + b == b;
    } else {
      assert (a + b)[1..] == a[1..] + b;
      FilterAppend(a[1..], b, keep);
    }
  }

  /** The filter is empty exactly when no element is kept, and its head is the
      first kept element: everything before it is dropped. */
  lemma {:induction false} FilterHead<T>(xs: seq<T>, keep: T -> bool)
    ensures |Filter(xs, keep)| == 0 <==> forall i :: 0 <= i < |xs| ==> !keep(xs[i])
    ensures |Filter(xs, keep)| > 0 ==>
              exists i :: 0 <= i < |xs| && xs[i] == Filter(xs, keep)[0]
                          && (forall j :: 0 <= j < i ==> !keep(xs[j]))
  {
    if |xs| > 0 {
      FilterHead(xs[1..], keep);
      if keep(xs[0]) {
        assert xs[0] == Filter(xs, keep)[0];
      } else if |Filter(xs, keep)| > 0 {
        var i :| 0 <= i < |xs[1..]| && xs[1..][i] == Filter(xs[1..], keep)[0]
                 && (forall j :: 0 <= j < i ==> !keep(xs[1..][j]));
        assert xs[i + 1] == Filter(xs, keep)[0];
        forall j | 0 <= j < i + 1
          ensures !keep(xs[j])
        {
          if j > 0 {
            assert xs[j] == xs[1..][j - 1];
          }
        }
      } else {
        forall i | 0 <= i < |xs|
          ensures !keep(xs[i])
        {
          if i > 0 {
            assert xs[i] == xs[1..][i - 1];
          }
        }
      }
    }
  }

  /** Apply `f` to each element in order and keep the defined results: a
      loop that appends only some of its computed values. */
  function FilterMap<A, B>(xs: seq<A>, f: A -> Option<B>): seq<B> {
    if |xs| == 0 then []
    else
      match f(xs[0])
      case Some(y) => [y] + FilterMap(xs[1..], f)
      case None => FilterMap(xs[1..], f)
  }

  /** When `keep` tells which elements `f` is defined on, the results of
      `FilterMap` are `f` of the kept elements, one each, in order. */
  lemma {:induction false} FilterMapInOrder<A, B>(xs: seq<A>, f: A -> Option<B>, keep: A -> bool)
    requires forall i :: 0 <= i < |xs| ==> (f(xs[i]).Some? <==> keep(xs[i]))
    ensures |FilterMap(xs, f)| == |Filter(xs, keep)|
    ensures forall k :: 0 <= k < |FilterMap(xs, f)| ==> f(Filter(xs, keep)[k]) == Some(FilterMap(xs, f)[k])
  {
    if |xs| > 0 {
      var x, rest := xs[0], xs[1..];
      assert forall i :: 0 <= i < |rest| ==> rest[i] == xs[i + 1];
      FilterMapInOrder(rest, f, keep);
      var q, qs := Filter(xs, keep), Filter(rest, keep);
      var ys, restYs := FilterMap(xs, f), FilterMap(rest, f);
      if keep(x) {
        assert q == [x] + qs;
        assert ys == [f(x).value] + restYs;
        forall k | 0 <= k < |ys|
          ensures f(q[k]) == Some(ys[k])
        {
          if k > 0 {
            assert q[k] == qs[k - 1];
            assert ys[k] == restYs[k - 1];
          }
        }
      } else {
        assert q == qs;
        assert ys == restYs;
      }
    }
  }
}
