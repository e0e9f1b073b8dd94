/** Small types shared by the other modules. */
module Basics {
  datatype Option<+T> = None | Some(value: T)

  datatype Result<+T, +E> = Ok(value: T) | Err(error: E)

  /** An octet of a buffer or of a file. */
  type byte = b: int | 0 <= b < 256

  function Max(a: int, b: int): int {
    if a < b then b else a
  }

  lemma {:induction false} SubsetCount<T>(a: set<T>, b: set<T>)
    requires a <= b
    ensures |a| <= |b|
  {
    if a != {} {
      var x :| x in a;
      SubsetCount(a - {x}, b - {x});
    }
  }

  /** An arbitrary member: maps and sets of the sources have no order of their own. */
  method Pick<T(==)>(s: set<T>) returns (x: T)
    requires s != {}
    ensures x in s
  {
    x :| x in s;
  }

  /** What `f` gives for each element, end to end. */
  function Collect<A, B>(xs: seq<A>, f: A -> seq<B>): seq<B> {
    if xs == [] then [] else Collect(xs[..|xs| - 1], f) + f(xs[|xs| - 1])
  }

  lemma CollectMore<A, B>(xs: seq<A>, x: A, f: A -> seq<B>)
    ensures Collect(xs + [x], f) == Collect(xs, f) + f(x)
  {
    assert (xs + [x])[..|xs|] == xs;
  }

  lemma {:induction false} CollectConcat<A, B>(xs: seq<A>, ys: seq<A>, f: A -> seq<B>)
    ensures Collect(xs + ys, f) == Collect(xs, f) + Collect(ys, f)
    decreases |ys|
  {
    if ys == [] {
      assert xs + ys == xs;
    } else {
      var n := |ys| - 1;
      CollectConcat(xs, ys[..n], f);
      CollectMore(xs + ys[..n], ys[n], f);
      assert xs + ys == xs + ys[..n] + [ys[n]];
    }
  }

  /** Where in the sequence `p` holds. */
  function Positions<A>(xs: seq<A>, p: A -> bool): set<int> {
    set i | 0 <= i < |xs| && p(xs[i])
  }

  lemma PositionsMore<A>(xs: seq<A>, x: A, p: A -> bool)
    ensures |Positions(xs + [x], p)| == |Positions(xs, p)| + if p(x) then 1 else 0
  {
    var more := xs + [x];
    assert more[|xs|] == x && forall i :: 0 <= i < |xs| ==> more[i] == xs[i];
    assert Positions(more, p) == Positions(xs, p) + if p(x) then {|xs|} else {};
  }
}
