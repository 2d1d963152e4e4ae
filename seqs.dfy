/**
 * `Array.prototype.filter`, a loop that pushes zero or more results per
 * element, and facts about sequences that the record and group proofs share.
 */
module Seqs {
  /** `xs.filter(keep)`: the elements that pass, in order. */
  function Filter<T>(xs: seq<T>, keep: T -> bool): seq<T>
  {
    if xs == [] then [] else (if keep(xs[0]) then [xs[0]] else []) + Filter(xs[1..], keep)
  }

  lemma {:induction false} FilterAppend<T>(a: seq<T>, b: seq<T>, keep: T -> bool)
    ensures Filter(a + b, keep) == Filter(a, keep) + Filter(b, keep)
  {
    if a == [] {
      assert a + b == b;
    } else {
      var x, rest := a[0], a[1..];
      var head := if keep(x) then [x] else [];
      assert a + b == [x] + (rest + b);
      assert a == [x] + rest;
      FilterCons(x, rest + b, keep);
      FilterCons(x, rest, keep);
      FilterAppend(rest, b, keep);
      AppendAssoc(head, Filter(rest, keep), Filter(b, keep));
    }
  }

  lemma FilterCons<T>(x: T, s: seq<T>, keep: T -> bool)
    ensures Filter([x] + s, keep) == (if keep(x) then [x] else []) + Filter(s, keep)
  {
    assert ([x] + s)[0] == x && ([x] + s)[1..] == s;
  }

  /** The kept elements are the elements that pass, and nothing else. */
  lemma {:induction false} FilterMembers<T>(xs: seq<T>, keep: T -> bool)
    ensures |Filter(xs, keep)| <= |xs|
    ensures forall x :: x in Filter(xs, keep) <==> x in xs && keep(x)
  {
    if xs != [] {
      FilterMembers(xs[1..], keep);
      assert xs == [xs[0]] + xs[1..];
    }
  }

  /** An element that fails is dropped and changes nothing else. */
  lemma FilterDrops<T>(before: seq<T>, x: T, after: seq<T>, keep: T -> bool)
    requires !keep(x)
    ensures Filter(before + [x] + after, keep) == Filter(before + after, keep)
  {
    FilterAppend(before + [x], after, keep);
    FilterAppend(before, [x], keep);
    FilterAppend(before, after, keep);
    assert Filter([x], keep) == [] by {
      assert [x][1..] == [];
    }
    AppendEmpty(Filter(before, keep));
  }

  lemma SliceAt<T>(s: seq<T>, n: nat, i: nat)
    requires i < n <= |s|
    ensures s[..n][i] == s[i]
  {
  }

  lemma SliceSnoc<T>(s: seq<T>, i: nat)
    requires i < |s|
    ensures s[..i + 1] == s[..i] + [s[i]]
  {
  }

  lemma AppendEmpty<T>(a: seq<T>)
    ensures a + [] == a
  {
  }

  lemma AppendAssoc<T>(x: seq<T>, y: seq<T>, z: seq<T>)
    ensures (x + y) + z == x + (y + z)
  {
  }

  lemma SnocSplit<T>(a: seq<T>, b: seq<T>)
    requires b != []
    ensures a + b == (a + b[..|b| - 1]) + [b[|b| - 1]]
    ensures b == b[..|b| - 1] + [b[|b| - 1]]
  {
  }

  lemma SnocMembers<T>(s: seq<T>)
    requires s != []
    ensures forall x :: x in s <==> x in s[..|s| - 1] || x == s[|s| - 1]
  {
    assert s == s[..|s| - 1] + [s[|s| - 1]];
  }

  lemma ConcatMember<T>(a: seq<T>, b: seq<T>, x: T)
    ensures x in a + b <==> x in a || x in b
  {
  }

  lemma ThreeMembers<T>(s: seq<T>, x: T)
    requires |s| == 3
    ensures x in s <==> x == s[0] || x == s[1] || x == s[2]
  {
    assert s == [s[0], s[1], s[2]];
  }

  /** The results of `f` for each element in turn, concatenated. */
  function FlatMap<T, R>(xs: seq<T>, f: T -> seq<R>): seq<R>
  {
    if xs == [] then [] else FlatMap(xs[..|xs| - 1], f) + f(xs[|xs| - 1])
  }

  lemma FlatMapSnoc<T, R>(xs: seq<T>, x: T, f: T -> seq<R>)
    ensures FlatMap(xs + [x], f) == FlatMap(xs, f) + f(x)
  {
    assert (xs + [x])[..|xs|] == xs;
  }

  /** One more step of the loop, as the loop body sees it. */
  lemma FlatMapStep<T, R>(xs: seq<T>, i: nat, f: T -> seq<R>)
    requires i < |xs|
    ensures FlatMap(xs[..i + 1], f) == FlatMap(xs[..i], f) + f(xs[i])
  {
    SliceSnoc(xs, i);
    FlatMapSnoc(xs[..i], xs[i], f);
  }

  lemma {:induction false} FlatMapAppend<T, R>(a: seq<T>, b: seq<T>, f: T -> seq<R>)
    ensures FlatMap(a + b, f) == FlatMap(a, f) + FlatMap(b, f)
  {
    if b == [] {
      AppendEmpty(a);
      AppendEmpty(FlatMap(a, f));
    } else {
      var n := |b| - 1;
      SnocSplit(a, b);
      FlatMapSnoc(a + b[..n], b[n], f);
      FlatMapSnoc(b[..n], b[n], f);
      FlatMapAppend(a, b[..n], f);
      AppendAssoc(FlatMap(a, f), FlatMap(b[..n], f), f(b[n]));
    }
  }

  /** An element with no result leaves no trace. */
  lemma FlatMapDrops<T, R>(before: seq<T>, x: T, after: seq<T>, f: T -> seq<R>)
    requires f(x) == []
    ensures FlatMap(before + [x] + after, f) == FlatMap(before + after, f)
  {
    FlatMapAppend(before + [x], after, f);
    FlatMapSnoc(before, x, f);
    AppendEmpty(FlatMap(before, f));
    FlatMapAppend(before, after, f);
  }

  /** With at most one result per element, there are at most as many results as elements. */
  lemma {:induction false} FlatMapBound<T, R>(xs: seq<T>, f: T -> seq<R>)
    requires forall i :: 0 <= i < |xs| ==> |f(xs[i])| <= 1
    ensures |FlatMap(xs, f)| <= |xs|
  {
    if xs != [] {
      var n := |xs| - 1;
      forall i | 0 <= i < n ensures |f(xs[..n][i])| <= 1 {
        SliceAt(xs, n, i);
      }
      FlatMapBound(xs[..n], f);
    }
  }

  /** With exactly one result `g(x)` per element `x`, the results line up with the elements. */
  lemma {:induction false} FlatMapSingles<T, R>(xs: seq<T>, f: T -> seq<R>, g: T -> R)
    requires forall i :: 0 <= i < |xs| ==> f(xs[i]) == [g(xs[i])]
    ensures |FlatMap(xs, f)| == |xs|
    ensures forall i :: 0 <= i < |xs| ==> FlatMap(xs, f)[i] == g(xs[i])
  {
    if xs != [] {
      var n := |xs| - 1;
      var init := xs[..n];
      forall i | 0 <= i < n ensures f(init[i]) == [g(init[i])] {
        SliceAt(xs, n, i);
      }
      FlatMapSingles(init, f, g);
      var prev, last := FlatMap(init, f), f(xs[n]);
      forall i | 0 <= i < |xs| ensures FlatMap(xs, f)[i] == g(xs[i]) {
        if i < n {
          SliceAt(xs, n, i);
          assert (prev + last)[i] == prev[i];
        } else {
          assert (prev + last)[i] == last[0];
        }
      }
    }
  }

  /** Every result comes from one of the elements. */
  lemma {:induction false} FlatMapFrom<T, R>(xs: seq<T>, f: T -> seq<R>)
    ensures forall r :: r in FlatMap(xs, f) ==> exists i :: 0 <= i < |xs| && r in f(xs[i])
  {
    if xs != [] {
      var n := |xs| - 1;
      var init := xs[..n];
      FlatMapFrom(init, f);
      forall r | r in FlatMap(xs, f) ensures exists i :: 0 <= i < |xs| && r in f(xs[i]) {
        ConcatMember(FlatMap(init, f), f(xs[n]), r);
        if r in FlatMap(init, f) {
          var i :| 0 <= i < n && r in f(init[i]);
          SliceAt(xs, n, i);
        }
      }
    }
  }

  /** Every result of every element is among the results. */
  lemma {:induction false} FlatMapTo<T, R>(xs: seq<T>, f: T -> seq<R>, i: nat, r: R)
    requires i < |xs| && r in f(xs[i])
    ensures r in FlatMap(xs, f)
  {
    var n := |xs| - 1;
    ConcatMember(FlatMap(xs[..n], f), f(xs[n]), r);
    if i < n {
      SliceAt(xs, n, i);
      FlatMapTo(xs[..n], f, i, r);
      ConcatMember(FlatMap(xs[..n], f), f(xs[n]), r);
    }
  }

  /** With no result for any element, there is no result at all. */
  lemma {:induction false} FlatMapNone<T, R>(xs: seq<T>, f: T -> seq<R>)
    requires forall i :: 0 <= i < |xs| ==> f(xs[i]) == []
    ensures FlatMap(xs, f) == []
  {
    if xs != [] {
      var n := |xs| - 1;
      forall i | 0 <= i < n ensures f(xs[..n][i]) == [] {
        SliceAt(xs, n, i);
      }
      FlatMapNone(xs[..n], f);
    }
  }

  /** `xs.map(g)`. */
  function MapSeq<T, R>(xs: seq<T>, g: T -> R): (r: seq<R>)
    ensures |r| == |xs|
  {
    if xs == [] then [] else MapSeq(xs[..|xs| - 1], g) + [g(xs[|xs| - 1])]
  }

  /** Each element of `xs.map(g)` is `g` of the element at the same position. */
  lemma {:induction false} MapSeqAt<T, R>(xs: seq<T>, g: T -> R, i: nat)
    requires i < |xs|
    ensures MapSeq(xs, g)[i] == g(xs[i])
  {
    var n := |xs| - 1;
    if i < n {
      SliceAt(xs, n, i);
      MapSeqAt(xs[..n], g, i);
    }
  }
}
