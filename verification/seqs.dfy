/** Sequence helpers shared by the link extractor and the content transplanter. */
module Seqs {
  import opened Results

  /** The one-element sequence of a present value, or nothing. */
  function Emit<B>(o: Option<B>): seq<B> {
    match o
    case Some(y) => [y]
    case None => []
  }

  /** Applies `f(c, _)` to every element in order and keeps the values it yields,
      dropping the elements it maps to `None`. */
  function FilterMap<C, A, B>(f: (C, A) -> Option<B>, c: C, xs: seq<A>): seq<B>
    decreases |xs|
  {
    if xs == [] then [] else Emit(f(c, xs[0])) + FilterMap(f, c, xs[1..])
  }

  /** The positions of `xs` that `f(c, _)` keeps. */
  ghost function KeptIndices<C, A, B>(f: (C, A) -> Option<B>, c: C, xs: seq<A>): set<int> {
    set i | 0 <= i < |xs| && f(c, xs[i]).Some?
  }

  /** Filtering commutes with concatenation: nothing moves across the seam. */
  lemma {:induction false} FilterMapAppend<C, A, B>(f: (C, A) -> Option<B>, c: C, xs: seq<A>, ys: seq<A>)
    ensures FilterMap(f, c, xs + ys) == FilterMap(f, c, xs) + FilterMap(f, c, ys)
    decreases |xs|
  {
    if xs == [] {
      assert xs + ys == ys;
    } else {
      assert (xs + ys)[0] == xs[0];
      assert (xs + ys)[1..] == xs[1..] + ys;
      FilterMapAppend(f, c, xs[1..], ys);
    }
  }

  /** A single element contributes exactly what `f` yields for it. */
  lemma FilterMapSingle<C, A, B>(f: (C, A) -> Option<B>, c: C, x: A)
    ensures FilterMap(f, c, [x]) == Emit(f(c, x))
  {
    assert [x][1..] == [];
  }

  /** An element `f` drops contributes nothing wherever it stands. */
  lemma FilterMapSkips<C, A, B>(f: (C, A) -> Option<B>, c: C, xs: seq<A>, x: A, ys: seq<A>)
    requires f(c, x).None?
    ensures FilterMap(f, c, xs + [x] + ys) == FilterMap(f, c, xs + ys)
  {
    FilterMapAppend(f, c, xs + [x], ys);
    FilterMapAppend(f, c, xs, [x]);
    FilterMapSingle(f, c, x);
    FilterMapAppend(f, c, xs, ys);
  }

  /** One output per kept position: duplicates among the values are all kept. */
  lemma {:induction false} FilterMapLength<C, A, B>(f: (C, A) -> Option<B>, c: C, xs: seq<A>)
    ensures |FilterMap(f, c, xs)| == |KeptIndices(f, c, xs)|
    decreases |xs|
  {
    if xs == [] {
      assert KeptIndices(f, c, xs) == {};
    } else {
      var init, last := xs[..|xs| - 1], xs[|xs| - 1];
      assert xs == init + [last];
      FilterMapAppend(f, c, init, [last]);
      FilterMapSingle(f, c, last);
      FilterMapLength(f, c, init);
      KeptIndicesStep(f, c, xs);
    }
  }

  /** Extending the input by one element keeps one more position exactly when that element is kept. */
  lemma KeptIndicesStep<C, A, B>(f: (C, A) -> Option<B>, c: C, xs: seq<A>)
    requires xs != []
    ensures |KeptIndices(f, c, xs)|
      == |KeptIndices(f, c, xs[..|xs| - 1])| + (if f(c, xs[|xs| - 1]).Some? then 1 else 0)
  {
    var init := xs[..|xs| - 1];
    var k := KeptIndices(f, c, init);
    assert forall i :: 0 <= i < |init| ==> xs[i] == init[i];
    if f(c, xs[|xs| - 1]).Some? {
      assert KeptIndices(f, c, xs) == k + {|init|};
    } else {
      assert KeptIndices(f, c, xs) == k;
    }
  }

  /** Every value in the output comes from some input element. */
  lemma {:induction false} FilterMapSource<C, A, B>(f: (C, A) -> Option<B>, c: C, xs: seq<A>, y: B)
    requires y in FilterMap(f, c, xs)
    ensures exists i :: 0 <= i < |xs| && f(c, xs[i]) == Some(y)
    decreases |xs|
  {
    if f(c, xs[0]) == Some(y) {
      assert 0 < |xs|;
    } else {
      assert y in FilterMap(f, c, xs[1..]);
      FilterMapSource(f, c, xs[1..], y);
      var i :| 0 <= i < |xs[1..]| && f(c, xs[1..][i]) == Some(y);
      assert f(c, xs[i + 1]) == Some(y);
    }
  }

  /** Concatenation of a sequence of sequences, in order. */
  function Flatten<A>(xss: seq<seq<A>>): seq<A>
    decreases |xss|
  {
    if xss == [] then [] else xss[0] + Flatten(xss[1..])
  }

  lemma {:induction false} FlattenAppend<A>(xss: seq<seq<A>>, yss: seq<seq<A>>)
    ensures Flatten(xss + yss) == Flatten(xss) + Flatten(yss)
    decreases |xss|
  {
    if xss == [] {
      assert xss + yss == yss;
    } else {
      assert (xss + yss)[1..] == xss[1..] + yss;
      FlattenAppend(xss[1..], yss);
    }
  }

  /** Flattening one more element of a prefix appends that element. */
  lemma FlattenPrefixStep<A>(xss: seq<seq<A>>, m: nat)
    requires 0 < m <= |xss|
    ensures Flatten(xss[..m]) == Flatten(xss[..m - 1]) + xss[m - 1]
  {
    assert xss[..m] == xss[..m - 1] + [xss[m - 1]];
    FlattenAppend(xss[..m - 1], [xss[m - 1]]);
    FlattenSingle(xss[m - 1]);
  }

  /** Flattening a suffix peels off its first element. */
  lemma FlattenSuffixStep<A>(xss: seq<seq<A>>, i: nat)
    requires i < |xss|
    ensures Flatten(xss[i..]) == xss[i] + Flatten(xss[i + 1..])
  {
    assert xss[i..][0] == xss[i] && xss[i..][1..] == xss[i + 1..];
  }

  /** Appending the parts from `i` on is appending the `i`-th part, then the parts after it. */
  lemma FlattenSuffixAppend<A>(acc: seq<A>, xss: seq<seq<A>>, i: nat)
    requires i < |xss|
    ensures acc + Flatten(xss[i..]) == (acc + xss[i]) + Flatten(xss[i + 1..])
  {
    FlattenSuffixStep(xss, i);
  }

  /** When the last part is empty and the one before it ends with `x`, whatever precedes the
      parts, the whole ends with `x`. */
  lemma FlattenEndsWith<A>(prefix: seq<A>, xss: seq<seq<A>>, x: A)
    requires |xss| >= 2 && xss[|xss| - 1] == []
    requires xss[|xss| - 2] != [] && xss[|xss| - 2][|xss[|xss| - 2]| - 1] == x
    ensures var all := prefix + Flatten(xss); all != [] && all[|all| - 1] == x
  {
    var n := |xss|;
    assert xss[..n] == xss;
    FlattenPrefixStep(xss, n);
    FlattenPrefixStep(xss, n - 1);
  }

  lemma FlattenSingle<A>(xs: seq<A>)
    ensures Flatten([xs]) == xs
  {
    assert [xs][1..] == [];
  }

  /** The positions below `m` where `flags` holds. */
  ghost function TruePositions(flags: seq<bool>, m: nat): set<int>
    requires m <= |flags|
  {
    set k | 0 <= k < m && flags[k]
  }

  lemma TruePositionsStep(flags: seq<bool>, m: nat)
    requires 0 < m <= |flags|
    ensures |TruePositions(flags, m)| == |TruePositions(flags, m - 1)| + (if flags[m - 1] then 1 else 0)
  {
    if flags[m - 1] {
      assert TruePositions(flags, m) == TruePositions(flags, m - 1) + {m - 1};
    } else {
      assert TruePositions(flags, m) == TruePositions(flags, m - 1);
    }
  }
}
