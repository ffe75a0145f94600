/**
 * Keeping the results of a partial function along a sequence: the shape of
 * both the RegexIterator in GET_MATCH mode (names to the coordinates they
 * match) and the generator of getAllChunks (coordinates to the chunks
 * present there).
 */
module FilterMaps {
  import opened Wrappers

  /** No element, or the one found. */
  function Found<U>(o: Option<U>): seq<U>
  {
    match o
    case Some(y) => [y]
    case None => []
  }

  /** The defined results of `f` along `xs`, in order. */
  function FilterMap<T, U>(f: T -> Option<U>, xs: seq<T>): (r: seq<U>)
    ensures |r| <= |xs|
  {
    if xs == [] then [] else FilterMap(f, xs[..|xs| - 1]) + Found(f(xs[|xs| - 1]))
  }

  /** A value is kept exactly when `f` gives it for some element. */
  lemma {:induction false} FilterMapExactly<T, U>(f: T -> Option<U>, xs: seq<T>, y: U)
    ensures y in FilterMap(f, xs) <==> exists i :: 0 <= i < |xs| && f(xs[i]) == Some(y)
  {
    if xs != [] {
      var front, last := xs[..|xs| - 1], f(xs[|xs| - 1]);
      FilterMapExactly(f, front, y);
      assert y in Found(last) <==> last == Some(y);
      if exists i :: 0 <= i < |xs| && f(xs[i]) == Some(y) {
        var i :| 0 <= i < |xs| && f(xs[i]) == Some(y);
        if i < |front| {
          assert front[i] == xs[i];
        }
      }
      if exists i :: 0 <= i < |front| && f(front[i]) == Some(y) {
        var i :| 0 <= i < |front| && f(front[i]) == Some(y);
        assert xs[i] == front[i];
      }
    }
  }

  /** Appending an element appends what `f` gives for it. */
  lemma FilterMapSnoc<T, U>(f: T -> Option<U>, xs: seq<T>, x: T)
    ensures FilterMap(f, xs + [x]) == FilterMap(f, xs) + Found(f(x))
  {
    assert (xs + [x])[..|xs|] == xs;
  }

  /** Filtering two sequences one after the other. */
  lemma {:induction false} FilterMapAppend<T, U>(f: T -> Option<U>, a: seq<T>, b: seq<T>)
    ensures FilterMap(f, a + b) == FilterMap(f, a) + FilterMap(f, b)
  {
    if b != [] {
      var front, x := b[..|b| - 1], b[|b| - 1];
      assert a + b == (a + front) + [x];
      assert b == front + [x];
      FilterMapAppend(f, a, front);
      FilterMapSnoc(f, a + front, x);
      FilterMapSnoc(f, front, x);
    } else {
      assert a + b == a;
    }
  }

  /** Functions that agree on every element keep the same results. */
  lemma {:induction false} FilterMapAgree<T, U>(f: T -> Option<U>, g: T -> Option<U>, xs: seq<T>)
    requires forall i :: 0 <= i < |xs| ==> f(xs[i]) == g(xs[i])
    ensures FilterMap(f, xs) == FilterMap(g, xs)
  {
    if xs != [] {
      FilterMapAgree(f, g, xs[..|xs| - 1]);
    }
  }
}
