module Wrappers {
  datatype Option<+T> = None | Some(value: T)
  datatype Result<+T, +E> = Ok(value: T) | Err(error: E)

  /**
   * Applies `f` to every element in order and stops at the first error, as a
   * Python loop does when one iteration raises.
   */
  function MapAll<A, B, E>(f: A -> Result<B, E>, xs: seq<A>): (r: Result<seq<B>, E>)
    ensures r.Ok? ==> |r.value| == |xs|
  {
    if xs == [] then Ok([])
    else
      match MapAll(f, xs[..|xs| - 1])
      case Err(e) => Err(e)
      case Ok(ys) =>
        match f(xs[|xs| - 1])
        case Err(e) => Err(e)
        case Ok(y) => Ok(ys + [y])
  }

  /** One more element: the result grows by that element's image, or takes its error. */
  lemma MapAllStep<A, B, E>(f: A -> Result<B, E>, xs: seq<A>, i: nat)
    requires i < |xs|
    ensures MapAll(f, xs[..i]).Err? ==> MapAll(f, xs[..i + 1]) == MapAll(f, xs[..i])
    ensures MapAll(f, xs[..i]).Ok? && f(xs[i]).Err? ==> MapAll(f, xs[..i + 1]) == Err(f(xs[i]).error)
    ensures MapAll(f, xs[..i]).Ok? && f(xs[i]).Ok? ==>
      MapAll(f, xs[..i + 1]) == Ok(MapAll(f, xs[..i]).value + [f(xs[i]).value])
  {
    assert xs[..i + 1][..i] == xs[..i];
  }

  /** Once a prefix fails, the whole sequence fails with the same error. */
  lemma {:induction false} MapAllPrefixErr<A, B, E>(f: A -> Result<B, E>, xs: seq<A>, k: nat)
    requires k <= |xs| && MapAll(f, xs[..k]).Err?
    ensures MapAll(f, xs) == MapAll(f, xs[..k])
    decreases |xs| - k
  {
    if k < |xs| {
      MapAllStep(f, xs, k);
      MapAllPrefixErr(f, xs, k + 1);
    } else {
      assert xs[..k] == xs;
    }
  }

  /** The whole succeeds exactly when every element does, and then holds each element's image. */
  lemma {:induction false} MapAllSpec<A, B, E>(f: A -> Result<B, E>, xs: seq<A>)
    ensures MapAll(f, xs).Ok? <==> forall i :: 0 <= i < |xs| ==> f(xs[i]).Ok?
    ensures MapAll(f, xs).Ok? ==> forall i :: 0 <= i < |xs| ==> MapAll(f, xs).value[i] == f(xs[i]).value
  {
    if xs != [] {
      var n := |xs| - 1;
      var init := xs[..n];
      MapAllSpec(f, init);
      MapAllStep(f, xs, n);
      assert xs[..n + 1] == xs;
      if MapAll(f, init).Err? {
        var j :| 0 <= j < n && f(init[j]).Err?;
        assert init[j] == xs[j];
      } else if f(xs[n]).Ok? {
        forall i | 0 <= i < n ensures MapAll(f, xs).value[i] == f(xs[i]).value {
          assert init[i] == xs[i];
        }
      }
    }
  }

  /**
   * Replaces every element of `a` by its image under `f`, in order, and stops
   * at the first error. The elements before the failing one are already
   * replaced then, as with a loop that updates records in place.
   */
  method UpdateEach<A, E>(f: A -> Result<A, E>, a: array<A>) returns (err: Option<E>)
    modifies a
    ensures MapAll(f, old(a[..])).Ok? ==> err == None && a[..] == MapAll(f, old(a[..])).value
    ensures MapAll(f, old(a[..])).Err? ==> err == Some(MapAll(f, old(a[..])).error)
  {
    ghost var xs := a[..];
    var i := 0;
    while i < a.Length
      invariant 0 <= i <= a.Length == |xs|
      invariant MapAll(f, xs[..i]).Ok?
      invariant a[..i] == MapAll(f, xs[..i]).value
      invariant a[i..] == xs[i..]
    {
      ghost var done := a[..i];
      assert a[i] == xs[i];
      var y := f(a[i]);
      MapAllStep(f, xs, i);
      if y.Err? {
        MapAllPrefixErr(f, xs, i + 1);
        return Some(y.error);
      }
      a[i] := y.value;
      assert a[..i + 1] == done + [y.value];
      i := i + 1;
    }
    assert xs[..i] == xs && a[..i] == a[..];
    return None;
  }

  /** A list comprehension `[x for x in s if f(x)]`: the kept elements, in order. */
  function Filter<T>(s: seq<T>, f: T -> bool): (r: seq<T>)
    ensures |r| <= |s|
    ensures forall x :: x in r ==> x in s && f(x)
    ensures forall x :: x in s && f(x) ==> x in r
  {
    if s == [] then []
    else (if f(s[0]) then [s[0]] else []) + Filter(s[1..], f)
  }

  /** The elements kept by `f` and those kept by its negation add up to the whole list. */
  lemma {:induction false} FilterSplit<T>(s: seq<T>, f: T -> bool, g: T -> bool)
    requires forall i :: 0 <= i < |s| ==> g(s[i]) == !f(s[i])
    ensures |Filter(s, f)| + |Filter(s, g)| == |s|
  {
    if s != [] {
      FilterSplit(s[1..], f, g);
    }
  }

  lemma {:induction false} FilterAppend<T>(a: seq<T>, b: seq<T>, f: T -> bool)
    ensures Filter(a + b, f) == Filter(a, f) + Filter(b, f)
  {
    if a == [] {
      assert a + b == b;
    } else {
      assert (a + b)[0] == a[0] && (a + b)[1..] == a[1..] + b;
      FilterAppend(a[1..], b, f);
    }
  }

  /** Filtering keeps a list whose every element passes, and empties one where none does. */
  lemma {:induction false} FilterAllOrNone<T>(s: seq<T>, f: T -> bool)
    ensures (forall i :: 0 <= i < |s| ==> f(s[i])) ==> Filter(s, f) == s
    ensures (forall i :: 0 <= i < |s| ==> !f(s[i])) ==> Filter(s, f) == []
  {
    if s != [] {
      FilterAllOrNone(s[1..], f);
      assert s == [s[0]] + s[1..];
    }
  }
}
