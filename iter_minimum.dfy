/**
  `IterClass`: the smallest iterable class. It keeps the list it was built
  with, and every `iter()` on it starts a fresh generator that yields that
  list's elements from the first to the last.
 */
module IterMinimum {
  import opened Builtins

  /** `IterClass(values)`: the list is stored as given. */
  datatype IterClass<T> = IterClass(values: seq<T>)

  /** A running `yield from values` generator: the list and how far it has got. */
  datatype Generator<T> = Generator(source: seq<T>, pos: nat)
  {
    ghost predicate Valid() {
      pos <= |source|
    }
  }

  /** `iter(c)`: a new generator at the first element. */
  function Iter<T>(c: IterClass<T>): (g: Generator<T>)
    ensures g.Valid() && g.pos == 0 && g.source == c.values
  {
    Generator(c.values, 0)
  }

  /** `next(g)`: the next element and the advanced generator, or None for StopIteration. */
  function Next<T>(g: Generator<T>): (r: Option<(T, Generator<T>)>)
    requires g.Valid()
    ensures r.None? <==> g.pos == |g.source|
    ensures r.Some? ==> r.value.0 == g.source[g.pos] && r.value.1.Valid()
                        && r.value.1.source == g.source && r.value.1.pos == g.pos + 1
  {
    if g.pos < |g.source| then Some((g.source[g.pos], Generator(g.source, g.pos + 1))) else None
  }

  /** Everything a generator still yields, calling `next` until StopIteration. */
  function Drain<T>(g: Generator<T>): (r: seq<T>)
    requires g.Valid()
    ensures |r| == |g.source| - g.pos
    decreases |g.source| - g.pos
  {
    match Next(g)
    case None => []
    case Some((x, rest)) => [x] + Drain(rest)
  }

  /** A generator yields exactly the elements of its list from its position on, in order. */
  lemma {:induction false} DrainYieldsRest<T>(g: Generator<T>)
    requires g.Valid()
    ensures Drain(g) == g.source[g.pos..]
    decreases |g.source| - g.pos
  {
    if g.pos < |g.source| {
      DrainYieldsRest(Generator(g.source, g.pos + 1));
    }
  }

  /**
    Iterating an `IterClass` yields exactly the stored values in order, as
    many as there are. `Iter` depends on nothing but `c`, so each `iter()`
    starts again from the first element; an earlier generator over the same
    list, whatever its position, is unaffected and yields only its own rest.
   */
  lemma IterationYieldsValues<T>(c: IterClass<T>, earlier: Generator<T>)
    requires earlier.Valid() && earlier.source == c.values
    ensures Drain(Iter(c)) == c.values
    ensures |Drain(Iter(c))| == |c.values|
    ensures Drain(earlier) == c.values[earlier.pos..]
  {
    DrainYieldsRest(Iter(c));
    DrainYieldsRest(earlier);
  }

  /** `[v for v in c if keyword in v]`: the iterated strings that contain `keyword`, in order. */
  function SelectContaining(c: IterClass<string>, keyword: string): (r: seq<string>)
    ensures forall x :: x in r <==> x in c.values && Contains(x, keyword)
  {
    DrainYieldsRest(Iter(c));
    Filter(Drain(Iter(c)), keyword)
  }

  function Filter(xs: seq<string>, keyword: string): (r: seq<string>)
    ensures |r| <= |xs|
    ensures forall x :: x in r <==> x in xs && Contains(x, keyword)
  {
    if xs == [] then []
    else if Contains(xs[0], keyword) then [xs[0]] + Filter(xs[1..], keyword)
    else Filter(xs[1..], keyword)
  }

  /**
    The comprehension keeps order and repetitions: the strings kept from a
    concatenation are those kept from each part, in turn.
   */
  lemma {:induction false} FilterAppend(xs: seq<string>, ys: seq<string>, keyword: string)
    ensures Filter(xs + ys, keyword) == Filter(xs, keyword) + Filter(ys, keyword)
  {
    if xs != [] {
      assert (xs + ys)[1..] == xs[1..] + ys;
      FilterAppend(xs[1..], ys, keyword);
    } else {
      assert xs + ys == ys;
    }
  }

  /** One string is kept exactly when it contains the keyword. */
  lemma FilterOne(x: string, keyword: string)
    ensures Filter([x], keyword) == if Contains(x, keyword) then [x] else []
  {
    assert [x][1..] == [];
  }

  /** A list none of whose strings contains `keyword` filters to nothing. */
  lemma {:induction false} FilterNone(xs: seq<string>, keyword: string)
    requires forall i :: 0 <= i < |xs| ==> !Contains(xs[i], keyword)
    ensures Filter(xs, keyword) == []
  {
    if xs != [] {
      assert forall i :: 0 <= i < |xs[1..]| ==> xs[1..][i] == xs[i + 1];
      FilterNone(xs[1..], keyword);
    }
  }

  /** The filter of the script's demonstration, on its list. */
  lemma DemoFilter(xs: seq<string>, keyword: string)
    requires xs == ["a", "ab", "abc", "bb", "cc"] && keyword == "a"
    ensures Filter(xs, keyword) == ["a", "ab", "abc"]
  {
    assert Filter(xs[3..], keyword) == [] by {
      ContainsChar(xs[3], 'a');
      ContainsChar(xs[4], 'a');
      FilterNone(xs[3..], keyword);
    }
    assert Filter(xs[2..], keyword) == [xs[2]] by {
      ContainsChar(xs[2], 'a');
      assert xs[2..][1..] == xs[3..];
    }
    assert Filter(xs[1..], keyword) == [xs[1], xs[2]] by {
      ContainsChar(xs[1], 'a');
      assert xs[1..][1..] == xs[2..];
    }
    ContainsChar(xs[0], 'a');
  }

  /** The script's demonstration keeps the three strings that contain "a". */
  lemma DemoSelect()
    ensures SelectContaining(IterClass(["a", "ab", "abc", "bb", "cc"]), "a") == ["a", "ab", "abc"]
  {
    var c := IterClass(["a", "ab", "abc", "bb", "cc"]);
    DrainYieldsRest(Iter(c));
    DemoFilter(c.values, "a");
  }
}
