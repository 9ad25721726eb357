/**
 Pages reduced to their media boxes. An input page is a `Leaf`; a page built
 by composition is `Composed` and records, in order, every page merged onto it
 together with the translation it was merged at. Page content is not modelled.
 */
module Pages {

  datatype Page =
    | Leaf(id: nat, w: real, h: real)
    | Composed(w: real, h: real, parts: seq<Placed>)

  /** A page merged onto a composed page, translated by `(dx, dy)`. */
  datatype Placed = Placed(page: Page, dx: real, dy: real)

  /** The `ValueError` raised when asked to compose no pages at all. */
  datatype Error = EmptyPageList

  datatype Result<T> = Ok(value: T) | Err(error: Error)

  /** The pages a page is made of, in placement order; an input page has none. */
  function Members(p: Page): (ms: seq<Page>)
    ensures p.Composed? ==> |ms| == |p.parts|
  {
    match p
    case Leaf(_, _, _) => []
    case Composed(_, _, parts) => seq(|parts|, k requires 0 <= k < |parts| => parts[k].page)
  }

  function Widths(ps: seq<Page>): (ws: seq<real>)
    ensures |ws| == |ps|
  {
    seq(|ps|, k requires 0 <= k < |ps| => ps[k].w)
  }

  function Heights(ps: seq<Page>): (hs: seq<real>)
    ensures |hs| == |ps|
  {
    seq(|ps|, k requires 0 <= k < |ps| => ps[k].h)
  }

  /** Left-to-right sum, as Python's `sum` starting from 0. */
  function Sum(xs: seq<real>): real
  {
    if |xs| == 0 then 0.0 else Sum(xs[..|xs| - 1]) + xs[|xs| - 1]
  }

  /** Python's `max` over a non-empty sequence: an element no smaller than any other. */
  function Largest(xs: seq<real>): (m: real)
    requires |xs| > 0
    ensures forall k | 0 <= k < |xs| :: xs[k] <= m
    ensures exists k | 0 <= k < |xs| :: xs[k] == m
  {
    if |xs| == 1 then xs[0]
    else
      var m' := Largest(xs[..|xs| - 1]);
      assert forall k | 0 <= k < |xs| - 1 :: xs[..|xs| - 1][k] == xs[k];
      if xs[|xs| - 1] > m' then xs[|xs| - 1] else m'
  }

  predicate NonNegative(xs: seq<real>)
  {
    forall k | 0 <= k < |xs| :: xs[k] >= 0.0
  }

  predicate Positive(xs: seq<real>)
  {
    forall k | 0 <= k < |xs| :: xs[k] > 0.0
  }

  lemma {:induction false} SumStep(xs: seq<real>, k: nat)
    requires k < |xs|
    ensures Sum(xs[..k + 1]) == Sum(xs[..k]) + xs[k]
  {
    assert xs[..k + 1][..k] == xs[..k];
  }

  /** The same sum taken from the front. */
  lemma {:induction false} SumFront(xs: seq<real>)
    requires |xs| > 0
    ensures Sum(xs) == xs[0] + Sum(xs[1..])
    decreases |xs|
  {
    if |xs| > 1 {
      var init := xs[..|xs| - 1];
      SumFront(init);
      assert init[1..] == xs[1..][..|xs| - 2];
    }
  }

  /** The largest element is the larger of the first one and the largest of the rest. */
  lemma {:induction false} LargestFront(xs: seq<real>)
    requires |xs| > 1
    ensures Largest(xs) == (if xs[0] > Largest(xs[1..]) then xs[0] else Largest(xs[1..]))
  {
    var m, m' := Largest(xs), Largest(xs[1..]);
    assert forall k | 1 <= k < |xs| :: xs[k] == xs[1..][k - 1];
  }

  lemma {:induction false} SumNonNegative(xs: seq<real>)
    requires NonNegative(xs)
    ensures Sum(xs) >= 0.0
  {
    if |xs| > 0 {
      SumNonNegative(xs[..|xs| - 1]);
    }
  }

  /** Prefix sums of non-negative terms grow with the prefix and stay between 0 and the total. */
  lemma {:induction false} SumPrefixMonotone(xs: seq<real>, j: nat, k: nat)
    requires NonNegative(xs) && j <= k <= |xs|
    ensures 0.0 <= Sum(xs[..j]) <= Sum(xs[..k]) <= Sum(xs)
    decreases |xs| - j
  {
    assert xs[..|xs|] == xs;
    SumNonNegative(xs[..j]);
    if j < |xs| {
      SumStep(xs, j);
      SumPrefixMonotone(xs, j + 1, if k == j then j + 1 else k);
    }
  }

  /** Prefix sums of positive terms strictly grow with the prefix. */
  lemma {:induction false} SumPrefixStrict(xs: seq<real>, j: nat, k: nat)
    requires Positive(xs) && j < k <= |xs|
    ensures Sum(xs[..j]) < Sum(xs[..k])
    decreases k - j
  {
    SumStep(xs, j);
    if j + 1 < k {
      SumPrefixStrict(xs, j + 1, k);
    }
  }
}
