/**
 Joining pages side by side or stacked, without scaling (`concat_pdf`).

 `Join` defines a composition one page at a time. `JoinBox` and `JoinPart`
 prove the closed forms the source computes: the box is a sum and a maximum
 of the page sizes, and page `k` sits at a prefix sum. `ConcatPdf` is the
 source's procedure, which walks the pages once with a running offset; it is
 proved to build exactly `Join`. The layout lemmas state what a composition
 means on the page: every part fits, parts abut in input order, and the first
 page of a stack is on top because the origin is the bottom-left corner.
 */
module Compositor {
  import opened Pages

  datatype Direction = Horizontal | Vertical

  /**
   The composition of a non-empty sequence of pages, one page at a time: a
   single page is its own box at the origin; side by side, the last page is
   added at the right edge; stacked, the first page is added on top, so the
   pages already stacked keep their offsets from the bottom edge.
   */
  function Join(ps: seq<Page>, dir: Direction): (r: Page)
    requires |ps| > 0
    ensures r.Composed? && |r.parts| == |ps|
    decreases |ps|
  {
    if |ps| == 1 then Composed(ps[0].w, ps[0].h, [Placed(ps[0], 0.0, 0.0)])
    else
      match dir
      case Horizontal =>
        var rest, p := Join(ps[..|ps| - 1], Horizontal), ps[|ps| - 1];
        Composed(rest.w + p.w, if p.h > rest.h then p.h else rest.h,
                 rest.parts + [Placed(p, rest.w, 0.0)])
      case Vertical =>
        var rest, p := Join(ps[1..], Vertical), ps[0];
        Composed(if p.w > rest.w then p.w else rest.w, p.h + rest.h,
                 [Placed(p, 0.0, rest.h)] + rest.parts)
  }

  /** A composition keeps its pages, in input order. */
  lemma {:induction false} JoinMembers(ps: seq<Page>, dir: Direction)
    requires |ps| > 0
    ensures Members(Join(ps, dir)) == ps
    decreases |ps|
  {
    if |ps| > 1 {
      var r := Join(ps, dir);
      if dir == Horizontal {
        var front := ps[..|ps| - 1];
        JoinMembers(front, dir);
        forall k | 0 <= k < |ps| ensures Members(r)[k] == ps[k] {
          if k < |ps| - 1 {
            assert Members(Join(front, dir))[k] == front[k];
          }
        }
      } else {
        var back := ps[1..];
        JoinMembers(back, dir);
        forall k | 0 <= k < |ps| ensures Members(r)[k] == ps[k] {
          if k > 0 {
            assert Members(Join(back, dir))[k - 1] == back[k - 1];
          }
        }
      }
    }
  }

  /**
   The box of a composition: side by side, the sum of the widths by the
   largest height; stacked, the largest width by the sum of the heights.
   */
  lemma {:induction false} JoinBox(ps: seq<Page>, dir: Direction)
    requires |ps| > 0
    ensures dir == Horizontal ==>
              Join(ps, dir).w == Sum(Widths(ps)) && Join(ps, dir).h == Largest(Heights(ps))
    ensures dir == Vertical ==>
              Join(ps, dir).w == Largest(Widths(ps)) && Join(ps, dir).h == Sum(Heights(ps))
  {
    if dir == Horizontal {
      SideBySideBox(ps);
    } else {
      StackedBox(ps);
    }
  }

  lemma {:induction false} SideBySideBox(ps: seq<Page>)
    requires |ps| > 0
    ensures Join(ps, Horizontal).w == Sum(Widths(ps)) && Join(ps, Horizontal).h == Largest(Heights(ps))
    decreases |ps|
  {
    var n := |ps|;
    if n == 1 {
      assert Widths(ps)[..0] == [];
    } else {
      var front := ps[..n - 1];
      SideBySideBox(front);
      assert Widths(ps)[..n - 1] == Widths(front);
      assert Heights(ps)[..n - 1] == Heights(front);
    }
  }

  lemma {:induction false} StackedBox(ps: seq<Page>)
    requires |ps| > 0
    ensures Join(ps, Vertical).w == Largest(Widths(ps)) && Join(ps, Vertical).h == Sum(Heights(ps))
    decreases |ps|
  {
    var n := |ps|;
    if n == 1 {
      assert Heights(ps)[..0] == [];
    } else {
      var back := ps[1..];
      StackedBox(back);
      SumFront(Heights(ps));
      assert Heights(ps)[1..] == Heights(back);
      LargestFront(Widths(ps));
      assert Widths(ps)[1..] == Widths(back);
    }
  }

  /**
   Where page `k` lands: side by side it is shifted right by the widths
   before it; stacked it is shifted up by the heights after it, that is the
   total height less the heights up to and including its own.
   */
  lemma {:induction false} JoinPart(ps: seq<Page>, dir: Direction, k: nat)
    requires k < |ps|
    ensures dir == Horizontal ==>
              Join(ps, dir).parts[k] == Placed(ps[k], Sum(Widths(ps)[..k]), 0.0)
    ensures dir == Vertical ==>
              Join(ps, dir).parts[k] == Placed(ps[k], 0.0, Sum(Heights(ps)) - Sum(Heights(ps)[..k + 1]))
  {
    if dir == Horizontal {
      SideBySidePart(ps, k);
    } else {
      StackedPart(ps, k);
    }
  }

  lemma {:induction false} SideBySidePart(ps: seq<Page>, k: nat)
    requires k < |ps|
    ensures Join(ps, Horizontal).parts[k] == Placed(ps[k], Sum(Widths(ps)[..k]), 0.0)
    decreases |ps|
  {
    var n := |ps|;
    if n == 1 {
      assert Widths(ps)[..0] == [];
    } else {
      var front := ps[..n - 1];
      var rest := Join(front, Horizontal);
      if k < n - 1 {
        SideBySidePart(front, k);
        assert Widths(front)[..k] == Widths(ps)[..k];
      } else {
        SideBySideBox(front);
        assert Widths(front) == Widths(ps)[..k];
      }
    }
  }

  lemma {:induction false} StackedPart(ps: seq<Page>, k: nat)
    requires k < |ps|
    ensures Join(ps, Vertical).parts[k] == Placed(ps[k], 0.0, Sum(Heights(ps)) - Sum(Heights(ps)[..k + 1]))
    decreases |ps|
  {
    var n := |ps|;
    var hs := Heights(ps);
    if n == 1 {
      assert hs[..1] == hs;
    } else {
      var back := ps[1..];
      var rest := Join(back, Vertical);
      assert Join(ps, Vertical).parts == [Placed(ps[0], 0.0, rest.h)] + rest.parts;
      StackedBox(back);
      SumFront(hs);
      assert hs[1..] == Heights(back);
      if k == 0 {
        SumStep(hs, 0);
        assert hs[..0] == [];
      } else {
        StackedPart(back, k - 1);
        SumFront(hs[..k + 1]);
        assert hs[..k + 1][1..] == Heights(back)[..k];
      }
    }
  }

  /**
   The source's composition: the box is a sum and a maximum of the page
   sizes, then the pages are merged one by one at a running offset.
   */
  method ConcatPdf(pages: seq<Page>, dir: Direction) returns (r: Result<Page>)
    ensures r.Err? <==> |pages| == 0
    ensures r.Err? ==> r.error == EmptyPageList
    ensures r.Ok? ==> r.value == Join(pages, dir)
    ensures |pages| == 1 ==> r == Ok(Composed(pages[0].w, pages[0].h, [Placed(pages[0], 0.0, 0.0)]))
  {
    if |pages| == 0 {
      return Err(EmptyPageList);
    }
    JoinBox(pages, dir);
    var placed: seq<Placed>;
    if dir == Horizontal {
      var totalWidth, totalHeight := Sum(Widths(pages)), Largest(Heights(pages));
      placed := PlaceSideBySide(pages);
      r := Ok(Composed(totalWidth, totalHeight, placed));
    } else {
      var totalWidth, totalHeight := Largest(Widths(pages)), Sum(Heights(pages));
      placed := PlaceStacked(pages, totalHeight);
      r := Ok(Composed(totalWidth, totalHeight, placed));
    }
  }

  /**
   The side-by-side branch of the merge loop: the first page is merged
   untranslated, then each page is merged at the running offset, which then
   grows by that page's width.
   */
  method PlaceSideBySide(pages: seq<Page>) returns (placed: seq<Placed>)
    requires |pages| > 0
    ensures placed == Join(pages, Horizontal).parts
  {
    ghost var ws := Widths(pages);
    placed := [Placed(pages[0], 0.0, 0.0)];
    var offset := pages[0].w;
    SumStep(ws, 0);
    var i := 1;
    while i < |pages|
      invariant 1 <= i <= |pages|
      invariant |placed| == i
      invariant offset == Sum(ws[..i])
      invariant forall k | 0 <= k < i :: placed[k] == Placed(pages[k], Sum(ws[..k]), 0.0)
    {
      placed := placed + [Placed(pages[i], offset, 0.0)];
      offset := offset + pages[i].w;
      SumStep(ws, i);
      i := i + 1;
    }
    forall k | 0 <= k < |pages|
      ensures placed[k] == Join(pages, Horizontal).parts[k]
    {
      JoinPart(pages, Horizontal, k);
    }
  }

  /**
   The stacked branch of the merge loop: the first page is merged at
   `totalHeight - h0`, then the running offset first shrinks by each page's
   height and the page is merged there. Page `k` therefore sits at
   `totalHeight` less the heights up to and including its own, and when
   `totalHeight` is the box height these are the placements of `Join`.
   */
  method PlaceStacked(pages: seq<Page>, totalHeight: real) returns (placed: seq<Placed>)
    requires |pages| > 0
    ensures |placed| == |pages|
    ensures forall k | 0 <= k < |pages| ::
              placed[k] == Placed(pages[k], 0.0, totalHeight - Sum(Heights(pages)[..k + 1]))
    ensures totalHeight == Sum(Heights(pages)) ==> placed == Join(pages, Vertical).parts
  {
    ghost var hs := Heights(pages);
    var offset := totalHeight - pages[0].h;
    placed := [Placed(pages[0], 0.0, offset)];
    SumStep(hs, 0);
    var i := 1;
    while i < |pages|
      invariant 1 <= i <= |pages|
      invariant |placed| == i
      invariant offset == totalHeight - Sum(hs[..i])
      invariant forall k | 0 <= k < i :: placed[k] == Placed(pages[k], 0.0, totalHeight - Sum(hs[..k + 1]))
    {
      offset := offset - pages[i].h;
      placed := placed + [Placed(pages[i], 0.0, offset)];
      SumStep(hs, i);
      i := i + 1;
    }
    if totalHeight == Sum(hs) {
      forall k | 0 <= k < |pages|
        ensures placed[k] == Join(pages, Vertical).parts[k]
      {
        JoinPart(pages, Vertical, k);
      }
    }
  }

  /**
   Side by side: page `k` is shifted right by the widths before it and not
   shifted up; each page fits in the box; the next page starts where the
   previous one ends; the last one ends at the right edge.
   */
  lemma {:induction false} HorizontalLayout(ps: seq<Page>)
    requires |ps| > 0 && NonNegative(Widths(ps))
    ensures var r := Join(ps, Horizontal);
      && r.parts[0].dx == 0.0
      && (forall k | 0 <= k < |ps| ::
            && r.parts[k].dy == 0.0
            && 0.0 <= r.parts[k].dx
            && r.parts[k].dx + ps[k].w <= r.w
            && ps[k].h <= r.h)
      && (forall k | 0 <= k < |ps| - 1 :: r.parts[k + 1].dx == r.parts[k].dx + ps[k].w)
      && r.parts[|ps| - 1].dx + ps[|ps| - 1].w == r.w
  {
    var ws := Widths(ps);
    var r := Join(ps, Horizontal);
    SideBySideBox(ps);
    forall k | 0 <= k < |ps|
      ensures r.parts[k].dy == 0.0
      ensures 0.0 <= r.parts[k].dx && r.parts[k].dx + ps[k].w <= r.w
      ensures ps[k].h <= r.h
    {
      SideBySidePart(ps, k);
      SumStep(ws, k);
      SumPrefixMonotone(ws, k, k + 1);
      assert Heights(ps)[k] == ps[k].h;
    }
    forall k | 0 <= k < |ps| - 1
      ensures r.parts[k + 1].dx == r.parts[k].dx + ps[k].w
    {
      SideBySidePart(ps, k);
      SideBySidePart(ps, k + 1);
      SumStep(ws, k);
    }
    SideBySidePart(ps, 0);
    SideBySidePart(ps, |ps| - 1);
    SumStep(ws, |ps| - 1);
    assert ws[..|ps|] == ws;
  }

  /** With positive widths, the horizontal offsets strictly increase in input order. */
  lemma {:induction false} HorizontalOffsetsIncrease(ps: seq<Page>, j: nat, k: nat)
    requires j < k < |ps| && Positive(Widths(ps))
    ensures Join(ps, Horizontal).parts[j].dx < Join(ps, Horizontal).parts[k].dx
  {
    SideBySidePart(ps, j);
    SideBySidePart(ps, k);
    SumPrefixStrict(Widths(ps), j, k);
  }

  /**
   Stacked: nothing is shifted right; the first page's top edge is the top of
   the box; each page's top edge is the previous page's bottom edge, so the
   pages run downwards in input order without overlapping; the last page sits
   on the bottom edge; every offset is non-negative and every page fits.
   */
  lemma {:induction false} VerticalLayout(ps: seq<Page>)
    requires |ps| > 0 && NonNegative(Heights(ps))
    ensures var r := Join(ps, Vertical);
      && r.parts[0].dy + ps[0].h == r.h
      && (forall k | 0 <= k < |ps| ::
            && r.parts[k].dx == 0.0
            && 0.0 <= r.parts[k].dy
            && r.parts[k].dy + ps[k].h <= r.h
            && ps[k].w <= r.w)
      && (forall k | 0 <= k < |ps| - 1 :: r.parts[k + 1].dy + ps[k + 1].h == r.parts[k].dy)
      && r.parts[|ps| - 1].dy == 0.0
  {
    var hs := Heights(ps);
    var r := Join(ps, Vertical);
    StackedBox(ps);
    forall k | 0 <= k < |ps|
      ensures r.parts[k].dx == 0.0
      ensures 0.0 <= r.parts[k].dy && r.parts[k].dy + ps[k].h <= r.h
      ensures ps[k].w <= r.w
    {
      StackedPart(ps, k);
      SumStep(hs, k);
      SumPrefixMonotone(hs, k, k + 1);
      assert Widths(ps)[k] == ps[k].w;
    }
    forall k | 0 <= k < |ps| - 1
      ensures r.parts[k + 1].dy + ps[k + 1].h == r.parts[k].dy
    {
      StackedPart(ps, k);
      StackedPart(ps, k + 1);
      SumStep(hs, k + 1);
    }
    StackedPart(ps, 0);
    SumStep(hs, 0);
    assert hs[..0] == [];
    StackedPart(ps, |ps| - 1);
    assert hs[..|ps|] == hs;
  }

  /** With positive heights, the vertical offsets strictly decrease in input order. */
  lemma {:induction false} VerticalOffsetsDecrease(ps: seq<Page>, j: nat, k: nat)
    requires j < k < |ps| && Positive(Heights(ps))
    ensures Join(ps, Vertical).parts[j].dy > Join(ps, Vertical).parts[k].dy
  {
    StackedPart(ps, j);
    StackedPart(ps, k);
    SumPrefixStrict(Heights(ps), j + 1, k + 1);
  }

  /** A 100 x 200 page and a 50 x 150 page, side by side and stacked. */
  lemma {:induction false} TwoPageExample()
    ensures var a, b := Leaf(1, 100.0, 200.0), Leaf(2, 50.0, 150.0);
      && Join([a, b], Horizontal) == Composed(150.0, 200.0, [Placed(a, 0.0, 0.0), Placed(b, 100.0, 0.0)])
      && Join([a, b], Vertical) == Composed(100.0, 350.0, [Placed(a, 0.0, 150.0), Placed(b, 0.0, 0.0)])
  {
  }
}
