/** Labelling of the 4-connected components of a mask, by breadth-first search in raster order. */
module GridComponents {
  import opened GridPaths

  /** The set pixels of a mask; the first index is the column. */
  ghost function Lit(pixels: array2<bool>): set<Point>
    reads pixels
  {
    set x: int, y: int | 0 <= x < pixels.Length0 && 0 <= y < pixels.Length1 && pixels[x, y] :: (x, y)
  }

  predicate Before(p: Point, q: Point)
  {
    p.1 < q.1 || (p.1 == q.1 && p.0 < q.0)
  }

  ghost predicate Distinct(points: seq<Point>)
  {
    forall i, j :: 0 <= i < j < |points| ==> points[i] != points[j]
  }

  /** A duplicate-free list of a whole 4-connected component of `f`, its first pixel in raster order in front. */
  ghost predicate IsComponent(f: set<Point>, c: seq<Point>)
  {
    && c != [] && Distinct(c) && Elems(c) <= f
    && (forall p, q :: p in c && q in c ==> Joined(Elems(c), p, q))
    && Closed(f, Elems(c))
    && (forall p :: p in c ==> p == c[0] || Before(c[0], p))
  }

  ghost predicate Disjoint(found: seq<seq<Point>>)
  {
    forall i, j, p :: 0 <= i < j < |found| && p in found[i] ==> p !in found[j]
  }

  ghost predicate Ordered(found: seq<seq<Point>>)
  {
    forall i, j :: 0 <= i < j < |found| && found[i] != [] && found[j] != [] ==> Before(found[i][0], found[j][0])
  }

  ghost predicate Covers(f: set<Point>, found: seq<seq<Point>>)
  {
    forall p :: p in f ==> exists i :: 0 <= i < |found| && p in found[i]
  }

  // ---------- one component ----------

  /** The pixels met so far from `start`, dequeued or still queued. */
  ghost predicate Frontier(f: set<Point>, seen0: set<Point>, start: Point, whole: seq<Point>)
  {
    && whole != [] && whole[0] == start && Distinct(whole)
    && Elems(whole) <= f && Elems(whole) !! seen0
    && Rooted(Elems(whole), start)
  }

  lemma Discover(f: set<Point>, seen0: set<Point>, start: Point, whole: seq<Point>, c: Point, n: Point)
    requires Frontier(f, seen0, start, whole)
    requires c in whole && Adjacent(c, n) && n in f && n !in seen0 && n !in whole
    ensures Frontier(f, seen0, start, whole + [n])
    ensures Elems(whole + [n]) == Elems(whole) + {n}
  {
    assert Elems(whole + [n]) == Elems(whole) + {n};
    RootedGrows(Elems(whole), start, c, n);
  }

  /** A component found before would have reached `c`. */
  lemma NeighbourIsNew(f: set<Point>, seen0: set<Point>, c: Point, n: Point)
    requires Closed(f, seen0) && c in f && c !in seen0 && Adjacent(c, n)
    ensures n !in seen0
  {
    assert Adjacent(n, c);
  }

  lemma Complete(f: set<Point>, seen0: set<Point>, start: Point, whole: seq<Point>)
    requires Frontier(f, seen0, start, whole) && Closed(f, seen0) && Closed(f, Elems(whole))
    requires forall p :: p in f && Before(p, start) ==> p in seen0
    ensures IsComponent(f, whole)
    ensures Closed(f, seen0 + Elems(whole))
  {
    forall p, q | p in whole && q in whole ensures Joined(Elems(whole), p, q) {
      RootedJoinsAll(Elems(whole), start, p, q);
    }
    forall p | p in whole ensures p == start || Before(start, p) {
      assert p in Elems(whole);
    }
  }

  /** A component from the pixel the raster scan met first; `seen0` holds the components found before. */
  method GrowComponent(pixels: array2<bool>, ghost f: set<Point>, start: Point, seen0: set<Point>)
    returns (component: seq<Point>, seen: set<Point>)
    requires f == Lit(pixels)
    requires start in f && start !in seen0 && Closed(f, seen0)
    requires forall p :: p in f && Before(p, start) ==> p in seen0
    ensures IsComponent(f, component) && component != [] && component[0] == start
    ensures seen == seen0 + Elems(component) && Elems(component) !! seen0
    ensures Closed(f, seen)
  {
    hide Joined;
    hide IsComponent;
    var queue := [start];
    seen := seen0 + {start};
    component := [];
    JoinedSelf({start}, start);
    assert Elems([start]) == {start};
    assert component + queue == [start];
    while queue != []
      invariant Frontier(f, seen0, start, component + queue)
      invariant seen == seen0 + Elems(component + queue)
      invariant forall p, q :: p in component && q in f && Adjacent(p, q) ==> q in component + queue
      decreases f - seen, |queue|
    {
      ghost var seen1, whole1 := seen, component + queue;
      var c := queue[0];
      queue := queue[1..];
      component := component + [c];
      assert component + queue == whole1;
      queue, seen := Visit(pixels, f, start, seen0, component, queue, seen, c);
    }
    assert component + queue == component;
    Complete(f, seen0, start, component);
  }

  /** Queue the unseen foreground neighbours of `c`. */
  method Visit(pixels: array2<bool>, ghost f: set<Point>, ghost start: Point, ghost seen0: set<Point>,
               ghost component: seq<Point>, queue0: seq<Point>, seen1: set<Point>, c: Point)
    returns (queue: seq<Point>, seen: set<Point>)
    requires f == Lit(pixels) && Closed(f, seen0) && c in component
    requires Frontier(f, seen0, start, component + queue0) && seen1 == seen0 + Elems(component + queue0)
    ensures Frontier(f, seen0, start, component + queue) && seen == seen0 + Elems(component + queue)
    ensures queue0 <= queue && seen1 <= seen && (f - seen < f - seen1 || (queue == queue0 && seen == seen1))
    ensures forall q :: q in f && Adjacent(c, q) ==> q in component + queue
  {
    hide Joined;
    queue, seen := queue0, seen1;
    var around := Around(c);
    for k := 0 to 4
      invariant Frontier(f, seen0, start, component + queue) && seen == seen0 + Elems(component + queue)
      invariant queue0 <= queue && seen1 <= seen && (f - seen < f - seen1 || (queue == queue0 && seen == seen1))
      invariant forall i :: 0 <= i < k && around[i] in f ==> around[i] in component + queue
    {
      var n := around[k];
      assert n in around && Adjacent(c, n) && c in Elems(component + queue);
      NeighbourIsNew(f, seen0, c, n);
      if 0 <= n.0 < pixels.Length0 && 0 <= n.1 < pixels.Length1 && pixels[n.0, n.1] && n !in seen {
        Discover(f, seen0, start, component + queue, c, n);
        assert component + (queue + [n]) == (component + queue) + [n];
        assert n in f - seen;
        seen := seen + {n};
        queue := queue + [n];
      }
    }
  }

  // ---------- the raster scan ----------

  /** All the components of a mask, in raster order of their first pixels. */
  method Components(pixels: array2<bool>) returns (found: seq<seq<Point>>)
    ensures forall i :: 0 <= i < |found| ==> IsComponent(Lit(pixels), found[i])
    ensures Covers(Lit(pixels), found) && Disjoint(found) && Ordered(found)
  {
    hide IsComponent;
    ghost var f := Lit(pixels);
    var width, height := pixels.Length0, pixels.Length1;
    var seen: set<Point> := {};
    found := [];
    for y := 0 to height
      invariant Scanned(f, found, seen, (0, y))
    {
      for x := 0 to width
        invariant Scanned(f, found, seen, (x, y))
      {
        if !pixels[x, y] || (x, y) in seen {
          ScanPasses(f, found, seen, (x, y));
          continue;
        }
        var component;
        ghost var found0, seen1 := found, seen;
        component, seen := GrowComponent(pixels, f, (x, y), seen);
        found := found + [component];
        ScanGrows(f, found0, seen1, component, (x, y));
        ScanPasses(f, found, seen, (x, y));
      }
      ScanMoves(f, found, seen, (width, y), (0, y + 1));
    }
    assert forall p :: p in f ==> Before(p, (0, height));
  }

  ghost predicate Lists(found: seq<seq<Point>>, seen: set<Point>)
  {
    && (forall i, p :: 0 <= i < |found| && p in found[i] ==> p in seen)
    && Covers(seen, found)
  }

  /** The state of the raster scan when it reaches `at`. */
  ghost predicate Scanned(f: set<Point>, found: seq<seq<Point>>, seen: set<Point>, at: Point)
  {
    && Closed(f, seen)
    && (forall i :: 0 <= i < |found| ==> found[i] != [] && IsComponent(f, found[i]) && (Before(found[i][0], at) || found[i][0] == at))
    && Disjoint(found) && Ordered(found) && Lists(found, seen)
    && (forall p :: p in f && Before(p, at) ==> p in seen)
  }

  lemma NextInRow(at: Point, p: Point)
    ensures !Before(p, at) && Before(p, (at.0 + 1, at.1)) <==> p == at
  {
  }

  lemma ScanPasses(f: set<Point>, found: seq<seq<Point>>, seen: set<Point>, at: Point)
    requires Scanned(f, found, seen, at) && (at in f ==> at in seen)
    ensures Scanned(f, found, seen, (at.0 + 1, at.1))
  {
    hide IsComponent;
    forall p ensures !Before(p, at) && Before(p, (at.0 + 1, at.1)) <==> p == at { NextInRow(at, p); }
    ScanMoves(f, found, seen, at, (at.0 + 1, at.1));
  }

  lemma ScanMoves(f: set<Point>, found: seq<seq<Point>>, seen: set<Point>, at: Point, to: Point)
    requires Scanned(f, found, seen, at) && Before(at, to)
    requires forall p :: p in f && !Before(p, at) && Before(p, to) ==> p in seen
    ensures Scanned(f, found, seen, to)
  {
    hide IsComponent;
  }

  lemma ScanGrows(f: set<Point>, found: seq<seq<Point>>, seen: set<Point>, component: seq<Point>, at: Point)
    requires Scanned(f, found, seen, at) && IsComponent(f, component) && component != [] && component[0] == at
    requires at in f && at !in seen
    requires Elems(component) !! seen && Closed(f, seen + Elems(component))
    ensures Scanned(f, found + [component], seen + Elems(component), at)
  {
    hide IsComponent;
    var after := found + [component];
    forall p | p in seen + Elems(component) ensures exists i :: 0 <= i < |after| && p in after[i] {
      if p in seen {
        var i :| 0 <= i < |found| && p in found[i];
        assert p in after[i];
      } else {
        assert p in after[|found|];
      }
    }
    forall i, j, p | 0 <= i < j < |after| && p in after[i] ensures p !in after[j] {
      assert p in seen;
      if j == |found| { assert p !in Elems(component); }
    }
    forall i | 0 <= i < |found| ensures Before(after[i][0], at) {
      assert found[i][0] in found[i];
    }
  }

  /** Two foreground pixels are listed together exactly when a foreground path joins them. */
  lemma TogetherIffJoined(f: set<Point>, found: seq<seq<Point>>, i: int, p: Point, q: Point)
    requires forall k :: 0 <= k < |found| ==> IsComponent(f, found[k])
    requires Covers(f, found) && Disjoint(found)
    requires 0 <= i < |found| && p in found[i] && q in f
    ensures q in found[i] <==> Joined(f, p, q)
  {
    if q in found[i] {
      JoinedWithin(Elems(found[i]), f, p, q);
    } else if Joined(f, p, q) {
      ClosedHoldsPath(f, Elems(found[i]), p, q);
    }
  }

  /** Hence the lists are determined by the mask, up to the order of pixels after the first. */
  lemma ComponentsAreUnique(f: set<Point>, a: seq<seq<Point>>, b: seq<seq<Point>>, i: nat)
    requires forall k :: 0 <= k < |a| ==> IsComponent(f, a[k])
    requires forall k :: 0 <= k < |b| ==> IsComponent(f, b[k])
    requires Covers(f, a) && Disjoint(a) && Covers(f, b) && Disjoint(b)
    requires i < |a|
    ensures exists j :: 0 <= j < |b| && Elems(b[j]) == Elems(a[i]) && a[i] != [] && b[j] != [] && b[j][0] == a[i][0]
  {
    var p := a[i][0];
    assert p in Elems(a[i]);
    var j :| 0 <= j < |b| && p in b[j];
    forall q | q in f ensures q in a[i] <==> q in b[j] {
      TogetherIffJoined(f, a, i, p, q);
      TogetherIffJoined(f, b, j, p, q);
    }
    assert Elems(b[j]) == Elems(a[i]) by {
      assert forall q :: q in Elems(a[i]) ==> q in f;
      assert forall q :: q in Elems(b[j]) ==> q in f;
    }
    assert b[j][0] in Elems(b[j]);
    assert b[j][0] in a[i];
  }
}
