/** Points of a pixel grid, 4-neighbour paths, and being joined by a path inside a set of points. */
module GridPaths {
  type Point = (int, int)

  predicate Adjacent(p: Point, q: Point)
  {
    || (p.1 == q.1 && (p.0 == q.0 + 1 || q.0 == p.0 + 1))
    || (p.0 == q.0 && (p.1 == q.1 + 1 || q.1 == p.1 + 1))
  }

  /** The four neighbours, in the order in which they are looked at. */
  function Around(p: Point): (r: seq<Point>)
    ensures |r| == 4
    ensures forall q :: q in r <==> Adjacent(p, q)
  {
    [(p.0 - 1, p.1), (p.0 + 1, p.1), (p.0, p.1 - 1), (p.0, p.1 + 1)]
  }

  ghost predicate Walk(via: seq<Point>)
  {
    forall i :: 0 <= i < |via| - 1 ==> Adjacent(via[i], via[i + 1])
  }

  ghost predicate Path(s: set<Point>, p: Point, q: Point, via: seq<Point>)
  {
    && via != [] && via[0] == p && via[|via| - 1] == q
    && Walk(via)
    && forall i :: 0 <= i < |via| ==> via[i] in s
  }

  ghost predicate Joined(s: set<Point>, p: Point, q: Point)
  {
    exists via :: Path(s, p, q, via)
  }

  ghost function Elems(points: seq<Point>): set<Point>
  {
    set p | p in points
  }

  lemma JoinedSelf(s: set<Point>, p: Point)
    requires p in s
    ensures Joined(s, p, p)
  {
    assert Path(s, p, p, [p]);
  }

  lemma JoinedStep(s: set<Point>, p: Point, q: Point, r: Point)
    requires Joined(s, p, q) && Adjacent(q, r) && r in s
    ensures Joined(s, p, r)
  {
    var via :| Path(s, p, q, via);
    assert Path(s, p, r, via + [r]);
  }

  lemma JoinedWithin(s: set<Point>, t: set<Point>, p: Point, q: Point)
    requires Joined(s, p, q) && s <= t
    ensures Joined(t, p, q)
  {
    var via :| Path(s, p, q, via);
    assert Path(t, p, q, via);
  }

  lemma JoinedTrans(s: set<Point>, p: Point, q: Point, r: Point)
    requires Joined(s, p, q) && Joined(s, q, r)
    ensures Joined(s, p, r)
  {
    var a: seq<Point> :| Path(s, p, q, a);
    var b :| Path(s, q, r, b);
    var via := a + b[1..];
    forall i | 0 <= i < |via| - 1 ensures Adjacent(via[i], via[i + 1]) {
      if i >= |a| - 1 {
        assert via[i] == b[i - |a| + 1] && via[i + 1] == b[i - |a| + 2];
      }
    }
    assert Path(s, p, r, via);
  }

  lemma JoinedSym(s: set<Point>, p: Point, q: Point)
    requires Joined(s, p, q)
    ensures Joined(s, q, p)
  {
    var a: seq<Point> :| Path(s, p, q, a);
    var via := seq(|a|, i requires 0 <= i < |a| => a[|a| - 1 - i]);
    forall i | 0 <= i < |via| - 1 ensures Adjacent(via[i], via[i + 1]) {
      assert Adjacent(a[|a| - 2 - i], a[|a| - 1 - i]);
    }
    assert Path(s, q, p, via);
  }

  /** `s` has no neighbour in `f` outside itself. */
  ghost predicate Closed(f: set<Point>, s: set<Point>)
  {
    forall p, q :: p in s && q in f && Adjacent(p, q) ==> q in s
  }

  /** A path in `f` that starts in a closed part of `f` never leaves it. */
  lemma ClosedHoldsPath(f: set<Point>, s: set<Point>, p: Point, q: Point)
    requires Closed(f, s) && p in s && Joined(f, p, q)
    ensures q in s
  {
    var via :| Path(f, p, q, via);
    var i := 0;
    while i < |via| - 1
      invariant 0 <= i < |via| && via[i] in s
    {
      i := i + 1;
    }
  }

  /** Every point of `s` is reached from `start` inside `s`. */
  ghost predicate Rooted(s: set<Point>, start: Point)
  {
    forall p :: p in s ==> Joined(s, start, p)
  }

  lemma RootedGrows(s: set<Point>, start: Point, p: Point, q: Point)
    requires Rooted(s, start) && p in s && Adjacent(p, q)
    ensures Rooted(s + {q}, start)
  {
    forall r | r in s + {q} ensures Joined(s + {q}, start, r) {
      if r in s {
        JoinedWithin(s, s + {q}, start, r);
      } else {
        JoinedWithin(s, s + {q}, start, p);
        JoinedStep(s + {q}, start, p, q);
      }
    }
  }

  lemma RootedJoinsAll(s: set<Point>, start: Point, p: Point, q: Point)
    requires Rooted(s, start) && p in s && q in s
    ensures Joined(s, p, q)
  {
    JoinedSym(s, start, p);
    JoinedTrans(s, p, start, q);
  }

  lemma JoinedShift(s: set<Point>, t: set<Point>, p: Point, q: Point, dx: int, dy: int)
    requires Joined(s, p, q)
    requires forall r :: r in s ==> (r.0 + dx, r.1 + dy) in t
    ensures Joined(t, (p.0 + dx, p.1 + dy), (q.0 + dx, q.1 + dy))
  {
    var a: seq<Point> :| Path(s, p, q, a);
    var via := seq(|a|, i requires 0 <= i < |a| => (a[i].0 + dx, a[i].1 + dy));
    assert Path(t, (p.0 + dx, p.1 + dy), (q.0 + dx, q.1 + dy), via);
  }
}
