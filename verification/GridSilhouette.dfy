/** The avatar body of a band, and its silhouette with the enclosed holes filled. */
module GridSilhouette {
  import opened Prelude
  import opened GridPaths
  import opened GridComponents

  predicate InGrid(w: int, h: int, p: Point)
  {
    0 <= p.0 < w && 0 <= p.1 < h
  }

  predicate OnBorder(w: int, h: int, p: Point)
  {
    InGrid(w, h, p) && (p.0 == 0 || p.0 == w - 1 || p.1 == 0 || p.1 == h - 1)
  }

  ghost function Grid(w: int, h: int): set<Point>
  {
    set x: int, y: int | 0 <= x < w && 0 <= y < h :: (x, y)
  }

  /** `p` is joined to the border of the grid by a path in `b`. */
  ghost predicate Outside(b: set<Point>, w: int, h: int, p: Point)
  {
    exists e :: e in b && OnBorder(w, h, e) && Joined(b, e, p)
  }

  // ---------- the border flood ----------

  ghost predicate Flooding(b: set<Point>, w: int, h: int, marked: set<Point>, queue: seq<Point>)
  {
    && marked <= b
    && (forall p :: p in marked ==> Outside(b, w, h, p))
    && (forall q :: q in queue && q in b ==> Outside(b, w, h, q))
    && (forall p :: p in b && OnBorder(w, h, p) ==> p in marked || p in queue)
    && (forall p, q :: p in marked && q in b && Adjacent(p, q) ==> q in marked || q in queue)
  }

  lemma FloodSkips(b: set<Point>, w: int, h: int, marked: set<Point>, queue: seq<Point>)
    requires Flooding(b, w, h, marked, queue) && queue != [] && (queue[0] in b ==> queue[0] in marked)
    ensures Flooding(b, w, h, marked, queue[1..])
  {
    hide Outside;
    assert forall p :: p in queue ==> p == queue[0] || p in queue[1..];
  }

  lemma OutsideStep(b: set<Point>, w: int, h: int, p: Point, q: Point)
    requires Outside(b, w, h, p) && Adjacent(p, q) && q in b
    ensures Outside(b, w, h, q)
  {
    var e :| e in b && OnBorder(w, h, e) && Joined(b, e, p);
    JoinedStep(b, e, p, q);
  }

  lemma FloodMarks(b: set<Point>, w: int, h: int, marked: set<Point>, queue: seq<Point>)
    requires Flooding(b, w, h, marked, queue) && queue != [] && queue[0] in b
    ensures Flooding(b, w, h, marked + {queue[0]}, queue[1..] + Around(queue[0]))
  {
    hide Outside;
    var c := queue[0];
    assert forall p :: p in queue ==> p == c || p in queue[1..];
    forall q | q in Around(c) && q in b ensures Outside(b, w, h, q) {
      OutsideStep(b, w, h, c, q);
    }
  }

  lemma FloodEnds(b: set<Point>, w: int, h: int, marked: set<Point>)
    requires Flooding(b, w, h, marked, [])
    ensures forall p :: p in marked <==> p in b && Outside(b, w, h, p)
  {
    forall p | p in b && Outside(b, w, h, p) ensures p in marked {
      var e :| e in b && OnBorder(w, h, e) && Joined(b, e, p);
      ClosedHoldsPath(b, marked, e, p);
    }
  }

  /** The unset pixels of a mask. */
  ghost function Dark(pixels: array2<bool>): set<Point>
    reads pixels
  {
    Grid(pixels.Length0, pixels.Length1) - Lit(pixels)
  }

  /** The cells along the four edges, each possibly more than once, as the flood queues them. */
  method BorderQueue(w: nat, h: nat) returns (queue: seq<Point>)
    ensures forall p :: p in queue && InGrid(w, h, p) ==> OnBorder(w, h, p)
    ensures forall p :: OnBorder(w, h, p) ==> p in queue
  {
    queue := [];
    for x := 0 to w
      invariant forall p :: p in queue && InGrid(w, h, p) ==> OnBorder(w, h, p)
      invariant forall p :: OnBorder(w, h, p) && p.0 < x && (p.1 == 0 || p.1 == h - 1) ==> p in queue
    {
      queue := queue + [(x, 0), (x, h - 1)];
    }
    for y := 0 to h
      invariant forall p :: p in queue && InGrid(w, h, p) ==> OnBorder(w, h, p)
      invariant forall p :: OnBorder(w, h, p) && (p.1 == 0 || p.1 == h - 1) ==> p in queue
      invariant forall p :: OnBorder(w, h, p) && p.1 < y ==> p in queue
    {
      queue := queue + [(0, y), (w - 1, y)];
    }
  }

  ghost predicate Unset(local: array2<bool>, b: set<Point>)
    reads local
  {
    forall p :: p in b <==> InGrid(local.Length0, local.Length1, p) && !local[p.0, p.1]
  }

  ghost predicate Drawn(pixels: array2<bool>, w: int, h: int, marked: set<Point>)
    reads pixels
  {
    && pixels.Length0 == w && pixels.Length1 == h
    && forall x, y :: 0 <= x < w && 0 <= y < h ==> (pixels[x, y] <==> (x, y) in marked)
  }

  /** Mark every unset pixel that unset pixels join to the border. Cells may be queued many times. */
  method FillOutside(local: array2<bool>) returns (outside: array2<bool>)
    ensures fresh(outside) && outside.Length0 == local.Length0 && outside.Length1 == local.Length1
    ensures forall x, y :: 0 <= x < local.Length0 && 0 <= y < local.Length1 ==>
              (outside[x, y] <==> !local[x, y] && Outside(Dark(local), local.Length0, local.Length1, (x, y)))
  {
    hide Outside;
    hide Flooding;
    var w, h := local.Length0, local.Length1;
    ghost var b := Dark(local);
    assert Unset(local, b);
    hide Dark;
    outside := new bool[w, h]((x, y) => false);
    var queue := BorderQueue(w, h);
    ghost var marked: set<Point> := {};
    FloodStarts(b, w, h, queue);
    while queue != []
      invariant Flooding(b, w, h, marked, queue)
      invariant fresh(outside) && Unset(local, b) && Drawn(outside, w, h, marked)
      decreases b - marked, |queue|
    {
      var p := queue[0];
      if !InGrid(w, h, p) || local[p.0, p.1] || outside[p.0, p.1] {
        FloodSkips(b, w, h, marked, queue);
        queue := queue[1..];
        continue;
      }
      FloodMarks(b, w, h, marked, queue);
      assert p in b - marked;
      outside[p.0, p.1] := true;
      marked := marked + {p};
      queue := queue[1..] + Around(p);
    }
    FloodEnds(b, w, h, marked);
  }

  lemma FloodStarts(b: set<Point>, w: int, h: int, queue: seq<Point>)
    requires forall p :: p in queue && InGrid(w, h, p) ==> OnBorder(w, h, p)
    requires forall p :: OnBorder(w, h, p) ==> p in queue
    requires forall p :: p in b ==> InGrid(w, h, p)
    ensures Flooding(b, w, h, {}, queue)
  {
    forall p | p in b && OnBorder(w, h, p) ensures Outside(b, w, h, p) { JoinedSelf(b, p); }
  }

  // ---------- the body and its box ----------

  /** A box that encloses the points tightly: columns x0..x1 and rows y0..y1, the ends excluded. */
  datatype Box = Box(x0: int, y0: int, x1: int, y1: int)

  predicate InBox(box: Box, p: Point)
  {
    box.x0 <= p.0 < box.x1 && box.y0 <= p.1 < box.y1
  }

  ghost predicate Tight(box: Box, points: seq<Point>)
  {
    && (forall p :: p in points ==> InBox(box, p))
    && (exists p :: p in points && p.0 == box.x0) && (exists p :: p in points && p.0 == box.x1 - 1)
    && (exists p :: p in points && p.1 == box.y0) && (exists p :: p in points && p.1 == box.y1 - 1)
  }

  method BoundsOf(points: seq<Point>) returns (box: Box)
    requires points != []
    ensures Tight(box, points)
  {
    var p := points[0];
    box := Box(p.0, p.1, p.0 + 1, p.1 + 1);
    assert p in points[..1];
    for i := 1 to |points|
      invariant Tight(box, points[..i])
    {
      ghost var before := points[..i];
      var q := points[i];
      assert points[..i + 1] == before + [q];
      assert forall r :: r in before ==> r in points[..i + 1];
      assert q in points[..i + 1];
      box := Box(if q.0 < box.x0 then q.0 else box.x0, if q.1 < box.y0 then q.1 else box.y0,
                 if q.0 >= box.x1 then q.0 + 1 else box.x1, if q.1 >= box.y1 then q.1 + 1 else box.y1);
    }
    assert points[..|points|] == points;
  }

  ghost predicate TouchesEdge(w: int, h: int, c: seq<Point>)
  {
    exists p :: p in c && (p.0 == 0 || p.0 == w - 1 || p.1 == 0 || p.1 == h - 1)
  }

  /** The largest component that stays off the edge; the first of several equally large ones. */
  method PickBody(found: seq<seq<Point>>, w: int, h: int) returns (at: Option<nat>)
    requires forall i :: 0 <= i < |found| ==> found[i] != [] && forall p :: p in found[i] ==> InGrid(w, h, p)
    ensures at.None? ==> forall i :: 0 <= i < |found| ==> TouchesEdge(w, h, found[i])
    ensures at.Some? ==>
      && at.value < |found| && !TouchesEdge(w, h, found[at.value])
      && (forall i :: 0 <= i < |found| && !TouchesEdge(w, h, found[i]) ==> |found[i]| <= |found[at.value]|)
      && (forall i :: 0 <= i < at.value && !TouchesEdge(w, h, found[i]) ==> |found[i]| < |found[at.value]|)
  {
    at := None;
    for i := 0 to |found|
      invariant at.None? ==> forall k :: 0 <= k < i ==> TouchesEdge(w, h, found[k])
      invariant at.Some? ==>
        && at.value < i && !TouchesEdge(w, h, found[at.value])
        && (forall k :: 0 <= k < i && !TouchesEdge(w, h, found[k]) ==> |found[k]| <= |found[at.value]|)
        && (forall k :: 0 <= k < at.value && !TouchesEdge(w, h, found[k]) ==> |found[k]| < |found[at.value]|)
    {
      var box := BoundsOf(found[i]);
      var touches := box.x0 == 0 || box.x1 - 1 == w - 1 || box.y0 == 0 || box.y1 - 1 == h - 1;
      if !touches && (at.None? || |found[i]| > |found[at.value]|) {
        at := Some(i);
      }
    }
  }

  // ---------- the crop sees the same holes as the band ----------

  /** A crop's pixel in the coordinates of the grid it was cut from. */
  function Placed(box: Box, p: Point): Point
  {
    (p.0 + box.x0, p.1 + box.y0)
  }

  /** The box's pixels that are not body, in the crop's own coordinates. */
  ghost predicate CropOf(crop: set<Point>, band: set<Point>, box: Box)
  {
    forall p :: p in crop <==> InGrid(box.x1 - box.x0, box.y1 - box.y0, p) && Placed(box, p) in band
  }

  /** `band` is the whole grid without some points of the box, and the box stays off the grid's edge. */
  ghost predicate Surrounds(band: set<Point>, w: int, h: int, box: Box)
  {
    && 0 < box.x0 < box.x1 < w && 0 < box.y0 < box.y1 < h
    && (forall p :: p in band ==> InGrid(w, h, p))
    && (forall p :: InGrid(w, h, p) && !InBox(box, p) ==> p in band)
  }

  /** The straight line from the grid's edge to a border cell of the box. */
  lemma LineOut(band: set<Point>, w: int, h: int, box: Box, p: Point)
    requires Surrounds(band, w, h, box) && p in band && InBox(box, p)
    requires p.0 == box.x0 || p.0 == box.x1 - 1 || p.1 == box.y0 || p.1 == box.y1 - 1
    ensures Outside(band, w, h, p)
  {
    var via: seq<Point>;
    if p.0 == box.x0 {
      via := seq(p.0 + 1, i => (i, p.1));
    } else if p.0 == box.x1 - 1 {
      via := seq(w - p.0, i => (w - 1 - i, p.1));
    } else if p.1 == box.y0 {
      via := seq(p.1 + 1, i => (p.0, i));
    } else {
      via := seq(h - p.1, i => (p.0, h - 1 - i));
    }
    assert Path(band, via[0], p, via);
  }

  lemma OutsideJoined(b: set<Point>, w: int, h: int, p: Point, q: Point)
    requires Outside(b, w, h, p) && Joined(b, p, q)
    ensures Outside(b, w, h, q)
  {
    var e :| e in b && OnBorder(w, h, e) && Joined(b, e, p);
    JoinedTrans(b, e, p, q);
  }

  lemma CropEscapes(crop: set<Point>, band: set<Point>, w: int, h: int, box: Box, p: Point)
    requires CropOf(crop, band, box) && Surrounds(band, w, h, box)
    requires Outside(crop, box.x1 - box.x0, box.y1 - box.y0, p)
    ensures Outside(band, w, h, Placed(box, p))
  {
    hide Joined;
    var e :| e in crop && OnBorder(box.x1 - box.x0, box.y1 - box.y0, e) && Joined(crop, e, p);
    LineOut(band, w, h, box, Placed(box, e));
    assert forall r :: r in crop ==> Placed(box, r) in band;
    JoinedShift(crop, band, e, p, box.x0, box.y0);
    OutsideJoined(band, w, h, Placed(box, e), Placed(box, p));
  }

  /** The start of the part of a path after its last cell outside the box. */
  lemma LastEntry(box: Box, via: seq<Point>) returns (k: nat)
    requires via != [] && !InBox(box, via[0]) && InBox(box, via[|via| - 1])
    ensures 0 < k < |via| && !InBox(box, via[k - 1])
    ensures forall i :: k <= i < |via| ==> InBox(box, via[i])
  {
    k := |via| - 1;
    while InBox(box, via[k - 1])
      invariant 0 < k < |via| && forall i :: k <= i < |via| ==> InBox(box, via[i])
      decreases k
    {
      k := k - 1;
    }
  }

  /** A path into the box enters it for the last time at a border cell, and stays in it from there. */
  lemma EntersBox(band: set<Point>, box: Box, e: Point, q: Point) returns (entry: Point)
    requires Joined(band, e, q) && !InBox(box, e) && InBox(box, q)
    ensures Joined(Boxed(band, box), entry, q) && entry in band && InBox(box, entry)
    ensures entry.0 == box.x0 || entry.0 == box.x1 - 1 || entry.1 == box.y0 || entry.1 == box.y1 - 1
  {
    var via: seq<Point> :| Path(band, e, q, via);
    var k := LastEntry(box, via);
    assert Adjacent(via[k - 1], via[k]);
    entry := via[k];
    var inside := via[k..];
    assert Path(Boxed(band, box), entry, q, inside);
  }

  ghost function Boxed(band: set<Point>, box: Box): set<Point>
  {
    set p | p in band && InBox(box, p)
  }

  lemma BandEscapes(crop: set<Point>, band: set<Point>, w: int, h: int, box: Box, p: Point)
    requires CropOf(crop, band, box) && Surrounds(band, w, h, box) && p in crop
    requires Outside(band, w, h, Placed(box, p))
    ensures Outside(crop, box.x1 - box.x0, box.y1 - box.y0, p)
  {
    hide Joined;
    var e :| e in band && OnBorder(w, h, e) && Joined(band, e, Placed(box, p));
    var entry := EntersBox(band, box, e, Placed(box, p));
    EntryEscapes(crop, band, box, entry, p);
  }

  lemma EntryEscapes(crop: set<Point>, band: set<Point>, box: Box, entry: Point, p: Point)
    requires CropOf(crop, band, box) && entry in band && InBox(box, entry)
    requires entry.0 == box.x0 || entry.0 == box.x1 - 1 || entry.1 == box.y0 || entry.1 == box.y1 - 1
    requires Joined(Boxed(band, box), entry, Placed(box, p))
    ensures Outside(crop, box.x1 - box.x0, box.y1 - box.y0, p)
  {
    hide Joined;
    hide CropOf;
    BoxedInCrop(crop, band, box);
    JoinedShift(Boxed(band, box), crop, entry, Placed(box, p), -box.x0, -box.y0);
    var start := (entry.0 - box.x0, entry.1 - box.y0);
    assert entry in Boxed(band, box) && start in crop;
    assert (Placed(box, p).0 - box.x0, Placed(box, p).1 - box.y0) == p;
  }

  lemma BoxedInCrop(crop: set<Point>, band: set<Point>, box: Box)
    requires CropOf(crop, band, box)
    ensures forall r :: r in Boxed(band, box) ==> (r.0 - box.x0, r.1 - box.y0) in crop
  {
    forall r | r in Boxed(band, box) ensures (r.0 - box.x0, r.1 - box.y0) in crop {
      assert Placed(box, (r.0 - box.x0, r.1 - box.y0)) == r;
    }
  }

  /** An off-edge body: removing it from the grid leaves a background that surrounds its box. */
  lemma BodySurrounded(w: int, h: int, body: seq<Point>, box: Box)
    requires Tight(box, body) && !TouchesEdge(w, h, body) && forall p :: p in body ==> InGrid(w, h, p)
    ensures Surrounds(Grid(w, h) - Elems(body), w, h, box)
  {
  }

  datatype Silhouette = Silhouette(body: seq<Point>, box: Box, filled: array2<bool>)

  /** A mask of the whole band with the body's pixels set, one after the other. */
  method DrawBody(w: nat, h: nat, body: seq<Point>) returns (mask: array2<bool>)
    requires forall p :: p in body ==> InGrid(w, h, p)
    ensures fresh(mask) && mask.Length0 == w && mask.Length1 == h
    ensures Lit(mask) == Elems(body)
  {
    mask := new bool[w, h]((x, y) => false);
    for i := 0 to |body|
      invariant forall x, y :: 0 <= x < w && 0 <= y < h ==> (mask[x, y] <==> (x, y) in body[..i])
    {
      var p := body[i];
      assert p in body;
      mask[p.0, p.1] := true;
      assert body[..i + 1] == body[..i] + [p];
    }
    assert body[..|body|] == body;
  }

  /** The part of a mask inside a box. */
  method Crop(mask: array2<bool>, box: Box) returns (local: array2<bool>)
    requires 0 <= box.x0 < box.x1 <= mask.Length0 && 0 <= box.y0 < box.y1 <= mask.Length1
    ensures fresh(local) && local.Length0 == box.x1 - box.x0 && local.Length1 == box.y1 - box.y0
    ensures forall x, y :: 0 <= x < local.Length0 && 0 <= y < local.Length1 ==> local[x, y] == mask[x + box.x0, y + box.y0]
  {
    local := new bool[box.x1 - box.x0, box.y1 - box.y0]((x, y) => false);
    forall x, y | 0 <= x < local.Length0 && 0 <= y < local.Length1 {
      local[x, y] := mask[x + box.x0, y + box.y0];
    }
  }

  /** The body drawn on the band and cropped to its box. */
  method CropBody(w: nat, h: nat, body: seq<Point>, box: Box) returns (local: array2<bool>)
    requires Tight(box, body) && forall p :: p in body ==> InGrid(w, h, p)
    ensures local.Length0 == box.x1 - box.x0 && local.Length1 == box.y1 - box.y0
    ensures forall x, y :: 0 <= x < local.Length0 && 0 <= y < local.Length1 ==> (local[x, y] <==> Placed(box, (x, y)) in body)
  {
    BoxInBand(w, h, body, box);
    var mask := DrawBody(w, h, body);
    local := Crop(mask, box);
    forall x, y | 0 <= x < local.Length0 && 0 <= y < local.Length1 ensures local[x, y] <==> Placed(box, (x, y)) in body {
      assert mask[x + box.x0, y + box.y0] <==> (x + box.x0, y + box.y0) in Lit(mask);
    }
  }

  lemma BoxInBand(w: nat, h: nat, body: seq<Point>, box: Box)
    requires Tight(box, body) && forall p :: p in body ==> InGrid(w, h, p)
    ensures 0 <= box.x0 < box.x1 <= w && 0 <= box.y0 < box.y1 <= h
  {
  }

  method Invert(pixels: array2<bool>) returns (inverse: array2<bool>)
    ensures inverse.Length0 == pixels.Length0 && inverse.Length1 == pixels.Length1
    ensures forall x, y :: 0 <= x < pixels.Length0 && 0 <= y < pixels.Length1 ==> inverse[x, y] == !pixels[x, y]
  {
    inverse := new bool[pixels.Length0, pixels.Length1]((x, y) => true);
    forall x, y | 0 <= x < pixels.Length0 && 0 <= y < pixels.Length1 {
      inverse[x, y] := !pixels[x, y];
    }
  }

  /** The body with its holes: the complement of what the flood reaches in the crop. */
  method FillBody(w: nat, h: nat, body: seq<Point>, box: Box) returns (filled: array2<bool>)
    requires Tight(box, body) && !TouchesEdge(w, h, body) && forall p :: p in body ==> InGrid(w, h, p)
    ensures filled.Length0 == box.x1 - box.x0 && filled.Length1 == box.y1 - box.y0
    ensures forall x, y :: 0 <= x < filled.Length0 && 0 <= y < filled.Length1 ==>
              (filled[x, y] <==> Placed(box, (x, y)) in body || !Outside(Grid(w, h) - Elems(body), w, h, Placed(box, (x, y))))
  {
    hide Outside;
    BodySurrounded(w, h, body, box);
    var local := CropBody(w, h, body, box);
    var outside := FillOutside(local);
    filled := Invert(outside);
    ghost var band := Grid(w, h) - Elems(body);
    ghost var crop := Dark(local);
    CropIsCut(w, h, body, box, local, crop);
    hide Surrounds;
    hide Tight;
    hide CropOf;
    forall x, y | 0 <= x < local.Length0 && 0 <= y < local.Length1 && !local[x, y]
      ensures outside[x, y] <==> Outside(band, w, h, Placed(box, (x, y)))
    {
      SameHole(crop, band, w, h, box, (x, y));
    }
  }

  lemma CropIsCut(w: nat, h: nat, body: seq<Point>, box: Box, local: array2<bool>, crop: set<Point>)
    requires Surrounds(Grid(w, h) - Elems(body), w, h, box)
    requires local.Length0 == box.x1 - box.x0 && local.Length1 == box.y1 - box.y0
    requires forall x, y :: 0 <= x < local.Length0 && 0 <= y < local.Length1 ==> (local[x, y] <==> Placed(box, (x, y)) in body)
    requires crop == Dark(local)
    ensures CropOf(crop, Grid(w, h) - Elems(body), box)
    ensures forall x, y :: 0 <= x < local.Length0 && 0 <= y < local.Length1 && !local[x, y] ==> (x, y) in crop
  {
  }

  /** A crop pixel reaches the crop's border exactly when its place in the band reaches the band's border. */
  lemma SameHole(crop: set<Point>, band: set<Point>, w: int, h: int, box: Box, p: Point)
    requires CropOf(crop, band, box) && Surrounds(band, w, h, box) && p in crop
    ensures Outside(crop, box.x1 - box.x0, box.y1 - box.y0, p) <==> Outside(band, w, h, Placed(box, p))
  {
    if Outside(crop, box.x1 - box.x0, box.y1 - box.y0, p) {
      CropEscapes(crop, band, w, h, box, p);
    }
    if Outside(band, w, h, Placed(box, p)) {
      BandEscapes(crop, band, w, h, box, p);
    }
  }

  /**
   * The body of a band and its filled silhouette, or None when every component touches the edge. A crop
   * pixel is filled exactly when it is body, or background that the body cuts off from the band's edge.
   */
  method ExtractSilhouette(foreground: array2<bool>) returns (r: Option<Silhouette>)
    ensures r.Some? ==>
      var s := r.value;
      var w, h := foreground.Length0, foreground.Length1;
      && IsComponent(Lit(foreground), s.body) && !TouchesEdge(w, h, s.body) && Tight(s.box, s.body)
      && s.filled.Length0 == s.box.x1 - s.box.x0 && s.filled.Length1 == s.box.y1 - s.box.y0
      && forall x, y :: 0 <= x < s.filled.Length0 && 0 <= y < s.filled.Length1 ==>
           (s.filled[x, y] <==> Placed(s.box, (x, y)) in s.body || !Outside(Grid(w, h) - Elems(s.body), w, h, Placed(s.box, (x, y))))
    ensures forall c: seq<Point> :: IsComponent(Lit(foreground), c) && !TouchesEdge(foreground.Length0, foreground.Length1, c) ==>
              r.Some? && |c| <= |r.value.body|
  {
    hide Outside;
    hide TouchesEdge;
    var w, h := foreground.Length0, foreground.Length1;
    var found := Components(foreground);
    forall i | 0 <= i < |found| ensures found[i] != [] && forall p :: p in found[i] ==> InGrid(w, h, p) {
      assert forall p :: p in found[i] ==> p in Elems(found[i]);
    }
    hide IsComponent;
    var at := PickBody(found, w, h);
    LargestOfAll(Lit(foreground), found, w, h, at);
    if at.None? { return None; }
    var body := found[at.value];
    var box := BoundsOf(body);
    var filled := FillBody(w, h, body, box);
    r := Some(Silhouette(body, box, filled));
  }

  /** The choice among the listed components is the choice among all components. */
  lemma LargestOfAll(f: set<Point>, found: seq<seq<Point>>, w: int, h: int, at: Option<nat>)
    requires forall i :: 0 <= i < |found| ==> IsComponent(f, found[i])
    requires Covers(f, found) && Disjoint(found)
    requires at.None? ==> forall i :: 0 <= i < |found| ==> TouchesEdge(w, h, found[i])
    requires at.Some? ==> at.value < |found|
    requires at.Some? ==> forall i :: 0 <= i < |found| && !TouchesEdge(w, h, found[i]) ==> |found[i]| <= |found[at.value]|
    ensures forall c: seq<Point> :: IsComponent(f, c) && !TouchesEdge(w, h, c) ==>
              at.Some? && |c| <= |found[at.value]|
  {
    forall c: seq<Point> | IsComponent(f, c) && !TouchesEdge(w, h, c)
      ensures at.Some? && |c| <= |found[at.value]|
    {
      assert c[0] in Elems(c);
      var i :| 0 <= i < |found| && c[0] in found[i];
      forall q | q in f ensures q in c <==> q in found[i] {
        if q in c {
          JoinedWithin(Elems(c), f, c[0], q);
          ClosedHoldsPath(f, Elems(found[i]), c[0], q);
        }
        if q in found[i] {
          JoinedWithin(Elems(found[i]), f, c[0], q);
          ClosedHoldsPath(f, Elems(c), c[0], q);
        }
      }
      assert Elems(c) == Elems(found[i]) by {
        assert forall q :: q in Elems(c) ==> q in f;
        assert forall q :: q in Elems(found[i]) ==> q in f;
      }
      DistinctCount(c);
      DistinctCount(found[i]);
      assert forall p :: p in found[i] <==> p in c;
    }
  }

  lemma {:induction false} DistinctCount(c: seq<Point>)
    requires Distinct(c)
    ensures |Elems(c)| == |c|
  {
    if c == [] {
      assert Elems(c) == {};
    } else {
      DistinctCount(c[1..]);
      assert Elems(c) == {c[0]} + Elems(c[1..]);
    }
  }
}
