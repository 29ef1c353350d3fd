/** The magic-wand tool: a breadth-first, 4-connected flood fill from a
    clicked seed pixel that makes every reachable pixel of a similar colour
    fully transparent. */
module MagicWand {
  import opened Pixels

  function Abs(x: int): nat {
    if x < 0 then -x else x
  }

  /** Two colours match when EACH of red, green and blue differs by at most
      the tolerance (a per-channel bound, not a distance); alpha is ignored. */
  predicate ColorMatches(c1: Pixel, c2: Pixel, tolerance: int): (m: bool)
    ensures m ==> tolerance >= 0
    ensures tolerance >= 0 && c1.r == c2.r && c1.g == c2.g && c1.b == c2.b ==> m
  {
    && Abs(c1.r - c2.r) <= tolerance
    && Abs(c1.g - c2.g) <= tolerance
    && Abs(c1.b - c2.b) <= tolerance
  }

  /** The four neighbours of a pixel, in the order the fill enqueues them. */
  function Neighbors(p: Pos): seq<Pos> {
    [(p.0 + 1, p.1), (p.0 - 1, p.1), (p.0, p.1 + 1), (p.0, p.1 - 1)]
  }

  /** The neighbours are exactly the pixels one step away horizontally or
      vertically: 4-connectivity, no diagonals. */
  lemma NeighborsAdjacent(p: Pos, q: Pos)
    ensures q in Neighbors(p) <==> Abs(q.0 - p.0) + Abs(q.1 - p.1) == 1
  {
  }

  /** A pixel the fill clears when it reaches it: inside the image, not yet
      transparent, and matching the seed colour. */
  ghost predicate Fillable(g: seq<Pixel>, w: nat, h: nat, target: Pixel, tolerance: int, p: Pos)
    requires |g| == w * h
  {
    InBounds(w, h, p) && At(g, w, h, p).a != 0 && ColorMatches(At(g, w, h, p), target, tolerance)
  }

  /** A 4-connected path of fillable pixels. */
  ghost predicate IsPath(g: seq<Pixel>, w: nat, h: nat, target: Pixel, tolerance: int, path: seq<Pos>)
    requires |g| == w * h
  {
    && (forall i :: 0 <= i < |path| ==> Fillable(g, w, h, target, tolerance, path[i]))
    && (forall i :: 0 <= i < |path| - 1 ==> path[i + 1] in Neighbors(path[i]))
  }

  /** `p` is joined to the seed by a 4-connected path of fillable pixels,
      the seed itself included, judged on the buffer before the fill. */
  ghost predicate Reachable(g: seq<Pixel>, w: nat, h: nat, seed: Pos, tolerance: int, p: Pos)
    requires |g| == w * h && InBounds(w, h, seed)
  {
    exists path ::
      && |path| > 0 && path[0] == seed && path[|path| - 1] == p
      && IsPath(g, w, h, At(g, w, h, seed), tolerance, path)
  }

  /** The pixels a fill from `seed` clears. */
  ghost function Region(g: seq<Pixel>, w: nat, h: nat, seed: Pos, tolerance: int): set<Pos>
    requires |g| == w * h && InBounds(w, h, seed)
  {
    set p | p in Cells(w, h) && Reachable(g, w, h, seed, tolerance, p)
  }

  /** The buffer with the pixels of `s` made transparent. */
  ghost function Apply(g: seq<Pixel>, w: nat, s: set<Pos>): seq<Pixel>
    requires w > 0
  {
    seq(|g|, i requires 0 <= i < |g| => if PosOf(w, i) in s then ClearAlpha(g[i]) else g[i])
  }

  /** The buffer after a fill from `seed`. */
  ghost function FillResult(g: seq<Pixel>, w: nat, h: nat, seed: Pos, tolerance: int): seq<Pixel>
    requires |g| == w * h && InBounds(w, h, seed)
  {
    Apply(g, w, Region(g, w, h, seed, tolerance))
  }

  // ---------------------------------------------------------------------
  // The region: what a fill reaches

  lemma {:induction false} ReachableSeed(g: seq<Pixel>, w: nat, h: nat, seed: Pos, tolerance: int)
    requires |g| == w * h && InBounds(w, h, seed)
    requires Fillable(g, w, h, At(g, w, h, seed), tolerance, seed)
    ensures Reachable(g, w, h, seed, tolerance, seed)
  {
    var path := [seed];
    assert IsPath(g, w, h, At(g, w, h, seed), tolerance, path);
  }

  lemma {:induction false} ReachableStep(g: seq<Pixel>, w: nat, h: nat, seed: Pos, tolerance: int, p: Pos, q: Pos)
    requires |g| == w * h && InBounds(w, h, seed)
    requires Reachable(g, w, h, seed, tolerance, p)
    requires q in Neighbors(p) && Fillable(g, w, h, At(g, w, h, seed), tolerance, q)
    ensures Reachable(g, w, h, seed, tolerance, q)
  {
    var target := At(g, w, h, seed);
    var path :| |path| > 0 && path[0] == seed && path[|path| - 1] == p && IsPath(g, w, h, target, tolerance, path);
    var path' := path + [q];
    assert forall i :: 0 <= i < |path'| - 1 ==> path'[i + 1] in Neighbors(path'[i]) by {
      forall i | 0 <= i < |path'| - 1 ensures path'[i + 1] in Neighbors(path'[i]) {
        if i < |path| - 1 {
          assert path'[i] == path[i] && path'[i + 1] == path[i + 1];
        }
      }
    }
    assert IsPath(g, w, h, target, tolerance, path');
  }

  lemma {:induction false} ReachableIsFillable(g: seq<Pixel>, w: nat, h: nat, seed: Pos, tolerance: int, p: Pos)
    requires |g| == w * h && InBounds(w, h, seed)
    requires Reachable(g, w, h, seed, tolerance, p)
    ensures Fillable(g, w, h, At(g, w, h, seed), tolerance, p)
  {
    var path :| |path| > 0 && path[0] == seed && path[|path| - 1] == p && IsPath(g, w, h, At(g, w, h, seed), tolerance, path);
    assert Fillable(g, w, h, At(g, w, h, seed), tolerance, path[|path| - 1]);
  }

  /** Every pixel of the region is in bounds, not transparent and matches the
      seed colour; the seed belongs to it exactly when the seed itself is
      fillable; and it is closed under fillable neighbours. */
  lemma {:induction false} RegionClosed(g: seq<Pixel>, w: nat, h: nat, seed: Pos, tolerance: int)
    requires |g| == w * h && InBounds(w, h, seed)
    ensures forall p :: p in Region(g, w, h, seed, tolerance) ==>
      Fillable(g, w, h, At(g, w, h, seed), tolerance, p)
    ensures seed in Region(g, w, h, seed, tolerance) <==> Fillable(g, w, h, At(g, w, h, seed), tolerance, seed)
    ensures forall p, q ::
      p in Region(g, w, h, seed, tolerance) && q in Neighbors(p) && Fillable(g, w, h, At(g, w, h, seed), tolerance, q)
      ==> q in Region(g, w, h, seed, tolerance)
  {
    var target := At(g, w, h, seed);
    var region := Region(g, w, h, seed, tolerance);
    forall p | p in region ensures Fillable(g, w, h, target, tolerance, p) {
      ReachableIsFillable(g, w, h, seed, tolerance, p);
    }
    if Fillable(g, w, h, target, tolerance, seed) {
      ReachableSeed(g, w, h, seed, tolerance);
      CellsMember(w, h, seed);
    }
    forall p, q | p in region && q in Neighbors(p) && Fillable(g, w, h, target, tolerance, q)
      ensures q in region
    {
      ReachableStep(g, w, h, seed, tolerance, p, q);
      CellsMember(w, h, q);
    }
  }

  /** The region is the LEAST such set: any set that holds the seed when the
      seed is fillable and is closed under fillable neighbours contains it. */
  lemma {:induction false} RegionLeast(g: seq<Pixel>, w: nat, h: nat, seed: Pos, tolerance: int, s: set<Pos>)
    requires |g| == w * h && InBounds(w, h, seed)
    requires Fillable(g, w, h, At(g, w, h, seed), tolerance, seed) ==> seed in s
    requires forall p, q :: p in s && q in Neighbors(p) && Fillable(g, w, h, At(g, w, h, seed), tolerance, q) ==> q in s
    ensures Region(g, w, h, seed, tolerance) <= s
  {
    var target := At(g, w, h, seed);
    forall p | p in Region(g, w, h, seed, tolerance) ensures p in s {
      var path :| |path| > 0 && path[0] == seed && path[|path| - 1] == p && IsPath(g, w, h, target, tolerance, path);
      var k := 0;
      while k < |path| - 1
        invariant 0 <= k <= |path| - 1
        invariant path[k] in s
      {
        assert path[k + 1] in Neighbors(path[k]) && Fillable(g, w, h, target, tolerance, path[k + 1]);
        k := k + 1;
      }
    }
  }

  /** A pixel is reachable only through the seed, so nothing is reachable
      from a seed that is itself not fillable. */
  lemma {:induction false} RegionNeedsFillableSeed(g: seq<Pixel>, w: nat, h: nat, seed: Pos, tolerance: int)
    requires |g| == w * h && InBounds(w, h, seed)
    ensures Region(g, w, h, seed, tolerance) != {} ==> Fillable(g, w, h, At(g, w, h, seed), tolerance, seed)
  {
    forall p | p in Region(g, w, h, seed, tolerance)
      ensures Fillable(g, w, h, At(g, w, h, seed), tolerance, seed)
    {
      var path :| |path| > 0 && path[0] == seed && path[|path| - 1] == p
        && IsPath(g, w, h, At(g, w, h, seed), tolerance, path);
      assert Fillable(g, w, h, At(g, w, h, seed), tolerance, path[0]);
    }
  }

  /** The pixels whose alpha went from non-zero to zero between `g` and `r`. */
  ghost function NewlyTransparent(g: seq<Pixel>, r: seq<Pixel>, w: nat, h: nat): set<Pos>
    requires |g| == w * h && |r| == w * h
  {
    set p | p in Cells(w, h) && InBounds(w, h, p) && At(g, w, h, p).a != 0 && At(r, w, h, p).a == 0
  }

  /** What a fill does to one pixel: its red, green and blue never change;
      it changes at all exactly when it is in the region, and then only its
      alpha, from non-zero to 0, and only if it matches the seed colour
      channel by channel. */
  lemma {:induction false} FillPixel(g: seq<Pixel>, w: nat, h: nat, seed: Pos, tolerance: int, p: Pos)
    requires |g| == w * h && InBounds(w, h, seed) && InBounds(w, h, p)
    ensures |FillResult(g, w, h, seed, tolerance)| == w * h
    ensures var r, q := At(FillResult(g, w, h, seed, tolerance), w, h, p), At(g, w, h, p);
      && r.r == q.r && r.g == q.g && r.b == q.b
      && (r != q <==> p in Region(g, w, h, seed, tolerance))
      && (r != q ==> r.a == 0 && q.a != 0 && ColorMatches(q, At(g, w, h, seed), tolerance))
  {
    IdxInRange(w, h, p);
    PosOfIdx(w, h, p);
    var i := Idx(w, p);
    var region := Region(g, w, h, seed, tolerance);
    assert FillResult(g, w, h, seed, tolerance)[i] == if p in region then ClearAlpha(g[i]) else g[i];
    if p in region {
      ReachableIsFillable(g, w, h, seed, tolerance, p);
    }
  }

  /** The count a fill reports, the size of the region, is the number of
      pixels whose alpha went from non-zero to 0. */
  lemma {:induction false} FillCount(g: seq<Pixel>, w: nat, h: nat, seed: Pos, tolerance: int)
    requires |g| == w * h && InBounds(w, h, seed)
    ensures |FillResult(g, w, h, seed, tolerance)| == w * h
    ensures Region(g, w, h, seed, tolerance) == NewlyTransparent(g, FillResult(g, w, h, seed, tolerance), w, h)
  {
    var region := Region(g, w, h, seed, tolerance);
    var r := FillResult(g, w, h, seed, tolerance);
    forall p | p in region ensures p in NewlyTransparent(g, r, w, h) {
      CellsMember(w, h, p);
      FillPixel(g, w, h, seed, tolerance, p);
    }
    forall p | p in NewlyTransparent(g, r, w, h) ensures p in region {
      FillPixel(g, w, h, seed, tolerance, p);
    }
  }

  /** A fill from a seed that is not transparent clears at least the seed
      itself, since the seed always matches its own colour. */
  lemma {:induction false} FillClearsOpaqueSeed(g: seq<Pixel>, w: nat, h: nat, seed: Pos, tolerance: int)
    requires |g| == w * h && InBounds(w, h, seed)
    requires tolerance >= 0 && At(g, w, h, seed).a != 0
    ensures seed in Region(g, w, h, seed, tolerance) && |Region(g, w, h, seed, tolerance)| >= 1
    ensures |FillResult(g, w, h, seed, tolerance)| == w * h
    ensures At(FillResult(g, w, h, seed, tolerance), w, h, seed).a == 0
  {
    RegionClosed(g, w, h, seed, tolerance);
    FillPixel(g, w, h, seed, tolerance, seed);
  }

  /** Repeating a fill from the same seed reaches nothing and leaves the
      buffer as the first fill left it. */
  lemma {:induction false} RepeatFillIsNoOp(g: seq<Pixel>, w: nat, h: nat, seed: Pos, tolerance: int)
    requires |g| == w * h && InBounds(w, h, seed)
    ensures |FillResult(g, w, h, seed, tolerance)| == w * h
    ensures Region(FillResult(g, w, h, seed, tolerance), w, h, seed, tolerance) == {}
    ensures FillResult(FillResult(g, w, h, seed, tolerance), w, h, seed, tolerance) == FillResult(g, w, h, seed, tolerance)
  {
    var r := FillResult(g, w, h, seed, tolerance);
    RegionClosed(g, w, h, seed, tolerance);
    FillPixel(g, w, h, seed, tolerance, seed);
    if seed in Region(g, w, h, seed, tolerance) {
      assert At(r, w, h, seed).a == 0;
    } else {
      RegionNeedsFillableSeed(g, w, h, seed, tolerance);
      assert r == g;
    }
    RegionNeedsFillableSeed(r, w, h, seed, tolerance);
    assert Apply(r, w, {}) == r;
  }

  lemma {:induction false} ApplyInsert(g: seq<Pixel>, w: nat, h: nat, s: set<Pos>, p: Pos)
    requires w > 0 && |g| == w * h && InBounds(w, h, p) && p !in s
    ensures 0 <= Idx(w, p) < |g|
    ensures Apply(g, w, s)[Idx(w, p)] == g[Idx(w, p)]
    ensures Apply(g, w, s + {p}) == Apply(g, w, s)[Idx(w, p) := ClearAlpha(g[Idx(w, p)])]
  {
    IdxInRange(w, h, p);
    PosOfIdx(w, h, p);
    var a, b := Apply(g, w, s + {p}), Apply(g, w, s)[Idx(w, p) := ClearAlpha(g[Idx(w, p)])];
    forall i | 0 <= i < |g| ensures a[i] == b[i] {
      IdxPosOf(w, h, i);
    }
  }

  // ---------------------------------------------------------------------
  // The fill itself

  /** `q` is a neighbour of some cleared pixel. */
  ghost predicate Touches(cleared: set<Pos>, q: Pos) {
    exists p :: p in cleared && q in Neighbors(p)
  }

  /** The visited pixels are in bounds, and the cleared ones among them are
      exactly those that are fillable. */
  ghost predicate VisitedSound(g: seq<Pixel>, w: nat, h: nat, seed: Pos, tolerance: int,
                               visited: set<Pos>, cleared: set<Pos>)
    requires |g| == w * h && InBounds(w, h, seed)
  {
    && visited <= Cells(w, h)
    && cleared <= visited
    && (forall p :: p in visited ==> (p in cleared <==> Fillable(g, w, h, At(g, w, h, seed), tolerance, p)))
  }

  ghost predicate ClearedReachable(g: seq<Pixel>, w: nat, h: nat, seed: Pos, tolerance: int, cleared: set<Pos>)
    requires |g| == w * h && InBounds(w, h, seed)
  {
    forall p :: p in cleared ==> Reachable(g, w, h, seed, tolerance, p)
  }

  /** Every queue entry is the seed or a neighbour of a cleared pixel. */
  ghost predicate QueueSound(seed: Pos, queue: seq<Pos>, cleared: set<Pos>) {
    forall q :: q in queue ==> q == seed || Touches(cleared, q)
  }

  /** Nothing is lost from view: the seed and every in-bounds neighbour of a
      cleared pixel are visited or still queued. */
  ghost predicate FrontierComplete(w: nat, h: nat, seed: Pos, visited: set<Pos>, queue: seq<Pos>, cleared: set<Pos>) {
    && (seed in visited || seed in queue)
    && (forall p, q :: p in cleared && q in Neighbors(p) && InBounds(w, h, q) ==> q in visited || q in queue)
  }

  /** What the breadth-first fill keeps true between two queue entries. */
  ghost predicate FillInvariant(g: seq<Pixel>, w: nat, h: nat, seed: Pos, tolerance: int,
                                visited: set<Pos>, queue: seq<Pos>, cleared: set<Pos>)
    requires |g| == w * h && InBounds(w, h, seed)
  {
    && VisitedSound(g, w, h, seed, tolerance, visited, cleared)
    && ClearedReachable(g, w, h, seed, tolerance, cleared)
    && QueueSound(seed, queue, cleared)
    && FrontierComplete(w, h, seed, visited, queue, cleared)
  }

  lemma FillInvariantInit(g: seq<Pixel>, w: nat, h: nat, seed: Pos, tolerance: int)
    requires |g| == w * h && InBounds(w, h, seed)
    ensures FillInvariant(g, w, h, seed, tolerance, {}, [seed], {})
  {
  }

  /** Dropping a queue entry that is already visited or out of bounds. */
  lemma FillInvariantSkip(g: seq<Pixel>, w: nat, h: nat, seed: Pos, tolerance: int,
                          visited: set<Pos>, queue: seq<Pos>, cleared: set<Pos>)
    requires |g| == w * h && InBounds(w, h, seed) && queue != []
    requires FillInvariant(g, w, h, seed, tolerance, visited, queue, cleared)
    requires queue[0] in visited || !InBounds(w, h, queue[0])
    ensures FillInvariant(g, w, h, seed, tolerance, visited, queue[1..], cleared)
  {
    assert queue == [queue[0]] + queue[1..];
    assert QueueSound(seed, queue[1..], cleared);
    assert FrontierComplete(w, h, seed, visited, queue[1..], cleared);
  }

  /** Visiting a pixel that is transparent or does not match: it is marked
      visited and stops the spread. */
  lemma FillInvariantBoundary(g: seq<Pixel>, w: nat, h: nat, seed: Pos, tolerance: int,
                              visited: set<Pos>, queue: seq<Pos>, cleared: set<Pos>)
    requires |g| == w * h && InBounds(w, h, seed) && queue != []
    requires FillInvariant(g, w, h, seed, tolerance, visited, queue, cleared)
    requires queue[0] !in visited && InBounds(w, h, queue[0])
    requires !Fillable(g, w, h, At(g, w, h, seed), tolerance, queue[0])
    ensures FillInvariant(g, w, h, seed, tolerance, visited + {queue[0]}, queue[1..], cleared)
  {
    var p := queue[0];
    CellsMember(w, h, p);
    assert queue == [p] + queue[1..];
    assert VisitedSound(g, w, h, seed, tolerance, visited + {p}, cleared);
    assert QueueSound(seed, queue[1..], cleared);
    assert FrontierComplete(w, h, seed, visited + {p}, queue[1..], cleared);
  }

  /** Clearing a fillable pixel: it joins `cleared`, and its four neighbours
      go to the back of the queue. */
  lemma FillInvariantClear(g: seq<Pixel>, w: nat, h: nat, seed: Pos, tolerance: int,
                           visited: set<Pos>, queue: seq<Pos>, cleared: set<Pos>)
    requires |g| == w * h && InBounds(w, h, seed) && queue != []
    requires FillInvariant(g, w, h, seed, tolerance, visited, queue, cleared)
    requires queue[0] !in visited && InBounds(w, h, queue[0])
    requires Fillable(g, w, h, At(g, w, h, seed), tolerance, queue[0])
    ensures FillInvariant(g, w, h, seed, tolerance, visited + {queue[0]},
                          queue[1..] + Neighbors(queue[0]), cleared + {queue[0]})
  {
    var p := queue[0];
    var queue' := queue[1..] + Neighbors(p);
    CellsMember(w, h, p);
    assert VisitedSound(g, w, h, seed, tolerance, visited + {p}, cleared + {p});
    ClearedStillReachable(g, w, h, seed, tolerance, queue, cleared);
    assert queue == [p] + queue[1..];
    QueueStillSound(seed, queue, cleared);
    assert FrontierComplete(w, h, seed, visited + {p}, queue', cleared + {p});
  }

  lemma ClearedStillReachable(g: seq<Pixel>, w: nat, h: nat, seed: Pos, tolerance: int,
                              queue: seq<Pos>, cleared: set<Pos>)
    requires |g| == w * h && InBounds(w, h, seed) && queue != []
    requires ClearedReachable(g, w, h, seed, tolerance, cleared) && QueueSound(seed, queue, cleared)
    requires Fillable(g, w, h, At(g, w, h, seed), tolerance, queue[0])
    ensures ClearedReachable(g, w, h, seed, tolerance, cleared + {queue[0]})
  {
    var p := queue[0];
    if p == seed {
      ReachableSeed(g, w, h, seed, tolerance);
    } else {
      assert Touches(cleared, p);
      var p' :| p' in cleared && p in Neighbors(p');
      ReachableStep(g, w, h, seed, tolerance, p', p);
    }
  }

  lemma QueueStillSound(seed: Pos, queue: seq<Pos>, cleared: set<Pos>)
    requires queue != [] && QueueSound(seed, queue, cleared)
    ensures QueueSound(seed, queue[1..] + Neighbors(queue[0]), cleared + {queue[0]})
  {
    var p := queue[0];
    assert queue == [p] + queue[1..];
    forall q | q in queue[1..] + Neighbors(p)
      ensures q == seed || Touches(cleared + {p}, q)
    {
      if q in Neighbors(p) {
        assert p in cleared + {p};
      } else if q != seed {
        assert Touches(cleared, q);
        var p' :| p' in cleared && q in Neighbors(p');
        assert p' in cleared + {p};
      }
    }
  }

  /** Once the queue is empty, the cleared pixels are exactly the region. */
  lemma FillInvariantDone(g: seq<Pixel>, w: nat, h: nat, seed: Pos, tolerance: int,
                          visited: set<Pos>, cleared: set<Pos>)
    requires |g| == w * h && InBounds(w, h, seed)
    requires FillInvariant(g, w, h, seed, tolerance, visited, [], cleared)
    ensures cleared == Region(g, w, h, seed, tolerance)
  {
    var region := Region(g, w, h, seed, tolerance);
    forall p | p in cleared ensures p in region {
      CellsMember(w, h, p);
    }
    forall p, q | p in cleared && q in Neighbors(p) && Fillable(g, w, h, At(g, w, h, seed), tolerance, q)
      ensures q in cleared
    {
      assert q in visited;
    }
    RegionLeast(g, w, h, seed, tolerance, cleared);
  }

  /** Breadth-first fill of the buffer `pixels` (a `w` by `h` image, row by
      row) from `seed`: a queue of coordinates, a visited set, and a count of
      the pixels made transparent. Neighbours are enqueued whatever their
      state; out-of-bounds, visited, transparent and non-matching entries are
      skipped when they come off the queue. */
  method FillRegion(pixels: array<Pixel>, w: nat, h: nat, seed: Pos, tolerance: int) returns (changed: nat)
    requires pixels.Length == w * h && InBounds(w, h, seed)
    modifies pixels
    ensures pixels[..] == FillResult(old(pixels[..]), w, h, seed, tolerance)
    ensures changed == |Region(old(pixels[..]), w, h, seed, tolerance)|
  {
    ghost var g0 := pixels[..];
    IdxInRange(w, h, seed);
    var target := pixels[Idx(w, seed)];
    assert target == At(g0, w, h, seed);
    var visited: set<Pos> := {};
    var queue: seq<Pos> := [seed];
    ghost var cleared: set<Pos> := {};
    changed := 0;
    assert Apply(g0, w, {}) == g0;
    FillInvariantInit(g0, w, h, seed, tolerance);
    while queue != []
      invariant FillInvariant(g0, w, h, seed, tolerance, visited, queue, cleared)
      invariant pixels[..] == Apply(g0, w, cleared)
      invariant changed == |cleared|
      decreases Cells(w, h) - visited, |queue|
    {
      var p := queue[0];
      if p in visited || !InBounds(w, h, p) {
        FillInvariantSkip(g0, w, h, seed, tolerance, visited, queue, cleared);
        queue := queue[1..];
        continue;
      }
      CellsMember(w, h, p);
      ApplyInsert(g0, w, h, cleared, p);
      var current := pixels[Idx(w, p)];
      assert current == At(g0, w, h, p);
      if current.a == 0 || !ColorMatches(current, target, tolerance) {
        FillInvariantBoundary(g0, w, h, seed, tolerance, visited, queue, cleared);
        queue := queue[1..];
        visited := visited + {p};
        continue;
      }
      FillInvariantClear(g0, w, h, seed, tolerance, visited, queue, cleared);
      pixels[Idx(w, p)] := Pixel(current.r, current.g, current.b, 0);
      changed := changed + 1;
      visited := visited + {p};
      cleared := cleared + {p};
      queue := queue[1..] + Neighbors(p);
    }
    FillInvariantDone(g0, w, h, seed, tolerance, visited, cleared);
  }
}
