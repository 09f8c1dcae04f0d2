/**
 * Properties of the traversal itself: the order in which neighbours are
 * pushed (up, right, down, left), the centre every pushed point carries, that every pixel
 * recoloured for a centre neighbours that centre's region as built so far
 * (its regions are contiguous), and that the region of each centre is
 * closed when its loop ends (every in-bounds neighbour of a pixel of the
 * region is processed or outside the tolerance).
 */
module FillTraversal {
  import opened Grid
  import opened FillModel
  import opened FillProperties

  /** The neighbours of (x, y) in the order the code tries them: up, right, down, left. */
  function Around(x: int, y: int): (r: seq<(int, int)>) {
    [(x, y - 1), (x + 1, y), (x, y + 1), (x - 1, y)]
  }

  /** The points pushed, in order, for those of `ns` that the guard admits in state s. */
  function Admitted<C>(e: Env<C>, s: State<C>, i: nat, ns: seq<(int, int)>): (r: seq<Point<C>>)
    requires Inv(e, s) && i < |e.centres|
    ensures |r| <= |ns|
    ensures forall p | p in r :: p.c == e.centres[i] && (p.x, p.y) in ns
  {
    if ns == [] then []
    else
      (if Admits(e, s, i, ns[0].0, ns[0].1) then [Point(ns[0].0, ns[0].1, e.centres[i])] else [])
      + Admitted(e, s, i, ns[1..])
  }

  /** No pixel occurs twice in ns. */
  ghost predicate AllDifferent(ns: seq<(int, int)>) {
    forall a, b | 0 <= a < b < |ns| :: ns[a] != ns[b]
  }

  lemma AllDifferentTail(ns: seq<(int, int)>)
    requires ns != [] && AllDifferent(ns)
    ensures ns[0] !in ns[1..] && AllDifferent(ns[1..])
  {
    var rest := ns[1..];
    forall b | 0 <= b < |rest| ensures rest[b] != ns[0] {
      assert rest[b] == ns[b + 1];
    }
    forall a, b | 0 <= a < b < |rest| ensures rest[a] != rest[b] {
      assert rest[a] == ns[a + 1] && rest[b] == ns[b + 1];
    }
  }

  /** Try the pixels of ns one after another, as consecutive neighbour blocks do. */
  function TryAll<C>(e: Env<C>, s: State<C>, i: nat, ns: seq<(int, int)>): (r: State<C>)
    requires Inv(e, s) && HasPicker(e, i)
    ensures Inv(e, r)
    decreases |ns|
  {
    if ns == [] then s else TryAll(e, TryNeighbour(e, s, i, ns[0].0, ns[0].1), i, ns[1..])
  }

  /** One iteration of the while loop tries the four neighbours of the removed point in order. */
  lemma ExpandIsTryAll<C>(e: Env<C>, s: State<C>, i: nat)
    requires Inv(e, s) && HasPicker(e, i) && s.frontier != []
    ensures var t := Take(e.order, s.frontier);
      Expand(e, s, i) == TryAll(e, s.(frontier := t.1), i, Around(t.0.x, t.0.y))
  {
    var t := Take(e.order, s.frontier);
    var p := t.0;
    var ns := Around(p.x, p.y);
    var s0 := s.(frontier := t.1);
    var s1 := TryNeighbour(e, s0, i, p.x, p.y - 1);
    var s2 := TryNeighbour(e, s1, i, p.x + 1, p.y);
    var s3 := TryNeighbour(e, s2, i, p.x, p.y + 1);
    var s4 := TryNeighbour(e, s3, i, p.x - 1, p.y);
    ExpandSteps(e, s, i, p, t.1);
    var n1, n2, n3 := ns[1..], ns[1..][1..], ns[1..][1..][1..];
    assert n3 == [(p.x - 1, p.y)] && n3[1..] == [];
    assert TryAll(e, s3, i, n3) == s4;
    assert n2 == [(p.x, p.y + 1)] + n3;
    assert TryAll(e, s2, i, n2) == s4;
    assert n1 == [(p.x + 1, p.y)] + n2;
    assert TryAll(e, s1, i, n1) == s4;
  }

  lemma TryNeighbourFrontier<C>(e: Env<C>, s: State<C>, i: nat, x: int, y: int)
    requires Inv(e, s) && HasPicker(e, i)
    ensures TryNeighbour(e, s, i, x, y).frontier
         == s.frontier + if Admits(e, s, i, x, y) then [Point(x, y, e.centres[i])] else []
  {
  }

  lemma TryNeighbourLog<C>(e: Env<C>, s: State<C>, i: nat, x: int, y: int)
    requires Inv(e, s) && HasPicker(e, i)
    ensures TryNeighbour(e, s, i, x, y).log
         == s.log + if Admits(e, s, i, x, y) then [Write(x, y, i, e.pickers[i](Point(x, y, e.centres[i])))] else []
  {
  }

  /** Trying one pixel does not change whether another pixel is admitted. */
  lemma AdmitsAfter<C>(e: Env<C>, s: State<C>, i: nat, x: int, y: int, x': int, y': int)
    requires Inv(e, s) && HasPicker(e, i) && (x, y) != (x', y')
    ensures Admits(e, TryNeighbour(e, s, i, x, y), i, x', y') == Admits(e, s, i, x', y')
  {
  }

  lemma {:induction false} AdmittedAfter<C>(e: Env<C>, s: State<C>, i: nat, x: int, y: int, ns: seq<(int, int)>)
    requires Inv(e, s) && HasPicker(e, i) && (x, y) !in ns
    ensures Admitted(e, TryNeighbour(e, s, i, x, y), i, ns) == Admitted(e, s, i, ns)
  {
    if ns != [] {
      AdmitsAfter(e, s, i, x, y, ns[0].0, ns[0].1);
      assert (x, y) !in ns[1..];
      AdmittedAfter(e, s, i, x, y, ns[1..]);
    }
  }

  /** Trying distinct pixels in order pushes exactly the admitted ones, in that order. */
  lemma {:induction false} TryAllFrontier<C>(e: Env<C>, s: State<C>, i: nat, ns: seq<(int, int)>)
    requires Inv(e, s) && HasPicker(e, i) && AllDifferent(ns)
    ensures TryAll(e, s, i, ns).frontier == s.frontier + Admitted(e, s, i, ns)
    decreases |ns|
  {
    if ns != [] {
      var s1 := TryNeighbour(e, s, i, ns[0].0, ns[0].1);
      var rest := ns[1..];
      TryNeighbourFrontier(e, s, i, ns[0].0, ns[0].1);
      AllDifferentTail(ns);
      AdmittedAfter(e, s, i, ns[0].0, ns[0].1, rest);
      TryAllFrontier(e, s1, i, rest);
    }
  }

  /**
   * One iteration of the while loop keeps the rest of the frontier and
   * appends, in the order up, right, down, left, a point for each
   * neighbour of the removed point that the guard admits before the
   * iteration starts.
   */
  lemma ExpandPushesInOrder<C>(e: Env<C>, s: State<C>, i: nat)
    requires Inv(e, s) && HasPicker(e, i) && s.frontier != []
    ensures var t := Take(e.order, s.frontier);
      Expand(e, s, i).frontier == t.1 + Admitted(e, s.(frontier := t.1), i, Around(t.0.x, t.0.y))
  {
    var t := Take(e.order, s.frontier);
    ExpandIsTryAll(e, s, i);
    TryAllFrontier(e, s.(frontier := t.1), i, Around(t.0.x, t.0.y));
  }

  // ---------------------------------------------------------------------
  // Closure of a centre's region

  /** The pixels of the frontier. */
  function Spots<C>(f: seq<Point<C>>): (r: set<(int, int)>) {
    set k | 0 <= k < |f| :: (f[k].x, f[k].y)
  }

  /** Centre i's region: its seed and the pixels recoloured for it. */
  function Region<C>(e: Env<C>, log: seq<Write<C>>, i: nat): (r: set<(int, int)>)
    requires i < |e.centres|
  {
    {(e.centres[i].x, e.centres[i].y)} + set k | 0 <= k < |log| && log[k].centre == i :: (log[k].x, log[k].y)
  }

  /**
   * Every in-bounds neighbour of q is processed, or its original colour is
   * outside the tolerance of centre i's colour.
   */
  ghost predicate Closed<C>(e: Env<C>, img0: Grid<C>, s: State<C>, i: nat, q: (int, int))
    requires IsGrid(img0, e.width, e.height) && Inv(e, s) && i < |e.centres|
  {
    forall n | n in Around(q.0, q.1) && IsWithinImage(n.0, n.1, e.width, e.height) ::
      s.processed[n.1][n.0] || e.dist(e.centres[i].color, img0[n.1][n.0]) > e.tolerance
  }

  /** Every pixel of centre i's region is closed. */
  ghost predicate RegionClosed<C>(e: Env<C>, img0: Grid<C>, s: State<C>, i: nat)
    requires IsGrid(img0, e.width, e.height) && Inv(e, s) && i < |e.centres|
  {
    forall q | q in Region(e, s.log, i) :: Closed(e, img0, s, i, q)
  }

  /** The loop invariant of closure: each region pixel is still on the frontier or already closed. */
  ghost predicate Pending<C>(e: Env<C>, img0: Grid<C>, s: State<C>, i: nat)
    requires IsGrid(img0, e.width, e.height) && Inv(e, s) && i < |e.centres|
  {
    forall q | q in Region(e, s.log, i) :: q in Spots(s.frontier) || Closed(e, img0, s, i, q)
  }

  /** Every write after the first n is of a pixel on the frontier. */
  ghost predicate PushedSince<C>(n: nat, s: State<C>) {
    n <= |s.log| && forall k | n <= k < |s.log| :: (s.log[k].x, s.log[k].y) in Spots(s.frontier)
  }

  lemma ClosedStable<C>(e: Env<C>, img0: Grid<C>, s: State<C>, r: State<C>, i: nat, q: (int, int))
    requires IsGrid(img0, e.width, e.height) && i < |e.centres| && Extends(e, s, r)
    requires Closed(e, img0, s, i, q)
    ensures Closed(e, img0, r, i, q)
  {
  }

  lemma SpotsPrefix<C>(f: seq<Point<C>>, g: seq<Point<C>>)
    requires f <= g
    ensures Spots(f) <= Spots(g)
  {
    forall q | q in Spots(f) ensures q in Spots(g) {
      var k :| 0 <= k < |f| && q == (f[k].x, f[k].y);
      assert g[k] == f[k];
    }
  }

  lemma TryNeighbourPushes<C>(e: Env<C>, s: State<C>, i: nat, x: int, y: int, n: nat)
    requires Inv(e, s) && HasPicker(e, i) && PushedSince(n, s)
    ensures var r := TryNeighbour(e, s, i, x, y);
      PushedSince(n, r) && s.frontier <= r.frontier
  {
    var r := TryNeighbour(e, s, i, x, y);
    if Admits(e, s, i, x, y) {
      SpotsPrefix(s.frontier, r.frontier);
      assert r.frontier[|s.frontier|] == Point(x, y, e.centres[i]);
      forall k | n <= k < |r.log| ensures (r.log[k].x, r.log[k].y) in Spots(r.frontier) {
        if k < |s.log| {
          assert r.log[k] == s.log[k];
        }
      }
    }
  }

  lemma {:induction false} TryAllPushes<C>(e: Env<C>, s: State<C>, i: nat, ns: seq<(int, int)>, n: nat)
    requires Inv(e, s) && HasPicker(e, i) && PushedSince(n, s)
    ensures var r := TryAll(e, s, i, ns);
      PushedSince(n, r) && s.frontier <= r.frontier
    decreases |ns|
  {
    if ns != [] {
      var s1 := TryNeighbour(e, s, i, ns[0].0, ns[0].1);
      TryNeighbourPushes(e, s, i, ns[0].0, ns[0].1, n);
      TryAllPushes(e, s1, i, ns[1..], n);
    }
  }

  lemma {:induction false} TryAllExtends<C>(e: Env<C>, s: State<C>, i: nat, ns: seq<(int, int)>)
    requires Inv(e, s) && HasPicker(e, i)
    ensures Extends(e, s, TryAll(e, s, i, ns))
    decreases |ns|
  {
    if ns != [] {
      var s1 := TryNeighbour(e, s, i, ns[0].0, ns[0].1);
      TryNeighbourExtends(e, s, i, ns[0].0, ns[0].1);
      TryAllExtends(e, s1, i, ns[1..]);
      ExtendsTrans(e, s, s1, TryAll(e, s, i, ns));
    }
  }

  /** Writes made while trying pixels for centre i are writes for centre i. */
  lemma {:induction false} TryAllWritesFor<C>(e: Env<C>, s: State<C>, i: nat, ns: seq<(int, int)>)
    requires Inv(e, s) && HasPicker(e, i)
    ensures forall k | |s.log| <= k < |TryAll(e, s, i, ns).log| :: TryAll(e, s, i, ns).log[k].centre == i
    decreases |ns|
  {
    if ns != [] {
      var s1 := TryNeighbour(e, s, i, ns[0].0, ns[0].1);
      var r := TryAll(e, s, i, ns);
      TryNeighbourLog(e, s, i, ns[0].0, ns[0].1);
      TryAllWritesFor(e, s1, i, ns[1..]);
      TryAllExtends(e, s1, i, ns[1..]);
      forall k | |s.log| <= k < |r.log| ensures r.log[k].centre == i {
        if k < |s1.log| {
          assert r.log[k] == s1.log[k];
        }
      }
    }
  }

  /** After a pixel is tried it is processed, or its original colour is outside the tolerance. */
  lemma TriedSettles<C>(e: Env<C>, img0: Grid<C>, s: State<C>, i: nat, x: int, y: int)
    requires Consistent(e, img0, s, i + 1) && HasPicker(e, i)
    requires IsWithinImage(x, y, e.width, e.height)
    ensures var r := TryNeighbour(e, s, i, x, y);
      r.processed[y][x] || e.dist(e.centres[i].color, img0[y][x]) > e.tolerance
  {
    if !s.processed[y][x] {
      assert (x, y) !in Positions(s.log);
      ReplayUnwritten(img0, s.log, x, y);
    }
  }

  /** After trying the pixels of ns, each of them in bounds is processed or outside the tolerance. */
  lemma {:induction false} TryAllSettles<C>(e: Env<C>, img0: Grid<C>, s: State<C>, i: nat, ns: seq<(int, int)>)
    requires Consistent(e, img0, s, i + 1) && HasPicker(e, i)
    ensures var r := TryAll(e, s, i, ns);
      forall n | n in ns && IsWithinImage(n.0, n.1, e.width, e.height) ::
        r.processed[n.1][n.0] || e.dist(e.centres[i].color, img0[n.1][n.0]) > e.tolerance
    decreases |ns|
  {
    if ns != [] {
      var s1 := TryNeighbour(e, s, i, ns[0].0, ns[0].1);
      TryNeighbourConsistent(e, img0, s, i, ns[0].0, ns[0].1);
      TryAllSettles(e, img0, s1, i, ns[1..]);
      TryAllExtends(e, s1, i, ns[1..]);
      if IsWithinImage(ns[0].0, ns[0].1, e.width, e.height) {
        TriedSettles(e, img0, s, i, ns[0].0, ns[0].1);
      }
      assert forall n | n in ns :: n == ns[0] || n in ns[1..];
    }
  }

  /** The pixels written by one iteration are all on the frontier afterwards; the old rest stays. */
  lemma ExpandPushes<C>(e: Env<C>, s: State<C>, i: nat)
    requires Inv(e, s) && HasPicker(e, i) && s.frontier != []
    ensures var r := Expand(e, s, i);
      PushedSince(|s.log|, r) && Take(e.order, s.frontier).1 <= r.frontier
  {
    var t := Take(e.order, s.frontier);
    ExpandIsTryAll(e, s, i);
    TryAllPushes(e, s.(frontier := t.1), i, Around(t.0.x, t.0.y), |s.log|);
  }

  /** After one iteration the removed point is closed. */
  lemma ExpandCloses<C>(e: Env<C>, img0: Grid<C>, s: State<C>, i: nat)
    requires Consistent(e, img0, s, i + 1) && HasPicker(e, i) && s.frontier != []
    ensures var p := Take(e.order, s.frontier).0;
      Closed(e, img0, Expand(e, s, i), i, (p.x, p.y))
  {
    var t := Take(e.order, s.frontier);
    ExpandIsTryAll(e, s, i);
    TryAllSettles(e, img0, s.(frontier := t.1), i, Around(t.0.x, t.0.y));
  }

  /** Writes made in one iteration for centre i are writes for centre i. */
  lemma ExpandWritesFor<C>(e: Env<C>, s: State<C>, i: nat)
    requires Inv(e, s) && HasPicker(e, i) && s.frontier != []
    ensures forall k | |s.log| <= k < |Expand(e, s, i).log| :: Expand(e, s, i).log[k].centre == i
  {
    var t := Take(e.order, s.frontier);
    ExpandIsTryAll(e, s, i);
    TryAllWritesFor(e, s.(frontier := t.1), i, Around(t.0.x, t.0.y));
  }

  /**
   * The closure invariant carried across one iteration, stated on any
   * later state r that keeps the rest of the frontier, has every new write
   * on its frontier and has closed the removed point p.
   */
  lemma PendingStep<C>(e: Env<C>, img0: Grid<C>, s: State<C>, r: State<C>, i: nat, p: Point<C>, rest: seq<Point<C>>)
    requires IsGrid(img0, e.width, e.height) && i < |e.centres|
    requires Extends(e, s, r) && Pending(e, img0, s, i)
    requires multiset(rest) + multiset{p} == multiset(s.frontier) && rest <= r.frontier
    requires PushedSince(|s.log|, r) && Closed(e, img0, r, i, (p.x, p.y))
    ensures Pending(e, img0, r, i)
  {
    forall q | q in Region(e, r.log, i) ensures q in Spots(r.frontier) || Closed(e, img0, r, i, q) {
      if q == (e.centres[i].x, e.centres[i].y) {
        PendingCarries(e, img0, s, r, i, p, rest, q);
      } else {
        var k :| 0 <= k < |r.log| && r.log[k].centre == i && q == (r.log[k].x, r.log[k].y);
        if k < |s.log| {
          assert r.log[k] == s.log[k];
          PendingCarries(e, img0, s, r, i, p, rest, q);
        }
      }
    }
  }

  /** A pixel of the region before an iteration is on the frontier or closed after it. */
  lemma PendingCarries<C>(e: Env<C>, img0: Grid<C>, s: State<C>, r: State<C>, i: nat, p: Point<C>, rest: seq<Point<C>>, q: (int, int))
    requires IsGrid(img0, e.width, e.height) && i < |e.centres|
    requires Extends(e, s, r) && Pending(e, img0, s, i) && q in Region(e, s.log, i)
    requires multiset(rest) + multiset{p} == multiset(s.frontier) && rest <= r.frontier
    requires Closed(e, img0, r, i, (p.x, p.y))
    ensures q in Spots(r.frontier) || Closed(e, img0, r, i, q)
  {
    if Closed(e, img0, s, i, q) {
      ClosedStable(e, img0, s, r, i, q);
    } else {
      var k :| 0 <= k < |s.frontier| && q == (s.frontier[k].x, s.frontier[k].y);
      var pt := s.frontier[k];
      assert pt in multiset(s.frontier);
      if pt != p {
        assert pt in multiset(rest);
        var m :| 0 <= m < |rest| && rest[m] == pt;
        assert r.frontier[m] == pt;
      }
    }
  }

  lemma ExpandPending<C>(e: Env<C>, img0: Grid<C>, s: State<C>, i: nat)
    requires Consistent(e, img0, s, i + 1) && HasPicker(e, i) && s.frontier != []
    requires Pending(e, img0, s, i)
    ensures Pending(e, img0, Expand(e, s, i), i)
  {
    var t := Take(e.order, s.frontier);
    ExpandExtends(e, s, i);
    ExpandPushes(e, s, i);
    ExpandCloses(e, img0, s, i);
    PendingStep(e, img0, s, Expand(e, s, i), i, t.0, t.1);
  }

  /** The while loop for centre i ends with every pixel of the region closed. */
  lemma {:induction false} DrainCloses<C>(e: Env<C>, img0: Grid<C>, s: State<C>, i: nat)
    requires Consistent(e, img0, s, i + 1) && HasPicker(e, i)
    requires Pending(e, img0, s, i)
    ensures RegionClosed(e, img0, Drain(e, s, i), i)
    decreases Measure(s)
  {
    if s.frontier != [] {
      ExpandConsistent(e, img0, s, i);
      ExpandPending(e, img0, s, i);
      ExpandShrinks(e, s, i);
      DrainCloses(e, img0, Expand(e, s, i), i);
      assert Drain(e, s, i) == Drain(e, Expand(e, s, i), i);
    }
  }

  /** Writes made in centre i's loop are writes for centre i. */
  lemma {:induction false} DrainWritesFor<C>(e: Env<C>, s: State<C>, i: nat)
    requires Inv(e, s) && HasPicker(e, i)
    ensures forall k | |s.log| <= k < |Drain(e, s, i).log| :: Drain(e, s, i).log[k].centre == i
    decreases Measure(s)
  {
    if s.frontier != [] {
      var r := Expand(e, s, i);
      var d := Drain(e, s, i);
      ExpandShrinks(e, s, i);
      ExpandExtends(e, s, i);
      ExpandWritesFor(e, s, i);
      DrainExtends(e, r, i);
      DrainWritesFor(e, r, i);
      assert d == Drain(e, r, i);
      forall k | |s.log| <= k < |d.log| ensures d.log[k].centre == i {
        if k < |r.log| {
          assert d.log[k] == r.log[k];
        }
      }
    }
  }

  /** When centre i starts, its region is just its seed, which is on the frontier. */
  lemma StartPending<C>(e: Env<C>, img0: Grid<C>, s: State<C>, i: nat)
    requires Consistent(e, img0, s, i) && i < |e.centres|
    ensures Consistent(e, img0, StartCentre(e, s, i), i + 1)
    ensures Pending(e, img0, StartCentre(e, s, i), i)
  {
    var r := StartCentre(e, s, i);
    StartCentreConsistent(e, img0, s, i);
    var seed := Point(e.centres[i].x, e.centres[i].y, e.centres[i]);
    assert r.frontier[|s.frontier|] == seed;
    forall k | 0 <= k < |s.log| ensures s.log[k].centre != i {
      assert WriteOk(e, img0, s.log[k], i);
    }
    assert Region(e, r.log, i) == {(seed.x, seed.y)};
  }

  // ---------------------------------------------------------------------
  // Contiguity of a centre's region

  /** Around is symmetric: q is a neighbour of n exactly when n is a neighbour of q. */
  lemma AroundSymmetric(q: (int, int), n: (int, int))
    requires n in Around(q.0, q.1)
    ensures q in Around(n.0, n.1)
  {
  }

  lemma RegionGrows<C>(e: Env<C>, log: seq<Write<C>>, log': seq<Write<C>>, i: nat)
    requires i < |e.centres| && log <= log'
    ensures Region(e, log, i) <= Region(e, log', i)
  {
    forall q | q in Region(e, log, i) ensures q in Region(e, log', i) {
      if q != (e.centres[i].x, e.centres[i].y) {
        var k :| 0 <= k < |log| && log[k].centre == i && q == (log[k].x, log[k].y);
        assert log'[k] == log[k];
      }
    }
  }

  /**
   * The loop invariant of contiguity: every point on the frontier during
   * centre i's loop carries centre i (so the tolerance test compares with
   * `c.color`, the colour of the point's own centre) and lies in the
   * region of centre i built so far.
   */
  ghost predicate Seeded<C>(e: Env<C>, s: State<C>, i: nat)
    requires i < |e.centres|
  {
    forall p | p in s.frontier :: p.c == e.centres[i] && (p.x, p.y) in Region(e, s.log, i)
  }

  /** The k-th write is for an existing centre and neighbours its region as built before it. */
  ghost predicate Joined<C>(e: Env<C>, log: seq<Write<C>>, k: nat)
    requires k < |log|
  {
    var w := log[k];
    w.centre < |e.centres| && Adjacent(Region(e, log[..k], w.centre), w.x, w.y)
  }

  /** One of the four neighbours of (x, y) is in ps. */
  ghost predicate Adjacent(ps: set<(int, int)>, x: int, y: int) {
    (x, y - 1) in ps || (x + 1, y) in ps || (x, y + 1) in ps || (x - 1, y) in ps
  }

  /**
   * Every write is for an existing centre and is a 4-neighbour of that
   * centre's seed or of a pixel already written for it.
   */
  ghost predicate Connected<C>(e: Env<C>, log: seq<Write<C>>)
    decreases |log|
  {
    log == [] || (Connected(e, log[..|log| - 1]) && Joined(e, log, |log| - 1))
  }

  /** Every write of a contiguous log neighbours its region as built before it. */
  lemma {:induction false} ConnectedJoined<C>(e: Env<C>, log: seq<Write<C>>, k: nat)
    requires Connected(e, log) && k < |log|
    ensures Joined(e, log, k)
    decreases |log|
  {
    var init := log[..|log| - 1];
    if k < |init| {
      ConnectedJoined(e, init, k);
      assert init[k] == log[k] && init[..k] == log[..k];
    }
  }

  /** Trying a neighbour of a region pixel q keeps both invariants. */
  lemma TryNeighbourConnects<C>(e: Env<C>, s: State<C>, i: nat, x: int, y: int, q: (int, int))
    requires Inv(e, s) && HasPicker(e, i) && Seeded(e, s, i) && Connected(e, s.log)
    requires q in Region(e, s.log, i) && q in Around(x, y)
    ensures Seeded(e, TryNeighbour(e, s, i, x, y), i) && Connected(e, TryNeighbour(e, s, i, x, y).log)
  {
    var r := TryNeighbour(e, s, i, x, y);
    if Admits(e, s, i, x, y) {
      TryNeighbourFrontier(e, s, i, x, y);
      TryNeighbourLog(e, s, i, x, y);
      RegionGrows(e, s.log, r.log, i);
      assert r.log[|s.log|].centre == i && (x, y) in Region(e, r.log, i);
      assert r.log[..|r.log| - 1] == s.log;
      assert Joined(e, r.log, |r.log| - 1);
    }
  }

  /** Trying pixels that all neighbour the region pixel q keeps both invariants. */
  lemma {:induction false} TryAllConnects<C>(e: Env<C>, s: State<C>, i: nat, ns: seq<(int, int)>, q: (int, int))
    requires Inv(e, s) && HasPicker(e, i) && Seeded(e, s, i) && Connected(e, s.log)
    requires q in Region(e, s.log, i) && forall n | n in ns :: q in Around(n.0, n.1)
    ensures Seeded(e, TryAll(e, s, i, ns), i) && Connected(e, TryAll(e, s, i, ns).log)
    decreases |ns|
  {
    if ns != [] {
      var s1 := TryNeighbour(e, s, i, ns[0].0, ns[0].1);
      TryNeighbourConnects(e, s, i, ns[0].0, ns[0].1, q);
      TryNeighbourLog(e, s, i, ns[0].0, ns[0].1);
      RegionGrows(e, s.log, s1.log, i);
      assert forall n | n in ns[1..] :: n in ns;
      TryAllConnects(e, s1, i, ns[1..], q);
    }
  }

  /**
   * One iteration of the while loop keeps both invariants: the removed
   * point is in the region, and every point it pushes is a neighbour of it.
   */
  lemma ExpandConnects<C>(e: Env<C>, s: State<C>, i: nat)
    requires Inv(e, s) && HasPicker(e, i) && s.frontier != []
    requires Seeded(e, s, i) && Connected(e, s.log)
    ensures Seeded(e, Expand(e, s, i), i) && Connected(e, Expand(e, s, i).log)
  {
    var t := Take(e.order, s.frontier);
    var p := t.0;
    var q := (p.x, p.y);
    var s0 := s.(frontier := t.1);
    assert p in multiset(s.frontier);
    forall pt | pt in t.1 ensures pt.c == e.centres[i] && (pt.x, pt.y) in Region(e, s0.log, i) {
      assert pt in multiset(t.1);
      assert pt in multiset(s.frontier);
    }
    forall n | n in Around(p.x, p.y) ensures q in Around(n.0, n.1) {
      AroundSymmetric(q, n);
    }
    ExpandIsTryAll(e, s, i);
    TryAllConnects(e, s0, i, Around(p.x, p.y), q);
  }

  /** The while loop for centre i keeps every write contiguous. */
  lemma {:induction false} DrainConnects<C>(e: Env<C>, s: State<C>, i: nat)
    requires Inv(e, s) && HasPicker(e, i) && Seeded(e, s, i) && Connected(e, s.log)
    ensures Connected(e, Drain(e, s, i).log)
    decreases Measure(s)
  {
    if s.frontier != [] {
      ExpandConnects(e, s, i);
      ExpandShrinks(e, s, i);
      DrainConnects(e, Expand(e, s, i), i);
      assert Drain(e, s, i) == Drain(e, Expand(e, s, i), i);
    }
  }

  /** Starting centre i keeps the loop invariant: the seed is in the region by definition. */
  lemma StartSeeded<C>(e: Env<C>, s: State<C>, i: nat)
    requires i < |e.centres| && Seeded(e, s, i)
    ensures Seeded(e, StartCentre(e, s, i), i)
    ensures StartCentre(e, s, i).log == s.log
  {
  }

  /** An empty frontier is seeded for any centre. */
  lemma EmptySeeded<C>(e: Env<C>, s: State<C>, i: nat)
    requires i < |e.centres| && s.frontier == []
    ensures Seeded(e, s, i)
  {
  }

  lemma {:induction false} RunCentresConnects<C>(e: Env<C>, img0: Grid<C>, s: State<C>, i: nat)
    requires Consistent(e, img0, s, i) && |e.centres| <= |e.pickers| && Connected(e, s.log)
    requires i < |e.centres| ==> Seeded(e, s, i)
    ensures Connected(e, RunCentres(e, s, i).log)
    decreases |e.centres| - i, 1
  {
    if i < |e.centres| {
      RunCentresConnectsStep(e, img0, s, i);
    } else {
      RunCentresDone(e, s, i);
    }
  }

  lemma {:induction false} RunCentresConnectsStep<C>(e: Env<C>, img0: Grid<C>, s: State<C>, i: nat)
    requires Consistent(e, img0, s, i) && i < |e.centres| <= |e.pickers| && Connected(e, s.log) && Seeded(e, s, i)
    ensures Connected(e, RunCentres(e, s, i).log)
    decreases |e.centres| - i, 0
  {
    CentreConsistent(e, img0, s, i);
    CentreConnects(e, s, i);
    var r := Drain(e, StartCentre(e, s, i), i);
    if i + 1 < |e.centres| {
      EmptySeeded(e, r, i + 1);
    }
    RunCentresConnects(e, img0, r, i + 1);
    RunCentresStep(e, s, i);
  }

  /** One iteration of the for loop keeps every write contiguous. */
  lemma CentreConnects<C>(e: Env<C>, s: State<C>, i: nat)
    requires Inv(e, s) && HasPicker(e, i) && Seeded(e, s, i) && Connected(e, s.log)
    ensures Connected(e, Drain(e, StartCentre(e, s, i), i).log)
  {
    StartSeeded(e, s, i);
    DrainConnects(e, StartCentre(e, s, i), i);
  }

  /**
   * Contiguity of the whole run: the k-th recolouring, made for centre i,
   * is a 4-neighbour of centre i's seed or of a pixel recoloured for
   * centre i before it. So every centre's region is reached from its seed
   * through neighbouring pixels of that region only.
   */
  lemma FillWritesConnected<C>(e: Env<C>, img0: Grid<C>, k: nat)
    requires IsGrid(img0, e.width, e.height) && |e.centres| <= |e.pickers|
    requires k < |FinalState(e, img0).log|
    ensures var w := FinalState(e, img0).log[k];
      w.centre < |e.centres| &&
      exists n | n in Around(w.x, w.y) :: n in Region(e, FinalState(e, img0).log[..k], w.centre)
  {
    if 0 < |e.centres| {
      EmptySeeded(e, Initial(e, img0), 0);
    }
    InitialConsistent(e, img0);
    RunCentresConnects(e, img0, Initial(e, img0), 0);
    ConnectedJoined(e, FinalState(e, img0).log, k);
  }

  // ---------------------------------------------------------------------
  // The run, centre by centre

  /** Pixel n was recoloured, according to log, for centre i or an earlier one. */
  ghost predicate Taken<C>(log: seq<Write<C>>, i: nat, n: (int, int)) {
    exists k | 0 <= k < |log| :: (log[k].x, log[k].y) == n && log[k].centre <= i
  }

  /**
   * Every in-bounds neighbour of q was taken by centre i or an earlier
   * one, or its original colour is outside the tolerance of centre i's
   * colour. Unlike Closed, this stays true when later centres write.
   */
  ghost predicate Settled<C>(e: Env<C>, img0: Grid<C>, log: seq<Write<C>>, i: nat, q: (int, int))
    requires IsGrid(img0, e.width, e.height) && i < |e.centres|
  {
    forall n | n in Around(q.0, q.1) && IsWithinImage(n.0, n.1, e.width, e.height) ::
      Taken(log, i, n) || e.dist(e.centres[i].color, img0[n.1][n.0]) > e.tolerance
  }

  /** Every pixel of centre i's region is settled. */
  ghost predicate RegionSettled<C>(e: Env<C>, img0: Grid<C>, log: seq<Write<C>>, i: nat)
    requires IsGrid(img0, e.width, e.height) && i < |e.centres|
  {
    forall q | q in Region(e, log, i) :: Settled(e, img0, log, i, q)
  }

  /** The regions of the first n centres are settled. */
  ghost predicate ClosedUpTo<C>(e: Env<C>, img0: Grid<C>, s: State<C>, n: nat)
    requires IsGrid(img0, e.width, e.height) && Inv(e, s) && n <= |e.centres|
  {
    forall j | 0 <= j < n :: RegionSettled(e, img0, s.log, j)
  }

  /**
   * When centre i's loop ends its closed region is settled: every pixel
   * processed by then was written for centre i or an earlier one.
   */
  lemma ClosedSettles<C>(e: Env<C>, img0: Grid<C>, r: State<C>, i: nat)
    requires Consistent(e, img0, r, i + 1) && i < |e.centres| && RegionClosed(e, img0, r, i)
    ensures RegionSettled(e, img0, r.log, i)
  {
    forall q, n | q in Region(e, r.log, i) && n in Around(q.0, q.1) && IsWithinImage(n.0, n.1, e.width, e.height)
      ensures Taken(r.log, i, n) || e.dist(e.centres[i].color, img0[n.1][n.0]) > e.tolerance
    {
      assert Closed(e, img0, r, i, q);
      if r.processed[n.1][n.0] {
        assert n in Positions(r.log);
        var k :| 0 <= k < |r.log| && n == (r.log[k].x, r.log[k].y);
        assert WriteOk(e, img0, r.log[k], i + 1);
      }
    }
  }

  /** A settled region stays settled when writes are appended that leave it as it was. */
  lemma SettledGrows<C>(e: Env<C>, img0: Grid<C>, log: seq<Write<C>>, log': seq<Write<C>>, i: nat)
    requires IsGrid(img0, e.width, e.height) && i < |e.centres| && log <= log'
    requires RegionSettled(e, img0, log, i) && Region(e, log', i) == Region(e, log, i)
    ensures RegionSettled(e, img0, log', i)
  {
    forall q, n | q in Region(e, log', i) && n in Around(q.0, q.1) && IsWithinImage(n.0, n.1, e.width, e.height)
      ensures Taken(log', i, n) || e.dist(e.centres[i].color, img0[n.1][n.0]) > e.tolerance
    {
      assert Settled(e, img0, log, i, q);
      if Taken(log, i, n) {
        var k :| 0 <= k < |log| && (log[k].x, log[k].y) == n && log[k].centre <= i;
        assert log'[k] == log[k];
      }
    }
  }

  /** Running centre i settles its region and keeps the earlier regions settled. */
  lemma CentreCloses<C>(e: Env<C>, img0: Grid<C>, s: State<C>, i: nat)
    requires Consistent(e, img0, s, i) && HasPicker(e, i) && ClosedUpTo(e, img0, s, i)
    ensures Consistent(e, img0, Drain(e, StartCentre(e, s, i), i), i + 1)
    ensures ClosedUpTo(e, img0, Drain(e, StartCentre(e, s, i), i), i + 1)
  {
    var a := StartCentre(e, s, i);
    var r := Drain(e, a, i);
    StartPending(e, img0, s, i);
    DrainConsistent(e, img0, a, i);
    DrainCloses(e, img0, a, i);
    ClosedSettles(e, img0, r, i);
    DrainWritesFor(e, a, i);
    StartCentreExtends(e, s, i);
    DrainExtends(e, a, i);
    ExtendsTrans(e, s, a, r);
    ClosedCarried(e, img0, s, r, i);
  }

  /** Settled regions of earlier centres stay settled while centre i's loop runs. */
  lemma ClosedCarried<C>(e: Env<C>, img0: Grid<C>, s: State<C>, r: State<C>, i: nat)
    requires IsGrid(img0, e.width, e.height) && i < |e.centres| && Extends(e, s, r)
    requires forall k | |s.log| <= k < |r.log| :: r.log[k].centre == i
    requires ClosedUpTo(e, img0, s, i) && RegionSettled(e, img0, r.log, i)
    ensures ClosedUpTo(e, img0, r, i + 1)
  {
    forall j | 0 <= j < i ensures RegionSettled(e, img0, r.log, j) {
      RegionUnchanged(e, s.log, r.log, j, i);
      SettledGrows(e, img0, s.log, r.log, j);
    }
  }

  /** Writes for centre i leave the region of any other centre j as it was. */
  lemma RegionUnchanged<C>(e: Env<C>, log: seq<Write<C>>, log': seq<Write<C>>, j: nat, i: nat)
    requires j < |e.centres| && j != i && log <= log'
    requires forall k | |log| <= k < |log'| :: log'[k].centre == i
    ensures Region(e, log', j) == Region(e, log, j)
  {
    forall q | q in Region(e, log', j) ensures q in Region(e, log, j) {
      if q != (e.centres[j].x, e.centres[j].y) {
        var k :| 0 <= k < |log'| && log'[k].centre == j && q == (log'[k].x, log'[k].y);
        assert log'[k] == log[k];
      }
    }
    forall q | q in Region(e, log, j) ensures q in Region(e, log', j) {
      if q != (e.centres[j].x, e.centres[j].y) {
        var k :| 0 <= k < |log| && log[k].centre == j && q == (log[k].x, log[k].y);
        assert log'[k] == log[k];
      }
    }
  }

  lemma {:induction false} RunCentresCloses<C>(e: Env<C>, img0: Grid<C>, s: State<C>, i: nat)
    requires Consistent(e, img0, s, i) && |e.centres| <= |e.pickers| && ClosedUpTo(e, img0, s, i)
    ensures ClosedUpTo(e, img0, RunCentres(e, s, i), |e.centres|)
    decreases |e.centres| - i, 1
  {
    if i < |e.centres| {
      RunCentresClosesStep(e, img0, s, i);
    } else {
      RunCentresDone(e, s, i);
    }
  }

  lemma {:induction false} RunCentresClosesStep<C>(e: Env<C>, img0: Grid<C>, s: State<C>, i: nat)
    requires Consistent(e, img0, s, i) && |e.centres| <= |e.pickers| && ClosedUpTo(e, img0, s, i)
    requires i < |e.centres|
    ensures ClosedUpTo(e, img0, RunCentres(e, s, i), |e.centres|)
    decreases |e.centres| - i, 0
  {
    CentreCloses(e, img0, s, i);
    var r := Drain(e, StartCentre(e, s, i), i);
    RunCentresCloses(e, img0, r, i + 1);
    assert RunCentres(e, s, i) == RunCentres(e, r, i + 1);
  }

  /** A settled region, pixel by pixel. */
  lemma SettledAt<C>(e: Env<C>, img0: Grid<C>, log: seq<Write<C>>, i: nat, q: (int, int))
    requires IsGrid(img0, e.width, e.height) && i < |e.centres|
    requires RegionSettled(e, img0, log, i) && q in Region(e, log, i)
    ensures forall n | n in Around(q.0, q.1) && IsWithinImage(n.0, n.1, e.width, e.height) ::
      (exists k | 0 <= k < |log| :: (log[k].x, log[k].y) == n && log[k].centre <= i)
      || e.dist(e.centres[i].color, img0[n.1][n.0]) > e.tolerance
  {
    assert Settled(e, img0, log, i, q);
  }

  /**
   * Flood-fill closure of the whole run, with the first fill winning: for
   * every centre i, each in-bounds neighbour of a pixel of its region (its
   * seed and the pixels recoloured for it) was recoloured for centre i or
   * an earlier centre, or has an original colour outside the tolerance of
   * centre i's colour.
   */
  lemma FillRegionsClosed<C>(e: Env<C>, img0: Grid<C>, i: nat, q: (int, int))
    requires IsGrid(img0, e.width, e.height) && |e.centres| <= |e.pickers| && i < |e.centres|
    requires q in Region(e, FinalState(e, img0).log, i)
    ensures var log := FinalState(e, img0).log;
      forall n | n in Around(q.0, q.1) && IsWithinImage(n.0, n.1, e.width, e.height) ::
        (exists k | 0 <= k < |log| :: (log[k].x, log[k].y) == n && log[k].centre <= i)
        || e.dist(e.centres[i].color, img0[n.1][n.0]) > e.tolerance
  {
    InitialConsistent(e, img0);
    RunCentresCloses(e, img0, Initial(e, img0), 0);
    var f := FinalState(e, img0);
    assert ClosedUpTo(e, img0, f, |e.centres|);
    assert RegionSettled(e, img0, f.log, i);
    SettledAt(e, img0, f.log, i, q);
  }
}
