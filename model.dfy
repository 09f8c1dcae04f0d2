/**
 * Functional reference model of filler::fill: the state of one fill run
 * and one function per step of the traversal. The imperative method in
 * module Filler is proved to compute exactly what these functions say.
 */
module FillModel {
  import opened Grid

  /** A seed of the fill: its pixel and the reference colour it compares against. */
  datatype Centre<C> = Centre(x: int, y: int, color: C)

  /** A frontier entry: a pixel and the centre whose region it belongs to. */
  datatype Point<C> = Point(x: int, y: int, c: Centre<C>)

  /** The ordering structure: Queue (breadth-first) or Stack (depth-first). */
  datatype Order = BFS | DFS

  /** One picker write `*pixel = picker(point)`: where, for which centre, which colour. */
  datatype Write<C> = Write(x: int, y: int, centre: nat, colour: C)

  /**
   * What stays fixed during a fill: the image size, the centres and their
   * pickers, the colour distance, the tolerance, the frame cadence and the
   * ordering structure.
   */
  datatype Env<!C> = Env(
    width: nat,
    height: nat,
    centres: seq<Centre<C>>,
    pickers: seq<Point<C> -> C>,
    dist: (C, C) -> real,
    tolerance: real,
    frameFreq: int,
    order: Order)

  /**
   * The state the fill changes: the working image, the processed grid,
   * the frontier, the frame counter, the frames recorded so far, the
   * trace of picker writes and the number of add() calls made so far (the
   * last two are specification records, not kept by the code).
   */
  datatype State<C> = State(
    img: Grid<C>,
    processed: Grid<bool>,
    frontier: seq<Point<C>>,
    frames: int,
    anim: seq<Grid<C>>,
    log: seq<Write<C>>,
    pushes: nat)

  datatype FillError = PickerIndexOutOfRange

  datatype Result<T> = Success(value: T) | Failure(error: FillError)

  /** Both grids have the image's shape. */
  ghost predicate Inv<C>(e: Env<C>, s: State<C>) {
    IsGrid(s.img, e.width, e.height) && IsGrid(s.processed, e.width, e.height)
  }

  /** `i` names a centre that has a picker. */
  predicate HasPicker<C>(e: Env<C>, i: nat) {
    i < |e.centres| && i < |e.pickers|
  }

  /**
   * remove() of the ordering structure: the Queue hands out its oldest
   * entry, the Stack its newest; either way exactly one entry leaves.
   */
  function Take<C>(order: Order, f: seq<Point<C>>): (r: (Point<C>, seq<Point<C>>))
    requires f != []
    ensures multiset(r.1) + multiset{r.0} == multiset(f)
  {
    match order
    case BFS =>
      assert f == [f[0]] + f[1..];
      (f[0], f[1..])
    case DFS =>
      assert f == f[..|f| - 1] + [f[|f| - 1]];
      (f[|f| - 1], f[..|f| - 1])
  }

  /** The guard of one neighbour block: in bounds, unprocessed, within tolerance of the centre. */
  predicate Admits<C>(e: Env<C>, s: State<C>, i: nat, x: int, y: int)
    requires Inv(e, s) && i < |e.centres|
  {
    IsWithinImage(x, y, e.width, e.height)
    && !s.processed[y][x]
    && e.dist(e.centres[i].color, s.img[y][x]) <= e.tolerance
  }

  /**
   * One neighbour block of the traversal for centre i: if the guard admits
   * (x, y), count one frame tick, recolour it with the picker, push it,
   * mark it processed and record a frame when the counter reaches zero.
   */
  function TryNeighbour<C>(e: Env<C>, s: State<C>, i: nat, x: int, y: int): (r: State<C>)
    requires Inv(e, s) && HasPicker(e, i)
    ensures Inv(e, r)
  {
    if Admits(e, s, i, x, y) then
      var pt := Point(x, y, e.centres[i]);
      var colour := e.pickers[i](pt);
      var img := Update(s.img, x, y, colour);
      var frames := s.frames - 1;
      var s' := State(img, Update(s.processed, x, y, true), s.frontier + [pt], frames,
                      s.anim, s.log + [Write(x, y, i, colour)], s.pushes + 1);
      if frames == 0 then s'.(anim := s.anim + [img], frames := e.frameFreq) else s'
    else
      s
  }

  /** One iteration of the while loop: remove a point, then try up, right, down, left. */
  function Expand<C>(e: Env<C>, s: State<C>, i: nat): (r: State<C>)
    requires Inv(e, s) && HasPicker(e, i) && s.frontier != []
    ensures Inv(e, r)
  {
    var t := Take(e.order, s.frontier);
    var p := t.0;
    var s0 := s.(frontier := t.1);
    var s1 := TryNeighbour(e, s0, i, p.x, p.y - 1);
    var s2 := TryNeighbour(e, s1, i, p.x + 1, p.y);
    var s3 := TryNeighbour(e, s2, i, p.x, p.y + 1);
    TryNeighbour(e, s3, i, p.x - 1, p.y)
  }

  /** Expand written out for a given removed point and remaining frontier. */
  lemma ExpandSteps<C>(e: Env<C>, s: State<C>, i: nat, p: Point<C>, rest: seq<Point<C>>)
    requires Inv(e, s) && HasPicker(e, i) && s.frontier != []
    requires Take(e.order, s.frontier) == (p, rest)
    ensures var s0 := s.(frontier := rest);
            var s1 := TryNeighbour(e, s0, i, p.x, p.y - 1);
            var s2 := TryNeighbour(e, s1, i, p.x + 1, p.y);
            var s3 := TryNeighbour(e, s2, i, p.x, p.y + 1);
            Expand(e, s, i) == TryNeighbour(e, s3, i, p.x - 1, p.y)
  {
  }

  /** Termination measure: every step removes a point or marks a pixel. */
  function Measure<C>(s: State<C>): (r: nat) {
    |s.frontier| + 2 * CountFalse(s.processed)
  }

  lemma TryNeighbourShrinks<C>(e: Env<C>, s: State<C>, i: nat, x: int, y: int)
    requires Inv(e, s) && HasPicker(e, i)
    ensures Measure(TryNeighbour(e, s, i, x, y)) <= Measure(s)
  {
    if Admits(e, s, i, x, y) {
      CountFalseUpdate(s.processed, x, y);
    }
  }

  /** Each iteration of the while loop lowers the measure. */
  lemma ExpandShrinks<C>(e: Env<C>, s: State<C>, i: nat)
    requires Inv(e, s) && HasPicker(e, i) && s.frontier != []
    ensures Measure(Expand(e, s, i)) < Measure(s)
  {
    var t := Take(e.order, s.frontier);
    assert |t.1| == |s.frontier| - 1 by {
      assert |multiset(t.1)| + 1 == |multiset(s.frontier)|;
    }
    var p := t.0;
    var s0 := s.(frontier := t.1);
    var s1 := TryNeighbour(e, s0, i, p.x, p.y - 1);
    var s2 := TryNeighbour(e, s1, i, p.x + 1, p.y);
    var s3 := TryNeighbour(e, s2, i, p.x, p.y + 1);
    TryNeighbourShrinks(e, s0, i, p.x, p.y - 1);
    TryNeighbourShrinks(e, s1, i, p.x + 1, p.y);
    TryNeighbourShrinks(e, s2, i, p.x, p.y + 1);
    TryNeighbourShrinks(e, s3, i, p.x - 1, p.y);
  }

  /** The while loop for centre i: expand until the frontier is empty. */
  function Drain<C>(e: Env<C>, s: State<C>, i: nat): (r: State<C>)
    requires Inv(e, s) && HasPicker(e, i)
    ensures Inv(e, r) && r.frontier == []
    decreases Measure(s)
  {
    if s.frontier == [] then s
    else
      ExpandShrinks(e, s, i);
      Drain(e, Expand(e, s, i), i)
  }

  /**
   * The start of centre i: count one frame tick, add the seed to the
   * frontier without recolouring or marking it, and record a frame when
   * the counter reaches zero.
   */
  function StartCentre<C>(e: Env<C>, s: State<C>, i: nat): (r: State<C>)
    requires i < |e.centres|
    ensures r.img == s.img && r.processed == s.processed && r.log == s.log
    ensures r.frontier == s.frontier + [Point(e.centres[i].x, e.centres[i].y, e.centres[i])]
    ensures r.pushes == s.pushes + 1
  {
    var c := e.centres[i];
    var frames := s.frames - 1;
    var s' := s.(frontier := s.frontier + [Point(c.x, c.y, c)], pushes := s.pushes + 1);
    if frames == 0 then s'.(anim := s.anim + [s.img], frames := e.frameFreq)
    else s'.(frames := frames)
  }

  /** The for loop over the centres, from centre i on. */
  function RunCentres<C>(e: Env<C>, s: State<C>, i: nat): (r: State<C>)
    requires Inv(e, s) && i <= |e.centres| <= |e.pickers|
    ensures Inv(e, r)
    decreases |e.centres| - i
  {
    if i == |e.centres| then s
    else RunCentres(e, Drain(e, StartCentre(e, s, i), i), i + 1)
  }

  /** One step of the for loop: run centre i, then the rest. */
  lemma RunCentresStep<C>(e: Env<C>, s: State<C>, i: nat)
    requires Inv(e, s) && i < |e.centres| <= |e.pickers|
    ensures RunCentres(e, s, i) == RunCentres(e, Drain(e, StartCentre(e, s, i), i), i + 1)
  {
  }

  /** After the last centre the for loop has nothing left to do. */
  lemma RunCentresDone<C>(e: Env<C>, s: State<C>, i: nat)
    requires Inv(e, s) && i == |e.centres| <= |e.pickers|
    ensures RunCentres(e, s, i) == s
  {
  }

  /** Before the first centre: nothing processed, an empty frontier, the untouched frame. */
  function Initial<C>(e: Env<C>, img0: Grid<C>): (r: State<C>) {
    State(img0, Filled(e.width, e.height, false), [], e.frameFreq, [img0], [], 0)
  }

  /** The state after the last centre. */
  function FinalState<C>(e: Env<C>, img0: Grid<C>): (r: State<C>)
    requires IsGrid(img0, e.width, e.height) && |e.centres| <= |e.pickers|
  {
    RunCentres(e, Initial(e, img0), 0)
  }

  /** The animation fill returns: every recorded frame, then the final image. */
  function FillFrames<C>(e: Env<C>, img0: Grid<C>): (r: seq<Grid<C>>)
    requires IsGrid(img0, e.width, e.height) && |e.centres| <= |e.pickers|
  {
    var f := FinalState(e, img0);
    f.anim + [f.img]
  }

  /** With fewer pickers than centres, pickers.at() throws when it reaches the first centre without one. */
  function FillOutcome<C>(e: Env<C>, img0: Grid<C>): (r: Result<seq<Grid<C>>>)
    requires IsGrid(img0, e.width, e.height)
    ensures r.Failure? <==> |e.pickers| < |e.centres|
  {
    if |e.pickers| < |e.centres| then Failure(PickerIndexOutOfRange)
    else Success(FillFrames(e, img0))
  }
}
