/**
 * The fill engine as the code runs it: a local copy of the image written
 * in place, a processed-pixel grid, a frontier that is added to and removed
 * from, a frame counter and an animation that frames are appended to.
 * Each entry point is proved to return what FillModel.FillOutcome says.
 */
module Filler {
  import opened Grid
  import opened FillModel

  /**
   * FillerConfig: the image to fill (read, never written), the centres,
   * one picker per centre, the tolerance and the frame cadence.
   * The image is `img[y, x]`: Length0 is its height, Length1 its width.
   */
  datatype FillerConfig<!C> = FillerConfig(
    img: array2<C>,
    centres: seq<Centre<C>>,
    pickers: seq<Point<C> -> C>,
    tolerance: real,
    frameFreq: int)

  /** The fixed inputs of one run, in the model's terms. */
  function EnvOf<C>(config: FillerConfig<C>, dist: (C, C) -> real, order: Order): (r: Env<C>) {
    Env(config.img.Length1, config.img.Length0, config.centres, config.pickers,
        dist, config.tolerance, config.frameFreq, order)
  }

  /** The model's view of the run's local variables. */
  ghost function Abs<C>(img: array2<C>, processed: array2<bool>, frontier: seq<Point<C>>,
                        frames: int, anim: seq<Grid<C>>, log: seq<Write<C>>, pushes: nat): (r: State<C>)
    reads img, processed
  {
    State(Snapshot(img), Snapshot(processed), frontier, frames, anim, log, pushes)
  }

  /** filler::fillBFS: the fill with a Queue as ordering structure. */
  method FillBFS<C>(config: FillerConfig<C>, dist: (C, C) -> real) returns (r: Result<seq<Grid<C>>>)
    ensures r == FillOutcome(EnvOf(config, dist, BFS), Snapshot(config.img))
  {
    r := Fill(config, dist, BFS);
  }

  /** filler::fillDFS: the fill with a Stack as ordering structure. */
  method FillDFS<C>(config: FillerConfig<C>, dist: (C, C) -> real) returns (r: Result<seq<Grid<C>>>)
    ensures r == FillOutcome(EnvOf(config, dist, DFS), Snapshot(config.img))
  {
    r := Fill(config, dist, DFS);
  }

  /**
   * filler::fill: the multi-centre flood fill. It leaves config.img as it
   * was (there is no modifies clause) and computes exactly the model's
   * animation, or the out-of-range failure of pickers.at().
   */
  method Fill<C>(config: FillerConfig<C>, dist: (C, C) -> real, order: Order)
    returns (r: Result<seq<Grid<C>>>)
    ensures r == FillOutcome(EnvOf(config, dist, order), Snapshot(config.img))
  {
    var e := EnvOf(config, dist, order);
    ghost var img0 := Snapshot(config.img);
    var img := CopyImage(config.img);
    var frames := config.frameFreq;
    var processed := NewProcessed(e.height, e.width);
    var anim := [Snapshot(img)];
    var frontier: seq<Point<C>> := [];
    ghost var log: seq<Write<C>> := [];
    ghost var pushes: nat := 0;
    assert Abs(img, processed, frontier, frames, anim, log, pushes) == Initial(e, img0);

    for i := 0 to |config.centres|
      invariant img.Length0 == e.height && img.Length1 == e.width
      invariant processed.Length0 == e.height && processed.Length1 == e.width
      invariant Snapshot(config.img) == img0
      invariant i <= |config.pickers|
      invariant Inv(e, Abs(img, processed, frontier, frames, anim, log, pushes))
      invariant |e.centres| <= |e.pickers| ==>
        RunCentres(e, Abs(img, processed, frontier, frames, anim, log, pushes), i) == FinalState(e, img0)
    {
      // pickers.at() throws before anything of this centre is observable.
      if i >= |config.pickers| {
        return Failure(PickerIndexOutOfRange);
      }
      ghost var before := Abs(img, processed, frontier, frames, anim, log, pushes);
      if |e.centres| <= |e.pickers| {
        RunCentresStep(e, before, i);
      }
      frontier, frames, anim, log, pushes := FillCentre(e, i, img, processed, frontier, frames, anim, log, pushes);
    }

    RunCentresDone(e, Abs(img, processed, frontier, frames, anim, log, pushes), |e.centres|);
    anim := anim + [Snapshot(img)];
    r := Success(anim);
  }

  /** The local copy `PNG img = config.img`: a fresh array with the same pixels. */
  method CopyImage<C>(src: array2<C>) returns (img: array2<C>)
    ensures fresh(img)
    ensures img.Length0 == src.Length0 && img.Length1 == src.Length1
    ensures Snapshot(img) == Snapshot(src)
  {
    var height, width := src.Length0, src.Length1;
    img := new C[height, width]((y, x) requires 0 <= y < height && 0 <= x < width reads src => src[y, x]);
    GridExt(Snapshot(img), Snapshot(src), width, height);
  }

  /** The processed grid of a height-by-width image, every pixel unprocessed. */
  method NewProcessed(height: nat, width: nat) returns (processed: array2<bool>)
    ensures fresh(processed)
    ensures processed.Length0 == height && processed.Length1 == width
    ensures Snapshot(processed) == Filled(width, height, false)
  {
    processed := new bool[height, width]((y, x) => false);
    GridExt(Snapshot(processed), Filled(width, height, false), width, height);
  }

  /**
   * One iteration of the for loop of filler::fill: count a tick, add the
   * centre to the ordering structure, record a frame when the counter
   * reaches zero, then run the while loop.
   */
  method FillCentre<C>(e: Env<C>, i: nat, img: array2<C>, processed: array2<bool>,
                       frontier: seq<Point<C>>, frames: int, anim: seq<Grid<C>>, ghost log: seq<Write<C>>,
                  ghost pushes: nat)
    returns (frontier': seq<Point<C>>, frames': int, anim': seq<Grid<C>>, ghost log': seq<Write<C>>, ghost pushes': nat)
    requires HasPicker(e, i)
    requires img.Length0 == e.height && img.Length1 == e.width
    requires processed.Length0 == e.height && processed.Length1 == e.width
    requires img as object != processed as object
    modifies img, processed
    ensures Abs(img, processed, frontier', frames', anim', log', pushes')
         == Drain(e, StartCentre(e, old(Abs(img, processed, frontier, frames, anim, log, pushes)), i), i)
  {
    ghost var before := Abs(img, processed, frontier, frames, anim, log, pushes);
    frames' := frames - 1;
    var c := e.centres[i];
    frontier' := frontier + [Point(c.x, c.y, c)];
    ghost var pushed := pushes + 1;
    anim' := anim;
    if frames' == 0 {
      anim' := anim' + [Snapshot(img)];
      frames' := e.frameFreq;
    }
    assert Abs(img, processed, frontier', frames', anim', log, pushed) == StartCentre(e, before, i);
    frontier', frames', anim', log', pushes' := DrainFrontier(e, i, img, processed, frontier', frames', anim', log, pushed);
  }

  /**
   * The while loop of filler::fill for centre i: remove a point and try
   * its four neighbours until the ordering structure is empty.
   */
  method DrainFrontier<C>(e: Env<C>, i: nat, img: array2<C>, processed: array2<bool>,
                          frontier: seq<Point<C>>, frames: int, anim: seq<Grid<C>>, ghost log: seq<Write<C>>,
                          ghost pushes: nat)
    returns (frontier': seq<Point<C>>, frames': int, anim': seq<Grid<C>>, ghost log': seq<Write<C>>, ghost pushes': nat)
    requires HasPicker(e, i)
    requires img.Length0 == e.height && img.Length1 == e.width
    requires processed.Length0 == e.height && processed.Length1 == e.width
    requires img as object != processed as object
    modifies img, processed
    ensures Abs(img, processed, frontier', frames', anim', log', pushes')
         == Drain(e, old(Abs(img, processed, frontier, frames, anim, log, pushes)), i)
  {
    ghost var s := Abs(img, processed, frontier, frames, anim, log, pushes);
    frontier', frames', anim', log', pushes' := frontier, frames, anim, log, pushes;
    while frontier' != []
      invariant Inv(e, Abs(img, processed, frontier', frames', anim', log', pushes'))
      invariant Drain(e, Abs(img, processed, frontier', frames', anim', log', pushes'), i) == Drain(e, s, i)
      decreases Measure(Abs(img, processed, frontier', frames', anim', log', pushes'))
    {
      ghost var before := Abs(img, processed, frontier', frames', anim', log', pushes');
      var t := Take(e.order, frontier');
      var p := t.0;
      frontier' := t.1;
      ghost var s0 := before.(frontier := t.1);
      assert Abs(img, processed, frontier', frames', anim', log', pushes') == s0;
      frontier', frames', anim', log', pushes' := Visit(e, i, img, processed, p.x, p.y - 1, frontier', frames', anim', log', pushes');
      ghost var s1 := TryNeighbour(e, s0, i, p.x, p.y - 1);
      frontier', frames', anim', log', pushes' := Visit(e, i, img, processed, p.x + 1, p.y, frontier', frames', anim', log', pushes');
      ghost var s2 := TryNeighbour(e, s1, i, p.x + 1, p.y);
      frontier', frames', anim', log', pushes' := Visit(e, i, img, processed, p.x, p.y + 1, frontier', frames', anim', log', pushes');
      ghost var s3 := TryNeighbour(e, s2, i, p.x, p.y + 1);
      frontier', frames', anim', log', pushes' := Visit(e, i, img, processed, p.x - 1, p.y, frontier', frames', anim', log', pushes');
      ExpandSteps(e, before, i, p, t.1);
      ExpandShrinks(e, before, i);
    }
  }

  /**
   * One of the four neighbour blocks of the while loop, for the pixel
   * (x, y) and centre i: its effect on the run's variables is the model's
   * TryNeighbour.
   */
  method Visit<C>(e: Env<C>, i: nat, img: array2<C>, processed: array2<bool>, x: int, y: int,
                  frontier: seq<Point<C>>, frames: int, anim: seq<Grid<C>>, ghost log: seq<Write<C>>,
                  ghost pushes: nat)
    returns (frontier': seq<Point<C>>, frames': int, anim': seq<Grid<C>>, ghost log': seq<Write<C>>, ghost pushes': nat)
    requires HasPicker(e, i)
    requires img.Length0 == e.height && img.Length1 == e.width
    requires processed.Length0 == e.height && processed.Length1 == e.width
    requires img as object != processed as object
    modifies img, processed
    ensures Abs(img, processed, frontier', frames', anim', log', pushes')
         == TryNeighbour(e, old(Abs(img, processed, frontier, frames, anim, log, pushes)), i, x, y)
  {
    ghost var s := Abs(img, processed, frontier, frames, anim, log, pushes);
    frontier', frames', anim', log', pushes' := frontier, frames, anim, log, pushes;
    if IsWithinImage(x, y, e.width, e.height) {
      var pixel := img[y, x];
      var temp := Point(x, y, e.centres[i]);
      if !processed[y, x] && e.dist(e.centres[i].color, pixel) <= e.tolerance {
        frames' := frames' - 1;
        var colour := e.pickers[i](temp);
        img[y, x] := colour;
        frontier' := frontier' + [temp];
        pushes' := pushes' + 1;
        processed[y, x] := true;
        log' := log' + [Write(x, y, i, colour)];
        GridExt(Snapshot(img), Update(s.img, x, y, colour), e.width, e.height);
        GridExt(Snapshot(processed), Update(s.processed, x, y, true), e.width, e.height);
        if frames' == 0 {
          anim' := anim' + [Snapshot(img)];
          frames' := e.frameFreq;
        }
      }
    }
  }
}
