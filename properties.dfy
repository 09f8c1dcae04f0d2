/**
 * What filler::fill guarantees, proved about the functional model:
 * every pixel is recoloured at most once, only when it is in bounds,
 * unprocessed and within tolerance of its centre's colour; the final image
 * is the original with each write applied; the processed grid only grows;
 * the frame count follows the cadence and every frame is the image at
 * its tick.
 */
module FillProperties {
  import opened Grid
  import opened FillModel

  /** The image obtained by applying the recorded writes, oldest first, to img0. */
  function Replay<C>(img0: Grid<C>, log: seq<Write<C>>): (r: Grid<C>)
    ensures |r| == |img0| && forall y | 0 <= y < |img0| :: |r[y]| == |img0[y]|
    decreases |log|
  {
    if log == [] then img0
    else
      var w := log[|log| - 1];
      Update(Replay(img0, log[..|log| - 1]), w.x, w.y, w.colour)
  }

  /** The pixels written so far. */
  function Positions<C>(log: seq<Write<C>>): (r: set<(int, int)>) {
    set k | 0 <= k < |log| :: (log[k].x, log[k].y)
  }

  /** No pixel is written twice. */
  ghost predicate Distinct<C>(log: seq<Write<C>>) {
    forall j, k | 0 <= j < k < |log| :: (log[j].x, log[j].y) != (log[k].x, log[k].y)
  }

  /** Writes of an earlier centre come before writes of a later one. */
  ghost predicate CentresInOrder<C>(log: seq<Write<C>>) {
    forall j, k | 0 <= j <= k < |log| :: log[j].centre <= log[k].centre
  }

  /**
   * A write made for one of the first `started` centres, at a pixel of the
   * image, whose ORIGINAL colour is within tolerance of that centre's
   * colour, with the colour that centre's picker gives for the pixel.
   */
  ghost predicate WriteOk<C>(e: Env<C>, img0: Grid<C>, w: Write<C>, started: nat)
    requires IsGrid(img0, e.width, e.height)
  {
    && w.centre < started && w.centre < |e.centres| && w.centre < |e.pickers|
    && IsWithinImage(w.x, w.y, e.width, e.height)
    && e.dist(e.centres[w.centre].color, img0[w.y][w.x]) <= e.tolerance
    && w.colour == e.pickers[w.centre](Point(w.x, w.y, e.centres[w.centre]))
  }

  /**
   * The frame counter after `ticks` decrements (one per started centre and
   * one per write): with frameFreq >= 1 it stays in 1..frameFreq and one
   * frame has been recorded per frameFreq ticks; otherwise it never returns
   * to zero and only the initial frame has been recorded.
   */
  ghost predicate Cadence(freq: int, frames: int, count: int, ticks: int) {
    if freq >= 1 then 1 <= frames <= freq && (count - 1) * freq + (freq - frames) == ticks
    else count == 1 && frames == freq - ticks
  }

  /** The invariant of a run in which the first `started` centres have been started. */
  ghost predicate Consistent<C>(e: Env<C>, img0: Grid<C>, s: State<C>, started: nat) {
    && IsGrid(img0, e.width, e.height)
    && Inv(e, s)
    && started <= |e.centres|
    && (forall k | 0 <= k < |s.log| :: WriteOk(e, img0, s.log[k], started))
    && Distinct(s.log)
    && CentresInOrder(s.log)
    && s.img == Replay(img0, s.log)
    && (forall y, x | 0 <= y < e.height && 0 <= x < e.width ::
          s.processed[y][x] <==> (x, y) in Positions(s.log))
    && CountFalse(s.processed) + |s.log| == e.width * e.height
    && Cadence(e.frameFreq, s.frames, |s.anim|, started + |s.log|)
    && s.pushes == started + |s.log|
    && |s.anim| >= 1 && s.anim[0] == img0
  }

  /** `r` is a later state than `s`: writes and frames only appended, processed bits only set. */
  ghost predicate Extends<C>(e: Env<C>, s: State<C>, r: State<C>) {
    && Inv(e, s) && Inv(e, r)
    && s.log <= r.log
    && s.anim <= r.anim
    && forall y, x | 0 <= y < e.height && 0 <= x < e.width :: s.processed[y][x] ==> r.processed[y][x]
  }

  // ---------------------------------------------------------------------
  // Writes and their replay

  lemma PositionsAppend<C>(log: seq<Write<C>>, w: Write<C>)
    ensures Positions(log + [w]) == Positions(log) + {(w.x, w.y)}
  {
    var l := log + [w];
    forall q | q in Positions(l) ensures q in Positions(log) + {(w.x, w.y)} {
      var k :| 0 <= k < |l| && q == (l[k].x, l[k].y);
      if k < |log| {
        assert l[k] == log[k];
      }
    }
    forall q | q in Positions(log) + {(w.x, w.y)} ensures q in Positions(l) {
      if q in Positions(log) {
        var k :| 0 <= k < |log| && q == (log[k].x, log[k].y);
        assert l[k] == log[k];
      } else {
        assert l[|log|] == w;
      }
    }
  }

  lemma ReplayAppend<C>(img0: Grid<C>, log: seq<Write<C>>, w: Write<C>)
    ensures Replay(img0, log + [w]) == Update(Replay(img0, log), w.x, w.y, w.colour)
  {
    assert (log + [w])[..|log|] == log;
  }

  /** A pixel nobody wrote still has its original colour. */
  lemma {:induction false} ReplayUnwritten<C>(img0: Grid<C>, log: seq<Write<C>>, x: int, y: int)
    requires 0 <= y < |img0| && 0 <= x < |img0[y]|
    requires (x, y) !in Positions(log)
    ensures Replay(img0, log)[y][x] == img0[y][x]
  {
    if log != [] {
      var n := |log|;
      var pre := log[..n - 1];
      assert log == pre + [log[n - 1]];
      PositionsAppend(pre, log[n - 1]);
      ReplayUnwritten(img0, pre, x, y);
    }
  }

  /** A written pixel has the colour of its (only) write. */
  lemma {:induction false} ReplayWritten<C>(img0: Grid<C>, log: seq<Write<C>>, k: int)
    requires Distinct(log) && 0 <= k < |log|
    requires 0 <= log[k].y < |img0| && 0 <= log[k].x < |img0[log[k].y]|
    ensures Replay(img0, log)[log[k].y][log[k].x] == log[k].colour
  {
    var n := |log|;
    var pre := log[..n - 1];
    if k < n - 1 {
      assert (log[k].x, log[k].y) != (log[n - 1].x, log[n - 1].y);
      assert pre[k] == log[k];
      assert Distinct(pre) by {
        forall j, l | 0 <= j < l < |pre| ensures (pre[j].x, pre[j].y) != (pre[l].x, pre[l].y) {
          assert pre[j] == log[j] && pre[l] == log[l];
        }
      }
      ReplayWritten(img0, pre, k);
    }
  }

  // ---------------------------------------------------------------------
  // The frame counter

  lemma CadenceTick(freq: int, frames: int, count: int, ticks: nat)
    requires Cadence(freq, frames, count, ticks)
    ensures frames - 1 == 0 ==> freq >= 1 && Cadence(freq, freq, count + 1, ticks + 1)
    ensures frames - 1 != 0 ==> Cadence(freq, frames - 1, count, ticks + 1)
  {
    if freq >= 1 && frames - 1 == 0 {
      assert count * freq == (count - 1) * freq + freq;
    }
  }

  lemma MulAtLeast(a: int, f: int)
    requires a >= 1 && f >= 1
    ensures a * f >= f
  {
  }

  /** Integer division is determined by quotient and remainder. */
  lemma DivUnique(n: int, f: int, q: int, r: int)
    requires f >= 1 && 0 <= r < f && n == q * f + r
    ensures n / f == q
  {
    var q', r' := n / f, n % f;
    assert (q' - q) * f == r - r';
    if q' > q { MulAtLeast(q' - q, f); }
    if q' < q { MulAtLeast(q - q', f); }
  }

  /** The number of frames the cadence has recorded after `ticks` ticks. */
  lemma CadenceCount(freq: int, frames: int, count: int, ticks: int)
    requires Cadence(freq, frames, count, ticks)
    ensures count == if freq >= 1 then 1 + ticks / freq else 1
  {
    if freq >= 1 {
      DivUnique(ticks, freq, count - 1, freq - frames);
    }
  }

  // ---------------------------------------------------------------------
  // One neighbour block

  /**
   * A neighbour is accepted exactly when it is in bounds, unprocessed and
   * at distance at most the tolerance (a distance equal to the tolerance is
   * accepted); an accepted pixel gets its centre's picker colour and is
   * marked, and a rejected one leaves the state as it was.
   */
  lemma TryNeighbourAccepts<C>(e: Env<C>, s: State<C>, i: nat, x: int, y: int)
    requires Inv(e, s) && HasPicker(e, i)
    ensures var r := TryNeighbour(e, s, i, x, y);
      && (|r.log| == |s.log| + 1 <==>
            IsWithinImage(x, y, e.width, e.height) && !s.processed[y][x]
            && e.dist(e.centres[i].color, s.img[y][x]) <= e.tolerance)
      && (|r.log| == |s.log| + 1 ==>
            var colour := e.pickers[i](Point(x, y, e.centres[i]));
            && r.log == s.log + [Write(x, y, i, colour)]
            && r.frontier == s.frontier + [Point(x, y, e.centres[i])]
            && r.img[y][x] == colour && r.processed[y][x])
      && (|r.log| != |s.log| + 1 ==> r == s)
  {
  }

  /** Appending an admissible write to a consistent trace keeps it consistent. */
  lemma AppendWrite<C>(e: Env<C>, img0: Grid<C>, log: seq<Write<C>>, w: Write<C>, started: nat)
    requires IsGrid(img0, e.width, e.height)
    requires forall k | 0 <= k < |log| :: WriteOk(e, img0, log[k], started)
    requires Distinct(log) && CentresInOrder(log)
    requires WriteOk(e, img0, w, started)
    requires (w.x, w.y) !in Positions(log)
    requires forall k | 0 <= k < |log| :: log[k].centre <= w.centre
    ensures forall k | 0 <= k < |log + [w]| :: WriteOk(e, img0, (log + [w])[k], started)
    ensures Distinct(log + [w]) && CentresInOrder(log + [w])
  {
    var l := log + [w];
    forall k | 0 <= k < |l| ensures WriteOk(e, img0, l[k], started) {
      if k < |log| {
        assert l[k] == log[k];
      }
    }
    forall j, k | 0 <= j < k < |l| ensures (l[j].x, l[j].y) != (l[k].x, l[k].y) {
      assert l[j] == log[j];
      if k == |log| {
        assert (log[j].x, log[j].y) in Positions(log);
      } else {
        assert l[k] == log[k];
      }
    }
    forall j, k | 0 <= j <= k < |l| ensures l[j].centre <= l[k].centre {
      if k < |log| {
        assert l[j] == log[j] && l[k] == log[k];
      } else if j < |log| {
        assert l[j] == log[j];
      }
    }
  }

  /** Marking the written pixel keeps the processed grid equal to the set of written pixels. */
  lemma MarkWrite<C>(e: Env<C>, processed: Grid<bool>, log: seq<Write<C>>, w: Write<C>)
    requires IsGrid(processed, e.width, e.height)
    requires forall y, x | 0 <= y < e.height && 0 <= x < e.width :: processed[y][x] <==> (x, y) in Positions(log)
    ensures var p := Update(processed, w.x, w.y, true);
      forall y, x | 0 <= y < e.height && 0 <= x < e.width :: p[y][x] <==> (x, y) in Positions(log + [w])
  {
    PositionsAppend(log, w);
  }

  /** An accepted neighbour is one tick of the frame counter. */
  lemma AcceptTicks<C>(e: Env<C>, s: State<C>, i: nat, x: int, y: int, ticks: nat)
    requires Inv(e, s) && HasPicker(e, i) && Admits(e, s, i, x, y)
    requires Cadence(e.frameFreq, s.frames, |s.anim|, ticks)
    ensures var r := TryNeighbour(e, s, i, x, y);
      Cadence(e.frameFreq, r.frames, |r.anim|, ticks + 1)
  {
    var r := TryNeighbour(e, s, i, x, y);
    CadenceTick(e.frameFreq, s.frames, |s.anim|, ticks);
    if s.frames - 1 == 0 {
      assert r.frames == e.frameFreq && |r.anim| == |s.anim| + 1;
    } else {
      assert r.frames == s.frames - 1 && |r.anim| == |s.anim|;
    }
  }

  lemma TryNeighbourConsistent<C>(e: Env<C>, img0: Grid<C>, s: State<C>, i: nat, x: int, y: int)
    requires Consistent(e, img0, s, i + 1) && HasPicker(e, i)
    ensures Consistent(e, img0, TryNeighbour(e, s, i, x, y), i + 1)
  {
    if Admits(e, s, i, x, y) {
      var r := TryNeighbour(e, s, i, x, y);
      var colour := e.pickers[i](Point(x, y, e.centres[i]));
      var w := Write(x, y, i, colour);
      assert r.log == s.log + [w];
      assert (x, y) !in Positions(s.log);
      ReplayAppend(img0, s.log, w);
      ReplayUnwritten(img0, s.log, x, y);
      assert WriteOk(e, img0, w, i + 1);
      forall k | 0 <= k < |s.log| ensures s.log[k].centre <= w.centre {
        assert WriteOk(e, img0, s.log[k], i + 1);
      }
      AppendWrite(e, img0, s.log, w, i + 1);
      MarkWrite(e, s.processed, s.log, w);
      assert r.processed == Update(s.processed, x, y, true);
      CountFalseUpdate(s.processed, x, y);
      assert CountFalse(r.processed) + |r.log| == e.width * e.height;
      assert r.img == Replay(img0, r.log);
      AcceptTicks(e, s, i, x, y, i + 1 + |s.log|);
      assert r.anim[0] == img0;
    }
  }

  lemma TryNeighbourExtends<C>(e: Env<C>, s: State<C>, i: nat, x: int, y: int)
    requires Inv(e, s) && HasPicker(e, i)
    ensures Extends(e, s, TryNeighbour(e, s, i, x, y))
  {
  }

  lemma ExtendsTrans<C>(e: Env<C>, a: State<C>, b: State<C>, c: State<C>)
    requires Extends(e, a, b) && Extends(e, b, c)
    ensures Extends(e, a, c)
  {
  }

  // ---------------------------------------------------------------------
  // One iteration of the while loop

  lemma ExpandConsistent<C>(e: Env<C>, img0: Grid<C>, s: State<C>, i: nat)
    requires Consistent(e, img0, s, i + 1) && HasPicker(e, i) && s.frontier != []
    ensures Consistent(e, img0, Expand(e, s, i), i + 1)
  {
    var t := Take(e.order, s.frontier);
    var p := t.0;
    var s0 := s.(frontier := t.1);
    var s1 := TryNeighbour(e, s0, i, p.x, p.y - 1);
    var s2 := TryNeighbour(e, s1, i, p.x + 1, p.y);
    var s3 := TryNeighbour(e, s2, i, p.x, p.y + 1);
    TryNeighbourConsistent(e, img0, s0, i, p.x, p.y - 1);
    TryNeighbourConsistent(e, img0, s1, i, p.x + 1, p.y);
    TryNeighbourConsistent(e, img0, s2, i, p.x, p.y + 1);
    TryNeighbourConsistent(e, img0, s3, i, p.x - 1, p.y);
    ExpandSteps(e, s, i, p, t.1);
  }

  lemma ExpandExtends<C>(e: Env<C>, s: State<C>, i: nat)
    requires Inv(e, s) && HasPicker(e, i) && s.frontier != []
    ensures Extends(e, s, Expand(e, s, i))
  {
    var t := Take(e.order, s.frontier);
    var p := t.0;
    var s0 := s.(frontier := t.1);
    var s1 := TryNeighbour(e, s0, i, p.x, p.y - 1);
    var s2 := TryNeighbour(e, s1, i, p.x + 1, p.y);
    var s3 := TryNeighbour(e, s2, i, p.x, p.y + 1);
    TryNeighbourExtends(e, s0, i, p.x, p.y - 1);
    TryNeighbourExtends(e, s1, i, p.x + 1, p.y);
    TryNeighbourExtends(e, s2, i, p.x, p.y + 1);
    TryNeighbourExtends(e, s3, i, p.x - 1, p.y);
    ExtendsTrans(e, s0, s1, s2);
    ExtendsTrans(e, s0, s2, s3);
    ExtendsTrans(e, s0, s3, Expand(e, s, i));
    ExpandSteps(e, s, i, p, t.1);
  }

  // ---------------------------------------------------------------------
  // The while loop, the start of a centre and the for loop

  lemma {:induction false} DrainConsistent<C>(e: Env<C>, img0: Grid<C>, s: State<C>, i: nat)
    requires Consistent(e, img0, s, i + 1) && HasPicker(e, i)
    ensures Consistent(e, img0, Drain(e, s, i), i + 1)
    decreases Measure(s)
  {
    if s.frontier != [] {
      ExpandConsistent(e, img0, s, i);
      ExpandShrinks(e, s, i);
      DrainConsistent(e, img0, Expand(e, s, i), i);
    }
  }

  /** The while loop only appends writes and frames and only sets processed bits. */
  lemma {:induction false} DrainExtends<C>(e: Env<C>, s: State<C>, i: nat)
    requires Inv(e, s) && HasPicker(e, i)
    ensures Extends(e, s, Drain(e, s, i))
    decreases Measure(s)
  {
    if s.frontier != [] {
      ExpandExtends(e, s, i);
      ExpandShrinks(e, s, i);
      DrainExtends(e, Expand(e, s, i), i);
      ExtendsTrans(e, s, Expand(e, s, i), Drain(e, s, i));
    }
  }

  lemma StartCentreConsistent<C>(e: Env<C>, img0: Grid<C>, s: State<C>, i: nat)
    requires Consistent(e, img0, s, i) && i < |e.centres|
    ensures Consistent(e, img0, StartCentre(e, s, i), i + 1)
  {
    var r := StartCentre(e, s, i);
    forall k | 0 <= k < |r.log| ensures WriteOk(e, img0, r.log[k], i + 1) {
      assert WriteOk(e, img0, s.log[k], i);
    }
    CadenceTick(e.frameFreq, s.frames, |s.anim|, i + |s.log|);
  }

  lemma StartCentreExtends<C>(e: Env<C>, s: State<C>, i: nat)
    requires Inv(e, s) && i < |e.centres|
    ensures Extends(e, s, StartCentre(e, s, i))
  {
  }

  lemma {:induction false} RunCentresConsistent<C>(e: Env<C>, img0: Grid<C>, s: State<C>, i: nat)
    requires Consistent(e, img0, s, i) && |e.centres| <= |e.pickers|
    ensures Consistent(e, img0, RunCentres(e, s, i), |e.centres|)
    decreases |e.centres| - i, 1
  {
    if i < |e.centres| {
      RunCentresConsistentStep(e, img0, s, i);
    } else {
      assert RunCentres(e, s, i) == s;
    }
  }

  lemma {:induction false} RunCentresConsistentStep<C>(e: Env<C>, img0: Grid<C>, s: State<C>, i: nat)
    requires Consistent(e, img0, s, i) && i < |e.centres| <= |e.pickers|
    ensures Consistent(e, img0, RunCentres(e, s, i), |e.centres|)
    decreases |e.centres| - i, 0
  {
    CentreConsistent(e, img0, s, i);
    RunCentresStep(e, s, i);
    RunCentresConsistent(e, img0, Drain(e, StartCentre(e, s, i), i), i + 1);
  }

  /** One iteration of the for loop keeps the invariant, with one more centre started. */
  lemma CentreConsistent<C>(e: Env<C>, img0: Grid<C>, s: State<C>, i: nat)
    requires Consistent(e, img0, s, i) && HasPicker(e, i)
    ensures Consistent(e, img0, Drain(e, StartCentre(e, s, i), i), i + 1)
  {
    StartCentreConsistent(e, img0, s, i);
    DrainConsistent(e, img0, StartCentre(e, s, i), i);
  }

  /** The processed grid is never reset between centres: it only grows over the whole run. */
  lemma {:induction false} RunCentresExtends<C>(e: Env<C>, s: State<C>, i: nat)
    requires Inv(e, s) && i <= |e.centres| <= |e.pickers|
    ensures Extends(e, s, RunCentres(e, s, i))
    decreases |e.centres| - i
  {
    if i < |e.centres| {
      var s1 := StartCentre(e, s, i);
      StartCentreExtends(e, s, i);
      DrainExtends(e, s1, i);
      ExtendsTrans(e, s, s1, Drain(e, s1, i));
      RunCentresExtends(e, Drain(e, s1, i), i + 1);
      ExtendsTrans(e, s, Drain(e, s1, i), RunCentres(e, s, i));
    }
  }

  lemma InitialConsistent<C>(e: Env<C>, img0: Grid<C>)
    requires IsGrid(img0, e.width, e.height)
    ensures Consistent(e, img0, Initial(e, img0), 0)
  {
    CountFalseFilled(e.width, e.height);
  }

  lemma FinalConsistent<C>(e: Env<C>, img0: Grid<C>)
    requires IsGrid(img0, e.width, e.height) && |e.centres| <= |e.pickers|
    ensures Consistent(e, img0, FinalState(e, img0), |e.centres|)
  {
    InitialConsistent(e, img0);
    RunCentresConsistent(e, img0, Initial(e, img0), 0);
  }

  // ---------------------------------------------------------------------
  // What the recorded frames contain

  /**
   * Frame j is the image after the first m writes, taken at tick j *
   * frameFreq, when c = j * frameFreq - m centres (at least one, at most
   * `started`) had been started: the first m writes are for those c
   * centres and every later write is for centre c - 1 or a later one.
   */
  ghost predicate FrameAt<C>(e: Env<C>, img0: Grid<C>, log: seq<Write<C>>, started: nat, frame: Grid<C>, j: nat, m: nat) {
    && m <= |log|
    && j * e.frameFreq - started <= m < j * e.frameFreq
    && (forall k | 0 <= k < m :: log[k].centre < j * e.frameFreq - m)
    && (forall k | m <= k < |log| :: log[k].centre + 1 >= j * e.frameFreq - m)
    && frame == Replay(img0, log[..m])
  }

  /**
   * The tick of a frame determines the number of writes it shows: two
   * witnesses of FrameAt for the same j are equal, and so are the frames.
   */
  lemma FrameAtUnique<C>(e: Env<C>, img0: Grid<C>, log: seq<Write<C>>, started: nat, f1: Grid<C>, f2: Grid<C>, j: nat, m1: nat, m2: nat)
    requires FrameAt(e, img0, log, started, f1, j, m1) && FrameAt(e, img0, log, started, f2, j, m2)
    ensures m1 == m2 && f1 == f2
  {
    WitnessBelow(e, img0, log, started, f1, f2, j, m1, m2);
    WitnessBelow(e, img0, log, started, f2, f1, j, m2, m1);
  }

  /** A write at index m1 is for centre c1 - 1 or later, which no frame with more writes allows. */
  lemma WitnessBelow<C>(e: Env<C>, img0: Grid<C>, log: seq<Write<C>>, started: nat, f1: Grid<C>, f2: Grid<C>, j: nat, m1: nat, m2: nat)
    requires FrameAt(e, img0, log, started, f1, j, m1) && FrameAt(e, img0, log, started, f2, j, m2)
    ensures m2 <= m1
  {
    if m1 < |log| {
      assert log[m1].centre + 1 >= j * e.frameFreq - m1;
    }
  }

  /** Frame j is the image recorded at its tick. */
  ghost predicate RecordedFrame<C>(e: Env<C>, img0: Grid<C>, log: seq<Write<C>>, started: nat, frame: Grid<C>, j: nat) {
    exists m: nat :: FrameAt(e, img0, log, started, frame, j, m)
  }

  /** Every recorded frame after the first is a snapshot of the trace at its tick. */
  ghost predicate FramesOk<C>(e: Env<C>, img0: Grid<C>, anim: seq<Grid<C>>, log: seq<Write<C>>, started: nat) {
    forall j: nat | 1 <= j < |anim| :: RecordedFrame(e, img0, log, started, anim[j], j)
  }

  /** Snapshots stay valid as writes are appended and centres started. */
  lemma FramesGrow<C>(e: Env<C>, img0: Grid<C>, anim: seq<Grid<C>>, log: seq<Write<C>>, log': seq<Write<C>>, started: nat, started': nat)
    requires FramesOk(e, img0, anim, log, started) && log <= log' && started <= started'
    requires forall k | |log| <= k < |log'| :: log'[k].centre + 1 >= started
    ensures FramesOk(e, img0, anim, log', started')
  {
    forall j: nat | 1 <= j < |anim| ensures RecordedFrame(e, img0, log', started', anim[j], j) {
      assert RecordedFrame(e, img0, log, started, anim[j], j);
      var m: nat :| FrameAt(e, img0, log, started, anim[j], j, m);
      assert log'[..m] == log[..m];
      forall k | 0 <= k < |log'| ensures k < |log| ==> log'[k] == log[k] {
      }
      assert FrameAt(e, img0, log', started', anim[j], j, m);
    }
  }

  /** Recording the current image when the tick count reaches a multiple of frameFreq. */
  lemma FramesRecord<C>(e: Env<C>, img0: Grid<C>, anim: seq<Grid<C>>, log: seq<Write<C>>, started: nat)
    requires FramesOk(e, img0, anim, log, started)
    requires 1 <= started && |anim| * e.frameFreq == started + |log|
    requires forall k | 0 <= k < |log| :: log[k].centre < started
    ensures FramesOk(e, img0, anim + [Replay(img0, log)], log, started)
  {
    var a := anim + [Replay(img0, log)];
    assert log[..|log|] == log;
    assert FrameAt(e, img0, log, started, a[|anim|], |anim|, |log|);
    forall j: nat | 1 <= j < |a| ensures RecordedFrame(e, img0, log, started, a[j], j) {
      if j < |anim| {
        assert a[j] == anim[j];
      }
    }
  }

  /** A neighbour block records either no frame or the image it has just produced. */
  lemma TryNeighbourRecords<C>(e: Env<C>, s: State<C>, i: nat, x: int, y: int)
    requires Inv(e, s) && HasPicker(e, i)
    ensures var r := TryNeighbour(e, s, i, x, y);
      r.anim == s.anim || (r.anim == s.anim + [r.img] && r.frames == e.frameFreq)
  {
  }

  /** What the invariant says about the image and the counter after a neighbour block. */
  lemma ConsistentFrame<C>(e: Env<C>, img0: Grid<C>, r: State<C>, started: nat)
    requires Consistent(e, img0, r, started)
    ensures r.img == Replay(img0, r.log)
    ensures Cadence(e.frameFreq, r.frames, |r.anim|, started + |r.log|)
    ensures forall k | 0 <= k < |r.log| :: r.log[k].centre < started
  {
    forall k | 0 <= k < |r.log| ensures r.log[k].centre < started {
      assert WriteOk(e, img0, r.log[k], started);
    }
  }

  lemma TryNeighbourFrames<C>(e: Env<C>, img0: Grid<C>, s: State<C>, i: nat, x: int, y: int)
    requires Consistent(e, img0, s, i + 1) && HasPicker(e, i) && FramesOk(e, img0, s.anim, s.log, i + 1)
    ensures var r := TryNeighbour(e, s, i, x, y);
      FramesOk(e, img0, r.anim, r.log, i + 1)
  {
    var r := TryNeighbour(e, s, i, x, y);
    TryNeighbourExtends(e, s, i, x, y);
    TryNeighbourAccepts(e, s, i, x, y);
    FramesGrow(e, img0, s.anim, s.log, r.log, i + 1, i + 1);
    TryNeighbourRecords(e, s, i, x, y);
    if r.anim != s.anim {
      TryNeighbourConsistent(e, img0, s, i, x, y);
      ConsistentFrame(e, img0, r, i + 1);
      assert |s.anim| * e.frameFreq == i + 1 + |r.log|;
      FramesRecord(e, img0, s.anim, r.log, i + 1);
    }
  }

  lemma ExpandFrames<C>(e: Env<C>, img0: Grid<C>, s: State<C>, i: nat)
    requires Consistent(e, img0, s, i + 1) && HasPicker(e, i) && s.frontier != []
    requires FramesOk(e, img0, s.anim, s.log, i + 1)
    ensures var r := Expand(e, s, i);
      FramesOk(e, img0, r.anim, r.log, i + 1)
  {
    var t := Take(e.order, s.frontier);
    var p := t.0;
    var s0 := s.(frontier := t.1);
    var s1 := TryNeighbour(e, s0, i, p.x, p.y - 1);
    var s2 := TryNeighbour(e, s1, i, p.x + 1, p.y);
    var s3 := TryNeighbour(e, s2, i, p.x, p.y + 1);
    TryNeighbourConsistent(e, img0, s0, i, p.x, p.y - 1);
    TryNeighbourConsistent(e, img0, s1, i, p.x + 1, p.y);
    TryNeighbourConsistent(e, img0, s2, i, p.x, p.y + 1);
    TryNeighbourFrames(e, img0, s0, i, p.x, p.y - 1);
    TryNeighbourFrames(e, img0, s1, i, p.x + 1, p.y);
    TryNeighbourFrames(e, img0, s2, i, p.x, p.y + 1);
    TryNeighbourFrames(e, img0, s3, i, p.x - 1, p.y);
    ExpandSteps(e, s, i, p, t.1);
  }

  lemma {:induction false} DrainFrames<C>(e: Env<C>, img0: Grid<C>, s: State<C>, i: nat)
    requires Consistent(e, img0, s, i + 1) && HasPicker(e, i)
    requires FramesOk(e, img0, s.anim, s.log, i + 1)
    ensures var r := Drain(e, s, i);
      FramesOk(e, img0, r.anim, r.log, i + 1)
    decreases Measure(s)
  {
    if s.frontier != [] {
      ExpandConsistent(e, img0, s, i);
      ExpandFrames(e, img0, s, i);
      ExpandShrinks(e, s, i);
      DrainFrames(e, img0, Expand(e, s, i), i);
    }
  }

  lemma StartCentreFrames<C>(e: Env<C>, img0: Grid<C>, s: State<C>, i: nat)
    requires Consistent(e, img0, s, i) && i < |e.centres|
    requires FramesOk(e, img0, s.anim, s.log, i)
    ensures var r := StartCentre(e, s, i);
      FramesOk(e, img0, r.anim, r.log, i + 1)
  {
    var r := StartCentre(e, s, i);
    FramesGrow(e, img0, s.anim, s.log, s.log, i, i + 1);
    CadenceTick(e.frameFreq, s.frames, |s.anim|, i + |s.log|);
    if s.frames - 1 == 0 {
      ConsistentFrame(e, img0, s, i);
      assert r.anim == s.anim + [s.img];
      assert |s.anim| * e.frameFreq == i + 1 + |s.log|;
      FramesRecord(e, img0, s.anim, s.log, i + 1);
    }
  }

  /** One iteration of the for loop keeps every frame a snapshot of the trace. */
  lemma CentreFrames<C>(e: Env<C>, img0: Grid<C>, s: State<C>, i: nat)
    requires Consistent(e, img0, s, i) && HasPicker(e, i)
    requires FramesOk(e, img0, s.anim, s.log, i)
    ensures var r := Drain(e, StartCentre(e, s, i), i);
      FramesOk(e, img0, r.anim, r.log, i + 1)
  {
    StartCentreConsistent(e, img0, s, i);
    StartCentreFrames(e, img0, s, i);
    DrainFrames(e, img0, StartCentre(e, s, i), i);
  }

  lemma {:induction false} RunCentresFrames<C>(e: Env<C>, img0: Grid<C>, s: State<C>, i: nat)
    requires Consistent(e, img0, s, i) && |e.centres| <= |e.pickers|
    requires FramesOk(e, img0, s.anim, s.log, i)
    ensures var r := RunCentres(e, s, i);
      FramesOk(e, img0, r.anim, r.log, |e.centres|)
    decreases |e.centres| - i, 1
  {
    if i < |e.centres| {
      RunCentresFramesStep(e, img0, s, i);
    } else {
      RunCentresDone(e, s, i);
    }
  }

  lemma {:induction false} RunCentresFramesStep<C>(e: Env<C>, img0: Grid<C>, s: State<C>, i: nat)
    requires Consistent(e, img0, s, i) && i < |e.centres| <= |e.pickers|
    requires FramesOk(e, img0, s.anim, s.log, i)
    ensures var r := RunCentres(e, s, i);
      FramesOk(e, img0, r.anim, r.log, |e.centres|)
    decreases |e.centres| - i, 0
  {
    CentreConsistent(e, img0, s, i);
    CentreFrames(e, img0, s, i);
    RunCentresStep(e, s, i);
    RunCentresFrames(e, img0, Drain(e, StartCentre(e, s, i), i), i + 1);
  }

  // ---------------------------------------------------------------------
  // What a whole fill guarantees

  /** Across all centres no pixel is recoloured twice: the first centre to reach it wins. */
  lemma FillWritesEachPixelOnce<C>(e: Env<C>, img0: Grid<C>)
    requires IsGrid(img0, e.width, e.height) && |e.centres| <= |e.pickers|
    ensures var log := FinalState(e, img0).log;
      forall j, k | 0 <= j < k < |log| :: (log[j].x, log[j].y) != (log[k].x, log[k].y)
  {
    FinalConsistent(e, img0);
  }

  /**
   * Every recolouring is of a pixel in the image whose original colour is
   * within tolerance of its centre's colour, with that centre's picker;
   * centres write in their vector order.
   */
  lemma FillWritesAreAdmitted<C>(e: Env<C>, img0: Grid<C>)
    requires IsGrid(img0, e.width, e.height) && |e.centres| <= |e.pickers|
    ensures var log := FinalState(e, img0).log;
      && (forall k | 0 <= k < |log| ::
            && log[k].centre < |e.centres|
            && IsWithinImage(log[k].x, log[k].y, e.width, e.height)
            && e.dist(e.centres[log[k].centre].color, img0[log[k].y][log[k].x]) <= e.tolerance
            && log[k].colour == e.pickers[log[k].centre](Point(log[k].x, log[k].y, e.centres[log[k].centre])))
      && (forall j, k | 0 <= j <= k < |log| :: log[j].centre <= log[k].centre)
  {
    FinalConsistent(e, img0);
    var log := FinalState(e, img0).log;
    forall k | 0 <= k < |log|
      ensures e.dist(e.centres[log[k].centre].color, img0[log[k].y][log[k].x]) <= e.tolerance
    {
      assert WriteOk(e, img0, log[k], |e.centres|);
    }
  }

  /**
   * The final frame: a pixel nobody wrote keeps its original colour; a
   * written pixel has the colour of its one write.
   */
  lemma FillFinalImage<C>(e: Env<C>, img0: Grid<C>, x: int, y: int)
    requires IsGrid(img0, e.width, e.height) && |e.centres| <= |e.pickers|
    requires IsWithinImage(x, y, e.width, e.height)
    ensures var frames := FillFrames(e, img0);
      var log := FinalState(e, img0).log;
      && IsGrid(frames[|frames| - 1], e.width, e.height)
      && ((x, y) !in Positions(log) ==> frames[|frames| - 1][y][x] == img0[y][x])
      && (forall k | 0 <= k < |log| && log[k].x == x && log[k].y == y ::
            frames[|frames| - 1][y][x] == log[k].colour)
  {
    FinalConsistent(e, img0);
    var f := FinalState(e, img0);
    if (x, y) !in Positions(f.log) {
      ReplayUnwritten(img0, f.log, x, y);
    }
    forall k | 0 <= k < |f.log| && f.log[k].x == x && f.log[k].y == y
      ensures Replay(img0, f.log)[y][x] == f.log[k].colour
    {
      ReplayWritten(img0, f.log, k);
    }
  }

  /** The processed grid at the end holds exactly the recoloured pixels. */
  lemma FillProcessedIsWritten<C>(e: Env<C>, img0: Grid<C>, x: int, y: int)
    requires IsGrid(img0, e.width, e.height) && |e.centres| <= |e.pickers|
    requires IsWithinImage(x, y, e.width, e.height)
    ensures var f := FinalState(e, img0);
      f.processed[y][x] <==> exists k | 0 <= k < |f.log| :: f.log[k].x == x && f.log[k].y == y
  {
    FinalConsistent(e, img0);
    var f := FinalState(e, img0);
    if (x, y) in Positions(f.log) {
      var k :| 0 <= k < |f.log| && (x, y) == (f.log[k].x, f.log[k].y);
    }
  }

  /**
   * Frames: the untouched image, one frame per frameFreq ticks (a tick per
   * centre and per recoloured pixel), and the final image. With frameFreq
   * <= 0 only the first and the last.
   */
  lemma FillFrameCount<C>(e: Env<C>, img0: Grid<C>)
    requires IsGrid(img0, e.width, e.height) && |e.centres| <= |e.pickers|
    ensures var n := |e.centres| + |FinalState(e, img0).log|;
      |FillFrames(e, img0)| == if e.frameFreq >= 1 then 2 + n / e.frameFreq else 2
    ensures e.frameFreq >= 1 ==> 1 <= FinalState(e, img0).frames <= e.frameFreq
  {
    FinalConsistent(e, img0);
    var f := FinalState(e, img0);
    assert Cadence(e.frameFreq, f.frames, |f.anim|, |e.centres| + |f.log|);
    CadenceCount(e.frameFreq, f.frames, |f.anim|, |e.centres| + |f.log|);
  }

  /**
   * What the frames in between contain: frame j (0 < j < last) only exists
   * when frameFreq >= 1, and it is the original image with the first m
   * writes applied, recorded at the (j * frameFreq)-th tick, that is after
   * c = j * frameFreq - m centres (at least one, at most all) had been
   * started and m pixels recoloured: the first m writes are for the first
   * c centres and the later ones for centre c - 1 or later. By
   * FrameAtUnique only one m fits, so the frame is determined by its tick.
   */
  lemma FillCadenceFrames<C>(e: Env<C>, img0: Grid<C>, j: nat)
    requires IsGrid(img0, e.width, e.height) && |e.centres| <= |e.pickers|
    requires 1 <= j < |FillFrames(e, img0)| - 1
    ensures e.frameFreq >= 1
    ensures var log := FinalState(e, img0).log;
      exists m: nat | m <= |log| ::
        && FillFrames(e, img0)[j] == Replay(img0, log[..m])
        && j * e.frameFreq - |e.centres| <= m < j * e.frameFreq
        && (forall k | 0 <= k < m :: log[k].centre < j * e.frameFreq - m)
        && (forall k | m <= k < |log| :: log[k].centre + 1 >= j * e.frameFreq - m)
  {
    InitialConsistent(e, img0);
    FinalConsistent(e, img0);
    var f := FinalState(e, img0);
    RunCentresFrames(e, img0, Initial(e, img0), 0);
    assert FillFrames(e, img0)[j] == f.anim[j];
    FramesOkAt(e, img0, f.anim, f.log, |e.centres|, j);
  }

  /** FramesOk, frame by frame, with its witness written out. */
  lemma FramesOkAt<C>(e: Env<C>, img0: Grid<C>, anim: seq<Grid<C>>, log: seq<Write<C>>, started: nat, j: nat)
    requires FramesOk(e, img0, anim, log, started) && 1 <= j < |anim|
    ensures exists m: nat | m <= |log| ::
      && anim[j] == Replay(img0, log[..m])
      && j * e.frameFreq - started <= m < j * e.frameFreq
      && (forall k | 0 <= k < m :: log[k].centre < j * e.frameFreq - m)
      && (forall k | m <= k < |log| :: log[k].centre + 1 >= j * e.frameFreq - m)
  {
    assert RecordedFrame(e, img0, log, started, anim[j], j);
    var m: nat :| FrameAt(e, img0, log, started, anim[j], j, m);
  }

  /** The first frame is the image before the fill, the last the image after it. */
  lemma FillFirstAndLastFrame<C>(e: Env<C>, img0: Grid<C>)
    requires IsGrid(img0, e.width, e.height) && |e.centres| <= |e.pickers|
    ensures var frames := FillFrames(e, img0);
      frames[0] == img0 && frames[|frames| - 1] == FinalState(e, img0).img
  {
    FinalConsistent(e, img0);
  }

  /**
   * The work is bounded: every add() is a seed or an accepted pixel, at most
   * width * height pixels are accepted, so there are at most
   * #centres + width * height pushes.
   */
  lemma FillWorkBound<C>(e: Env<C>, img0: Grid<C>)
    requires IsGrid(img0, e.width, e.height) && |e.centres| <= |e.pickers|
    ensures FinalState(e, img0).pushes == |e.centres| + |FinalState(e, img0).log|
    ensures |FinalState(e, img0).log| <= e.width * e.height
    ensures FinalState(e, img0).pushes <= |e.centres| + e.width * e.height
  {
    FinalConsistent(e, img0);
  }
}
