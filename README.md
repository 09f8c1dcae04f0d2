# Multi-centre flood fill, modelled and verified in Dafny

The system is an image flood filler. A fill configuration holds:

- an image;
- a list of *centres*: a pixel plus a reference colour;
- one *colour picker* per centre;
- a colour *tolerance*;
- a *frame frequency*.

`filler::fill` works on a local copy of the image. It takes the centres in vector order. For each centre it adds the centre's pixel to an ordering structure: a queue for `fillBFS`, a stack for `fillDFS`. It then repeatedly removes a point and tries that point's four neighbours in the order up, right, down, left.

A neighbour is accepted when three things hold:

- it lies inside the image;
- it has not been processed yet;
- the distance between the centre's colour and the pixel's current colour is at most the tolerance.

An accepted neighbour is recoloured with the centre's picker, pushed onto the ordering structure and marked processed. A counter `frames` ticks once per centre and once per accepted pixel. Each time the counter reaches zero, the current image is added to the animation and the counter is reset to the frame frequency.

The animation that is returned holds three kinds of frame, in order:

- the untouched image;
- every frame recorded by the counter;
- the final image.

The project has five modules:

- `Grid` (grid.dfy): row-major grids `g[y][x]`, `isWithinImage`, point updates, array snapshots, and the count of unprocessed pixels.
- `FillModel` (model.dfy): a functional reference model of one fill. `TryNeighbour` is one of the four neighbour blocks, `Expand` one iteration of the while loop, `Drain` the while loop, `StartCentre` the head of the for loop, and `RunCentres` the for loop. `FillOutcome` is the returned animation. The model also keeps a trace of the picker writes (`Write`) and a count of the `add()` calls as specification records; the source keeps neither.
- `Filler` (filler.dfy): the fill as the code runs it. It works in place on `array2` grids for the image copy and the processed flags, with a `seq` frontier, a `frames` counter and a `seq` of frames. It is proved to return exactly `FillOutcome`. Neither `config.img` nor anything else outside the fill is changed, since `Fill` has no `modifies` clause.
- `FillProperties` (properties.dfy): the run invariant `Consistent`, the growth relation `Extends`, the frame invariant `FramesOk` (every recorded frame is the image after a prefix of the writes, taken at its tick), and the whole-fill theorems.
- `FillTraversal` (traversal.dfy): neighbour order, the centre carried by frontier points, contiguity of every centre's region (each recoloured pixel neighbours the region as built before it), and flood-fill closure of every centre's region.

Abstract parameters:

- The colour type `C`.
- The colour distance, a function `(C, C) -> real`, with a `real` tolerance.
- The pickers: each picker is a pure function from a point to a colour. The repository's pickers keep their own copy of the image, taken when they are built, so they depend only on the point.

## Model

| member | source | states |
|---|---|---|
| Grid.IsWithinImage | filler.cpp:298-301 | filler::isWithinImage: (x, y) lies in the width-by-height image; it can hold only when the image has at least one row and one column (its exact meaning as a valid grid index is WithinImageIsValidIndex) |
| Grid.WithinImageIsValidIndex | filler.cpp:298-301 | isWithinImage(x, y, w, h) holds exactly when (x, y) is a valid index of a w-by-h grid, so every guarded access is in range, even for a seed outside the image |
| Grid.CountFalseFilled | filler.cpp:122-131 | the freshly built processed grid has exactly width * height unprocessed cells |
| Grid.CountFalseUpdate | filler.cpp:188 | marking one unprocessed pixel lowers the number of unprocessed pixels by exactly one |
| FillModel.Take | filler.cpp:162 | remove() hands out one entry of the ordering structure and keeps all the others (as a multiset) |
| FillModel.TryNeighbour | filler.cpp:171-196 | one guarded neighbour block (the up block; right, down and left at lines 199-280 are the same with other coordinates) keeps both grids the image's shape; what it accepts and writes is TryNeighbourAccepts |
| FillModel.Expand | filler.cpp:162-280 | one iteration of the while loop (remove, then the four neighbour blocks up, right, down, left) keeps both grids the image's shape; its order and effect are ExpandPushesInOrder and ExpandShrinks |
| FillModel.ExpandShrinks | filler.cpp:159-281 | each iteration of the while loop lowers the frontier size plus twice the unprocessed count, so the loop terminates |
| FillModel.Drain | filler.cpp:159-281 | the while loop ends with an empty ordering structure and grids of the image's shape |
| FillModel.StartCentre | filler.cpp:140-156 | the start of a centre pushes the centre's own point and does not recolour or mark the seed |
| FillModel.RunCentres | filler.cpp:137-282 | the for loop over the centres, from centre i on, keeps both grids the image's shape; what it keeps is RunCentresConsistent and RunCentresExtends |
| FillModel.FillOutcome | filler.cpp:35-296 | the result of filler::fill is a failure exactly when there are fewer pickers than centres (pickers.at() throws at line 143), and otherwise the animation FillFrames |
| Filler.FillBFS | filler.cpp:13-16 | fillBFS returns the model's animation for the queue order |
| Filler.FillDFS | filler.cpp:24-27 | fillDFS returns the model's animation for the stack order |
| Filler.Fill | filler.cpp:35-296 | the in-place fill over arrays returns exactly the reference model's animation, or the out-of-range failure of pickers.at() when there are fewer pickers than centres; config.img is not modified |
| Filler.CopyImage | filler.cpp:110 | the working image is a fresh array holding the same pixels as config.img |
| Filler.NewProcessed | filler.cpp:122-131 | the processed grid is a fresh height-by-width array with every pixel unprocessed |
| Filler.FillCentre | filler.cpp:137-281 | one for-loop iteration changes the arrays and variables exactly as the model's StartCentre followed by Drain |
| Filler.DrainFrontier | filler.cpp:159-281 | the while loop over arrays changes them exactly as the model's Drain |
| Filler.Visit | filler.cpp:171-196 | one neighbour block over arrays changes them exactly as the model's TryNeighbour |
| FillProperties.TryNeighbourAccepts | filler.cpp:171-196 | a neighbour is accepted if and only if it is in bounds, unprocessed and at distance at most the tolerance (equal counts as within). When accepted it gets its centre's picker colour, is marked and pushed; when rejected nothing changes |
| FillProperties.CadenceTick | filler.cpp:179-194 | one tick of the frame counter keeps it in 1..frameFreq and records a frame exactly when it reaches zero |
| FillProperties.TryNeighbourConsistent | filler.cpp:171-196 | one neighbour block keeps the run invariant: every write is admitted, no pixel is written twice, and the image equals the replay of the writes. Processed pixels are exactly the written ones, and the cadence is kept |
| FillProperties.DrainExtends | filler.cpp:159-281 | during a centre's loop processed flags only go from false to true, and writes and frames are only appended |
| FillProperties.RunCentresExtends | filler.cpp:137-281 | the processed grid is never reset between centres |
| FillProperties.RunCentresConsistent | filler.cpp:137-281 | the for loop over the centres keeps the run invariant |
| FillProperties.InitialConsistent | filler.cpp:115-134 | the invariant holds before the first centre: nothing processed, counter at frameFreq, only the untouched frame |
| FillProperties.FillWritesEachPixelOnce | filler.cpp:176-188 | across all centres no pixel is recoloured twice |
| FillProperties.FillWritesAreAdmitted | filler.cpp:143-188 | every recolouring is in bounds, of a pixel whose original colour is within tolerance of its centre's colour, with the colour of pickers[i] for centre i; centres write in vector order |
| FillProperties.FillFinalImage | filler.cpp:176-188 | in the final frame an unwritten pixel keeps its original colour and a written pixel has the colour of its one write |
| FillProperties.FillProcessedIsWritten | filler.cpp:185-188 | at the end a pixel is processed exactly when it was recoloured |
| FillProperties.FillFrameCount | filler.cpp:134-194 | the animation has 2 + (#centres + #accepted) / frameFreq frames when frameFreq >= 1 and 2 otherwise; the final counter lies in 1..frameFreq |
| FillProperties.FillFirstAndLastFrame | filler.cpp:294 | the first frame is the untouched image (line 134) and the last is the final image |
| FillProperties.FillCadenceFrames | filler.cpp:134-194 | every frame between the first and the last exists only when frameFreq >= 1, and frame j is the original image with the first m writes applied, where c = j * frameFreq - m lies between 1 and #centres, the first m writes are for the first c centres and every later write is for centre c - 1 or a later one: this is the image at tick j * frameFreq, after c centres had been started and m pixels recoloured |
| FillProperties.FrameAtUnique | filler.cpp:134-194 | the description of a frame fixes it: two numbers of writes that both meet FrameAt for the same frame index are equal, and so are the frames, so frame j is determined by its tick |
| FillProperties.TryNeighbourFrames | filler.cpp:179-194 | a neighbour block keeps every recorded frame a snapshot of the trace at its tick; a frame it records is the image it has just produced, at tick (number of frames so far) * frameFreq |
| FillProperties.StartCentreFrames | filler.cpp:142-156 | starting a centre keeps every frame a snapshot; a filler frame it records is the current image, at tick (number of frames so far) * frameFreq |
| FillProperties.DrainFrames | filler.cpp:159-281 | the whole while loop keeps every recorded frame a snapshot of the trace at its tick |
| FillProperties.FillWorkBound | filler.cpp:137-188 | every add() to the ordering structure is a centre's seed or an accepted pixel, so the run makes exactly #centres + #accepted pushes; at most width * height pixels are accepted, so there are at most #centres + width * height pushes |
| FillTraversal.ExpandPushesInOrder | filler.cpp:165-280 | one iteration keeps the rest of the frontier, then appends the admitted neighbours of the removed point in the order up, right, down, left |
| FillTraversal.StartSeeded | filler.cpp:140-156 | adding centre i's seed keeps the loop invariant Seeded: the seed carries centre i and lies in its region, and no write is made. It is applied to the structure left by the previous centre, which is empty by Drain's own ensures (`r.frontier == []`); that an empty structure is seeded for any centre is the helper lemma EmptySeeded |
| FillTraversal.ExpandConnects | filler.cpp:159-280 | one iteration keeps the loop invariant (every point in the ordering structure carries centre i, so the tolerance test uses `c.color`, and lies in centre i's region) and keeps every write a 4-neighbour of its centre's region as built before it |
| FillTraversal.DrainConnects | filler.cpp:159-281 | the whole while loop for centre i keeps every write a 4-neighbour of its centre's region as built before it |
| FillTraversal.DrainCloses | filler.cpp:159-281 | when centre i's loop ends, every in-bounds neighbour of each pixel of its region is processed or outside tolerance of the centre's colour. The region is the seed plus the pixels recoloured for the centre |
| FillTraversal.FillRegionsClosed | filler.cpp:137-281 | at the end of the fill every centre's region is closed with the first fill winning (lines 84-86): each in-bounds neighbour of a pixel of centre i's region was recoloured for centre i or an EARLIER centre (never a later one), or has an original colour outside centre i's tolerance |
| FillTraversal.FillWritesConnected | filler.cpp:137-281 | contiguity of the whole run: the k-th recolouring, made for centre i, is a 4-neighbour of centre i's seed or of a pixel recoloured for centre i before it, so each region is reached from its seed through neighbouring pixels of that region only |

## Left out

- Colour pickers: their floating-point hue, saturation and luminance arithmetic is not modelled. Each picker is a pure function of the point, since the picker classes keep their own copy of the image.
- `HSLAPixel::dist` and the `float` tolerance: floating point is not modelled. The distance is an abstract function into `real` and the tolerance is a `real`.
- `PNG`, `animation`, `Queue` and `Stack`: their implementations are not part of this model. The image is an `array2`, `addFrame` appends a deep copy (a `seq` of rows), and the ordering structure is a `seq` whose `remove` takes the front (queue) or the back (stack).
- The memory release at filler.cpp:285-291 and the unused `temp_frames` at filler.cpp:150: neither has observable behaviour.
- 32-bit `int` overflow of coordinates and of the frame counter: integers are unbounded here.
- Too few pickers: `pickers.at()` then throws `std::out_of_range`. The model returns `Failure(PickerIndexOutOfRange)` and does not treat this as a precondition. The work done for earlier centres before the throw is unobservable, since the animation is never returned.
- Filler.Visit: the four neighbour blocks at filler.cpp:171-280 are one method called four times, with the neighbour's coordinates as arguments.
- That the queue and stack variants end with the same final image is not proved. The two share one method and differ only in `Take`; the model states each variant's result, not a relation between them.
- A seed pixel is never marked processed when it is pushed, so it can be recoloured later when it is reached and accepted as a neighbour. The model follows the code, not a reading in which seeds are never recoloured.
