# Fireworks with paint: a Dafny model

This project models the core of a browser fireworks page (`app.js`). Fireworks
rise from the bottom of the window and detonate into bursts of particles. A
paint canvas sits underneath. When the user has drawn on it and pressed Save,
"shape mode" is on. In shape mode a detonation scatters its particles in the
shape of the drawing, not as the default round burst of 350.

The model has seven modules, one per concern of the page:

- `Geometry`: a point of the firework canvas, with real coordinates.
- `Raster`: the paint canvas as a row-major RGBA byte buffer. It also holds the
  Save button's scan, which looks for a positive alpha byte.
- `Sampler`: the shape branch of a detonation. It scans for the tight bounding
  box of the drawn pixels and walks that box with stride 2, one emission point
  per drawn sample. The emission is centred on the firework.
- `Particles`: a particle. Its velocity is damped by 0.99 per frame and its
  opacity fades by one hundredth per frame. Opacity is counted in whole
  hundredths, so 100 is fully opaque.
- `Fireworks`: a firework. It counts down a lifespan of 90 frames and
  detonates exactly once, guarded by `hasExploded`. After that it stands still
  while its particles fade.
- `Animation`: the frame loop over the list of fireworks, as values. It is the
  `forEach` with a `splice` inside, followed by a launch with probability 0.015.
- `Page`: the page's objects. The `Display` class holds the list of `Firework`
  objects, the shape-mode flag and the paint canvas, and has the frame, Save
  and Clear handlers.

The source is imperative, and the model follows that. `Particle`, `Firework`
and `Display` are classes whose methods update their fields in place. The
loops of the source (the scan, the stride-2 walk, the particle pushes, the
particle updates, the removal pass and the Save scan) are `while` loops with
invariants. Each class has a ghost `State()` (for `Display`, the ghost
sequence `rockets`) that views the object as a value. Each method is proved to
move that state the way a pure function says: `Decay`, `Detonation`, `Flight`,
`Tick`, `Sweep`. The lemmas then state what the page promises about those
functions: tight bounds, sample counts, a single detonation, the lifecycle
frame by frame, and which fireworks the removal pass keeps and skips.

The removal pass keeps the source's behaviour exactly. The length of the list
is fixed when the pass starts. Positions past the end of the shrunken list are
not visited. The firework that slides into a removed one's place is skipped for
that frame. `SweepFrom` follows the loop position by position. `Fates` states
the same pass firework by firework, and `SweepByFates` proves the two agree.

Random draws are parameters:

- the velocity draw of each new particle, keyed by the callback position in the
  frame and the particle's index in its burst;
- the launch roll and the launch's x, hue and speed.

Window sizes are constructor parameters of `Display`.

## Model

| member | source | states |
|---|---|---|
| Raster.HasDrawnPixels | app.js:191-198 | the Save scan over bytes 3, 7, 11, ... finds a drawn pixel exactly when some byte at an index congruent to 3 modulo 4 is positive |
| Raster.DrawnIsOccupied | app.js:82-83 | a positive byte at index i ≡ 3 (mod 4) is the alpha of pixel ((i/4) mod width, (i/4) div width), which is inside the image |
| Raster.DrawnIffOccupied | app.js:193-198 | on a well-formed buffer, a positive alpha byte exists exactly when some pixel of the image is occupied |
| Sampler.Initial | app.js:78 | the bounds before any pixel is seen: minX = width, maxX = 0, minY = height, maxY = 0 |
| Sampler.Widen | app.js:86-89 | one occupied pixel's four guarded updates: each bound moves out to the pixel when the pixel lies beyond it (box properties in `BoxIsTight`, `BoxAttained`) |
| Sampler.ScanFrom | app.js:80-92 | the scan from pixel (x, y) on, row by row, widening at every occupied pixel; `ScanBounds` is proved equal to it |
| Sampler.BoxOf | app.js:78-92 | the bounds after the whole scan, from the initial bounds; characterised by `BoxIsTight`, `BoxAttained`, `BoxEmptyIff` |
| Sampler.ScanBounds | app.js:78-92 | the nested scan loops, with their four conditional updates, compute exactly `BoxOf`, the row-major fold of the widening step from (width, 0, height, 0) |
| Sampler.ScanStaysTight | app.js:80-92 | every scan step keeps the bounds tight over the pixels seen so far: they cover every occupied pixel already scanned and are either the initial bounds or reached by occupied pixels |
| Sampler.BoxIsTight | app.js:78-92 | after the whole scan the box covers every occupied pixel, and it is either the initial bounds or each bound is reached |
| Sampler.BoxContainsOccupied | app.js:85-90 | every pixel with alpha > 0 lies in [minX, maxX] × [minY, maxY] |
| Sampler.BoxAttained | app.js:85-90 | when some pixel is occupied, each of minX, maxX, minY and maxY is reached by an occupied pixel |
| Sampler.BoxEmptyIff | app.js:78 | the bounds stay at (width, 0, height, 0) if and only if no pixel is occupied |
| Sampler.BoxWithinImage | app.js:78-92 | the box always lies within 0..width and 0..height, so the sampling loops read only pixels of the image |
| Sampler.Offset | app.js:94-95 | the centring offset: the firework's position less half the box's width and height |
| Sampler.Place | app.js:102-103 | the emitted position of sample (x, y): the offset plus (x − minX, y − minY) |
| Sampler.RowCells | app.js:97-101 | the occupied samples of one row at x, x + 2, ... below maxX, left to right (characterised by `RowCellsMember`) |
| Sampler.RowsFrom | app.js:96-101 | the occupied samples of the rows y, y + 2, ... below maxY, in walk order (characterised by `RowsFromMember`) |
| Sampler.Samples | app.js:96-101 | all occupied stride-2 samples of the half-open box, in walk order (characterised by `SamplesExactly`, counted by `SampleCount`) |
| Sampler.Emission | app.js:94-105 | the points the walk emits for a box: each sample placed by the centring offset (`SamplePoints` is proved equal to it) |
| Sampler.EmissionPoints | app.js:78-107 | the shape branch as a whole: the emission for the scanned box of the paint canvas |
| Sampler.SamplePoints | app.js:94-107 | the stride-2 walk of the half-open box emits exactly `Emission`: for each occupied sample, in row order, the point offset by the centring offset |
| Sampler.SampleRow | app.js:97-106 | one row of the walk emits the placed points of that row's occupied samples, left to right |
| Sampler.AppendPlaces | app.js:102-104 | placing the points of two runs of samples is placing each run in turn |
| Sampler.RowCellsMember | app.js:97-101 | a cell is emitted by a row walk from x to maxX exactly when it is in that row, at x plus an even step below maxX, and occupied |
| Sampler.RowCellsDistinct | app.js:97 | a row walk visits each cell at most once |
| Sampler.RowsFromMember | app.js:96-101 | a cell is emitted by the rows from y on exactly when it is on the stride-2 grid of the box, at or below row y, and occupied |
| Sampler.RowsFromDistinct | app.js:96-97 | the rows from y on emit each cell at most once |
| Sampler.SamplesExactly | app.js:96-105 | a cell is sampled if and only if it is (minX + 2i, minY + 2j) inside the half-open box and occupied, and no cell is sampled twice |
| Sampler.SampleCount | app.js:96-105 | the number of emitted points equals the number of occupied stride-2 samples of the half-open box |
| Sampler.DegenerateBoxSamplesNothing | app.js:96-97 | a box with maxX <= minX or maxY <= minY samples nothing |
| Sampler.NothingDrawnEmitsNothing | app.js:78-97 | with no occupied pixel the bounds are (width, 0, height, 0) and the shape branch emits no point |
| Sampler.SingleLineEmitsNothing | app.js:96-97 | a drawing whose box is a single row or a single column emits no point, because both loop bounds are strict |
| Sampler.OneDotEmitsNothing | app.js:96-97 | a 1×1 canvas with its one pixel drawn counts as a drawing, yet emits no point |
| Sampler.EmissionCentred | app.js:94-104 | every emitted point is offset + (x − minX, y − minY) for a sampled cell, and lies in the box of half-widths (maxX − minX)/2 and (maxY − minY)/2 centred on the firework |
| Particles.Spawn | app.js:19-31 | a fresh particle at the given point with the drawn velocity and 100 hundredths of opacity |
| Particles.Decay | app.js:41-47 | one particle update: velocity times 0.99, position plus the damped velocity, opacity one hundredth lower (n of them in closed form in `DecayNClosedForm`) |
| Particles.DecayNClosedForm | app.js:41-47 | after n updates the opacity is 100 − n hundredths (1 − 0.01·n), the velocity is the initial one times 0.99^n, and the position has moved by the initial velocity times 0.99 + ... + 0.99^n |
| Particles.ReachShift | app.js:42-45 | the distance a unit velocity carries in n + 1 updates is 0.99 times one more than in n updates |
| Particles.Particle.constructor | app.js:19-31 | a new particle starts at the given point with the given velocity draw and colour, fully opaque |
| Particles.Particle.Update | app.js:41-47 | an update damps the velocity by 0.99, moves by the damped velocity and fades by one hundredth |
| Fireworks.Sites | app.js:70-107 | the start points of a detonation: 350 copies of the firework's position out of shape mode, the drawing's emission points in it |
| Fireworks.Burst | app.js:70-107 | the particles a detonation pushes, one per site, the i-th with draw i (counted by `BurstCount`) |
| Fireworks.Detonation | app.js:68-111 | `explode` on values: nothing when `hasExploded` is set, else the burst appended and the flag set (`ExplodeOnce`) |
| Fireworks.Flight | app.js:114-121 | the shell's part of `update`: the countdown, then the first detonation with the velocity zeroed, or the climb while the lifespan is positive |
| Fireworks.Tick | app.js:113-126 | one whole `update`: the shell's part followed by one update of every particle (`TickSteps`) |
| Fireworks.Spent | app.js:137 | the removal test: lifespan <= 0 and every particle's opacity <= 0 |
| Fireworks.Launch | app.js:51-59 | a new shell at the bottom edge: lifespan 90, not exploded, no particles, upward speed launch·(−6) − 2 |
| Fireworks.Run | app.js:113-126 | n updates in a row (`LaunchLifecycle`, `SpentFrom`) |
| Fireworks.TickSteps | app.js:113-126 | each update lowers the lifespan by exactly 1 and keeps the firework consistent; it detonates exactly when the lifespan reaches 0, which adds the burst and zeroes the velocity; before that the particle list is empty and the shell climbs by its velocity; the height changes only on updates that end with a positive lifespan |
| Fireworks.ExplodeOnce | app.js:69-110 | a detonation sets `hasExploded`; a second detonation, or one on an exploded firework, changes nothing |
| Fireworks.BurstAt | app.js:71-104 | the i-th particle of a burst starts at the i-th site with the i-th velocity draw |
| Fireworks.BurstCount | app.js:70-107 | out of shape mode a burst has exactly 350 particles, all at the firework's position; in shape mode it has one per occupied stride-2 sample of the drawing's box; every particle starts fully opaque |
| Fireworks.RunRising | app.js:114-121 | before detonation, n updates only count down the lifespan and climb by n times the velocity, with no particles |
| Fireworks.RunExploded | app.js:113-126 | after detonation, n updates keep the height and the zero velocity, lower the lifespan by n, and update each particle n times |
| Fireworks.DetonationFrame | app.js:113-126 | a launched firework detonates on update 90 at the height it reached after 89 climbs, stopped, with its burst updated once |
| Fireworks.LaunchLifecycle | app.js:113-126 | from launch, after n updates the lifespan is 90 − n; before update 90 the firework has not exploded and has no particles; from update 90 on it is exploded at its summit with its whole burst, each particle at 189 − n hundredths of opacity |
| Fireworks.RunSplit | app.js:113-126 | m + n updates are m updates followed by n updates |
| Fireworks.SpentFrom | app.js:137 | a launched firework meets the removal test after n updates if and only if n >= 90 and either its burst is empty or n >= 189 |
| Fireworks.SpentStaysSpent | app.js:137 | a firework that meets the removal test still meets it after one more update |
| Fireworks.Firework.constructor | app.js:51-59 | a new firework has lifespan 90, no particles, has not exploded, and an upward speed of launch·(−6) − 2 for the draw launch in [0, 1) |
| Fireworks.Firework.Explode | app.js:68-111 | explode is the detonation: a no-op when `hasExploded` is set, otherwise it appends the burst and sets the flag |
| Fireworks.Firework.Ignite | app.js:70-109 | the first detonation makes the firework's particles exactly the burst, in push order, and sets `hasExploded` |
| Fireworks.Firework.FindSites | app.js:70-107 | the start points of the burst are 350 copies of the firework's position out of shape mode, and the drawing's emission points in shape mode |
| Fireworks.Firework.AddParticles | app.js:71-104 | pushes one new, distinct particle of the firework's colour per site, the i-th spawned at site i with draw i |
| Fireworks.Firework.Update | app.js:113-126 | an update moves the firework's state by one `Tick` and keeps it valid |
| Fireworks.Firework.Fly | app.js:114-121 | the countdown followed by either the detonation (velocity zeroed) or the climb while the lifespan is positive |
| Fireworks.Firework.UpdateParticles | app.js:122-125 | every particle of the firework is updated exactly once |
| Fireworks.Firework.Removable | app.js:137 | the removal test holds exactly when the lifespan is <= 0 and every particle's opacity is <= 0 |
| Animation.Advance | app.js:135 | a firework's own update, run by the k-th callback of the frame with that callback's draws |
| Animation.Callback | app.js:135-138 | the frame's callback: update the firework, then remove it if the removal test holds (`CallbackDecides`) |
| Animation.Visit | app.js:134-139 | the callback at position k: the updated firework stays in place, or the list is spliced at k |
| Animation.SweepFrom | app.js:134-140 | the forEach from position k on with the length fixed at the start, skipping positions past the current end |
| Animation.Sweep | app.js:134-140 | the whole removal pass of a frame (`SweepByFates`) |
| Animation.Fates | app.js:134-140 | the pass firework by firework: skipped right after a removal, otherwise kept updated or removed by its callback; one fate per firework (`FateOf`) |
| Animation.Survivors | app.js:134-140 | the list the fates leave: skipped fireworks unchanged, kept ones updated, removed ones gone, in order (`SurvivorCount`) |
| Animation.Visits | app.js:134-140 | the number of callbacks that ran: the fireworks not skipped |
| Animation.Removals | app.js:138 | the number of splices |
| Animation.Launched | app.js:142-145 | the launch of a frame: one new firework at x = at·width on the bottom edge, hue 360·hue, when the roll is below 0.015; none otherwise |
| Animation.SweepByFates | app.js:134-140 | the forEach-with-splice pass leaves exactly the survivors of the per-firework fates, in their original order |
| Animation.SweepFromByFates | app.js:134-140 | from any position of the pass on, the list becomes the part already passed followed by the survivors of the rest |
| Animation.KeptStep | app.js:134-136 | a callback that keeps its firework puts the updated firework in place and the pass moves to the next position |
| Animation.RemovedStep | app.js:137-138 | a callback that splices its firework out moves the next one into its place, and that one is then skipped |
| Animation.SkippedStep | app.js:134-138 | the firework that slid into a removed one's place stays as it was for the frame |
| Animation.SweepPastEnd | app.js:134 | positions past the end of the shrunken list are not visited |
| Animation.FateOf | app.js:134-140 | the j-th firework is skipped exactly when the one before it was removed; otherwise its callback runs at the number of callbacks before it, and it is kept updated or removed as that callback decides |
| Animation.SurvivorCount | app.js:138 | each removal takes exactly one firework off the list |
| Animation.SkipAfterRemoval | app.js:134-140 | when the first of two fireworks is removed, the second is skipped and stays, not updated, whatever its own callback would decide |
| Animation.NothingDroppedAllUpdated | app.js:134-140 | when no callback removes its firework, every firework is updated at its own index and all of them stay |
| Animation.CallbackDecides | app.js:135-138 | the frame's callback removes a firework exactly when its update leaves it spent, and otherwise keeps it updated with the same x and colour |
| Animation.SurvivorsConsistent | app.js:113-140 | every firework left by the pass is still consistent: counting down with no particles, or exploded and stopped |
| Animation.RemovedExactlyWhenSpent | app.js:134-140 | the j-th firework is removed if and only if it was not skipped and its update at its callback position left it spent; so none with lifespan > 0 or a visible particle is removed |
| Animation.Blank | app.js:168 | the cleared paint canvas: every byte zero |
| Animation.BlankIsEmpty | app.js:166-168 | a cleared canvas has no occupied pixel, keeps the initial bounds and emits no point |
| Page.Display.constructor | app.js:7-15 | the page starts with no fireworks, a cleared paint canvas of height 400 and shape mode off; the firework canvas is the window height less 100 |
| Page.Display.Save | app.js:189-205 | the Save button turns shape mode on exactly when some pixel of the paint canvas is drawn on |
| Page.Display.Draw | app.js:149-159 | a stroke replaces the paint canvas by another of the same size; shape mode is unchanged until Save |
| Page.Display.ClearPaint | app.js:166-169 | clearing turns shape mode off and wipes the paint canvas |
| Page.Display.Animate | app.js:130-147 | a frame replaces the fireworks by the result of the removal pass, followed by the launched firework if the roll comes up |
| Page.Display.MaybeLaunch | app.js:142-146 | with chance 0.015 a new firework is appended at a random x along the bottom edge, in a random hue |
| Page.Display.Push | app.js:145 | appending a firework object extends the list of fireworks by it |
| Page.Display.SweepFireworks | app.js:134-140 | the object-level pass, with its length fixed at the start, leaves exactly `Sweep` of the old list |
| Page.Display.VisitAt | app.js:135-138 | the callback at position k updates the firework there and splices it out when it is spent |
| Page.Display.UpdateAt | app.js:135 | the callback's update changes the firework at position k and no other |
| Page.Display.Fire | app.js:135 | updating one firework object leaves every other firework, and its objects, unchanged |
| Page.Display.RemoveAt | app.js:138 | the splice removes exactly the firework at position k and keeps the others in order |

## Left out

- Drawing is left out: the `draw` methods, `arc`, `fill`, `globalAlpha`, the firework canvas's `clearRect` (app.js:132), and how a stroke renders on the paint canvas (app.js:33-39, 61-66, 136, 149-159, 172-187). They are rendering side effects of the browser. A stroke is `Display.Draw`, which replaces the paint canvas by any image of the same size. The paint canvas's own `clearRect` (app.js:168) is modelled, as `Blank`.
- DOM and event wiring, and `getImageData` (app.js:1-4, 161-163, 189-190, 207-209), are foreign browser calls. The canvas buffer is the `paint` field, and the handlers are methods.
- `requestAnimationFrame` scheduling (app.js:131, 212) is left out. `Animate` is one frame.
- Floating-point arithmetic is modelled with exact reals. This applies to positions and velocities, and also to the factor 0.99, the `/ 2` offsets and the launch speed. Opacity is an integer count of hundredths, so `alpha -= 0.01` is exact and the IEEE rounding near zero is not modelled.
- `Math.random`, `Math.cos` and `Math.sin` (app.js:23-28, 55, 142-144) are parameters. Each particle's velocity is a drawn pair, keyed by the callback position in the frame and the particle's index in its burst. Launches take a `Roll`.
- A firework's horizontal velocity is always 0 and never read, so it is not a field.
- The hsl colour string is an opaque `Hsl(hue)` token.
- In the source, one loop both samples the drawing and pushes the particles. The model splits it into `FindSites` (sampling) and `AddParticles` (pushing). The particles and their order are the same.
- Canvas sizes are set through the browser, which replaces a negative height with its default. The model stores the unclamped difference `innerHeight - 100` as the firework canvas height.
