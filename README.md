# BG-Remover background removal, modelled in Dafny

BG-Remover removes the background of a photo in the browser. The user picks an image and the
upload handler checks its type and size. The routine `removeBackgroundFromImage` then:

- draws the image onto a 320x320 canvas;
- encodes the canvas pixels as the channel-planar input tensor of a U²-Net segmentation model;
- runs the model, trying the input names `input.1`, `input` and `data`, then the first input name
  the model declares;
- takes the data of the first output as the raw 320x320 mask;
- refines the mask, first with an edge-preserving 3x3 smoothing pass over the interior, then with a
  sigmoid contrast curve;
- maps every pixel of the original image into the mask, samples the mask there bilinearly, and writes
  the result as that pixel's alpha byte.

Progress is reported at fixed milestones. A failure when loading the model is classified into one of
three messages. Any failure is rethrown with its message, or with a generic message when that message
is empty.

The project has one module per stage:

- `Upload` (upload.dfy): the upload validator.
- `LoadErrors` (load_errors.dfy): how load failures are classified by substring tests.
- `Encoder` (encoder.dfy): the tensor encoding loop.
- `Inference` (inference.dfy): the binding cascade and the output pick.
- `Refiner` (refiner.dfy): the smoothing and sigmoid passes.
- `Compositor` (compositor.dfy): the bilinear alpha compositor.
- `Pipeline` (pipeline.dfy): the routine end to end.
- `Base` (base.dfy): shared types and arithmetic facts.

How the model is written:

- The loops that write buffers are methods over `array`s. Each is proved equal to a specification
  function of its input: `Encoded`, `Smoothed`, `Refined` and `Composited`. The properties are proved
  about those functions.
- Floating-point values are modelled as `real`.
- `Math.exp` is a parameter `exp`. The only assumption about it, `IsExp`, is that it is positive and
  that exp(0) = 1.
- The inference engine is a parameter too. For a binding name and a tensor it either rejects the run
  with a reason or returns its outputs in key order.

## Model

| member | source | states |
|---|---|---|
| Upload.ValidateUpload | src/app/page.tsx:242-256 | No file gives no verdict. A type outside the four accepted MIME types is rejected with the type message, whatever the size. An accepted type over 10 MiB is rejected with the size message. Every other file is accepted. Each case is an if-and-only-if. |
| Upload.SizeBoundary | src/app/page.tsx:252-256 | The limit is inclusive: exactly 10485760 bytes is accepted and 10485761 bytes is rejected with the size message. |
| Upload.TypeExamples | src/app/page.tsx:246-250 | image/gif is rejected with the type message at any size; image/jpeg under the limit is accepted. |
| LoadErrors.Contains | src/app/page.tsx:27-29 | String.prototype.includes: whether the pattern is a prefix of the message or of one of its suffixes. The empty pattern is found in every message. `LoadErrors.ContainsAt` proves this equal to an occurrence at some position. |
| LoadErrors.ContainsAt | src/app/page.tsx:27-29 | The recursive substring test used for `includes` holds exactly when the pattern occurs at some position of the message. |
| LoadErrors.Classify | src/app/page.tsx:27-33 | Not-found is chosen exactly when the message contains "404" or "Not Found". Network is chosen exactly when it does not, but contains "network" or "fetch". Initialisation failure is chosen in every other case. |
| LoadErrors.LoadFailureMessage | src/app/page.tsx:27-33 | Each category throws its own fixed message: missing model, network error, or initialisation failure. |
| LoadErrors.NotFoundTakesPrecedence | src/app/page.tsx:27-30 | A message containing "404" is a missing model even when it also says "Failed to fetch". |
| LoadErrors.FetchFailureIsNetwork | src/app/page.tsx:29-30 | "Failed to fetch" is classified as a network error. |
| Encoder.Normalize | src/app/page.tsx:75-81 | A colour byte divided by 255, stretched by v·1.05 − 0.025 and clamped, lies in [0, 1]. |
| Encoder.NormalizeRegions | src/app/page.tsx:79-81 | Bytes 0..6 clamp to 0 and bytes 249..255 clamp to 1. Bytes 7..248 get the linear stretch unchanged. |
| Encoder.NormalizeMonotonic | src/app/page.tsx:79-81 | A larger byte never gives a smaller tensor value. |
| Encoder.Encoded | src/app/page.tsx:72-82 | The tensor has 3·320·320 values. Red of pixel i is at i, green at i + 320·320 and blue at i + 2·320·320. Every value lies in [0, 1]. |
| Encoder.EncodeTensor | src/app/page.tsx:72-82 | The loop fills a fresh zero-filled buffer with exactly the planar encoding of the canvas. |
| Inference.TrialOrder | src/app/page.tsx:90-108 | The names tried are "input.1", "input" and "data", then the first declared input name if there is one. |
| Inference.FirstAccepted | src/app/page.tsx:90-105 | Every name before the returned position is rejected. The name at that position, if any, is accepted. |
| Inference.Attempted | src/app/page.tsx:90-108 | The names actually tried are a non-empty prefix of the trial order. Every name before the last one tried was rejected. If the last one was rejected too, the whole trial order was tried. |
| Inference.Fallback | src/app/page.tsx:89-111 | A NoInputName failure happens only when the model declares no input. When it declares one, a failure is the rejection of that fourth run, carrying the engine's reason. The cascade never fails with NoOutputs. |
| Inference.FallbackSucceedsIff | src/app/page.tsx:89-111 | The cascade succeeds exactly when some name in the trial order is accepted. It fails exactly when all of them are rejected. |
| Inference.CascadeStopsAtFirstSuccess | src/app/page.tsx:89-111 | The chain stops at the first success. The cascade succeeds exactly when the last name tried was accepted, and its result is then that run's outputs. When it fails, every name of the trial order was tried. |
| Inference.ThirdCandidateWins | src/app/page.tsx:91-97 | When "input.1" and "input" are rejected and "data" is accepted, exactly those three are tried and the result is the "data" run's outputs. |
| Inference.FirstCandidateWins | src/app/page.tsx:90-91 | When "input.1" is accepted, nothing else is tried. |
| Inference.SecondCandidateWins | src/app/page.tsx:91-94 | When "input.1" is rejected and "input" accepted, exactly those two are tried and the result is the "input" run's outputs. |
| Inference.DeclaredNameIsLastResort | src/app/page.tsx:98-108 | After three rejections: with no declared name the error is NoInputName and only the three candidates were tried. With a declared name, that name is tried fourth, and its run is the result if it is accepted. |
| Inference.RunWithFallback | src/app/page.tsx:89-111 | The nested try/catch cascade returns the cascade's result and records exactly the names it tried. |
| Inference.PickOutput | src/app/page.tsx:115-127 | With at least one output, the mask is the data of the first output. With none, the error is "No model outputs found.". |
| Inference.Describe | src/app/page.tsx:105-123 | The message each cascade or output failure carries: "Could not determine model input name. Please check the model file." for a missing input name (line 107), the engine's own reason for a rejected fourth run (line 105), and "No model outputs found." for a run without outputs (line 123). |
| Refiner.NeighbourIndex | src/app/page.tsx:140-144 | The k-th neighbour visited, with dy outer and dx inner, is inside the plane, and position 4 is the centre. |
| Refiner.Neighbours | src/app/page.tsx:139-144 | The nine gathered values are the mask at the neighbour positions, with the centre at position 4. |
| Refiner.Weight | src/app/page.tsx:151 | A neighbour's weight exp(−5·abs(n − centre)) is positive, and is 1 for a neighbour equal to the centre. |
| Refiner.WeightedSum | src/app/page.tsx:147-154 | The forEach accumulation of neighbour times weight, left to right from 0. `Refiner.WeightedSumBounds` proves it lies between lo and hi times the total weight whenever every neighbour lies in [lo, hi]. |
| Refiner.WeightedSumBounds | src/app/page.tsx:147-156 | With positive weights, neighbours within [lo, hi] give a weighted sum within [lo·total, hi·total]. |
| Refiner.TotalWeight | src/app/page.tsx:147-154 | The total weight is non-negative, and at least 1 once the centre is among the values, so the division cannot be by zero. |
| Refiner.EdgeWeightedMean | src/app/page.tsx:146-156 | The weighted mean lies between the least and the greatest neighbour. |
| Refiner.MeanBounds | src/app/page.tsx:146-156 | Any bounds on the neighbours also bound their weighted mean, and the total weight is positive. |
| Refiner.SmoothedCell | src/app/page.tsx:130-158 | A border cell of the smoothed buffer is 0: it keeps the value of the fresh buffer. |
| Refiner.Smoothed | src/app/page.tsx:130-158 | The buffer after the smoothing pass: on interior cells the edge-weighted mean of the raw 3x3 neighbourhood (`Refiner.SmoothedAt`), on the one-cell border the 0 of the fresh Float32Array (`Refiner.SmoothedCell`). Only raw mask values are read (`Refiner.SmoothingIsLocal`). |
| Refiner.Sigmoid | src/app/page.tsx:164 | 1 / (1 + exp(−12·(v − 0.5))) lies strictly between 0 and 1, and maps 0.5 to 0.5. |
| Refiner.Refined | src/app/page.tsx:130-165 | Every refined value lies strictly in (0, 1). Every border cell is Sigmoid(0), whatever the raw mask. |
| Refiner.SmoothingIsLocal | src/app/page.tsx:133-157 | A smoothed interior cell depends only on its nine raw neighbours. |
| Refiner.SmoothingKeepsRange | src/app/page.tsx:133-157 | Raw values within [lo, hi] stay within [lo, hi] on the interior after smoothing. |
| Refiner.UniformMask | src/app/page.tsx:130-165 | A uniform raw mask v is refined to Sigmoid(v) on the interior and to Sigmoid(0) on the border. |
| Refiner.MidpointMask | src/app/page.tsx:130-165 | An all-0.5 raw mask stays 0.5 on the whole interior. |
| Refiner.CollectNeighbours | src/app/page.tsx:139-144 | The two nested neighbourhood loops produce exactly the nine neighbours. |
| Refiner.AccumulateMean | src/app/page.tsx:147-156 | The accumulation loop and the final quotient give the edge-weighted mean. |
| Refiner.SmoothCell | src/app/page.tsx:135-156 | The loop body for interior cell (x, y) computes that cell of the smoothed buffer. |
| Refiner.SmoothedAt | src/app/page.tsx:135-156 | Interior cell (x, y) of the smoothed buffer is the edge-weighted mean of its nine raw neighbours, centred on the raw value at (x, y). |
| Refiner.SmoothMask | src/app/page.tsx:130-158 | The smoothing loops turn a fresh zero-filled buffer into exactly the smoothed buffer. |
| Refiner.SigmoidPass | src/app/page.tsx:160-165 | The in-place pass replaces every cell, border included, by its sigmoid. |
| Base.Round | src/app/page.tsx:212 | Math.round on reals: the result is within half a unit of its argument, and half-way cases round up. |
| Compositor.MaskCoord | src/app/page.tsx:187-188 | The mapped coordinate (p / extent)·(size − 1) lies in [0, size − 1). |
| Compositor.SampleAt | src/app/page.tsx:187-197 | Both floors lie in [0, 318], so the clamp min(x1 + 1, 319) never binds. The offsets lie in [0, 1), and floor plus offset gives back the mapped coordinate. |
| Compositor.Lerp | src/app/page.tsx:206-208 | a + (b − a)·t, the interpolation step of lines 206-208: a at t = 0 and b at t = 1. |
| Compositor.Bilinear | src/app/page.tsx:205-208 | Interpolation along x on the top and bottom rows, then along y between them. Each corner is returned exactly at its own offsets: tl at (0, 0), tr at (1, 0), bl at (0, 1) and br at (1, 1). |
| Compositor.BilinearIsConvex | src/app/page.tsx:205-208 | The two-step interpolation is the convex combination of the four corners, so it lies between the least and the greatest corner. |
| Compositor.AlphaWithinMaskRange | src/app/page.tsx:184-208 | The interpolated alpha never leaves the range of the mask. |
| Compositor.InterpolatedAlpha | src/app/page.tsx:187-208 | The alpha for destination pixel (x, y): the refined mask sampled bilinearly at the four cells around the point the pixel maps to (`Compositor.SampleAt`). `Compositor.AlphaWithinMaskRange` keeps it within the mask's range, and `Compositor.AlignedPixelIsExact` makes it exact on grid points. |
| Compositor.AlignedPixelIsExact | src/app/page.tsx:187-208 | A pixel that maps exactly onto a mask grid point takes that cell's value unblended. |
| Compositor.AlphaByte | src/app/page.tsx:212 | round(max(0, min(255, 255·a))) is round(255·a) for a in [0, 1], 255 at or above 1, and 0 at or below 0. |
| Compositor.Composited | src/app/page.tsx:184-214 | The image buffer after compositing: byte 4p + 3 of pixel p holds AlphaByte of the interpolated alpha at that pixel's column and row (`Compositor.CompositedWritesAlpha`). Every other byte is the original's (`Compositor.CompositedKeepsColour`). |
| Compositor.CompositedKeepsColour | src/app/page.tsx:179-214 | Compositing keeps the buffer's size and every red, green and blue byte. |
| Compositor.CompositedWritesAlpha | src/app/page.tsx:211-212 | Byte 4·(y·width + x) + 3 becomes the alpha byte of the interpolated value at (x, y). |
| Compositor.UniformMaskAlpha | src/app/page.tsx:184-214 | A uniform mask v gives every pixel the alpha byte of v: 255 for a mask of 1 and 0 for a mask of 0. |
| Compositor.Composite | src/app/page.tsx:184-214 | The two compositing loops change the image buffer into exactly the composited image. |
| Compositor.CompositeRow | src/app/page.tsx:185-213 | The inner loop writes the alpha of every pixel of one row and nothing else. |
| Compositor.WriteAlpha | src/app/page.tsx:211-212 | One loop step writes pixel (x, y)'s alpha at pixelIdx + 3. |
| Pipeline.Surface | src/app/page.tsx:223-226 | The rethrown message is never empty. It is the caught message whenever that message is non-empty. |
| Pipeline.Reach | src/app/page.tsx:40-127 | Each stage is characterised by an if-and-only-if. The routine stops at the load step exactly when loading failed. It stops at the cascade exactly when the cascade fails on the encoded canvas. It stops at the output pick exactly when the accepted run has no outputs. It obtains a mask exactly when the run has outputs, and the mask is then the first output's data. |
| Pipeline.Caught | src/app/page.tsx:223-226 | The rethrown message is never empty. A load failure gives the classified load message. A missing input name gives "Could not determine model input name. Please check the model file.". A rejected fourth run gives the engine's reason, or the generic message when the reason is empty. A run without outputs gives "No model outputs found.". |
| Pipeline.Outcome | src/app/page.tsx:40-226 | The routine succeeds exactly when a mask was obtained, and then returns the original composited with the refined mask. A failure carries the message the catch block rethrows for that stage (`Pipeline.Caught`), which is never empty. |
| Pipeline.Progress | src/app/page.tsx:41-219 | The progress reported is a non-empty prefix of the milestones 10, 25, 35, 45, 60, 80, 90, 100, starting at 10. |
| Pipeline.ProgressIsMonotone | src/app/page.tsx:41-219 | Progress strictly increases and stays within [0, 100]. It reaches 100 exactly when the routine succeeds. |
| Pipeline.ProgressOrdered | src/app/page.tsx:41-219 | The progress of every stage increases strictly, stays within [10, 100], and ends at 100 exactly when a mask was obtained. |
| Pipeline.LoadFailureSurfaces | src/app/page.tsx:27-33 | A load failure ends the routine with the classified load message, unchanged. |
| Pipeline.SilentEngineFailure | src/app/page.tsx:223-226 | For a model that declares an input name, when the engine rejects every binding with an empty reason, the routine fails with "Failed to remove background. Please try again.". |
| Pipeline.NoInputNameSurfaces | src/app/page.tsx:98-108 | A model that declares no input and rejects all three candidates ends the routine with "Could not determine model input name. Please check the model file.". |
| Pipeline.EngineReasonSurfaces | src/app/page.tsx:102-105 | When the declared name is rejected as well, the routine rethrows the engine's reason, or the generic message if that reason is empty. |
| Pipeline.NoOutputsSurfaces | src/app/page.tsx:117-124 | An accepted run with no outputs ends the routine with "No model outputs found.". |
| Pipeline.SuccessKeepsColour | src/app/page.tsx:179-221 | A successful result keeps the original's size and colour bytes. Its alpha comes from the refined first output of the accepted run. |
| Pipeline.RefineMask | src/app/page.tsx:129-165 | The two passes produce exactly the refined mask, in a fresh buffer. |
| Pipeline.ApplyMask | src/app/page.tsx:179-217 | Copying the original and compositing into the copy gives exactly the composited image. |
| Pipeline.RunStages | src/app/page.tsx:40-124 | The stages up to the raw mask reach exactly the stage `Reach` describes, with the progress reported so far. |
| Pipeline.RemoveBackground | src/app/page.tsx:39-227 | The routine's result is the `Outcome` of the stage reached, and the progress it reports is `Progress` of that stage. |
| Pipeline.MidpointScenario | src/app/page.tsx:130-214 | For a 2x2 image and an all-0.5 model output, pixel (1, 1) gets alpha 128 and pixel (0, 0) gets the alpha of Sigmoid(0). The colour bytes are unchanged. |

## Left out

- The ONNX runtime: dynamic import, session creation, the "wasm" backend and tensor objects. The
  engine is a parameter.
- The DOM canvases: drawing, resizing and smoothing the image onto the 320x320 canvas, `getImageData`,
  `putImageData` and `toDataURL`. The model takes the 320x320 canvas pixels and the original image's
  pixels as inputs, and returns the composited pixel buffer instead of a data URL.
- The lazy, module-level session cache (`if (!session)`) and the asynchronous interleaving of calls.
  The routine receives the outcome of loading: the session, or the message of the failure.
- IEEE-754 behaviour: Float32Array rounding, the exactness of `Math.exp` and the rounding of the
  division and multiplications. Values are real numbers, and `Math.exp` is only assumed positive with
  exp(0) = 1.
- `Math.round` of a value outside [0, 255]. This cannot arise, because the argument is clamped first.
- An error whose `message` is undefined. In the loader, `includes` would then throw a TypeError of
  its own. The model's messages are always strings.
- The size of the output tensor. The model assumes that the data of every output holds exactly
  320·320 values, so the mask plane is a type. The code reads `output.data` without checking its
  length: a shorter buffer would give `undefined`, then NaN, and then alpha 0 where it falls short.
- The enumeration order of `Object.keys` on the engine's result. The engine returns its outputs as a
  sequence, and "first" means first in that sequence.
- Console logging, the React component state, the menu, and the rest of the landing page.
- `Refiner.SmoothedCell`: its contract says only that border cells are 0. The value on interior cells
  is stated by `Refiner.SmoothedAt` and `Refiner.SmoothingKeepsRange`.

## Notes on the code

- The smoothing pass writes into a fresh zero-filled buffer and visits interior cells only. The
  one-cell border therefore stays 0, and after the sigmoid it holds Sigmoid(0), about 0.0025, whatever
  the model produced. It is not passed through from the raw mask. This model follows the code. As a
  result, an all-0.5 model output does not give alpha 128 at every pixel. Pixels that map onto border
  cells alone, such as pixel (0, 0), get the alpha of Sigmoid(0) (`Pipeline.MidpointScenario`).
  Pixels whose bilinear sample only touches the border are pulled toward Sigmoid(0), in proportion to
  the bilinear weight of the border corners.
- The upload size check rejects only sizes above 10·1024·1024 bytes, so a file of exactly 10 MiB is
  accepted, although the message says "less than 10MB" (`Upload.SizeBoundary`).
