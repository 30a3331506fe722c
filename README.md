# Image processing system, modelled in Dafny

The model covers the core of the C++ class `ImageProcessingSystem` (`main.cpp`). That core is five commands:

- `loadImage` reads a plain PGM (`P2`) file into the image fields.
- `loadVolume` loads the frames `base01.pgm`, `base02.pgm`, … and pads every one of them to the largest width and height.
- `infoImage` and `infoVolume` report whether an image or a volume is in memory.
- `projection2D` collapses the volume along `z`, `y` or `x` with the criterion `max`, `min`, `prom` (mean) or `med` (median), and writes the result as a PGM file.

The project has five modules.

- `Streams` (`streams.dfy`) covers the C++ stream operations the commands use, written as functions on the text still unread:
  - `>>` into a `string`, into an `int` (with the C++11 rule that a failed extraction stores 0 and an exhausted stream stores nothing), `getline` and `<<`.
- `Pgm` (`pgm.dfy`) covers the file format:
  - the two-state header scan of `loadImage`, its validation and its sample loop, as the function `Parse`;
  - the text `projection2D` writes, as `Serialize` and as the method `Write` with the loops of the source;
  - the lemmas that connect the two.
- `Reductions` (`reductions.dfy`) covers `max_element`, `min_element`, `accumulate` divided with C++ truncation, and the median after `sort`, with their bounds and their independence from order.
- `Session` (`session.dfy`) holds the fields of the class as a value (`State`). Every command is a function from the fields before to the fields after, plus a status saying where the command returned. Beside each function sit the lemmas stating what the command promises, and what it does not.
- `System` (`system.dfy`) is the class `ImageProcessingSystem`. Its fields are those of the source, and its methods contain the loops of the source:
  - the header loop and the nested sample loop of `loadImage`;
  - the frame loop and the padding loops of `loadVolume`;
  - the cell loops and the ray loop of `projection2D`.

  Each method is proved to leave exactly the fields, and return exactly the status, that the matching `Session` function gives. The predicates `HasImage` and `HasVolume` are `infoImage` and `infoVolume`: what they report is `Session.ImageReported` and `Session.VolumeReported`, which `ImageReportAfterLoad` and `VolumeReportAfterLoad` relate to the loads.

Files are a map from names to texts; a name missing from the map is a file that cannot be opened. Whether the output file of `projection2D` can be created is a boolean parameter. A written projection is returned as its file name and text.

The C++ code has undefined behaviour in three places: a `vector` index out of range, `max_element` or `min_element` of an empty range, and a division by zero. The model turns each into the status `ProjectionUndefined` or `VolumeUndefined` and claims nothing beyond that point. A `vector` constructed with a negative size throws `length_error`; the model turns that into `VolumeAborted` or `ProjectionAborted`.

### Behaviour of the code worth knowing

In six places the code behaves in ways a caller may not expect. The model follows the code, and the lemmas named state each behaviour.

1. **`loadImage` is not atomic.** Before any check of the values can fail, the header loop has already overwritten `width`, `height` and `maxPixelValue`. A corrupt body has also already overwritten `imageData`. Only the name is kept. See `LoadImageHeader` and `ImageReportAfterLoad`.
2. **Width and height must share one line.** Width alone on the first significant line leaves the height at -1, and the file is rejected (`SplitDimensionsRejected`).
3. **Some significant lines are passed over like comments.** While the width is still -1, the scan reads on past two kinds of significant line, because neither sets the width:
   - a line of blanks (`BlankLinePassedOver`);
   - a line whose first number is -1. Such a line does set the height from a second number, so a line `-1 7` followed by a line `5` gives a 5 by 7 header (`MinusOneLinePassedOver`, `HeightBeforeWidth`).

   `HeaderLayout` is skipped lines, the size line, skipped lines, then the maximum line and a newline. Its converse, `AcceptedHeaderLayout`, shows that an accepted header differs from that form in three ways only:
   - The lines before the size line may also be lines of the two kinds above.
   - The maximum line may end the text with no newline after it. For example, `P2\n1 1\n5` passes the header checks. The load then fails as corrupt, with the grid all 0 (`HeaderAtEndCorrupt`).
   - The scan reads whatever follows `P2` on its line, so the size may share the magic line (`SizeOnMagicLine`). Blanks before `P2` are skipped by `>>` and change nothing (`LeadingBlanksIgnored`).
4. **`maxPixelValue` comes from the last frame**, and it is not checked against the other frames (`AllFramesLoad`).
5. **The volume load is not all-or-nothing.**
   - `volumeData` is emptied before the first frame is opened.
   - After a frame, the code tests only whether some image name is recorded. So once any image has been loaded, a missing or corrupt frame goes unnoticed, and the image left in memory is used in its place (`MissingOnlyFirst`, `StaleImageReused`).
   - Whatever the frames hold, a complete load pads into the volume the image field that frame k's load left, and its size is the largest width and height among the states those loads left (`LoadedVolumeShape`).
   - The label `volume` is never assigned.
6. **An unknown criterion is not always caught.** It is noticed only at the first cell. A projection with no cells is written whatever the criterion word (`EmptyResultIgnoresCriterion`).

Three more consequences of the code are proved:

- `height` and `width` are shared between the image and the volume. Loading a taller image after a volume makes a `z` projection read past the frames (`TallerImageBreaksProjection`).
- A projection may hold a sample above the `maxPixelValue` written in its header. `loadImage` then rejects the file it wrote (`ProjectionUnreadable`).
- Otherwise, the written file reads back as the projected grid (`ProjectionReadsBack`).

## Model

| member | source | states |
|---|---|---|
| Streams.ExtractExhausted | main.cpp:158 | an `int` extraction finds nothing to read exactly when only whitespace is left |
| Streams.ExtractWritten | main.cpp:429 | whatever `<< v` writes, `>>` reads back as `v` after any whitespace, when no digit follows |
| Streams.DigitsOfNat | main.cpp:429 | the decimal digits written for a number denote that number |
| Streams.GetLineOf | main.cpp:137 | `getline` returns a newline-free line whole and resumes after its newline |
| Streams.ExtractAfterSkip | main.cpp:158 | after whitespace, an optional minus sign and a run of digits, `>>` stores the number they denote and resumes after the digits |
| Streams.SkipSpaceAll | main.cpp:158 | skipping whitespace consumes everything exactly when all of it is whitespace |
| Pgm.Zeros | main.cpp:155 | `assign(height, vector<int>(width))` gives a `height` by `width` grid of zeros |
| Pgm.ReadBody | main.cpp:156-163 | the sample loop stores at most one value per cell; when it reads every cell, it stores exactly one per cell, each in [0, maxPixelValue] |
| Pgm.ReadSample | main.cpp:158-161 | one pass of the sample loop, with cells left, stores at most one value per remaining cell, and all of them in [0, maxPixelValue] when it reads them all |
| Pgm.Fill | main.cpp:155-158 | the grid after the sample loop is `height` rows of `width` cells |
| Pgm.ParseSucceeds | main.cpp:127-165 | a load succeeds iff the first word is `P2`, the header passes the checks and `height*width` samples in range follow; the image is then `height` by `width`, in range, and holds the file's samples in row-major order |
| Pgm.MagicLine | main.cpp:127-137 | a `P2` first line is accepted, and the header scan starts on the next line |
| Pgm.SkipLines | main.cpp:138 | empty lines and `#` lines leave the header scan where it was |
| Pgm.DimsLine | main.cpp:141-142 | while the width is -1, a significant line is read as the width and the height |
| Pgm.MaxLine | main.cpp:143-145 | once the width is set, the next significant line gives the maximum value and ends the scan |
| Pgm.HeaderLayout | main.cpp:134-147 | skipped lines, the size line, skipped lines and the maximum line give exactly those header values; the samples start on the next line |
| Pgm.ScanKeepsDims | main.cpp:141-146 | once the width is set, the scan changes neither the width nor the height |
| Pgm.SplitDimensionsRejected | main.cpp:141-151 | width alone on the first significant line leaves the height at -1, and the file is rejected as a bad header |
| Pgm.PassOverLines | main.cpp:137-142 | while the width is -1, lines that set no width leave the scan in its first state, with the height they set |
| Pgm.BlankLinePassedOver | main.cpp:138-142 | a line of blanks is significant, but it sets neither the width nor the height |
| Pgm.SizeOnMagicLine | main.cpp:127-142 | the text after `P2` on its line is the first line the header scan reads, and it is significant |
| Pgm.MinusOneLinePassedOver | main.cpp:138-142 | a line whose first number is -1 leaves the width at -1, and takes a second number on it as the height |
| Pgm.HeightBeforeWidth | main.cpp:137-142 | a line `-1 h` and then a line holding the width alone set both the width and the height |
| Pgm.GetLineSplit | main.cpp:137 | `getline` reads a newline-free line followed by its newline, or else the last line of the text |
| Pgm.MaxPhase | main.cpp:137-146 | once the width is set, a scan that reads a maximum consumes skipped lines, then the maximum line, and leaves the text after it |
| Pgm.SizePhase | main.cpp:137-146 | a scan that sets the width and reads a maximum consumes passed-over lines, the size line, skipped lines and the maximum line; the header is made of those lines' numbers |
| Pgm.AcceptedHeaderLayout | main.cpp:134-152 | every header that passes the checks is laid out as passed-over lines, the size line, skipped lines and the maximum line, and its values are read from those lines |
| Pgm.HeaderAtEndCorrupt | main.cpp:148-163 | a header that passes the checks and ends the text leaves the sample loop nothing to read for its first cell: the load is corrupt and the grid stays 0 |
| Pgm.LeadingBlanksIgnored | main.cpp:127-128 | whitespace before `P2` changes neither the header nor the outcome of the load |
| Pgm.FillSnoc | main.cpp:158 | extracting the next sample into cell (i, j) fills one more cell in row-major order |
| Pgm.ZerosUnfilled | main.cpp:155 | the zero grid is the grid in which no sample has been stored |
| Pgm.FillComplete | main.cpp:155-163 | a grid filled with one sample per cell holds those samples in row-major order |
| Pgm.FillInRange | main.cpp:155-163 | a grid filled with samples in [0, mx] has every cell in [0, mx] |
| Pgm.Write | main.cpp:414-432 | the writer's nested loops produce the `P2` line, the comment, the size line, the maximum value and each row followed by a newline |
| Pgm.WriteRow | main.cpp:428-430 | one row is written as each sample followed by a space |
| Pgm.BodyAppend | main.cpp:427-432 | writing rows one after another concatenates their lines |
| Pgm.CommentSkipped | main.cpp:415 | the comment line written is skipped by the header scan |
| Pgm.DimsWritten | main.cpp:417-423 | the size line written (columns, then rows) is read back as that width and height |
| Pgm.MaxWritten | main.cpp:425 | the maximum value written is read back as that value |
| Pgm.HeaderWritten | main.cpp:414-425 | the written header is read back as columns, rows and maximum value, with the samples next |
| Pgm.ReadBodyCells | main.cpp:156-162 | a written row of samples in [0, mx] is read back sample by sample, and the loop goes on after it |
| Pgm.ReadBodyCellsComplete | main.cpp:158 | the sample loop reads past a written row only when every sample of the row is in [0, mx] |
| Pgm.ReadBodyWrittenOutside | main.cpp:158 | a written sample outside [0, mx] stops the sample loop |
| Pgm.ReadBodyRows | main.cpp:427-432 | a written body of samples in [0, mx] is read back whole as its row-major samples |
| Pgm.ReadBodyRowsComplete | main.cpp:158 | a written body is read back whole only when every sample is in [0, mx] |
| Pgm.FillFlatten | main.cpp:155-158 | filling a grid with its own row-major samples gives the grid back |
| Pgm.RoundTrip | main.cpp:414-432 | the file written for a grid of samples in range, with a header `loadImage` accepts, loads as exactly that grid, width, height and maximum value |
| Pgm.SerializedParses | main.cpp:414-432 | with an accepted header, the written file loads iff every sample is in [0, maxPixelValue]; otherwise it is rejected as corrupt |
| Reductions.Quot | main.cpp:324 | C++ `/`: the quotient truncated toward zero, with the sign of the exact quotient |
| Reductions.QuotBetween | main.cpp:324 | a truncated quotient stays between any bounds of the exact quotient |
| Reductions.Max | main.cpp:320 | `*max_element` is an element of the ray and bounds it from above |
| Reductions.Min | main.cpp:322 | `*min_element` is an element of the ray and bounds it from below |
| Reductions.ExtremesOfSameValues | main.cpp:320-322 | the extremes depend only on the values, not on their order |
| Reductions.SumBetween | main.cpp:324 | `accumulate` over n values lies between n times the smallest and n times the largest |
| Reductions.SumOfSameValues | main.cpp:324 | the sum depends only on the values, not on their order |
| Reductions.Insert | main.cpp:326 | inserting into an ascending sequence keeps it ascending and adds exactly that value |
| Reductions.SortAscending | main.cpp:326 | `sort` gives an ascending permutation of the ray |
| Reductions.SortedUnique | main.cpp:326 | two ascending permutations of the same values are equal, so the sort result is determined |
| Reductions.MedianBetween | main.cpp:326-332 | the median (middle element, or truncated mean of the two middle ones) lies between the min and the max |
| Reductions.MedianOfSameValues | main.cpp:326-332 | the median depends only on the values, not on their order |
| Reductions.ParseCriterion | main.cpp:319-336 | each of `max`, `min`, `prom`, `med` selects its own criterion, and no other word selects any |
| Reductions.Reduce | main.cpp:319-336 | a criterion is undefined exactly on an empty ray (max, min, med) or a zero divisor (prom) |
| Reductions.ReduceBetween | main.cpp:319-332 | when the divisor is the ray's length, every criterion gives a value between the ray's min and max |
| Reductions.ReduceOfSameValues | main.cpp:319-332 | a cell's value depends only on the values on its ray, not on their order |
| Session.LoadImageRefused | main.cpp:116-132 | an empty name, a file that cannot be opened or a first word other than `P2` leaves every field unchanged |
| Session.LoadImageHeader | main.cpp:134-152 | once the magic is accepted, the header fields take the scan's values; the load fails at the header iff the checks fail, keeping the image and its name |
| Session.LoadImageSucceeds | main.cpp:115-165 | loaded iff the file parses; the name is set only then; the volume never changes; the image is `height`×`width`, in range, in file order |
| Session.FrameNameDigits | main.cpp:217-219 | frame i is named base, two digits of i (zero-padded below 10), `.pgm` |
| Session.FrameNamesDistinct | main.cpp:217-219 | different frame numbers give different file names |
| Session.FrameNameNotEmpty | main.cpp:218 | a frame name is never empty |
| Session.CountChecked | main.cpp:201-204 | the load is refused for a count outside [1, 99], before any field changes |
| Session.Pad | main.cpp:245-252 | a padded frame is `maxHeight`×`maxWidth` |
| Session.PadAll | main.cpp:243-256 | one padded frame per image |
| Session.PadAllSnoc | main.cpp:255 | pushing the next padded frame extends the padded prefix by one |
| Session.FirstUnfit | main.cpp:248-250 | the index of the first image whose copy leaves the padded frame: all before it fit, and it does not |
| Session.LoadKeepsName | main.cpp:165 | `loadImage` never empties a recorded name |
| Session.NameKeepsScanning | main.cpp:225 | once a name is recorded, the frame loop never stops early |
| Session.MissingOnlyFirst | main.cpp:207-228 | a volume load stops at a missing frame only at frame 1, when no image was loaded before, leaving the volume empty |
| Session.StaleImageReused | main.cpp:215-262 | when an image is in memory and frame 1's file is missing, a one-frame load succeeds with that old image as the volume |
| Session.Frame | main.cpp:149-165 | a frame that loads has a valid header and a `height`×`width` grid |
| Session.FrameImages | main.cpp:235 | the images of frames i..count, one per frame |
| Session.FrameImagesAt | main.cpp:235 | frame k's image is at place k - i |
| Session.ScanCollects | main.cpp:215-236 | over frames that all load, the frame loop collects their images in order |
| Session.ScanWidest | main.cpp:231 | the width kept is at least every frame's width, and is one of them or the start value |
| Session.ScanTallest | main.cpp:232 | the same for the height |
| Session.ScanLeavesLast | main.cpp:222 | after the loop, `maxPixelValue` is the last frame's, and the volume fields are unchanged |
| Session.AllFramesImages | main.cpp:215-236 | loading frames 1..count that all load collects count images, frame k at place k-1 |
| Session.FramesInOrder | main.cpp:235 | the collected images are the frames' images in frame order |
| Session.AllFramesSize | main.cpp:231-232 | the maxima are the largest frame width and height, and each is reached by some frame |
| Session.AllFramesLast | main.cpp:222 | `maxPixelValue` ends as the last frame's; `volume` is never assigned |
| Session.AllFramesFit | main.cpp:243-252 | every frame's image fits in the largest size |
| Session.AllFramesLoad | main.cpp:180-263 | with all frames loading: VolumeLoaded, count frames, width and height the frame maxima, `maxPixelValue` the last frame's, `volume` unchanged |
| Session.AllFramesPadded | main.cpp:243-256 | every frame is `height`×`width`, with its image at [r][c] and 0 in the cells the image lacks |
| Session.ScanTraceImages | main.cpp:215-236 | a frame loop that reaches the last frame passed one state per frame, each with an image name, and collected each state's image field in order |
| Session.ScanTraceWidest | main.cpp:231 | whatever the frames hold, the width kept is at least every state's width and the start value, and is one of them |
| Session.ScanTraceTallest | main.cpp:232 | the same for the height |
| Session.LoadedVolumeShape | main.cpp:215-262 | whatever the frames hold, a complete load has one frame per image, each the padded image field its load left, of `height`×`width`, which are the largest height and width those loads left |
| Session.ImageReportAfterLoad | main.cpp:267-275 | after `loadImage`, an image is reported iff this load succeeded or one was reported before; a corrupt load keeps the report over new data |
| Session.ScanKeepsVolume | main.cpp:215-236 | the frame loop leaves `volumeData` as it found it and collects one image per frame |
| Session.VolumeReportAfterLoad | main.cpp:277-288 | a volume is reported after a complete load (count frames); not after a missing frame or abort; unchanged after a bad count; after a bad copy iff frames precede it |
| Session.ParseAxis | main.cpp:309-405 | `z`, `y` and `x` each select their own direction, and no other word selects any |
| Session.Ray | main.cpp:314-317 | the values collected along a ray, one per step |
| Session.CellGrid | main.cpp:310-338 | the result has `rows` rows of `cols` cells |
| Session.RowScanned | main.cpp:313-337 | the loop over a row stops at a failing cell with its status, otherwise gives every sample |
| Session.RowsScanned | main.cpp:312-338 | the loop over rows stops at a failing cell with its status, otherwise gives every row |
| Session.ProjectionScanned | main.cpp:312-338 | the cell loops finish iff every cell has a sample, and then give exactly the samples |
| Session.ProjectionRefused | main.cpp:290-405 | missing words, no volume and an unknown direction each stop the command before any output, each exactly in its own case |
| Session.SampledCells | main.cpp:319-336 | when every cell has a sample, every ray lies in the volume, the criterion is known and each sample is its ray's reduction |
| Session.CellsStop | main.cpp:316-336 | the cell loops stop only on a ray outside the volume or an unknown criterion |
| Session.UndefinedCellStops | main.cpp:316 | with a known criterion, a ray that leaves the volume makes the command undefined |
| Session.WrittenCase | main.cpp:407-432 | a written projection passed every check and ran the cell loops to the end, and its text is the serialized samples |
| Session.ProjectionWritten | main.cpp:290-436 | a written projection: the file could be created, the direction is known, and the text has columns, rows, the stored maximum and the samples |
| Session.ProjectionBetween | main.cpp:319-332 | every sample of a written projection lies between the min and max of its ray |
| Session.RaySampleInRange | main.cpp:319-332 | over a volume of samples in [0, mx], every cell's sample is in [0, mx] |
| Session.ProjectionReadsBack | main.cpp:414-432 | when the volume is in range and the header is accepted, the written file loads back as the projected grid with columns and rows as size |
| Session.UnknownCriterionStops | main.cpp:333-336 | an unknown criterion with a non-empty result stops the command before the output file |
| Session.EmptyResultIgnoresCriterion | main.cpp:310-338 | with no cells, any criterion word gets the empty projection written |
| Session.RegularVolumeProjects | main.cpp:306-400 | on a volume of uniformly sized frames, every direction and criterion gets the projection written |
| Session.TallerImageBreaksProjection | main.cpp:309-316 | after loading an image taller than the volume's frames, a `z` projection is undefined |
| Session.ProjectionUnreadable | main.cpp:425 | a projection with a sample above the stored maximum is written, and `loadImage` rejects it as corrupt |
| System.ImageProcessingSystem.constructor | main.cpp:10-16 | the fields start with no image, no name and no volume |
| System.ImageProcessingSystem.LoadImage | main.cpp:115-168 | the method leaves exactly the fields and status that `Session.LoadImage` gives |
| System.ImageProcessingSystem.ReadHeader | main.cpp:134-147 | the header loop leaves exactly the header values and remaining text of the scan |
| System.ImageProcessingSystem.ReadSamples | main.cpp:154-163 | the sample loops leave the grid filled with what the sample loop reads, and report whether all of it was read |
| System.ImageProcessingSystem.ReadRow | main.cpp:157-162 | the inner loop fills one more row, or stops with what the read stored |
| System.ImageProcessingSystem.Store | main.cpp:158 | extracting into cell (i, j) fills the next cell in row-major order |
| System.ImageProcessingSystem.LoadVolume | main.cpp:180-263 | the method leaves exactly the fields and status that `Session.LoadVolume` gives |
| System.ImageProcessingSystem.LoadFrames | main.cpp:215-236 | the frame loop stops where the scan stops, or collects the images and maxima; `volumeData` is untouched |
| System.ImageProcessingSystem.PadFrames | main.cpp:241-256 | the volume becomes the padded images up to the first that does not fit; complete iff all fit |
| System.ImageProcessingSystem.Resize | main.cpp:245-252 | the copy fits iff every row lies inside the padded frame, and then gives the padded image |
| System.ImageProcessingSystem.Projection2D | main.cpp:290-436 | the method returns exactly the status `Session.Projection` gives, and changes no field |
| System.ImageProcessingSystem.ProjectCells | main.cpp:307-400 | the cell loops give what the row-by-row scan of the cells gives |
| System.ImageProcessingSystem.RayCell | main.cpp:314-336 | the ray loop and criterion give exactly the cell's sample or fault |

### Proof helpers

These lemmas unfold one step of a definition for the proofs above, and state nothing of their own:
- `Pgm.ScanLine`: one line of the header scan, for `MaxPhase` and `SizePhase`.
- `Pgm.NextSample`, `Pgm.LastTry` and `Pgm.LastSample`: one pass of the sample loop, and its end, for the methods `ReadSamples` and `ReadRow`.
- `Session.LoadFrame` and `Session.FrameImagesCons`: one frame that parses, for `ScanCollects`, `ScanWidest` and `ScanTallest`.
- `Session.CollectedLoads`: the last step of `LoadVolume` once every image fits, for `AllFramesLoad` and `AllFramesPadded`.

## Left out

- The command loop (`start`, `handleCommand`) and `showHelp` (main.cpp:19-104) are left out: they route user input and print help text.
- `loadVolume`'s split of its argument at the first space and its `stoi` call are left out. The model takes the base name and the count already separated, because `stoi`'s parsing and its exceptions belong to the C++ library.
- `encodeImage`, `decodeFile` and `segmentImage` are left out: they only print a message.
- sistema.h is not part of this model.
- Console output is left out, since no field depends on it.
- The comment line written by `projection2D` is modelled as Dafny characters, so its `ó` is one character where the C++ writes two UTF-8 bytes. Nothing that is read back can tell the difference, because the header scan skips that line.
- Integer overflow is left out. Integers are unbounded, so the model does not capture an `int` extraction that overflows, the sum in `prom` wrapping around, or the sum of the two middle values in `med` wrapping around.
- Real files are replaced by a map from names to texts, and creating the output file by a boolean. Stream failure states inside a file are modelled only as far as `>>` and `getline` need them.
- `width`, `height` and `maxPixelValue` are indeterminate in the C++ class until first assigned; the constructor sets them to 0.
- Undefined behaviour, and the `length_error` of a negative `vector` size, are modelled as statuses. The model claims nothing about the fields once one of them is reached.
- Reductions.SortAscending: `sort` runs in place on the collected values; the model computes the ascending permutation functionally.
