/** What the commands of the image system do to its fields, as functions
    from the fields before to the fields after.  The class in system.dfy
    implements these with the loops of the original, and the lemmas here
    state what the commands promise. */
module Session {
  import opened Streams
  import opened Sequences
  import opened Pgm
  import opened Reductions

  type Image = seq<seq<int>>

  /** The fields of `ImageProcessingSystem`. */
  datatype State = State(
    imageData: Image,
    width: int,
    height: int,
    maxPixelValue: int,
    imageFilename: string,
    volume: string,
    volumeData: seq<Image>)

  /** The files the commands can open: a name maps to the file's text; a
      name without an entry is a file that cannot be opened. */
  type Files = map<string, string>

  // ------------------------------------------------------------ loadImage

  /** Where `loadImage` returns: an empty name, a file that cannot be
      opened, a first word other than `P2`, a header that fails the
      checks, a sample that cannot be read or is out of range, or a
      complete load. */
  datatype ImageStatus = ImageUsage | NotOpened | NotPgm | InvalidHeader | CorruptData | ImageLoaded

  /** `loadImage(filename)`: every field it writes before it returns. */
  function LoadImage(st: State, filename: string, files: Files): (State, ImageStatus) {
    if filename == [] then (st, ImageUsage)
    else if filename !in files then (st, NotOpened)
    else match Parse(files[filename])
      case BadMagic => (st, NotPgm)
      case BadHeader(w, h, m) =>
        (st.(width := w, height := h, maxPixelValue := m), InvalidHeader)
      case Corrupt(w, h, m, g) =>
        (st.(width := w, height := h, maxPixelValue := m, imageData := g), CorruptData)
      case Parsed(w, h, m, g) =>
        (st.(width := w, height := h, maxPixelValue := m, imageData := g, imageFilename := filename),
         ImageLoaded)
  }

  /** An empty name, a file that cannot be opened or a file whose first
      word is not `P2` leave every field as it was. */
  lemma LoadImageRefused(st: State, filename: string, files: Files)
    requires filename == [] || filename !in files || ReadWord(files[filename]).value != Magic
    ensures LoadImage(st, filename, files).0 == st
    ensures LoadImage(st, filename, files).1 in {ImageUsage, NotOpened, NotPgm}
  {
  }

  /** Once the file is open and starts with `P2`, the header fields are
      what the header scan leaves; a header that fails the checks leaves
      the image and its name as they were. */
  lemma LoadImageHeader(st: State, filename: string, files: Files)
    requires filename != [] && filename in files && ReadWord(files[filename]).value == Magic
    ensures var (s, status) := LoadImage(st, filename, files);
            var hd := HeaderOf(files[filename]);
            && s.width == hd.width && s.height == hd.height && s.maxPixelValue == hd.maxValue
            && (status == InvalidHeader <==> !ValidHeader(hd.width, hd.height, hd.maxValue))
            && (status == InvalidHeader ==> s.imageData == st.imageData && s.imageFilename == st.imageFilename)
  {
  }

  /** The load succeeds exactly when the whole image can be read; the
      image is then `height` rows of `width` samples in [0, maxPixelValue],
      holding the file's samples in row-major order, and the name is
      recorded.  The name changes on no other outcome, and the volume never. */
  lemma LoadImageSucceeds(st: State, filename: string, files: Files)
    ensures var (s, status) := LoadImage(st, filename, files);
            && (status == ImageLoaded <==> filename != [] && filename in files && Parse(files[filename]).Parsed?)
            && s.imageFilename == (if status == ImageLoaded then filename else st.imageFilename)
            && s.volumeData == st.volumeData && s.volume == st.volume
    ensures var (s, status) := LoadImage(st, filename, files);
            status == ImageLoaded ==>
              var hd := HeaderOf(files[filename]);
              && ValidHeader(s.width, s.height, s.maxPixelValue)
              && IsGrid(s.imageData, s.height, s.width)
              && InRange(s.imageData, 0, s.maxPixelValue)
              && Flatten(s.imageData) == ReadBody(hd.rest, RowStart(s.height, s.width), s.maxPixelValue).values
  {
    if filename != [] && filename in files {
      ParseSucceeds(files[filename]);
    }
  }

  // ----------------------------------------------------------- loadVolume

  /** The name of frame `i` of a volume: the base name, a `0` when `i` has
      one digit, the number, and `.pgm`. */
  function FrameName(base: string, i: int): string {
    base + (if i < 10 then "0" else "") + IntToString(i) + ".pgm"
  }

  /** Frames 1 to 99 are named by exactly two digits. */
  lemma FrameNameDigits(base: string, i: int)
    requires 1 <= i <= 99
    ensures FrameName(base, i) == base + [DigitChar(i / 10), DigitChar(i % 10)] + ".pgm"
  {
    if i >= 10 {
      assert NatToString(i) == NatToString(i / 10) + [DigitChar(i % 10)];
    }
  }

  /** Different frames of one volume are read from different files. */
  lemma FrameNamesDistinct(base: string, i: int, j: int)
    requires 1 <= i <= 99 && 1 <= j <= 99 && i != j
    ensures FrameName(base, i) != FrameName(base, j)
  {
    FrameNameDigits(base, i);
    FrameNameDigits(base, j);
    var a, b := FrameName(base, i), FrameName(base, j);
    assert a[|base|] == DigitChar(i / 10) && a[|base| + 1] == DigitChar(i % 10);
    assert b[|base|] == DigitChar(j / 10) && b[|base| + 1] == DigitChar(j % 10);
    assert i == 10 * (i / 10) + i % 10 && j == 10 * (j / 10) + j % 10;
    if i / 10 != j / 10 {
      assert DigitValue(a[|base|]) != DigitValue(b[|base|]);
    } else {
      assert DigitValue(a[|base| + 1]) != DigitValue(b[|base| + 1]);
    }
  }

  /** Where the frame loop of `loadVolume` stops: after frame `index` when
      no image name is recorded, or after the last frame, with the images
      it collected and the largest width and height it saw. */
  datatype FrameScan =
    | Missing(st: State, index: int)
    | Collected(st: State, images: seq<Image>, maxWidth: int, maxHeight: int)

  function IntMax(a: int, b: int): int {
    if a >= b then a else b
  }

  /** The frame loop from frame `i` to frame `count`: each frame is loaded
      by `loadImage`; the loop stops when the image name is empty, and
      otherwise takes the larger of the widths and heights and keeps the
      image field, whichever load left it there. */
  function ScanFrames(st: State, base: string, i: int, count: int, files: Files,
                      mw: int, mh: int, images: seq<Image>): FrameScan
    decreases count - i
  {
    if i > count then Collected(st, images, mw, mh)
    else
      var s := LoadImage(st, FrameName(base, i), files).0;
      if s.imageFilename == [] then Missing(s, i)
      else ScanFrames(s, base, i + 1, count, files, IntMax(mw, s.width), IntMax(mh, s.height),
                      images + [s.imageData])
  }

  /** An image fits in `h` rows of `w` columns when every one of its cells
      is a cell of that frame. */
  predicate Fits(img: Image, h: int, w: int) {
    forall r :: 0 <= r < |img| ==> |img[r]| == 0 || (r < h && |img[r]| <= w)
  }

  /** The frame of `h` rows of `w` columns that holds `img` in its top left
      corner and 0 everywhere else. */
  function Pad(img: Image, h: nat, w: nat): (p: Image)
    ensures IsGrid(p, h, w)
  {
    seq(h, r requires 0 <= r < h => seq(w, c requires 0 <= c < w => if r < |img| && c < |img[r]| then img[r][c] else 0))
  }

  function PadAll(images: seq<Image>, h: nat, w: nat): (v: seq<Image>)
    ensures |v| == |images|
  {
    seq(|images|, k requires 0 <= k < |images| => Pad(images[k], h, w))
  }

  /** Padding one more image adds its padded frame at the end. */
  lemma PadAllSnoc(images: seq<Image>, k: nat, h: nat, w: nat)
    requires k < |images|
    ensures PadAll(images[..k + 1], h, w) == PadAll(images[..k], h, w) + [Pad(images[k], h, w)]
  {
    assert images[..k + 1][k] == images[k];
  }

  /** The index of the first image that does not fit, or the number of
      images when all of them fit. */
  function FirstUnfit(images: seq<Image>, h: int, w: int): (k: nat)
    ensures k <= |images|
    ensures forall j :: 0 <= j < k ==> Fits(images[j], h, w)
    ensures k < |images| ==> !Fits(images[k], h, w)
  {
    if images == [] || !Fits(images[0], h, w) then 0
    else 1 + FirstUnfit(images[1..], h, w)
  }

  /** Where `loadVolume` returns: a count outside [1, 99], a frame whose
      load left no image name, a negative size for the padded frames (the
      `vector` constructor throws), a copy into a cell outside the padded
      frame (undefined behaviour, which the model stops at), or a complete
      load. */
  datatype VolumeStatus = CountOutOfRange | FrameMissing(index: int) | VolumeAborted | VolumeUndefined | VolumeLoaded

  /** `loadVolume` for the base name and the image count already split off
      its argument. */
  function LoadVolume(st: State, base: string, count: int, files: Files): (State, VolumeStatus) {
    if count < 1 || count > 99 then (st, CountOutOfRange)
    else match ScanFrames(st.(volumeData := []), base, 1, count, files, -1, -1, [])
      case Missing(s, i) => (s, FrameMissing(i))
      case Collected(s, images, mw, mh) =>
        if mh < 0 || mw < 0 then (s, VolumeAborted)
        else
          var k := FirstUnfit(images, mh, mw);
          if k < |images| then (s.(volumeData := PadAll(images[..k], mh, mw)), VolumeUndefined)
          else (s.(volumeData := PadAll(images, mh, mw), height := mh, width := mw), VolumeLoaded)
  }

  /** The command refuses a count outside [1, 99] before it opens any file
      or empties the volume. */
  lemma CountChecked(st: State, base: string, count: int, files: Files)
    ensures LoadVolume(st, base, count, files).1 == CountOutOfRange <==> count < 1 || count > 99
    ensures count < 1 || count > 99 ==> LoadVolume(st, base, count, files).0 == st
  {
    if 1 <= count <= 99 {
      var sc := ScanFrames(st.(volumeData := []), base, 1, count, files, -1, -1, []);
      assert !sc.Missing? ==> LoadVolume(st, base, count, files).1 != CountOutOfRange;
    }
  }

  lemma FrameNameNotEmpty(base: string, i: int)
    ensures FrameName(base, i) != []
  {
    assert |FrameName(base, i)| >= |".pgm"|;
  }

  /** `loadImage` never empties the image name: it keeps it or records a
      new, non-empty one. */
  lemma LoadKeepsName(st: State, filename: string, files: Files)
    requires st.imageFilename != []
    ensures LoadImage(st, filename, files).0.imageFilename != []
  {
  }

  /** Once an image name is recorded, the frame loop never stops early. */
  lemma {:induction false} NameKeepsScanning(st: State, base: string, i: int, count: int, files: Files,
                                             mw: int, mh: int, images: seq<Image>)
    requires st.imageFilename != []
    ensures ScanFrames(st, base, i, count, files, mw, mh, images).Collected?
    decreases count - i
  {
    if i <= count {
      var s := LoadImage(st, FrameName(base, i), files).0;
      LoadKeepsName(st, FrameName(base, i), files);
      NameKeepsScanning(s, base, i + 1, count, files, IntMax(mw, s.width), IntMax(mh, s.height),
                        images + [s.imageData]);
    }
  }

  /** The test after each frame only sees whether some image was ever
      loaded: a volume load can stop at a missing frame only at the first
      frame, and only when no image had been loaded before. */
  lemma MissingOnlyFirst(st: State, base: string, count: int, files: Files)
    requires LoadVolume(st, base, count, files).1.FrameMissing?
    ensures LoadVolume(st, base, count, files).1 == FrameMissing(1)
    ensures st.imageFilename == []
    ensures LoadVolume(st, base, count, files).0.volumeData == []
  {
    var st0 := st.(volumeData := []);
    var s := LoadImage(st0, FrameName(base, 1), files).0;
    FrameNameNotEmpty(base, 1);
    if s.imageFilename != [] {
      assert ScanFrames(st0, base, 1, count, files, -1, -1, [])
          == ScanFrames(s, base, 2, count, files, IntMax(-1, s.width), IntMax(-1, s.height), [] + [s.imageData]);
      NameKeepsScanning(s, base, 2, count, files, IntMax(-1, s.width), IntMax(-1, s.height), [] + [s.imageData]);
    }
  }

  /** A frame that cannot be loaded goes unnoticed once an image is in
      memory: with one frame whose file is missing, the volume becomes the
      image loaded before, padded to its own size. */
  lemma StaleImageReused(st: State, base: string, files: Files)
    requires st.imageFilename != [] && FrameName(base, 1) !in files
    requires st.width >= 0 && st.height >= 0 && IsGrid(st.imageData, st.height, st.width)
    ensures LoadVolume(st, base, 1, files) == (st.(volumeData := [st.imageData]), VolumeLoaded)
  {
    FrameNameNotEmpty(base, 1);
    var st0 := st.(volumeData := []);
    var images := [st.imageData];
    assert LoadImage(st0, FrameName(base, 1), files).0 == st0;
    assert ScanFrames(st0, base, 1, 1, files, -1, -1, [])
        == ScanFrames(st0, base, 2, 1, files, IntMax(-1, st.width), IntMax(-1, st.height), [] + [st.imageData]);
    assert [] + [st.imageData] == images;
    assert FirstUnfit(images, st.height, st.width) == 1 by {
      assert Fits(st.imageData, st.height, st.width);
    }
    var p := Pad(st.imageData, st.height, st.width);
    forall r | 0 <= r < st.height
      ensures p[r] == st.imageData[r]
    {
    }
    assert p == st.imageData;
    assert PadAll(images, st.height, st.width) == images;
  }

  // ----------------------------------------- a volume whose frames all load

  predicate FrameParses(files: Files, base: string, i: int) {
    FrameName(base, i) in files && Parse(files[FrameName(base, i)]).Parsed?
  }

  /** The image frame `i` holds. */
  function Frame(files: Files, base: string, i: int): (p: ParseOutcome)
    requires FrameParses(files, base, i)
    ensures p.Parsed? && ValidHeader(p.width, p.height, p.maxValue) && IsGrid(p.data, p.height, p.width)
  {
    ParseSucceeds(files[FrameName(base, i)]);
    Parse(files[FrameName(base, i)])
  }

  lemma LoadFrame(st: State, base: string, i: int, files: Files)
    requires FrameParses(files, base, i)
    ensures var p := Frame(files, base, i);
            LoadImage(st, FrameName(base, i), files).0
              == st.(width := p.width, height := p.height, maxPixelValue := p.maxValue,
                     imageData := p.data, imageFilename := FrameName(base, i))
  {
    FrameNameNotEmpty(base, i);
  }

  /** `f(i)`, `f(i + 1)`, ..., `f(count)`. */
  function Gather<T>(f: int -> T, i: int, count: int): (v: seq<T>)
    ensures i <= count + 1 ==> |v| == count + 1 - i
    decreases count - i
  {
    if i > count then [] else [f(i)] + Gather(f, i + 1, count)
  }

  lemma {:induction false} GatherAt<T>(f: int -> T, i: int, count: int, k: int)
    requires i <= k <= count
    ensures Gather(f, i, count)[k - i] == f(k)
    decreases k - i
  {
    if k > i {
      GatherAt(f, i + 1, count, k);
    }
  }

  /** The image of frame `k` when it loads. */
  function FrameImage(files: Files, base: string): (f: int -> Image)
    ensures forall k :: FrameParses(files, base, k) ==> f(k) == Frame(files, base, k).data
  {
    k => if FrameParses(files, base, k) then Frame(files, base, k).data else []
  }

  /** The images of frames `i` to `count`, in order. */
  function FrameImages(files: Files, base: string, i: int, count: int): (v: seq<Image>)
    ensures i <= count + 1 ==> |v| == count + 1 - i
  {
    Gather(FrameImage(files, base), i, count)
  }

  lemma FrameImagesCons(files: Files, base: string, i: int, count: int)
    requires i <= count && FrameParses(files, base, i)
    ensures FrameImages(files, base, i, count) == [Frame(files, base, i).data] + FrameImages(files, base, i + 1, count)
  {
  }

  /** Frame `k`'s image sits at place `k - i` among them. */
  lemma FrameImagesAt(files: Files, base: string, i: int, count: int, k: int)
    requires FrameParses(files, base, k)
    requires i <= k <= count
    ensures FrameImages(files, base, i, count)[k - i] == Frame(files, base, k).data
  {
    GatherAt(FrameImage(files, base), i, count, k);
  }

  /** The frame loop over frames that all load collects their images, in
      order. */
  lemma {:induction false} ScanCollects(st: State, base: string, i: int, count: int, files: Files,
                                        mw: int, mh: int, images: seq<Image>)
    requires forall k :: i <= k <= count ==> FrameParses(files, base, k)
    ensures var r := ScanFrames(st, base, i, count, files, mw, mh, images);
            r.Collected? && r.images == images + FrameImages(files, base, i, count)
    decreases count - i
  {
    if i <= count {
      LoadFrame(st, base, i, files);
      var s := LoadImage(st, FrameName(base, i), files).0;
      var d := [s.imageData];
      ScanCollects(s, base, i + 1, count, files, IntMax(mw, s.width), IntMax(mh, s.height), images + d);
      FrameImagesCons(files, base, i, count);
      var rest := FrameImages(files, base, i + 1, count);
      Assoc(images, d, rest);
    }
  }

  /** ... and takes as width the largest width among them, ... */
  lemma ScanWidest(st: State, base: string, i: int, count: int, files: Files,
                   mw: int, mh: int, images: seq<Image>)
    requires forall k :: i <= k <= count ==> FrameParses(files, base, k)
    ensures var r := ScanFrames(st, base, i, count, files, mw, mh, images);
            && r.Collected?
            && mw <= r.maxWidth
            && (forall k :: i <= k <= count ==> Frame(files, base, k).width <= r.maxWidth)
            && (r.maxWidth == mw || exists k :: i <= k <= count && Frame(files, base, k).width == r.maxWidth)
  {
    ScanCollects(st, base, i, count, files, mw, mh, images);
    ScanTraceWidest(st, base, i, count, files, mw, mh, images);
    FrameStatesParsed(st, base, i, count, files);
    var r := ScanFrames(st, base, i, count, files, mw, mh, images);
    var fs := FrameStates(st, base, i, count, files);
    if r.maxWidth != mw {
      var j :| 0 <= j < |fs| && fs[j].width == r.maxWidth;
      assert Frame(files, base, i + j).width == r.maxWidth;
    }
  }

  /** ... and as height the largest height among them. */
  lemma ScanTallest(st: State, base: string, i: int, count: int, files: Files,
                    mw: int, mh: int, images: seq<Image>)
    requires forall k :: i <= k <= count ==> FrameParses(files, base, k)
    ensures var r := ScanFrames(st, base, i, count, files, mw, mh, images);
            && r.Collected?
            && mh <= r.maxHeight
            && (forall k :: i <= k <= count ==> Frame(files, base, k).height <= r.maxHeight)
            && (r.maxHeight == mh || exists k :: i <= k <= count && Frame(files, base, k).height == r.maxHeight)
  {
    ScanCollects(st, base, i, count, files, mw, mh, images);
    ScanTraceTallest(st, base, i, count, files, mw, mh, images);
    FrameStatesParsed(st, base, i, count, files);
    var r := ScanFrames(st, base, i, count, files, mw, mh, images);
    var fs := FrameStates(st, base, i, count, files);
    if r.maxHeight != mh {
      var j :| 0 <= j < |fs| && fs[j].height == r.maxHeight;
      assert Frame(files, base, i + j).height == r.maxHeight;
    }
  }

  /** ... and leaves the header fields of the last of them, and the volume
      as it was. */
  lemma {:induction false} ScanLeavesLast(st: State, base: string, i: int, count: int, files: Files,
                                          mw: int, mh: int, images: seq<Image>)
    requires i <= count
    requires forall k :: i <= k <= count ==> FrameParses(files, base, k)
    ensures var r := ScanFrames(st, base, i, count, files, mw, mh, images);
            && r.Collected?
            && r.st.maxPixelValue == Frame(files, base, count).maxValue
            && r.st.volumeData == st.volumeData && r.st.volume == st.volume
    decreases count - i
  {
    LoadFrame(st, base, i, files);
    var s := LoadImage(st, FrameName(base, i), files).0;
    if i < count {
      ScanLeavesLast(s, base, i + 1, count, files, IntMax(mw, s.width), IntMax(mh, s.height), images + [s.imageData]);
    }
  }

  /** When the frame loop collects images that all fit in the largest
      size it saw, the volume is those images padded to that size. */
  lemma CollectedLoads(st: State, base: string, count: int, files: Files)
    requires 1 <= count <= 99
    requires var sc := ScanFrames(st.(volumeData := []), base, 1, count, files, -1, -1, []);
             && sc.Collected? && sc.maxWidth >= 0 && sc.maxHeight >= 0
             && forall k :: 0 <= k < |sc.images| ==> Fits(sc.images[k], sc.maxHeight, sc.maxWidth)
    ensures var sc := ScanFrames(st.(volumeData := []), base, 1, count, files, -1, -1, []);
            LoadVolume(st, base, count, files)
              == (sc.st.(volumeData := PadAll(sc.images, sc.maxHeight, sc.maxWidth),
                         height := sc.maxHeight, width := sc.maxWidth), VolumeLoaded)
  {
    var sc := ScanFrames(st.(volumeData := []), base, 1, count, files, -1, -1, []);
    assert FirstUnfit(sc.images, sc.maxHeight, sc.maxWidth) == |sc.images|;
  }

  /** The frame loop over frames that all load, from the first, collects
      their images in order, ... */
  lemma AllFramesImages(st: State, base: string, count: int, files: Files)
    requires 1 <= count <= 99
    requires forall k :: 1 <= k <= count ==> FrameParses(files, base, k)
    ensures var sc := ScanFrames(st.(volumeData := []), base, 1, count, files, -1, -1, []);
            && sc.Collected? && |sc.images| == count
            && forall k :: 1 <= k <= count ==> sc.images[k - 1] == Frame(files, base, k).data
  {
    var st0 := st.(volumeData := []);
    ScanCollects(st0, base, 1, count, files, -1, -1, []);
    var sc := ScanFrames(st0, base, 1, count, files, -1, -1, []);
    FramesInOrder(sc.images, files, base, count);
  }

  lemma FramesInOrder(images: seq<Image>, files: Files, base: string, count: int)
    requires 1 <= count
    requires forall k :: 1 <= k <= count ==> FrameParses(files, base, k)
    requires images == [] + FrameImages(files, base, 1, count)
    ensures |images| == count
    ensures forall k :: 1 <= k <= count ==> images[k - 1] == Frame(files, base, k).data
  {
    Unit(FrameImages(files, base, 1, count));
    forall k | 1 <= k <= count
      ensures images[k - 1] == Frame(files, base, k).data
    {
      FrameImagesAt(files, base, 1, count, k);
    }
  }

  /** ... finds as size the largest width and height among them, ... */
  lemma AllFramesSize(st: State, base: string, count: int, files: Files)
    requires 1 <= count <= 99
    requires forall k :: 1 <= k <= count ==> FrameParses(files, base, k)
    ensures var sc := ScanFrames(st.(volumeData := []), base, 1, count, files, -1, -1, []);
            && sc.Collected?
            && (forall k :: 1 <= k <= count ==> Frame(files, base, k).width <= sc.maxWidth)
            && (forall k :: 1 <= k <= count ==> Frame(files, base, k).height <= sc.maxHeight)
            && (exists k :: 1 <= k <= count && Frame(files, base, k).width == sc.maxWidth)
            && (exists k :: 1 <= k <= count && Frame(files, base, k).height == sc.maxHeight)
  {
    var st0 := st.(volumeData := []);
    ScanWidest(st0, base, 1, count, files, -1, -1, []);
    ScanTallest(st0, base, 1, count, files, -1, -1, []);
    var sc := ScanFrames(st0, base, 1, count, files, -1, -1, []);
    assert Frame(files, base, 1).width <= sc.maxWidth;
    assert Frame(files, base, 1).height <= sc.maxHeight;
  }

  /** ... and leaves the maximum sample value of the last frame. */
  lemma AllFramesLast(st: State, base: string, count: int, files: Files)
    requires 1 <= count <= 99
    requires forall k :: 1 <= k <= count ==> FrameParses(files, base, k)
    ensures var sc := ScanFrames(st.(volumeData := []), base, 1, count, files, -1, -1, []);
            && sc.Collected?
            && sc.st.maxPixelValue == Frame(files, base, count).maxValue
            && sc.st.volume == st.volume
  {
    ScanLeavesLast(st.(volumeData := []), base, 1, count, files, -1, -1, []);
  }

  /** A volume whose frames all load holds one frame per image; its size
      is the largest width and the largest height among them, and its
      maximum sample value is the last frame's. */
  lemma AllFramesLoad(st: State, base: string, count: int, files: Files)
    requires 1 <= count <= 99
    requires forall k :: 1 <= k <= count ==> FrameParses(files, base, k)
    ensures var (s, status) := LoadVolume(st, base, count, files);
            && status == VolumeLoaded
            && |s.volumeData| == count
            && (forall k :: 1 <= k <= count ==> Frame(files, base, k).width <= s.width)
            && (forall k :: 1 <= k <= count ==> Frame(files, base, k).height <= s.height)
            && (exists k :: 1 <= k <= count && Frame(files, base, k).width == s.width)
            && (exists k :: 1 <= k <= count && Frame(files, base, k).height == s.height)
            && s.maxPixelValue == Frame(files, base, count).maxValue
            && s.volume == st.volume
  {
    AllFramesImages(st, base, count, files);
    AllFramesSize(st, base, count, files);
    AllFramesLast(st, base, count, files);
    AllFramesFit(st, base, count, files);
    CollectedLoads(st, base, count, files);
  }

  lemma AllFramesFit(st: State, base: string, count: int, files: Files)
    requires 1 <= count <= 99
    requires forall k :: 1 <= k <= count ==> FrameParses(files, base, k)
    ensures var sc := ScanFrames(st.(volumeData := []), base, 1, count, files, -1, -1, []);
            && sc.Collected? && sc.maxWidth >= 0 && sc.maxHeight >= 0
            && forall k :: 0 <= k < |sc.images| ==> Fits(sc.images[k], sc.maxHeight, sc.maxWidth)
  {
    AllFramesImages(st, base, count, files);
    AllFramesSize(st, base, count, files);
    var sc := ScanFrames(st.(volumeData := []), base, 1, count, files, -1, -1, []);
    assert Frame(files, base, 1).width <= sc.maxWidth;
    forall k | 0 <= k < |sc.images|
      ensures Fits(sc.images[k], sc.maxHeight, sc.maxWidth)
    {
      assert sc.images[k] == Frame(files, base, k + 1).data;
    }
  }

  /** Every frame of such a volume holds its image in the top left corner
      and 0 in the cells the image does not have. */
  lemma AllFramesPadded(st: State, base: string, count: int, files: Files)
    requires 1 <= count <= 99
    requires forall k :: 1 <= k <= count ==> FrameParses(files, base, k)
    ensures var s := LoadVolume(st, base, count, files).0;
            && |s.volumeData| == count
            && (forall k :: 0 <= k < count ==> IsGrid(s.volumeData[k], s.height, s.width))
            && forall k, r, c :: 0 <= k < count && 0 <= r < s.height && 0 <= c < s.width ==>
                 var p := Frame(files, base, k + 1);
                 s.volumeData[k][r][c] == if r < p.height && c < p.width then p.data[r][c] else 0
  {
    AllFramesImages(st, base, count, files);
    AllFramesFit(st, base, count, files);
    CollectedLoads(st, base, count, files);
    var sc := ScanFrames(st.(volumeData := []), base, 1, count, files, -1, -1, []);
    var s := LoadVolume(st, base, count, files).0;
    forall k, r, c | 0 <= k < count && 0 <= r < s.height && 0 <= c < s.width
      ensures var p := Frame(files, base, k + 1);
              s.volumeData[k][r][c] == if r < p.height && c < p.width then p.data[r][c] else 0
    {
      assert sc.images[k] == Frame(files, base, k + 1).data;
    }
  }

  // ------------------------------------- a complete load, whatever its frames

  /** The states the loads of frames `i` to `count` leave, one per frame, up
      to the first load that leaves no image name. A frame that does not
      load may leave the fields of an earlier one. */
  function FrameStates(st: State, base: string, i: int, count: int, files: Files): seq<State>
    decreases count - i
  {
    if i > count then []
    else
      var s := LoadImage(st, FrameName(base, i), files).0;
      if s.imageFilename == [] then [s] else [s] + FrameStates(s, base, i + 1, count, files)
  }

  /** The image fields of the states, in order. */
  function ImagesOf(fs: seq<State>): (v: seq<Image>)
    ensures |v| == |fs|
    ensures forall k :: 0 <= k < |fs| ==> v[k] == fs[k].imageData
  {
    if fs == [] then [] else [fs[0].imageData] + ImagesOf(fs[1..])
  }

  /** A frame loop that reaches the last frame passed one state per frame,
      each with an image name, and collected the image field of each. */
  lemma {:induction false} ScanTraceImages(st: State, base: string, i: int, count: int, files: Files,
                                           mw: int, mh: int, images: seq<Image>)
    requires i <= count + 1
    ensures var r := ScanFrames(st, base, i, count, files, mw, mh, images);
            var fs := FrameStates(st, base, i, count, files);
            r.Collected? ==>
              && |fs| == count + 1 - i
              && r.images == images + ImagesOf(fs)
              && forall k :: 0 <= k < |fs| ==> fs[k].imageFilename != []
    decreases count - i
  {
    if i > count {
      Unit(images);
    } else {
      var s := LoadImage(st, FrameName(base, i), files).0;
      if s.imageFilename != [] {
        var d := [s.imageData];
        ScanTraceImages(s, base, i + 1, count, files, IntMax(mw, s.width), IntMax(mh, s.height), images + d);
        var fs := FrameStates(st, base, i, count, files);
        var fs' := FrameStates(s, base, i + 1, count, files);
        assert fs == [s] + fs' && fs[1..] == fs';
        assert ImagesOf(fs) == d + ImagesOf(fs');
        Assoc(images, d, ImagesOf(fs'));
      }
    }
  }

  /** ... and took as width the largest of the widths those states hold,
      ... */
  lemma {:induction false} ScanTraceWidest(st: State, base: string, i: int, count: int, files: Files,
                                           mw: int, mh: int, images: seq<Image>)
    ensures var r := ScanFrames(st, base, i, count, files, mw, mh, images);
            var fs := FrameStates(st, base, i, count, files);
            r.Collected? ==>
              && mw <= r.maxWidth
              && (forall k :: 0 <= k < |fs| ==> fs[k].width <= r.maxWidth)
              && (r.maxWidth == mw || exists k :: 0 <= k < |fs| && fs[k].width == r.maxWidth)
    decreases count - i
  {
    if i <= count {
      var s := LoadImage(st, FrameName(base, i), files).0;
      if s.imageFilename != [] {
        ScanTraceWidest(s, base, i + 1, count, files, IntMax(mw, s.width), IntMax(mh, s.height), images + [s.imageData]);
        var fs := FrameStates(st, base, i, count, files);
        var fs' := FrameStates(s, base, i + 1, count, files);
        assert fs == [s] + fs';
        assert forall k :: 0 < k < |fs| ==> fs[k] == fs'[k - 1];
        var r := ScanFrames(s, base, i + 1, count, files, IntMax(mw, s.width), IntMax(mh, s.height), images + [s.imageData]);
        if r.Collected? && r.maxWidth != mw {
          if r.maxWidth == IntMax(mw, s.width) {
            assert fs[0].width == r.maxWidth;
          } else {
            var k :| 0 <= k < |fs'| && fs'[k].width == r.maxWidth;
            assert fs[k + 1].width == r.maxWidth;
          }
        }
      }
    }
  }

  /** ... and as height the largest of their heights. */
  lemma {:induction false} ScanTraceTallest(st: State, base: string, i: int, count: int, files: Files,
                                            mw: int, mh: int, images: seq<Image>)
    ensures var r := ScanFrames(st, base, i, count, files, mw, mh, images);
            var fs := FrameStates(st, base, i, count, files);
            r.Collected? ==>
              && mh <= r.maxHeight
              && (forall k :: 0 <= k < |fs| ==> fs[k].height <= r.maxHeight)
              && (r.maxHeight == mh || exists k :: 0 <= k < |fs| && fs[k].height == r.maxHeight)
    decreases count - i
  {
    if i <= count {
      var s := LoadImage(st, FrameName(base, i), files).0;
      if s.imageFilename != [] {
        ScanTraceTallest(s, base, i + 1, count, files, IntMax(mw, s.width), IntMax(mh, s.height), images + [s.imageData]);
        var fs := FrameStates(st, base, i, count, files);
        var fs' := FrameStates(s, base, i + 1, count, files);
        assert fs == [s] + fs';
        assert forall k :: 0 < k < |fs| ==> fs[k] == fs'[k - 1];
        var r := ScanFrames(s, base, i + 1, count, files, IntMax(mw, s.width), IntMax(mh, s.height), images + [s.imageData]);
        if r.Collected? && r.maxHeight != mh {
          if r.maxHeight == IntMax(mh, s.height) {
            assert fs[0].height == r.maxHeight;
          } else {
            var k :| 0 <= k < |fs'| && fs'[k].height == r.maxHeight;
            assert fs[k + 1].height == r.maxHeight;
          }
        }
      }
    }
  }

  /** When frames `i` to `count` all parse, the state frame `k`'s load
      leaves holds the size of frame `k`. */
  lemma {:induction false} FrameStatesParsed(st: State, base: string, i: int, count: int, files: Files)
    requires forall k :: i <= k <= count ==> FrameParses(files, base, k)
    ensures var fs := FrameStates(st, base, i, count, files);
            && |fs| == (if i <= count then count + 1 - i else 0)
            && forall k :: i <= k <= count ==>
                 fs[k - i].width == Frame(files, base, k).width
                 && fs[k - i].height == Frame(files, base, k).height
    decreases count - i
  {
    if i <= count {
      LoadFrame(st, base, i, files);
      var s := LoadImage(st, FrameName(base, i), files).0;
      FrameStatesParsed(s, base, i + 1, count, files);
      var fs := FrameStates(st, base, i, count, files);
      var fs' := FrameStates(s, base, i + 1, count, files);
      assert fs == [s] + fs';
      forall k | i <= k <= count
        ensures fs[k - i].width == Frame(files, base, k).width
                && fs[k - i].height == Frame(files, base, k).height
      {
        if k > i {
          assert fs[k - i] == fs'[k - (i + 1)];
        }
      }
    }
  }

  /** Whatever the frames hold, a complete load holds one frame per image,
      each the image field frame `k`'s load left, padded into the volume's
      size; that size is the largest width and the largest height among
      the states the frame loads left. */
  lemma LoadedVolumeShape(st: State, base: string, count: int, files: Files)
    ensures var (s, status) := LoadVolume(st, base, count, files);
            var fs := FrameStates(st.(volumeData := []), base, 1, count, files);
            status == VolumeLoaded ==>
              && 1 <= count <= 99
              && |fs| == count && |s.volumeData| == count
              && 0 <= s.height && 0 <= s.width
              && (forall k :: 0 <= k < count ==> fs[k].imageFilename != [])
              && (forall k :: 0 <= k < count ==> s.volumeData[k] == Pad(fs[k].imageData, s.height, s.width))
              && (forall k :: 0 <= k < count ==> IsGrid(s.volumeData[k], s.height, s.width))
              && (forall k :: 0 <= k < count ==> fs[k].width <= s.width && fs[k].height <= s.height)
              && (exists k :: 0 <= k < count && fs[k].width == s.width)
              && (exists k :: 0 <= k < count && fs[k].height == s.height)
  {
    if 1 <= count <= 99 {
      var st0 := st.(volumeData := []);
      ScanTraceImages(st0, base, 1, count, files, -1, -1, []);
      ScanTraceWidest(st0, base, 1, count, files, -1, -1, []);
      ScanTraceTallest(st0, base, 1, count, files, -1, -1, []);
      var sc := ScanFrames(st0, base, 1, count, files, -1, -1, []);
      var fs := FrameStates(st0, base, 1, count, files);
      if sc.Collected? && sc.maxHeight >= 0 && sc.maxWidth >= 0 {
        forall k | 0 <= k < |fs|
          ensures sc.images[k] == fs[k].imageData
        {
          assert 0 + k == k;
        }
      }
    }
  }

  // ------------------------------------------------- infoImage, infoVolume

  /** `infoImage` reports an image exactly when an image name is recorded. */
  predicate ImageReported(st: State) {
    st.imageFilename != []
  }

  /** `infoVolume` reports a volume exactly when the volume holds a frame. */
  predicate VolumeReported(st: State) {
    st.volumeData != []
  }

  /** After `loadImage`, an image is reported exactly when this load
      succeeded or one was reported before: a load that fails after the
      header keeps the earlier name although it overwrote the image. */
  lemma ImageReportAfterLoad(st: State, filename: string, files: Files)
    ensures var (s, status) := LoadImage(st, filename, files);
            (ImageReported(s) <==> status == ImageLoaded || ImageReported(st))
            && (status == CorruptData && ImageReported(st) ==>
                  ImageReported(s) && s.imageData == Parse(files[filename]).data)
  {
    LoadImageSucceeds(st, filename, files);
  }

  /** The frame loop leaves the volume as it found it, and when it reaches
      the last frame it has collected one image per frame. */
  lemma {:induction false} ScanKeepsVolume(st: State, base: string, i: int, count: int, files: Files,
                                           mw: int, mh: int, images: seq<Image>)
    requires i <= count + 1
    ensures var r := ScanFrames(st, base, i, count, files, mw, mh, images);
            && r.st.volumeData == st.volumeData
            && (r.Collected? ==> |r.images| == |images| + count + 1 - i)
    decreases count - i
  {
    if i <= count {
      var s := LoadImage(st, FrameName(base, i), files).0;
      LoadImageSucceeds(st, FrameName(base, i), files);
      if s.imageFilename != [] {
        ScanKeepsVolume(s, base, i + 1, count, files, IntMax(mw, s.width), IntMax(mh, s.height),
                        images + [s.imageData]);
      }
    }
  }

  /** After `loadVolume`, a volume is reported after a complete load and
      not after a missing frame or a negative size; a copy that leaves the
      padded frame leaves exactly the frames before it, so a volume is
      reported then when that is not the first frame; a count out of range
      leaves the report as it was. */
  lemma VolumeReportAfterLoad(st: State, base: string, count: int, files: Files)
    ensures var (s, status) := LoadVolume(st, base, count, files);
            && (status == VolumeLoaded ==> VolumeReported(s) && |s.volumeData| == count)
            && (status.FrameMissing? || status == VolumeAborted ==> !VolumeReported(s))
            && (status == CountOutOfRange ==> (VolumeReported(s) <==> VolumeReported(st)))
            && (status == VolumeUndefined ==>
                  var sc := ScanFrames(st.(volumeData := []), base, 1, count, files, -1, -1, []);
                  (VolumeReported(s) <==> FirstUnfit(sc.images, sc.maxHeight, sc.maxWidth) > 0))
  {
    if 1 <= count <= 99 {
      ScanKeepsVolume(st.(volumeData := []), base, 1, count, files, -1, -1, []);
    }
  }

  // --------------------------------------------------------- projection2D

  /** The directions `z` (view from the top, through the frames), `y` (view
      from the side, through the rows) and `x` (view from the front, through
      the columns). */
  datatype Axis = AlongZ | AlongY | AlongX

  function ParseAxis(word: string): (a: Option<Axis>)
    ensures a == Some(AlongZ) <==> word == "z"
    ensures a == Some(AlongY) <==> word == "y"
    ensures a == Some(AlongX) <==> word == "x"
  {
    if word == "z" then Some(AlongZ)
    else if word == "y" then Some(AlongY)
    else if word == "x" then Some(AlongX)
    else None
  }

  /** The rows and columns of the result, and the length of every ray,
      which is also what the mean divides by. */
  datatype Geometry = Geometry(rows: int, cols: int, len: int)

  /** For `depth` frames of `height` rows of `width` columns: `z` gives
      `height` by `width` cells with rays through the frames, `y` gives
      `depth` by `width` cells with rays through the rows, `x` gives
      `height` by `depth` cells with rays through the columns. */
  function GeometryOf(a: Axis, depth: int, height: int, width: int): Geometry {
    match a
    case AlongZ => Geometry(height, width, depth)
    case AlongY => Geometry(depth, width, height)
    case AlongX => Geometry(height, depth, width)
  }

  /** The voxel (frame, row, column) that step `t` of the ray through
      result cell (`r`, `c`) reads. */
  function Voxel(a: Axis, r: nat, c: nat, t: nat): (nat, nat, nat) {
    match a
    case AlongZ => (t, r, c)
    case AlongY => (r, t, c)
    case AlongX => (c, r, t)
  }

  predicate InVolume(vol: seq<Image>, v: (nat, nat, nat)) {
    v.0 < |vol| && v.1 < |vol[v.0]| && v.2 < |vol[v.0][v.1]|
  }

  /** The number of steps of a ray of length `len`: none when it is not
      positive. */
  function Steps(len: int): nat {
    if len > 0 then len else 0
  }

  /** Every voxel the ray reads exists; otherwise C++ indexes past the end
      of a `vector`, which is undefined. */
  predicate RayInside(vol: seq<Image>, a: Axis, r: nat, c: nat, len: int) {
    forall t: nat :: t < len ==> InVolume(vol, Voxel(a, r, c, t))
  }

  /** The values the ray through (`r`, `c`) collects, in the order the loop
      reads them. */
  function Ray(vol: seq<Image>, a: Axis, r: nat, c: nat, len: int): (ray: seq<int>)
    requires RayInside(vol, a, r, c, len)
    ensures |ray| == Steps(len)
  {
    seq(Steps(len), t requires 0 <= t < Steps(len) =>
      var v := Voxel(a, r, c, t);
      vol[v.0][v.1][v.2])
  }

  /** Where `projection2D` returns: missing words, no volume, an unknown
      direction, a negative size for the result (the `vector` throws), an
      unknown criterion, undefined behaviour, an output file that cannot be
      created, or the text written to the named file. */
  datatype ProjectionStatus =
    | ProjectionUsage
    | NoVolume
    | BadDirection
    | ProjectionAborted
    | BadCriterion
    | ProjectionUndefined
    | CannotCreate(file: string)
    | Written(file: string, text: string)

  /** A projection to compute: the volume, the direction, the criterion
      (None when the word is none of the four) and the geometry. */
  datatype Job = Job(vol: seq<Image>, axis: Axis, crit: Option<Criterion>, shape: Geometry)

  datatype Cell = Sample(value: int) | Fault(status: ProjectionStatus)

  /** One cell of the result: collect the ray, then check the criterion,
      then reduce. */
  function CellOf(job: Job, r: nat, c: nat): Cell {
    if !RayInside(job.vol, job.axis, r, c, job.shape.len) then Fault(ProjectionUndefined)
    else if job.crit.None? then Fault(BadCriterion)
    else match Reduce(job.crit.value, Ray(job.vol, job.axis, r, c, job.shape.len), job.shape.len)
      case None => Fault(ProjectionUndefined)
      case Some(v) => Sample(v)
  }

  /** The cells of the result, row by row, each with its sample or the
      status it stops the command with. */
  function CellGrid(job: Job): (grid: seq<seq<Cell>>)
    ensures |grid| == Steps(job.shape.rows)
    ensures forall r :: 0 <= r < |grid| ==> |grid[r]| == Steps(job.shape.cols)
  {
    seq(Steps(job.shape.rows), r requires 0 <= r < Steps(job.shape.rows) =>
      seq(Steps(job.shape.cols), c requires 0 <= c < Steps(job.shape.cols) => CellOf(job, r, c)))
  }

  datatype Scan<T> = Done(value: T) | Stopped(status: ProjectionStatus)

  /** The loop over the cells of one row, from column `c`, with the samples
      of the columns before in `acc`: it stops at the first cell that
      fails. */
  function ScanRow(cells: seq<Cell>, c: nat, acc: seq<int>): Scan<seq<int>>
    decreases |cells| - c
  {
    if c >= |cells| then Done(acc)
    else match cells[c]
      case Fault(s) => Stopped(s)
      case Sample(v) => ScanRow(cells, c + 1, acc + [v])
  }

  /** The loop over the rows, from row `r`, with the rows before in `acc`. */
  function ScanRows(grid: seq<seq<Cell>>, r: nat, acc: Image): Scan<Image>
    decreases |grid| - r
  {
    if r >= |grid| then Done(acc)
    else match ScanRow(grid[r], 0, [])
      case Stopped(s) => Stopped(s)
      case Done(row) => ScanRows(grid, r + 1, acc + [row])
  }

  /** The direction, criterion and file name, read from the argument one
      word after the other. */
  function Words(param: string): (string, string, string) {
    var dir := ReadWord(param);
    var crit := ReadWord(dir.rest);
    (dir.value, crit.value, ReadWord(crit.rest).value)
  }

  /** The projection of the volume in memory along `a` with the criterion
      named `word`; its size is read from `height`, `width` and the number
      of frames. */
  function JobOf(st: State, a: Axis, word: string): Job {
    Job(st.volumeData, a, ParseCriterion(word), GeometryOf(a, |st.volumeData|, st.height, st.width))
  }

  /** `projection2D(param)`, with `canCreate` telling whether the output
      file can be created.  It changes no field. */
  function Projection(st: State, param: string, canCreate: bool): ProjectionStatus {
    var (dir, crit, out) := Words(param);
    if dir == [] || crit == [] || out == [] then ProjectionUsage
    else if st.volumeData == [] then NoVolume
    else match ParseAxis(dir)
      case None => BadDirection
      case Some(a) =>
        var job := JobOf(st, a, crit);
        if job.shape.rows < 0 || job.shape.cols < 0 then ProjectionAborted
        else match ScanRows(CellGrid(job), 0, [])
          case Stopped(s) => s
          case Done(g) =>
            if !canCreate then CannotCreate(out)
            else Written(out, Serialize(g, job.shape.cols, job.shape.rows, st.maxPixelValue))
  }

  /** Every cell has a sample. */
  predicate AllSamples(grid: seq<seq<Cell>>) {
    forall r, c :: 0 <= r < |grid| && 0 <= c < |grid[r]| ==> grid[r][c].Sample?
  }

  /** The samples of the cells. */
  function Samples(grid: seq<seq<Cell>>): (g: Image)
    requires AllSamples(grid)
    ensures |g| == |grid| && forall r :: 0 <= r < |g| ==> |g[r]| == |grid[r]|
  {
    seq(|grid|, r requires 0 <= r < |grid| =>
      seq(|grid[r]|, c requires 0 <= c < |grid[r]| => grid[r][c].value))
  }

  lemma {:induction false} RowScanned(cells: seq<Cell>, c: nat, acc: seq<int>)
    requires c <= |cells| && |acc| == c
    ensures var sc := ScanRow(cells, c, acc);
            && (sc.Done? <==> forall k :: c <= k < |cells| ==> cells[k].Sample?)
            && (sc.Done? ==> |sc.value| == |cells| && sc.value[..c] == acc
                             && forall k :: c <= k < |cells| ==> sc.value[k] == cells[k].value)
            && (sc.Stopped? ==> exists k :: c <= k < |cells| && cells[k] == Fault(sc.status))
    decreases |cells| - c
  {
    if c < |cells| {
      match cells[c]
      case Fault(s) =>
      case Sample(v) =>
        RowScanned(cells, c + 1, acc + [v]);
        var sc := ScanRow(cells, c + 1, acc + [v]);
        if sc.Done? {
          assert sc.value[..c] == sc.value[..c + 1][..c];
        }
    }
  }

  lemma {:induction false} RowsScanned(grid: seq<seq<Cell>>, r: nat, acc: Image)
    requires r <= |grid| && |acc| == r
    ensures var sc := ScanRows(grid, r, acc);
            && (sc.Done? <==> forall i, k :: r <= i < |grid| && 0 <= k < |grid[i]| ==> grid[i][k].Sample?)
            && (sc.Done? ==> |sc.value| == |grid| && sc.value[..r] == acc
                             && forall i :: r <= i < |grid| ==>
                                  |sc.value[i]| == |grid[i]|
                                  && forall k :: 0 <= k < |grid[i]| ==> sc.value[i][k] == grid[i][k].value)
            && (sc.Stopped? ==> exists i, k :: r <= i < |grid| && 0 <= k < |grid[i]| && grid[i][k] == Fault(sc.status))
    decreases |grid| - r
  {
    if r < |grid| {
      RowScanned(grid[r], 0, []);
      var row := ScanRow(grid[r], 0, []);
      if row.Done? {
        RowsScanned(grid, r + 1, acc + [row.value]);
        var sc := ScanRows(grid, r + 1, acc + [row.value]);
        if sc.Done? {
          assert sc.value[..r] == sc.value[..r + 1][..r];
        }
      }
    }
  }

  /** The loops over the cells stop at a cell that fails, with its status,
      and otherwise give the samples of all cells. */
  lemma ProjectionScanned(grid: seq<seq<Cell>>)
    ensures var sc := ScanRows(grid, 0, []);
            && (sc.Done? <==> AllSamples(grid))
            && (sc.Done? ==> sc.value == Samples(grid))
            && (sc.Stopped? ==> exists r, c :: 0 <= r < |grid| && 0 <= c < |grid[r]| && grid[r][c] == Fault(sc.status))
  {
    RowsScanned(grid, 0, []);
    var sc := ScanRows(grid, 0, []);
    if sc.Done? {
      var g := Samples(grid);
      forall i | 0 <= i < |grid|
        ensures sc.value[i] == g[i]
      {
      }
    }
  }

  // ------------------------------------------------ what projection2D does

  /** The command stops, before any output file is opened, when a word is
      missing, when there is no volume and when the direction is unknown. */
  lemma ProjectionRefused(st: State, param: string, canCreate: bool)
    ensures var (dir, crit, out) := Words(param);
            var status := Projection(st, param, canCreate);
            && (status == ProjectionUsage <==> dir == [] || crit == [] || out == [])
            && (status == NoVolume <==> dir != [] && crit != [] && out != [] && st.volumeData == [])
            && (status == BadDirection <==>
                  dir != [] && crit != [] && out != [] && st.volumeData != [] && ParseAxis(dir).None?)
  {
    var (dir, crit, out) := Words(param);
    if dir != [] && crit != [] && out != [] && st.volumeData != [] && ParseAxis(dir).Some? {
      var job := JobOf(st, ParseAxis(dir).value, crit);
      if job.shape.rows >= 0 && job.shape.cols >= 0 {
        ProjectionScanned(CellGrid(job));
      }
    }
  }

  /** When every cell of a job has a sample, every ray lies inside the
      volume, the criterion is known and each sample is its ray's
      reduction. */
  lemma SampledCells(job: Job)
    requires AllSamples(CellGrid(job))
    ensures job.shape.rows > 0 && job.shape.cols > 0 ==> job.crit.Some?
    ensures forall r: nat, c: nat :: r < job.shape.rows && c < job.shape.cols ==>
              && RayInside(job.vol, job.axis, r, c, job.shape.len)
              && job.crit.Some?
              && Reduce(job.crit.value, Ray(job.vol, job.axis, r, c, job.shape.len), job.shape.len)
                   == Some(Samples(CellGrid(job))[r][c])
  {
    var grid := CellGrid(job);
    forall r: nat, c: nat | r < job.shape.rows && c < job.shape.cols
      ensures && RayInside(job.vol, job.axis, r, c, job.shape.len)
              && job.crit.Some?
              && Reduce(job.crit.value, Ray(job.vol, job.axis, r, c, job.shape.len), job.shape.len)
                   == Some(Samples(grid)[r][c])
    {
      assert grid[r][c] == CellOf(job, r, c);
    }
    if job.shape.rows > 0 && job.shape.cols > 0 {
      assert grid[0][0] == CellOf(job, 0, 0);
    }
  }

  /** The loops over the cells stop only on a ray outside the volume or an
      unknown criterion. */
  lemma CellsStop(job: Job)
    ensures var sc := ScanRows(CellGrid(job), 0, []);
            sc.Stopped? ==> sc.status == ProjectionUndefined || sc.status == BadCriterion
  {
    var grid := CellGrid(job);
    ProjectionScanned(grid);
    forall r, c | 0 <= r < |grid| && 0 <= c < |grid[r]|
      ensures grid[r][c].Fault? ==> grid[r][c].status == ProjectionUndefined || grid[r][c].status == BadCriterion
    {
      assert grid[r][c] == CellOf(job, r, c);
    }
  }

  /** The path of `projection2D` that writes: the checks passed and the
      loops over the cells ran to the end. */
  lemma WrittenCase(st: State, param: string, canCreate: bool)
    requires Projection(st, param, canCreate).Written?
    ensures var (dir, crit, out) := Words(param);
            && dir != [] && crit != [] && out != [] && st.volumeData != [] && ParseAxis(dir).Some?
            && var job := JobOf(st, ParseAxis(dir).value, crit);
               var sc := ScanRows(CellGrid(job), 0, []);
               && job.shape.rows >= 0 && job.shape.cols >= 0 && sc.Done? && canCreate
               && Projection(st, param, canCreate)
                    == Written(out, Serialize(sc.value, job.shape.cols, job.shape.rows, st.maxPixelValue))
  {
    var (dir, crit, out) := Words(param);
    if dir != [] && crit != [] && out != [] && st.volumeData != [] && ParseAxis(dir).Some? {
      CellsStop(JobOf(st, ParseAxis(dir).value, crit));
    }
  }

  /** A written projection: the volume, the direction, the criterion and
      the output file were all accepted, every cell's ray lies inside the
      volume and reduces to the cell's sample, and the text is the header
      (columns, then rows, then the maximum value in memory) and the
      samples. */
  lemma ProjectionWritten(st: State, param: string, canCreate: bool)
    requires Projection(st, param, canCreate).Written?
    ensures var (dir, crit, out) := Words(param);
            var status := Projection(st, param, canCreate);
            && canCreate && out != [] && status.file == out
            && st.volumeData != [] && ParseAxis(dir).Some?
            && (ParseCriterion(crit).Some? ||
                  var job := JobOf(st, ParseAxis(dir).value, crit);
                  job.shape.rows == 0 || job.shape.cols == 0)
    ensures var (dir, crit, out) := Words(param);
            var status := Projection(st, param, canCreate);
            ParseAxis(dir).Some? &&
            var job := JobOf(st, ParseAxis(dir).value, crit);
            var grid: seq<seq<Cell>> := CellGrid(job);
            && job.shape.rows >= 0 && job.shape.cols >= 0
            && AllSamples(grid)
            && status.text == Serialize(Samples(grid), job.shape.cols, job.shape.rows, st.maxPixelValue)
            && forall r: nat, c: nat :: r < job.shape.rows && c < job.shape.cols ==>
                 && RayInside(job.vol, job.axis, r, c, job.shape.len)
                 && job.crit.Some?
                 && Reduce(job.crit.value, Ray(job.vol, job.axis, r, c, job.shape.len), job.shape.len)
                      == Some(Samples(grid)[r][c])
  {
    WrittenCase(st, param, canCreate);
    var (dir, crit, out) := Words(param);
    var job := JobOf(st, ParseAxis(dir).value, crit);
    ProjectionScanned(CellGrid(job));
    SampledCells(job);
  }

  /** With the length of its ray as divisor, every sample of a written
      projection lies between the smallest and the largest value on its
      ray. */
  lemma ProjectionBetween(st: State, param: string, canCreate: bool)
    requires Projection(st, param, canCreate).Written?
    requires var (dir, crit, _) := Words(param);
             ParseAxis(dir).Some? && JobOf(st, ParseAxis(dir).value, crit).shape.len > 0
    ensures var (dir, crit, _) := Words(param);
            var job := JobOf(st, ParseAxis(dir).value, crit);
            var grid: seq<seq<Cell>> := CellGrid(job);
            && AllSamples(grid)
            && forall r: nat, c: nat :: r < job.shape.rows && c < job.shape.cols ==>
                 && RayInside(job.vol, job.axis, r, c, job.shape.len)
                 && Min(Ray(job.vol, job.axis, r, c, job.shape.len)) <= Samples(grid)[r][c]
                 && Samples(grid)[r][c] <= Max(Ray(job.vol, job.axis, r, c, job.shape.len))
  {
    ProjectionWritten(st, param, canCreate);
    var (dir, crit, _) := Words(param);
    var job := JobOf(st, ParseAxis(dir).value, crit);
    forall r: nat, c: nat | r < job.shape.rows && c < job.shape.cols
      ensures && RayInside(job.vol, job.axis, r, c, job.shape.len)
              && Min(Ray(job.vol, job.axis, r, c, job.shape.len)) <= Samples(CellGrid(job))[r][c]
              && Samples(CellGrid(job))[r][c] <= Max(Ray(job.vol, job.axis, r, c, job.shape.len))
    {
      ReduceBetween(job.crit.value, Ray(job.vol, job.axis, r, c, job.shape.len));
    }
  }

  /** Every sample of every frame lies in [lo, hi]. */
  predicate VolumeInRange(vol: seq<Image>, lo: int, hi: int) {
    forall k :: 0 <= k < |vol| ==> InRange(vol[k], lo, hi)
  }

  /** A ray through a volume of samples in [0, mx] reduces to a sample in
      [0, mx]; a ray of negative length has no values and its mean is 0. */
  lemma RaySampleInRange(job: Job, r: nat, c: nat, mx: int)
    requires 0 <= mx && VolumeInRange(job.vol, 0, mx)
    requires CellOf(job, r, c).Sample?
    ensures 0 <= CellOf(job, r, c).value <= mx
  {
    var ray := Ray(job.vol, job.axis, r, c, job.shape.len);
    assert CellOf(job, r, c).value == Reduce(job.crit.value, ray, job.shape.len).value;
    forall t | 0 <= t < |ray|
      ensures 0 <= ray[t] <= mx
    {
      var v := Voxel(job.axis, r, c, t);
      assert InVolume(job.vol, v);
      assert InRange(job.vol[v.0], 0, mx);
    }
    if job.shape.len > 0 {
      ReduceBetween(job.crit.value, ray);
    } else {
      assert ray == [] && job.crit.value == Mean && Sum(ray) == 0;
      assert Reduce(Mean, ray, job.shape.len) == Some(Quot(0, job.shape.len));
      assert Quot(0, job.shape.len) == 0;
    }
  }

  /** The file a projection writes is read back by `loadImage` as the
      projected image, when the volume's samples lie in [0, maxPixelValue]
      and the written header is one `loadImage` accepts. */
  lemma ProjectionReadsBack(st: State, param: string, canCreate: bool, files: Files)
    requires Projection(st, param, canCreate).Written?
    requires VolumeInRange(st.volumeData, 0, st.maxPixelValue)
    requires var (dir, crit, _) := Words(param);
             ParseAxis(dir).Some? &&
             var shape := JobOf(st, ParseAxis(dir).value, crit).shape;
             ValidHeader(shape.cols, shape.rows, st.maxPixelValue)
    ensures var (dir, crit, _) := Words(param);
            var job := JobOf(st, ParseAxis(dir).value, crit);
            var status := Projection(st, param, canCreate);
            && AllSamples(CellGrid(job))
            && Parse(status.text) == Parsed(job.shape.cols, job.shape.rows, st.maxPixelValue, Samples(CellGrid(job)))
            && LoadImage(st, status.file, files[status.file := status.text])
                 == (st.(width := job.shape.cols, height := job.shape.rows, imageData := Samples(CellGrid(job)),
                         imageFilename := status.file),
                     ImageLoaded)
  {
    ProjectionWritten(st, param, canCreate);
    var (dir, crit, _) := Words(param);
    var job := JobOf(st, ParseAxis(dir).value, crit);
    var grid: seq<seq<Cell>> := CellGrid(job);
    var g := Samples(grid);
    forall r, c | 0 <= r < |g| && 0 <= c < |g[r]|
      ensures 0 <= g[r][c] <= st.maxPixelValue
    {
      RaySampleInRange(job, r, c, st.maxPixelValue);
    }
    RoundTrip(g, job.shape.rows, job.shape.cols, st.maxPixelValue);
  }

  /** An unknown criterion is noticed at the first cell, after its ray is
      collected: when the result has cells, the command stops before the
      output file is opened. */
  lemma UnknownCriterionStops(st: State, param: string, canCreate: bool)
    requires var (dir, crit, _) := Words(param);
             && ParseAxis(dir).Some? && ParseCriterion(crit).None?
             && var shape := JobOf(st, ParseAxis(dir).value, crit).shape;
                shape.rows > 0 && shape.cols > 0
    ensures Projection(st, param, canCreate) in {ProjectionUsage, NoVolume, BadCriterion, ProjectionUndefined}
  {
    var (dir, crit, _) := Words(param);
    var job := JobOf(st, ParseAxis(dir).value, crit);
    var grid: seq<seq<Cell>> := CellGrid(job);
    ProjectionScanned(grid);
    assert grid[0][0] == CellOf(job, 0, 0);
    var sc := ScanRows(grid, 0, []);
    if sc.Stopped? {
      var r: nat, c: nat :| r < |grid| && c < |grid[r]| && grid[r][c] == Fault(sc.status);
      assert grid[r][c] == CellOf(job, r, c);
    }
  }

  /** ... but when the result has no cells the criterion is never looked
      at, and whatever word was given the empty projection is written. */
  lemma EmptyResultIgnoresCriterion(st: State, param: string)
    requires var (dir, crit, out) := Words(param);
             && dir != [] && crit != [] && out != [] && st.volumeData != [] && ParseAxis(dir).Some?
             && var shape := JobOf(st, ParseAxis(dir).value, crit).shape;
                shape.rows >= 0 && shape.cols >= 0 && (shape.rows == 0 || shape.cols == 0)
    ensures Projection(st, param, true).Written?
  {
    var (dir, crit, _) := Words(param);
    ProjectionScanned(CellGrid(JobOf(st, ParseAxis(dir).value, crit)));
  }

  /** A volume of frames that all have `height` rows of `width` columns,
      as `loadVolume` leaves it, is projected along any direction with any
      of the four criteria without undefined behaviour: with all three
      words given and the output file created, the result is written. */
  lemma RegularVolumeProjects(st: State, param: string)
    requires st.volumeData != [] && st.height > 0 && st.width > 0
    requires forall k :: 0 <= k < |st.volumeData| ==> IsGrid(st.volumeData[k], st.height, st.width)
    requires var (dir, crit, out) := Words(param);
             out != [] && ParseAxis(dir).Some? && ParseCriterion(crit).Some?
    ensures Projection(st, param, true).Written?
  {
    var (dir, crit, _) := Words(param);
    var job := JobOf(st, ParseAxis(dir).value, crit);
    var grid: seq<seq<Cell>> := CellGrid(job);
    forall r: nat, c: nat | r < |grid| && c < |grid[r]|
      ensures grid[r][c].Sample?
    {
      assert grid[r][c] == CellOf(job, r, c);
      forall t: nat | t < job.shape.len
        ensures InVolume(job.vol, Voxel(job.axis, r, c, t))
      {
        var v := Voxel(job.axis, r, c, t);
        assert IsGrid(job.vol[v.0], st.height, st.width);
      }
      assert |Ray(job.vol, job.axis, r, c, job.shape.len)| == job.shape.len;
    }
    ProjectionScanned(grid);
  }

  /** The size of the projection comes from `height` and `width`, which
      `loadImage` overwrites: after loading an image taller than the
      frames of the volume, projecting along `z` reads rows the frames do
      not have, which is undefined behaviour. */
  lemma TallerImageBreaksProjection(st: State, filename: string, files: Files, param: string, canCreate: bool)
    requires st.volumeData != [] && st.width > 0
    requires forall k :: 0 <= k < |st.volumeData| ==> IsGrid(st.volumeData[k], st.height, st.width)
    requires LoadImage(st, filename, files).1 == ImageLoaded
    requires LoadImage(st, filename, files).0.height > st.height
    requires var (dir, crit, out) := Words(param);
             out != [] && dir == "z" && ParseCriterion(crit).Some?
    ensures Projection(LoadImage(st, filename, files).0, param, canCreate) == ProjectionUndefined
  {
    LoadImageSucceeds(st, filename, files);
    var s := LoadImage(st, filename, files).0;
    var (dir, crit, _) := Words(param);
    var job := JobOf(s, AlongZ, crit);
    var h := st.height;
    assert h >= 0 && !InVolume(job.vol, Voxel(AlongZ, h, 0, 0)) by {
      assert IsGrid(job.vol[0], st.height, st.width);
    }
    UndefinedCellStops(job, h, 0);
  }

  /** With a known criterion, a ray that leaves the volume stops the
      command as undefined, whichever cells come before it. */
  lemma UndefinedCellStops(job: Job, r: nat, c: nat)
    requires job.crit.Some?
    requires r < Steps(job.shape.rows) && c < Steps(job.shape.cols)
    requires !RayInside(job.vol, job.axis, r, c, job.shape.len)
    ensures ScanRows(CellGrid(job), 0, []) == Stopped(ProjectionUndefined)
  {
    var grid := CellGrid(job);
    assert grid[r][c] == Fault(ProjectionUndefined);
    ProjectionScanned(grid);
    var sc := ScanRows(grid, 0, []);
    var i: nat, j: nat :| i < |grid| && j < |grid[i]| && grid[i][j] == Fault(sc.status);
    assert grid[i][j] == CellOf(job, i, j);
  }

  /** The header declares the maximum value in memory, which after a
      volume load is the last frame's.  A projection with a sample above
      it is written all the same, and `loadImage` then rejects the file as
      corrupt. */
  lemma ProjectionUnreadable(st: State, param: string, canCreate: bool, files: Files)
    requires Projection(st, param, canCreate).Written?
    requires var (dir, crit, _) := Words(param);
             ParseAxis(dir).Some? &&
             var job := JobOf(st, ParseAxis(dir).value, crit);
             && ValidHeader(job.shape.cols, job.shape.rows, st.maxPixelValue)
             && AllSamples(CellGrid(job))
             && !InRange(Samples(CellGrid(job)), 0, st.maxPixelValue)
    ensures var status := Projection(st, param, canCreate);
            LoadImage(st, status.file, files[status.file := status.text]).1 == CorruptData
  {
    ProjectionWritten(st, param, canCreate);
    var (dir, crit, _) := Words(param);
    var job := JobOf(st, ParseAxis(dir).value, crit);
    SerializedParses(Samples(CellGrid(job)), job.shape.rows, job.shape.cols, st.maxPixelValue);
  }
}
