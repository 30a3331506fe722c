/** The class `ImageProcessingSystem` with its fields and the loops of its
    commands.  Every command is proved to do what the matching function of
    the Session module says; the properties of those functions are proved
    there. */
module System {
  import opened Streams
  import opened Sequences
  import opened Pgm
  import opened Reductions
  import Session

  class ImageProcessingSystem {
    var imageData: seq<seq<int>>
    var width: int
    var height: int
    var maxPixelValue: int
    var imageFilename: string
    var volume: string
    var volumeData: seq<seq<seq<int>>>

    /** The fields, as a value. */
    function Snapshot(): Session.State
      reads this
    {
      Session.State(imageData, width, height, maxPixelValue, imageFilename, volume, volumeData)
    }

    /** No image and no volume in memory.  The C++ fields `width`, `height`
        and `maxPixelValue` start indeterminate; here they start at 0. */
    constructor ()
      ensures Snapshot() == Session.State([], 0, 0, 0, [], [], [])
    {
      imageData, width, height, maxPixelValue := [], 0, 0, 0;
      imageFilename, volume, volumeData := [], [], [];
    }

    /** `infoImage`: whether an image is reported as loaded. */
    predicate HasImage()
      reads this
    {
      Session.ImageReported(Snapshot())
    }

    /** `infoVolume`: whether a volume is reported as loaded. */
    predicate HasVolume()
      reads this
    {
      Session.VolumeReported(Snapshot())
    }

    /** `loadImage(filename)`, with the files it can open. */
    method LoadImage(filename: string, files: Session.Files) returns (status: Session.ImageStatus)
      modifies this
      ensures (Snapshot(), status) == Session.LoadImage(old(Snapshot()), filename, files)
    {
      if filename == [] {
        return Session.ImageUsage;
      }
      if filename !in files {
        return Session.NotOpened;
      }
      var text := files[filename];
      var format := ReadWord(text);
      if format.value != Magic {
        return Session.NotPgm;
      }
      var t := ReadHeader(format.rest);
      ghost var hd := HeaderOf(text);
      assert hd == Header(width, height, maxPixelValue, t);
      if width <= 0 || height <= 0 || maxPixelValue <= 0 || maxPixelValue > 255 {
        return Session.InvalidHeader;
      }
      status := ReadSamples(t);
      if status == Session.ImageLoaded {
        imageFilename := filename;
      }
    }
  
    /** The header loop of `loadImage`: `width`, `height` and
        `maxPixelValue` start at -1 and take what the lines give; `rest` is
        the text after the last line read. */
    method ReadHeader(text: string) returns (rest: string)
      modifies this`width, this`height, this`maxPixelValue
      ensures Header(width, height, maxPixelValue, rest) == ScanHeader(text, -1, -1, -1)
    {
      ghost var hd := ScanHeader(text, -1, -1, -1);
      var w, h, m := -1, -1, -1;
      rest := text;
      while true
        invariant hd == ScanHeader(rest, w, h, m)
        decreases |rest|
      {
        var got := GetLine(rest);
        if got.None? {
          break;
        }
        var line := got.value.value;
        rest := got.value.rest;
        if !Significant(line) {
          continue;
        }
        if w == -1 {
          var dims := ReadDims(line, w, h);
          w, h := dims.0, dims.1;
        } else {
          m := ReadMax(line, m);
          break;
        }
      }
      width, height, maxPixelValue := w, h, m;
    }

    /** The sample loops of `loadImage`: the image is created as zeros,
        then every sample is extracted straight into its cell, in row-major
        order, until an extraction fails or gives a value outside
        [0, maxPixelValue]. */
    method ReadSamples(text: string) returns (status: Session.ImageStatus)
      requires width > 0 && height > 0
      modifies this`imageData
      ensures var b := ReadBody(text, RowStart(height, width), maxPixelValue);
              && imageData == Fill(height, width, b.values)
              && status == (if b.complete then Session.ImageLoaded else Session.CorruptData)
    {
      var h, w, mx := height, width, maxPixelValue;
      ghost var whole := ReadBody(text, RowStart(h, w), mx);
      imageData := Zeros(h, w);
      ZerosUnfilled(h, w);
      ghost var vals: seq<int> := [];
      ghost var left: nat := RowStart(h, w);
      var t := text;
      var i := 0;
      while i < h
        invariant 0 <= i <= h
        invariant |vals| == RowStart(i, w) && left + |vals| == RowStart(h, w)
        invariant imageData == Fill(h, w, vals)
        invariant whole == Prepend(vals, ReadBody(t, left, mx))
      {
        var complete;
        t, complete, vals, left := ReadRow(i, h, w, mx, t, whole, vals, left);
        if !complete {
          return Session.CorruptData;
        }
        i := i + 1;
      }
      LastSample(whole, vals, t, mx);
      status := Session.ImageLoaded;
    }

    /** The inner sample loop of `loadImage`, over row `i`, from the text
        `t0` after the samples `vals0` of the rows above; `complete` tells
        whether every sample of the row was read and in range. */
    method ReadRow(i: nat, h: nat, w: nat, mx: int, t0: string,
                   ghost whole: BodyRead, ghost vals0: seq<int>, ghost left0: nat)
      returns (t: string, complete: bool, ghost vals: seq<int>, ghost left: nat)
      requires i < h && |vals0| == RowStart(i, w) && left0 + |vals0| == RowStart(h, w)
      requires imageData == Fill(h, w, vals0)
      requires whole == Prepend(vals0, ReadBody(t0, left0, mx))
      modifies this`imageData
      ensures imageData == Fill(h, w, vals)
      ensures complete ==> |vals| == RowStart(i + 1, w) && left + |vals| == RowStart(h, w)
                           && whole == Prepend(vals, ReadBody(t, left, mx))
      ensures !complete ==> whole == BodyRead(vals, false)
    {
      RowStartProduct(i, w);
      RowStartProduct(h, w);
      t, vals, left := t0, vals0, left0;
      var j := 0;
      while j < w
        invariant 0 <= j <= w
        invariant |vals| == i * w + j && left + |vals| == h * w
        invariant imageData == Fill(h, w, vals)
        invariant whole == Prepend(vals, ReadBody(t, left, mx))
      {
        RowMajor(i, j, h, w);
        match ExtractInt(t) {
        case Got(v, rest) =>
          Store(i, j, h, w, vals, v);
          if v < 0 || v > mx {
            LastTry(whole, vals, t, left, mx);
            vals := vals + [v];
            return t, false, vals, left;
          }
          NextSample(whole, vals, t, left, mx, v, rest);
          vals, left, t := vals + [v], left - 1, rest;
        case Invalid =>
          LastTry(whole, vals, t, left, mx);
          Store(i, j, h, w, vals, 0);
          vals := vals + [0];
          return t, false, vals, left;
        case Exhausted =>
          LastTry(whole, vals, t, left, mx);
          return t, false, vals, left;
        }
        j := j + 1;
      }
      complete := true;
    }

    /** The extraction of one sample into cell (`i`, `j`) of the image. */
    method Store(i: nat, j: nat, h: nat, w: nat, ghost vals: seq<int>, v: int)
      requires i < h && j < w && |vals| == i * w + j
      requires imageData == Fill(h, w, vals)
      modifies this`imageData
      ensures imageData == Fill(h, w, vals + [v])
    {
      FillSnoc(h, w, vals, v, i, j);
      imageData := imageData[i := imageData[i][j := v]];
    }

    /** `loadVolume` for the base name and the image count already split off
        its argument: every frame is loaded with `loadImage`, then each is
        copied into a zero frame of the largest width and height. */
    method LoadVolume(base: string, count: int, files: Session.Files) returns (status: Session.VolumeStatus)
      modifies this
      ensures (Snapshot(), status) == Session.LoadVolume(old(Snapshot()), base, count, files)
    {
      if count < 1 || count > 99 {
        return Session.CountOutOfRange;
      }
      volumeData := [];
      var stopped, at, temp, maxWidth, maxHeight := LoadFrames(base, count, files);
      if stopped {
        return Session.FrameMissing(at);
      }
      volumeData := [];
      if maxHeight < 0 || maxWidth < 0 {
        return Session.VolumeAborted;
      }
      var complete := PadFrames(temp, maxHeight, maxWidth);
      if !complete {
        return Session.VolumeUndefined;
      }
      assert temp[..|temp|] == temp;
      height, width := maxHeight, maxWidth;
      status := Session.VolumeLoaded;
    }

    /** The frame loop of `loadVolume`: frames 1 to `count` are loaded with
        `loadImage`, stopping after the first that leaves no image name
        (`stopped`, at frame `at`); otherwise the images collected and the
        largest width and height seen. */
    method LoadFrames(base: string, count: int, files: Session.Files)
      returns (stopped: bool, at: int, temp: seq<Session.Image>, maxWidth: int, maxHeight: int)
      modifies this
      ensures Session.ScanFrames(old(Snapshot()), base, 1, count, files, -1, -1, [])
              == if stopped then Session.Missing(Snapshot(), at)
                 else Session.Collected(Snapshot(), temp, maxWidth, maxHeight)
      ensures volumeData == old(volumeData)
    {
      ghost var scan := Session.ScanFrames(Snapshot(), base, 1, count, files, -1, -1, []);
      maxWidth, maxHeight := -1, -1;
      temp := [];
      stopped, at := false, 0;
      var i := 1;
      while i <= count
        invariant i <= count + 1 || count < 1
        invariant scan == Session.ScanFrames(Snapshot(), base, i, count, files, maxWidth, maxHeight, temp)
        invariant volumeData == old(volumeData)
        decreases count + 1 - i
      {
        var name := Session.FrameName(base, i);
        var _ := LoadImage(name, files);
        if imageFilename == [] {
          return true, i, temp, maxWidth, maxHeight;
        }
        maxWidth := Session.IntMax(maxWidth, width);
        maxHeight := Session.IntMax(maxHeight, height);
        temp := temp + [imageData];
        i := i + 1;
      }
    }

    /** The padding loop of `loadVolume`: the volume becomes the images, each
        copied into a zero frame of `h` rows of `w` columns, up to the first
        that does not fit; `complete` tells whether all of them fit. */
    method PadFrames(temp: seq<Session.Image>, h: nat, w: nat) returns (complete: bool)
      modifies this`volumeData
      ensures var k := Session.FirstUnfit(temp, h, w);
              && volumeData == Session.PadAll(temp[..k], h, w)
              && (complete <==> k == |temp|)
    {
      volumeData := [];
      var k := 0;
      while k < |temp|
        invariant 0 <= k <= Session.FirstUnfit(temp, h, w)
        invariant volumeData == Session.PadAll(temp[..k], h, w)
      {
        var resized, fits := Resize(temp[k], h, w);
        if !fits {
          return false;
        }
        Session.PadAllSnoc(temp, k, h, w);
        volumeData := volumeData + [resized];
        k := k + 1;
      }
      complete := true;
    }

    /** The copy of one image into a zero frame of `h` rows of `w` columns,
        cell by cell in row-major order; `fits` is false when the copy
        reaches a cell outside the frame, where the C++ write is out of
        bounds. */
    method Resize(image: Session.Image, h: nat, w: nat) returns (resized: Session.Image, fits: bool)
      ensures fits <==> Session.Fits(image, h, w)
      ensures fits ==> resized == Session.Pad(image, h, w)
    {
      resized := Zeros(h, w);
      var i := 0;
      while i < |image|
        invariant 0 <= i <= |image|
        invariant IsGrid(resized, h, w)
        invariant forall r :: 0 <= r < i ==> |image[r]| == 0 || (r < h && |image[r]| <= w)
        invariant forall r, c :: 0 <= r < h && 0 <= c < w ==>
                    resized[r][c] == if r < i && c < |image[r]| then image[r][c] else 0
      {
        var j := 0;
        while j < |image[i]|
          invariant 0 <= j <= |image[i]|
          invariant j > 0 ==> i < h && j <= w
          invariant IsGrid(resized, h, w)
          invariant forall r, c :: 0 <= r < h && 0 <= c < w ==>
                      resized[r][c] == if (r < i && c < |image[r]|) || (r == i && c < j) then image[r][c] else 0
        {
          if i >= h || j >= w {
            return resized, false;
          }
          resized := resized[i := resized[i][j := image[i][j]]];
          j := j + 1;
        }
        i := i + 1;
      }
      fits := true;
      ghost var p := Session.Pad(image, h, w);
      assert forall r | 0 <= r < h :: resized[r] == p[r];
    }

    /** `projection2D(param)`, with `canCreate` telling whether the output
        file can be created; a successful run returns the text written to
        the named file.  It changes no field. */
    method Projection2D(param: string, canCreate: bool) returns (status: Session.ProjectionStatus)
      ensures status == Session.Projection(Snapshot(), param, canCreate)
    {
      var (dir, crit, out) := Session.Words(param);
      if dir == [] || crit == [] || out == [] {
        return Session.ProjectionUsage;
      }
      if volumeData == [] {
        return Session.NoVolume;
      }
      var axis := Session.ParseAxis(dir);
      if axis.None? {
        return Session.BadDirection;
      }
      var shape := Session.GeometryOf(axis.value, |volumeData|, height, width);
      if shape.rows < 0 || shape.cols < 0 {
        return Session.ProjectionAborted;
      }
      var scan := ProjectCells(axis.value, ParseCriterion(crit), shape);
      if scan.Stopped? {
        return scan.status;
      }
      if !canCreate {
        return Session.CannotCreate(out);
      }
      var text := Write(scan.value, shape.cols, shape.rows, maxPixelValue);
      return Session.Written(out, text);
    }

    /** The cell loops of `projection2D`: the result starts as zeros and
        is filled cell by cell in row-major order, until a cell stops the
        command. */
    method ProjectCells(axis: Session.Axis, crit: Option<Criterion>, shape: Session.Geometry)
      returns (scan: Session.Scan<Session.Image>)
      requires shape.rows >= 0 && shape.cols >= 0
      ensures scan == Session.ScanRows(Session.CellGrid(Session.Job(volumeData, axis, crit, shape)), 0, [])
    {
      ghost var grid: seq<seq<Session.Cell>> := Session.CellGrid(Session.Job(volumeData, axis, crit, shape));
      var rows, cols: nat := shape.rows, shape.cols;
      var result := Zeros(rows, cols);
      var r := 0;
      while r < rows
        invariant 0 <= r <= rows
        invariant IsGrid(result, rows, cols)
        invariant Session.ScanRows(grid, 0, []) == Session.ScanRows(grid, r, result[..r])
      {
        ghost var above := result[..r];
        var c := 0;
        while c < cols
          invariant 0 <= c <= cols
          invariant IsGrid(result, rows, cols) && result[..r] == above
          invariant Session.ScanRow(grid[r], 0, []) == Session.ScanRow(grid[r], c, result[r][..c])
        {
          var cell := RayCell(axis, crit, shape, r, c);
          match cell {
          case Fault(s) =>
            return Session.Stopped(s);
          case Sample(v) =>
            Prefix(result[r][c := v], c);
            result := result[r := result[r][c := v]];
          }
          c := c + 1;
        }
        assert result[r][..c] == result[r];
        Prefix(result, r);
        r := r + 1;
      }
      assert result[..r] == result;
      return Session.Done(result);
    }

    /** One cell of `projection2D`: the values along the ray through
        (`r`, `c`) are collected in order, then the criterion is applied. */
    method RayCell(axis: Session.Axis, crit: Option<Criterion>, shape: Session.Geometry, r: nat, c: nat)
      returns (cell: Session.Cell)
      ensures cell == Session.CellOf(Session.Job(volumeData, axis, crit, shape), r, c)
    {
      var values: seq<int> := [];
      var t := 0;
      while t < shape.len
        invariant 0 <= t <= Session.Steps(shape.len) && |values| == t
        invariant forall u: nat :: u < t ==> Session.InVolume(volumeData, Session.Voxel(axis, r, c, u))
        invariant forall u :: 0 <= u < t ==>
                    var v := Session.Voxel(axis, r, c, u); values[u] == volumeData[v.0][v.1][v.2]
      {
        var v := Session.Voxel(axis, r, c, t);
        if !Session.InVolume(volumeData, v) {
          return Session.Fault(Session.ProjectionUndefined);
        }
        values := values + [volumeData[v.0][v.1][v.2]];
        t := t + 1;
      }
      assert values == Session.Ray(volumeData, axis, r, c, shape.len);
      if crit.None? {
        return Session.Fault(Session.BadCriterion);
      }
      var value := Reduce(crit.value, values, shape.len);
      if value.None? {
        return Session.Fault(Session.ProjectionUndefined);
      }
      return Session.Sample(value.value);
    }
  }
}
