/** The plain PGM ("P2") text format as `loadImage` reads it and as
    `projection2D` writes it. */
module Pgm {
  import opened Streams
  import opened Sequences

  /** A grid of `h` rows of `w` samples each. */
  predicate IsGrid(g: seq<seq<int>>, h: int, w: int) {
    |g| == h && forall r :: 0 <= r < |g| ==> |g[r]| == w
  }

  predicate InRange(g: seq<seq<int>>, lo: int, hi: int) {
    forall r, c :: 0 <= r < |g| && 0 <= c < |g[r]| ==> lo <= g[r][c] <= hi
  }

  /** The row-major sequence of a grid's samples. */
  function Flatten(g: seq<seq<int>>): seq<int> {
    if g == [] then [] else g[0] + Flatten(g[1..])
  }

  /** What `imageData.assign(height, vector<int>(width))` creates. */
  function Zeros(h: nat, w: nat): (g: seq<seq<int>>)
    ensures IsGrid(g, h, w) && InRange(g, 0, 0)
  {
    seq(h, _ => seq(w, _ => 0))
  }

  // ---------------------------------------------------------------- header

  /** Blank lines and lines whose first character is `#` are skipped by the
      header scan; every other line is significant. */
  predicate Significant(line: string) {
    line != [] && line[0] != '#'
  }

  /** `ss >> width >> height` on one line.  When the first extraction fails,
      the second is not attempted. */
  function ReadDims(line: string, w: int, h: int): (int, int) {
    match ExtractInt(line)
    case Exhausted => (w, h)
    case Invalid => (0, h)
    case Got(v, rest) =>
      match ExtractInt(rest)
      case Exhausted => (v, h)
      case Invalid => (v, 0)
      case Got(v2, _) => (v, v2)
  }

  /** `ss >> maxPixelValue` on one line; the rest of the line is dropped. */
  function ReadMax(line: string, m: int): int {
    match ExtractInt(line)
    case Exhausted => m
    case Invalid => 0
    case Got(v, _) => v
  }

  datatype Header = Header(width: int, height: int, maxValue: int, rest: string)

  /** The two-state header loop of `loadImage`: while `width` is still -1 a
      significant line is read as the dimensions, and the first significant
      line after that as the maximum value, which ends the loop.  It also
      ends when no line is left.  `rest` is the text after the last line
      read. */
  function ScanHeader(t: string, w: int, h: int, m: int): (r: Header)
    ensures |r.rest| <= |t|
    decreases |t|
  {
    match GetLine(t)
    case None => Header(w, h, m, t)
    case Some(Read(line, rest)) =>
      if !Significant(line) then ScanHeader(rest, w, h, m)
      else if w == -1 then
        var d := ReadDims(line, w, h);
        ScanHeader(rest, d.0, d.1, m)
      else
        Header(w, h, ReadMax(line, m), rest)
  }

  /** The validation `loadImage` applies to the header fields. */
  predicate ValidHeader(w: int, h: int, m: int) {
    w > 0 && h > 0 && 0 < m <= 255
  }

  // ------------------------------------------------------------------ body

  /** What the sample loop of `loadImage` has extracted: the values it
      stored, one per cell in row-major order, and whether it read every
      cell. */
  datatype BodyRead = BodyRead(values: seq<int>, complete: bool)

  /** The sample loop, for `n` cells: every sample is extracted straight
      into its cell, and the loop stops at the first extraction that fails
      or gives a value outside [0, mx]. */
  function ReadBody(t: string, n: nat, mx: int): (r: BodyRead)
    ensures |r.values| <= n
    ensures r.complete ==> |r.values| == n
    ensures r.complete ==> forall k :: 0 <= k < |r.values| ==> 0 <= r.values[k] <= mx
    decreases n, 1
  {
    if n == 0 then BodyRead([], true) else ReadSample(t, n, mx)
  }

  /** One pass of the sample loop, with `n` cells to go: a value out of
      range has already been stored when the loop stops; text that is not a
      number stores 0; at the end of the text nothing is stored. */
  function ReadSample(t: string, n: nat, mx: int): (r: BodyRead)
    requires n > 0
    ensures |r.values| <= n
    ensures r.complete ==> |r.values| == n
    ensures r.complete ==> forall k :: 0 <= k < |r.values| ==> 0 <= r.values[k] <= mx
    decreases n, 0
  {
    match ExtractInt(t)
    case Got(v, rest) =>
      if v < 0 || v > mx then BodyRead([v], false)
      else
        var r := ReadBody(rest, n - 1, mx);
        BodyRead([v] + r.values, r.complete)
    case Invalid => BodyRead([0], false)
    case Exhausted => BodyRead([], false)
  }

  /** The grid of `h` rows of `w` cells after the first `|vals|` cells, in
      row-major order, have been given `vals`; the others keep the 0 they
      were created with. */
  function Fill(h: nat, w: nat, vals: seq<int>): (g: seq<seq<int>>)
    ensures IsGrid(g, h, w)
  {
    seq(h, r => seq(w, c => var k := r * w + c; if 0 <= k < |vals| then vals[k] else 0))
  }

  // ----------------------------------------------------------------- parse

  /** Where `loadImage` stops once the file is open, with the values it has
      written by then: nothing (bad magic), the three header fields (bad
      header), the header fields and a partly filled grid (corrupt body), or
      everything (success). */
  datatype ParseOutcome =
    | BadMagic
    | BadHeader(width: int, height: int, maxValue: int)
    | Corrupt(width: int, height: int, maxValue: int, data: seq<seq<int>>)
    | Parsed(width: int, height: int, maxValue: int, data: seq<seq<int>>)

  /** The row-major index of the first cell of row `i` in rows of `w`
      cells. */
  function RowStart(i: nat, w: nat): nat {
    if i == 0 then 0 else RowStart(i - 1, w) + w
  }

  lemma {:induction false} RowStartProduct(i: nat, w: nat)
    ensures RowStart(i, w) == i * w
  {
    if i > 0 {
      RowStartProduct(i - 1, w);
      assert i * w == (i - 1) * w + w;
    }
  }

  /** The header fields as the scan leaves them, `width`, `height` and
      `maxPixelValue` having been set to -1 first. */
  function HeaderOf(text: string): Header {
    ScanHeader(ReadWord(text).rest, -1, -1, -1)
  }

  function Parse(text: string): ParseOutcome {
    if ReadWord(text).value != Magic then BadMagic
    else
      var hd := HeaderOf(text);
      if !ValidHeader(hd.width, hd.height, hd.maxValue) then
        BadHeader(hd.width, hd.height, hd.maxValue)
      else
        var b := ReadBody(hd.rest, RowStart(hd.height, hd.width), hd.maxValue);
        var g := Fill(hd.height, hd.width, b.values);
        if b.complete then Parsed(hd.width, hd.height, hd.maxValue, g)
        else Corrupt(hd.width, hd.height, hd.maxValue, g)
  }

  // ---------------------------------------------------------------- writer

  /** The magic word of the plain format. */
  const Magic: string := "P2"

  const Comment: string := "# Proyecci\U{F3}n 2D generada"

  /** One written row: every sample followed by a space. */
  function Cells(row: seq<int>): string {
    if row == [] then [] else IntToString(row[0]) + " " + Cells(row[1..])
  }

  /** All rows, each ended by a newline. */
  function Body(g: seq<seq<int>>): string {
    if g == [] then [] else Cells(g[0]) + "\n" + Body(g[1..])
  }

  /** The line that declares the size: the number of columns, then the
      number of rows. */
  function SizeLine(cols: int, rows: int): string {
    IntToString(cols) + " " + IntToString(rows)
  }

  /** The header lines before `body`: magic, comment, size and maximum value. */
  function WithHeader(cols: int, rows: int, mx: int, body: string): string {
    Magic + "\n" + (Comment + "\n" + (SizeLine(cols, rows) + "\n" + (IntToString(mx) + "\n" + body)))
  }

  /** The text `projection2D` writes for a grid. */
  function Serialize(g: seq<seq<int>>, cols: int, rows: int, mx: int): string {
    WithHeader(cols, rows, mx, Body(g))
  }

  /** The output loops of `projection2D`, writing to a text buffer. */
  method Write(g: seq<seq<int>>, cols: int, rows: int, mx: int) returns (out: string)
    ensures out == Serialize(g, cols, rows, mx)
  {
    var body: string := [];
    for r := 0 to |g|
      invariant body == Body(g[..r])
    {
      var row := g[r];
      var line := WriteRow(row);
      BodySnoc(g[..r], row);
      Prefix(g, r);
      body := body + line + "\n";
    }
    assert g[..|g|] == g;
    out := WithHeader(cols, rows, mx, body);
  }

  method WriteRow(row: seq<int>) returns (out: string)
    ensures out == Cells(row)
  {
    out := [];
    for c := 0 to |row|
      invariant out == Cells(row[..c])
    {
      CellsSnoc(row[..c], row[c]);
      Prefix(row, c);
      out := out + IntToString(row[c]) + " ";
    }
    assert row[..|row|] == row;
  }

  // ---------------------------------------------------------------- lemmas

  lemma {:induction false} CellsAppend(a: seq<int>, b: seq<int>)
    ensures Cells(a + b) == Cells(a) + Cells(b)
  {
    if a != [] {
      assert (a + b)[1..] == a[1..] + b;
      CellsAppend(a[1..], b);
    } else {
      assert a + b == b;
    }
  }

  lemma CellsSnoc(a: seq<int>, v: int)
    ensures Cells(a + [v]) == Cells(a) + IntToString(v) + " "
  {
    CellsAppend(a, [v]);
    assert [v][1..] == [];
  }

  lemma BodySnoc(a: seq<seq<int>>, row: seq<int>)
    ensures Body(a + [row]) == Body(a) + Cells(row) + "\n"
  {
    BodyAppend(a, [row]);
    assert [row][1..] == [];
  }

  lemma {:induction false} BodyAppend(a: seq<seq<int>>, b: seq<seq<int>>)
    ensures Body(a + b) == Body(a) + Body(b)
  {
    if a != [] {
      assert (a + b)[1..] == a[1..] + b;
      BodyAppend(a[1..], b);
    } else {
      assert a + b == b;
    }
  }

  // ------------------------------------------------- reading the body back

  /** Row-major numbering of the cells of an `h` by `w` grid. */
  lemma RowMajor(r: nat, c: nat, h: nat, w: nat)
    requires r < h && c < w
    ensures r * w + c < h * w
  {
    assert r * w + w <= h * w by {
      assert (r + 1) * w <= h * w;
    }
  }

  /** The cell in row `r`, column `c` of a grid of rows `w` long is sample
      `r * w + c` of its row-major sequence. */
  lemma {:induction false} FlattenIndex(g: seq<seq<int>>, w: nat, r: nat, c: nat)
    requires IsGrid(g, |g|, w) && r < |g| && c < w
    ensures r * w + c < |Flatten(g)| && Flatten(g)[r * w + c] == g[r][c]
  {
    FlattenLength(g, w);
    RowMajor(r, c, |g|, w);
    if r > 0 {
      FlattenIndex(g[1..], w, r - 1, c);
      assert Flatten(g) == g[0] + Flatten(g[1..]);
      assert r * w + c == w + ((r - 1) * w + c);
    }
  }

  lemma {:induction false} FlattenLength(g: seq<seq<int>>, w: nat)
    requires IsGrid(g, |g|, w)
    ensures |Flatten(g)| == |g| * w
  {
    if g != [] {
      FlattenLength(g[1..], w);
    }
  }

  /** A grid of `w` columns holds as many samples as its rows start with. */
  lemma {:induction false} FlattenRows(g: seq<seq<int>>, w: nat)
    requires IsGrid(g, |g|, w)
    ensures |Flatten(g)| == RowStart(|g|, w)
  {
    if g != [] {
      FlattenRows(g[1..], w);
    }
  }

  /** Filling a grid with its own samples gives the grid back. */
  lemma FillFlatten(g: seq<seq<int>>, h: nat, w: nat)
    requires IsGrid(g, h, w)
    ensures Fill(h, w, Flatten(g)) == g
  {
    var f := Fill(h, w, Flatten(g));
    forall r | 0 <= r < h
      ensures f[r] == g[r]
    {
      forall c | 0 <= c < w
        ensures f[r][c] == g[r][c]
      {
        FlattenIndex(g, w, r, c);
      }
    }
  }

  lemma FlattenHas(g: seq<seq<int>>, r: nat, c: nat)
    requires r < |g| && c < |g[r]|
    ensures g[r][c] in Flatten(g)
  {
    if r > 0 {
      FlattenHas(g[1..], r - 1, c);
    }
  }

  lemma RowMajorInverse(k: nat, h: nat, w: nat)
    requires k < h * w
    ensures w > 0 && k / w < h && k % w < w && k == (k / w) * w + k % w
  {
    assert w > 0;
    if k / w >= h {
      RowMajorAbove(k / w, h, w);
    }
  }

  lemma RowMajorAbove(q: nat, h: nat, w: nat)
    requires q >= h
    ensures q * w >= h * w
  {
  }

  /** A grid filled with exactly as many samples as it has cells holds
      those samples in row-major order. */
  lemma FillComplete(h: nat, w: nat, vals: seq<int>)
    requires |vals| == h * w
    ensures Flatten(Fill(h, w, vals)) == vals
  {
    var g := Fill(h, w, vals);
    FlattenLength(g, w);
    forall k | 0 <= k < |vals|
      ensures Flatten(g)[k] == vals[k]
    {
      RowMajorInverse(k, h, w);
      FlattenIndex(g, w, k / w, k % w);
    }
  }

  lemma FillInRange(h: nat, w: nat, vals: seq<int>, mx: int)
    requires |vals| == h * w
    requires forall k :: 0 <= k < |vals| ==> 0 <= vals[k] <= mx
    ensures InRange(Fill(h, w, vals), 0, mx)
  {
    var g := Fill(h, w, vals);
    forall r, c | 0 <= r < |g| && 0 <= c < |g[r]|
      ensures 0 <= g[r][c] <= mx
    {
      RowMajor(r, c, h, w);
    }
  }

  /** `loadImage` succeeds exactly on a text with the magic `P2`, a valid
      header and `height * width` readable samples in [0, maxValue] after
      it; the image is then `height` rows of `width` samples holding those
      samples in file order. */
  lemma ParseSucceeds(text: string)
    ensures Parse(text).Parsed? <==>
              ReadWord(text).value == Magic
              && var hd := HeaderOf(text);
                 ValidHeader(hd.width, hd.height, hd.maxValue)
                 && ReadBody(hd.rest, RowStart(hd.height, hd.width), hd.maxValue).complete
    ensures Parse(text).Parsed? ==>
              var p := Parse(text);
              var hd := HeaderOf(text);
              && p.width == hd.width && p.height == hd.height && p.maxValue == hd.maxValue
              && ValidHeader(p.width, p.height, p.maxValue)
              && IsGrid(p.data, p.height, p.width)
              && InRange(p.data, 0, p.maxValue)
              && Flatten(p.data) == ReadBody(hd.rest, RowStart(p.height, p.width), p.maxValue).values
  {
    var p := Parse(text);
    if p.Parsed? {
      var hd := HeaderOf(text);
      var b := ReadBody(hd.rest, RowStart(hd.height, hd.width), hd.maxValue);
      RowStartProduct(hd.height, hd.width);
      FillComplete(hd.height, hd.width, b.values);
      FillInRange(hd.height, hd.width, b.values, hd.maxValue);
    }
  }

  // ------------------------------------------------------ header layouts

  predicate NoNewline(line: string) {
    forall k :: 0 <= k < |line| ==> line[k] != '\n'
  }

  /** Lines, each ended by a newline. */
  function Lines(ls: seq<string>): string {
    if ls == [] then [] else ls[0] + "\n" + Lines(ls[1..])
  }

  predicate Skipped(ls: seq<string>) {
    forall k :: 0 <= k < |ls| ==> NoNewline(ls[k]) && !Significant(ls[k])
  }

  lemma {:induction false} SkipLines(ls: seq<string>, x: string, w: int, h: int, m: int)
    requires Skipped(ls)
    ensures ScanHeader(Lines(ls) + x, w, h, m) == ScanHeader(x, w, h, m)
  {
    if ls != [] {
      assert Lines(ls) + x == ls[0] + "\n" + (Lines(ls[1..]) + x);
      GetLineOf(ls[0], Lines(ls[1..]) + x);
      SkipLines(ls[1..], x, w, h, m);
    } else {
      assert Lines(ls) + x == x;
    }
  }

  lemma WordOf(word: string, x: string)
    requires word != [] && forall k :: 0 <= k < |word| ==> !IsSpace(word[k])
    requires x == [] || IsSpace(x[0])
    ensures ReadWord(word + x) == Read(word, x)
  {
    assert SkipSpace(word + x) == word + x by {
      assert (word + x)[0] == word[0];
    }
    WordLengthOf(word, x);
    assert (word + x)[..|word|] == word;
    assert (word + x)[|word|..] == x;
  }

  lemma {:induction false} WordLengthOf(word: string, x: string)
    requires forall k :: 0 <= k < |word| ==> !IsSpace(word[k])
    requires x == [] || IsSpace(x[0])
    ensures WordLength(word + x) == |word|
  {
    if word != [] {
      assert (word + x)[1..] == word[1..] + x;
      WordLengthOf(word[1..], x);
    }
  }

  /** The magic word on its own line; the scan starts on the next line. */
  lemma MagicLine(x: string)
    ensures ReadWord(Magic + "\n" + x).value == Magic
    ensures HeaderOf(Magic + "\n" + x) == ScanHeader(x, -1, -1, -1)
  {
    assert Magic + "\n" + x == Magic + ("\n" + x);
    WordOf(Magic, "\n" + x);
    GetLineOf([], x);
    assert [] + "\n" + x == "\n" + x;
  }

  /** A line that starts with a number is not skipped. */
  lemma NumberLine(line: string)
    requires ExtractInt(line).Got?
    ensures Significant(line)
  {
    ExtractExhausted(line);
    assert !AllSpace(line);
  }

  lemma DimsLine(dims: string, x: string, h: int, m: int)
    requires NoNewline(dims) && Significant(dims)
    ensures ScanHeader(dims + "\n" + x, -1, h, m)
         == ScanHeader(x, ReadDims(dims, -1, h).0, ReadDims(dims, -1, h).1, m)
  {
    GetLineOf(dims, x);
  }

  lemma MaxLine(line: string, x: string, w: int, h: int, m: int)
    requires w != -1 && NoNewline(line) && Significant(line)
    ensures ScanHeader(line + "\n" + x, w, h, m) == Header(w, h, ReadMax(line, m), x)
  {
    GetLineOf(line, x);
  }

  /** The header layout `loadImage` accepts: lines it skips, one line that
      sets the width (and the height, when it holds a second number), lines
      it skips, and one line that sets the maximum value.  Whatever follows
      the numbers on those two lines is ignored, and the samples start on
      the next line. */
  lemma HeaderLayout(pre: seq<string>, dims: string, mid: seq<string>, maxLine: string, body: string)
    requires Skipped(pre) && Skipped(mid)
    requires NoNewline(dims) && Significant(dims) && ReadDims(dims, -1, -1).0 != -1
    requires NoNewline(maxLine) && Significant(maxLine)
    ensures HeaderOf(Magic + "\n" + (Lines(pre) + (dims + "\n" + (Lines(mid) + (maxLine + "\n" + body)))))
         == Header(ReadDims(dims, -1, -1).0, ReadDims(dims, -1, -1).1, ReadMax(maxLine, -1), body)
  {
    var d := ReadDims(dims, -1, -1);
    var afterDims := Lines(mid) + (maxLine + "\n" + body);
    var afterMagic := Lines(pre) + (dims + "\n" + afterDims);
    MagicLine(afterMagic);
    SkipLines(pre, dims + "\n" + afterDims, -1, -1, -1);
    DimsLine(dims, afterDims, -1, -1);
    SkipLines(mid, maxLine + "\n" + body, d.0, d.1, -1);
    MaxLine(maxLine, body, d.0, d.1, -1);
  }

  /** Once the width is set, the scan changes neither it nor the height. */
  lemma {:induction false} ScanKeepsDims(t: string, w: int, h: int, m: int)
    requires w != -1
    ensures ScanHeader(t, w, h, m).width == w && ScanHeader(t, w, h, m).height == h
    decreases |t|
  {
    match GetLine(t)
    case None =>
    case Some(Read(line, rest)) =>
      if !Significant(line) {
        ScanKeepsDims(rest, w, h, m);
      }
  }

  /** Width and height must share a line: a first significant line that
      holds the width alone leaves the height at -1, and the load fails. */
  lemma SplitDimensionsRejected(pre: seq<string>, line: string, rest: string)
    requires Skipped(pre) && NoNewline(line)
    requires ExtractInt(line).Got? && ExtractInt(line).value != -1
    requires AllSpace(ExtractInt(line).rest)
    ensures HeaderOf(Magic + "\n" + (Lines(pre) + (line + "\n" + rest))).height == -1
    ensures Parse(Magic + "\n" + (Lines(pre) + (line + "\n" + rest))).BadHeader?
  {
    var w := ExtractInt(line).value;
    MagicLine(Lines(pre) + (line + "\n" + rest));
    SkipLines(pre, line + "\n" + rest, -1, -1, -1);
    NumberLine(line);
    DimsLine(line, rest, -1, -1);
    ExtractExhausted(ExtractInt(line).rest);
    assert ReadDims(line, -1, -1) == (w, -1);
    ScanKeepsDims(rest, w, -1, -1);
  }

  // ------------------------------------------------ accepted header layouts

  /** While the width is still -1, a line the scan reads without setting the
      width: one it skips, or a significant line that holds only blanks or
      starts with the number -1.  A line of the second kind can still set
      the height, from a second number on it. */
  predicate PassedOver(line: string) {
    NoNewline(line) && (!Significant(line) || ReadDims(line, -1, -1).0 == -1)
  }

  /** The height left by lines passed over, starting from height `h`. */
  function HeightAfter(ls: seq<string>, h: int): int {
    if ls == [] then h
    else HeightAfter(ls[1..], if Significant(ls[0]) then ReadDims(ls[0], -1, h).1 else h)
  }

  /** Lines passed over leave the scan in its first state, with the height
      they set. */
  lemma {:induction false} PassOverLines(ls: seq<string>, x: string, h: int, m: int)
    requires forall k :: 0 <= k < |ls| ==> PassedOver(ls[k])
    ensures ScanHeader(Lines(ls) + x, -1, h, m) == ScanHeader(x, -1, HeightAfter(ls, h), m)
    decreases |ls|
  {
    if ls == [] {
      assert Lines(ls) + x == x;
    } else {
      var line := ls[0];
      assert Lines(ls) + x == line + "\n" + (Lines(ls[1..]) + x);
      GetLineOf(line, Lines(ls[1..]) + x);
      var h' := if Significant(line) then ReadDims(line, -1, h).1 else h;
      PassOverLines(ls[1..], x, h', m);
    }
  }

  /** A line of blanks is significant, yet it sets neither the width nor
      the height. */
  lemma BlankLinePassedOver(line: string, h: int)
    requires line != [] && NoNewline(line) && AllSpace(line)
    ensures Significant(line) && PassedOver(line) && ReadDims(line, -1, h) == (-1, h)
  {
    ExtractExhausted(line);
  }

  /** The scan's first line is what follows the magic word on its line, so
      the size may share the line of `P2`: that rest is a significant line. */
  lemma SizeOnMagicLine(line: string, x: string)
    requires NoNewline(line) && line != [] && IsSpace(line[0])
    ensures ReadWord(Magic + (line + "\n" + x)).value == Magic && Significant(line)
    ensures HeaderOf(Magic + (line + "\n" + x)) == ScanHeader(line + "\n" + x, -1, -1, -1)
  {
    WordOf(Magic, line + "\n" + x);
  }

  /** A line whose first number is -1 leaves the width at -1, and a second
      number on it becomes the height. */
  lemma MinusOneLinePassedOver(line: string, h: int)
    requires NoNewline(line) && ExtractInt(line).Got? && ExtractInt(line).value == -1
    ensures Significant(line) && PassedOver(line)
    ensures ExtractInt(ExtractInt(line).rest).Got? ==>
              ReadDims(line, -1, h) == (-1, ExtractInt(ExtractInt(line).rest).value)
  {
    NumberLine(line);
  }

  /** So the height may come before the width: a line `-1 h` and then a
      line holding the width alone set both, where the width alone on the
      first significant line is rejected. */
  lemma HeightBeforeWidth(hl: string, wl: string, x: string)
    requires NoNewline(hl) && ExtractInt(hl).Got? && ExtractInt(hl).value == -1
    requires ExtractInt(ExtractInt(hl).rest).Got?
    requires NoNewline(wl) && ExtractInt(wl).Got? && ExtractInt(wl).value != -1
    requires AllSpace(ExtractInt(wl).rest)
    ensures ScanHeader(hl + "\n" + (wl + "\n" + x), -1, -1, -1)
         == ScanHeader(x, ExtractInt(wl).value, ExtractInt(ExtractInt(hl).rest).value, -1)
  {
    var h := ExtractInt(ExtractInt(hl).rest).value;
    GetLineOf(hl, wl + "\n" + x);
    MinusOneLinePassedOver(hl, -1);
    NumberLine(wl);
    DimsLine(wl, x, h, -1);
    ExtractExhausted(ExtractInt(wl).rest);
    assert ReadDims(wl, -1, h) == (ExtractInt(wl).value, h);
  }

  /** What `getline` reads: a line without a newline, then the newline and
      the rest of the text, or else the last line of the text. */
  lemma GetLineSplit(t: string)
    requires t != []
    ensures var r := GetLine(t).value;
            && NoNewline(r.value)
            && (t == r.value + ("\n" + r.rest) || (t == r.value && r.rest == []))
  {
    var n := LineLength(t);
    if n < |t| {
      assert t == t[..n] + ("\n" + t[n + 1..]);
    }
  }

  lemma LinesCons(line: string, ls: seq<string>, x: string)
    ensures Lines([line] + ls) + x == line + ("\n" + (Lines(ls) + x))
  {
    assert ([line] + ls)[1..] == ls;
    Assoc(line + "\n", Lines(ls), x);
    Assoc(line, "\n", Lines(ls) + x);
  }

  /** One line of the header scan. */
  lemma ScanLine(t: string, w: int, h: int, m: int)
    requires t != []
    ensures var r := GetLine(t).value;
            ScanHeader(t, w, h, m)
              == if !Significant(r.value) then ScanHeader(r.rest, w, h, m)
                 else if w == -1 then ScanHeader(r.rest, ReadDims(r.value, w, h).0, ReadDims(r.value, w, h).1, m)
                 else Header(w, h, ReadMax(r.value, m), r.rest)
  {
  }

  lemma SkippedCons(line: string, ls: seq<string>)
    requires NoNewline(line) && !Significant(line) && Skipped(ls)
    ensures Skipped([line] + ls)
  {
    assert forall k :: 1 <= k < |[line] + ls| ==> ([line] + ls)[k] == ls[k - 1];
  }

  lemma PassedOverCons(line: string, ls: seq<string>)
    requires PassedOver(line) && forall k :: 0 <= k < |ls| ==> PassedOver(ls[k])
    ensures forall k :: 0 <= k < |[line] + ls| ==> PassedOver(([line] + ls)[k])
  {
    assert forall k :: 1 <= k < |[line] + ls| ==> ([line] + ls)[k] == ls[k - 1];
  }

  /** The second state of the header scan, when it ends by reading a
      maximum value: the text is lines it skips, the line it reads the
      maximum from, and the rest after that line's newline (or no rest, when
      that line is the last one). */
  lemma {:induction false} MaxPhase(t: string, w: int, h: int)
      returns (mid: seq<string>, maxLine: string, nl: string)
    requires w != -1 && ScanHeader(t, w, h, -1).maxValue != -1
    ensures var hd := ScanHeader(t, w, h, -1);
            && Skipped(mid) && NoNewline(maxLine) && Significant(maxLine)
            && (nl == "\n" || (nl == [] && hd.rest == []))
            && t == Lines(mid) + (maxLine + (nl + hd.rest))
            && hd == Header(w, h, ReadMax(maxLine, -1), hd.rest)
    decreases |t|
  {
    var hd := ScanHeader(t, w, h, -1);
    GetLineSplit(t);
    ScanLine(t, w, h, -1);
    var r := GetLine(t).value;
    var line, rest := r.value, r.rest;
    if !Significant(line) {
      assert hd == ScanHeader(rest, w, h, -1);
      assert rest != [];
      var mid', ml, nl' := MaxPhase(rest, w, h);
      mid, maxLine, nl := [line] + mid', ml, nl';
      LinesCons(line, mid', maxLine + (nl + hd.rest));
      SkippedCons(line, mid');
    } else {
      assert hd == Header(w, h, ReadMax(line, -1), rest);
      mid, maxLine := [], line;
      nl := if t == line + ("\n" + rest) then "\n" else [];
      Unit(line);
      assert Lines(mid) == [];
      Unit(t);
    }
  }

  /** The first state of the header scan, for a scan that ends with the
      width set and a maximum value read: lines passed over, the line that
      sets the width (and the height, from a second number), then the lines
      and the rest that `MaxPhase` describes. */
  lemma {:induction false} SizePhase(t: string, h: int)
      returns (pre: seq<string>, dims: string, mid: seq<string>, maxLine: string, nl: string)
    requires ScanHeader(t, -1, h, -1).width != -1 && ScanHeader(t, -1, h, -1).maxValue != -1
    ensures var hd := ScanHeader(t, -1, h, -1);
            && (forall k :: 0 <= k < |pre| ==> PassedOver(pre[k]))
            && NoNewline(dims) && Significant(dims) && ReadDims(dims, -1, -1).0 != -1
            && Skipped(mid) && NoNewline(maxLine) && Significant(maxLine)
            && (nl == "\n" || (nl == [] && hd.rest == []))
            && t == Lines(pre) + (dims + ("\n" + (Lines(mid) + (maxLine + (nl + hd.rest)))))
            && hd == Header(ReadDims(dims, -1, -1).0, ReadDims(dims, -1, HeightAfter(pre, h)).1,
                            ReadMax(maxLine, -1), hd.rest)
    decreases |t|
  {
    var hd := ScanHeader(t, -1, h, -1);
    GetLineSplit(t);
    ScanLine(t, -1, h, -1);
    var r := GetLine(t).value;
    var line, rest := r.value, r.rest;
    var d := ReadDims(line, -1, h);
    assert ReadDims(line, -1, -1).0 == d.0;
    if !Significant(line) || d.0 == -1 {
      var h' := if Significant(line) then d.1 else h;
      assert hd == ScanHeader(rest, -1, h', -1);
      assert rest != [];
      var pre';
      pre', dims, mid, maxLine, nl := SizePhase(rest, h');
      pre := [line] + pre';
      LinesCons(line, pre', dims + ("\n" + (Lines(mid) + (maxLine + (nl + hd.rest)))));
      assert pre[1..] == pre';
      assert HeightAfter(pre, h) == HeightAfter(pre', h');
      PassedOverCons(line, pre');
    } else {
      assert hd == ScanHeader(rest, d.0, d.1, -1);
      assert rest != [];
      pre, dims := [], line;
      mid, maxLine, nl := MaxPhase(rest, d.0, d.1);
      assert Lines(pre) == [];
      Unit(t);
    }
  }

  /** Every header `loadImage` accepts has the layout of `HeaderLayout`,
      with three differences: the lines before the size line may also be
      lines the scan passes over (blank, or starting with -1), which can set
      the height; the maximum line may be the last line of the text, with no
      newline after it (such a header is accepted, but the load is then
      corrupt: `HeaderAtEndCorrupt`); and the scan's first line is whatever
      follows the magic word on its line, so the size may share the line of
      `P2`, and blanks may come before `P2` (`LeadingBlanksIgnored`). */
  lemma AcceptedHeaderLayout(text: string)
      returns (pre: seq<string>, dims: string, mid: seq<string>, maxLine: string, nl: string)
    requires var hd := HeaderOf(text); ValidHeader(hd.width, hd.height, hd.maxValue)
    ensures var hd := HeaderOf(text);
            && (forall k :: 0 <= k < |pre| ==> PassedOver(pre[k]))
            && NoNewline(dims) && Significant(dims) && ReadDims(dims, -1, -1).0 != -1
            && Skipped(mid) && NoNewline(maxLine) && Significant(maxLine)
            && (nl == "\n" || (nl == [] && hd.rest == []))
            && ReadWord(text).rest
               == Lines(pre) + (dims + ("\n" + (Lines(mid) + (maxLine + (nl + hd.rest)))))
            && hd.width == ReadDims(dims, -1, -1).0
            && hd.height == ReadDims(dims, -1, HeightAfter(pre, -1)).1
            && hd.maxValue == ReadMax(maxLine, -1)
  {
    pre, dims, mid, maxLine, nl := SizePhase(ReadWord(text).rest, -1);
  }

  /** A header that ends the text is accepted, but the sample loop then
      finds no sample for the first cell: the load is corrupt and leaves the
      grid all 0. */
  lemma HeaderAtEndCorrupt(text: string)
    requires ReadWord(text).value == Magic
    requires var hd := HeaderOf(text); ValidHeader(hd.width, hd.height, hd.maxValue) && hd.rest == []
    ensures var hd := HeaderOf(text);
            Parse(text) == Corrupt(hd.width, hd.height, hd.maxValue, Fill(hd.height, hd.width, []))
  {
    var hd := HeaderOf(text);
    var n := RowStart(hd.height, hd.width);
    assert n > 0;
    assert ExtractInt([]) == Exhausted;
    assert ReadSample([], n, hd.maxValue) == BodyRead([], false);
    assert ReadBody([], n, hd.maxValue) == BodyRead([], false);
  }

  /** `>> format` skips whitespace before the magic word, so blanks before
      `P2` change neither the header nor the outcome of the load. */
  lemma LeadingBlanksIgnored(w: string, text: string)
    requires AllSpace(w)
    ensures HeaderOf(w + text) == HeaderOf(text)
    ensures Parse(w + text) == Parse(text)
  {
    SkipSpaceLeading(w, text);
  }

  // ------------------------------------------------------------ round trip

  lemma IntToStringNoNewline(v: int)
    ensures NoNewline(IntToString(v)) && Significant(IntToString(v))
  {
  }

  /** The comment line `projection2D` writes is skipped by the scan. */
  lemma CommentSkipped()
    ensures Skipped([Comment])
  {
    assert Comment[0] == '#';
    assert forall k :: 0 <= k < |Comment| ==> Comment[k] != '\n';
  }

  /** The written header, as the lines the scan reads. */
  lemma HeaderTextLayout(cols: int, rows: int, mx: int, body: string)
    ensures WithHeader(cols, rows, mx, body)
         == Magic + "\n" + (Lines([Comment]) + (SizeLine(cols, rows) + "\n"
              + (Lines([]) + (IntToString(mx) + "\n" + body))))
  {
    var x := SizeLine(cols, rows) + "\n" + (IntToString(mx) + "\n" + body);
    assert Lines([]) + (IntToString(mx) + "\n" + body) == IntToString(mx) + "\n" + body;
    assert Lines([Comment]) == Comment + "\n" + [];
    assert Lines([Comment]) + x == Comment + "\n" + x;
  }

  lemma NoNewlineJoin(a: string, b: string)
    requires NoNewline(a) && NoNewline(b)
    ensures NoNewline(a + b)
  {
    forall k | 0 <= k < |a + b|
      ensures (a + b)[k] != '\n'
    {
      if k >= |a| {
        assert (a + b)[k] == b[k - |a|];
      }
    }
  }

  /** The line `cols rows` that `projection2D` writes sets both dimensions. */
  lemma DimsWritten(cols: int, rows: int)
    ensures var dims := SizeLine(cols, rows);
            NoNewline(dims) && Significant(dims) && ReadDims(dims, -1, -1) == (cols, rows)
  {
    var c, r := IntToString(cols), IntToString(rows);
    IntToStringNoNewline(cols);
    IntToStringNoNewline(rows);
    NoNewlineJoin(c, " ");
    NoNewlineJoin(c + " ", r);
    assert (c + " " + r)[0] == c[0];
    ExtractWritten([], cols, " " + r);
    Unit(c);
    Assoc(c, " ", r);
    ExtractWritten(" ", rows, []);
    Unit(" " + r);
  }

  lemma MaxWritten(mx: int)
    ensures NoNewline(IntToString(mx)) && Significant(IntToString(mx))
    ensures ReadMax(IntToString(mx), -1) == mx
  {
    IntToStringNoNewline(mx);
    ExtractWritten([], mx, []);
    Unit(IntToString(mx));
  }

  lemma HeaderWritten(cols: int, rows: int, mx: int, body: string)
    requires cols != -1
    ensures HeaderOf(WithHeader(cols, rows, mx, body)) == Header(cols, rows, mx, body)
  {
    DimsWritten(cols, rows);
    MaxWritten(mx);
    CommentSkipped();
    HeaderTextLayout(cols, rows, mx, body);
    HeaderLayout([Comment], SizeLine(cols, rows), [], IntToString(mx), body);
  }

  /** Whitespace before the samples changes nothing in what is read. */
  lemma ReadBodyBlank(ws: string, x: string, n: nat, mx: int)
    requires AllSpace(ws)
    ensures ReadBody(ws + x, n, mx) == ReadBody(x, n, mx)
  {
    if n > 0 {
      SkipSpaceBlank(ws, x);
    }
  }

  function Prepend(vals: seq<int>, r: BodyRead): BodyRead {
    BodyRead(vals + r.values, r.complete)
  }

  lemma CellsCons(row: seq<int>, x: string)
    requires row != []
    ensures Cells(row) + x == IntToString(row[0]) + (" " + (Cells(row[1..]) + x))
  {
    Assoc(IntToString(row[0]), " ", Cells(row[1..]));
    Assoc(IntToString(row[0]), " " + Cells(row[1..]), x);
    Assoc(" ", Cells(row[1..]), x);
  }

  /** One written sample, and the space after it, is read back. */
  lemma ReadBodyWritten(v: int, z: string, m: nat, mx: int)
    requires 0 <= v <= mx && m > 0
    ensures ReadBody(IntToString(v) + (" " + z), m, mx) == Prepend([v], ReadBody(z, m - 1, mx))
  {
    ExtractWritten([], v, " " + z);
    Unit(IntToString(v));
    ReadBodyBlank(" ", z, m - 1, mx);
  }

  lemma PrependTwice(a: seq<int>, b: seq<int>, r: BodyRead)
    ensures Prepend(a, Prepend(b, r)) == Prepend(a + b, r)
  {
    assert a + (b + r.values) == a + b + r.values;
  }

  /** Every sample of `row` lies in [0, mx], checked from the front as the
      sample loop does. */
  predicate SamplesIn(row: seq<int>, mx: int) {
    row == [] || (0 <= row[0] <= mx && SamplesIn(row[1..], mx))
  }

  lemma {:induction false} SamplesInEvery(row: seq<int>, mx: int)
    ensures SamplesIn(row, mx) <==> forall k :: 0 <= k < |row| ==> 0 <= row[k] <= mx
  {
    if row != [] {
      SamplesInEvery(row[1..], mx);
      assert forall k :: 1 <= k < |row| ==> row[k] == row[1..][k - 1];
    }
  }

  /** A written row is read back sample by sample: reading `m` samples
      takes the row's samples and then `n` samples from what follows. */
  lemma {:induction false} ReadBodyCells(row: seq<int>, x: string, m: nat, n: nat, mx: int)
    requires SamplesIn(row, mx)
    requires m == |row| + n
    ensures ReadBody(Cells(row) + x, m, mx) == Prepend(row, ReadBody(x, n, mx))
  {
    if row == [] {
      Unit(x);
      Unit(ReadBody(x, n, mx).values);
    } else {
      var tail := row[1..];
      var after := ReadBody(x, n, mx);
      CellsCons(row, x);
      ReadBodyWritten(row[0], Cells(tail) + x, m, mx);
      ReadBodyCells(tail, x, m - 1, n, mx);
      PrependTwice([row[0]], tail, after);
      ConsTail(row);
    }
  }

  /** A written body is read back as the row-major samples of its grid. */
  lemma {:induction false} ReadBodyRows(g: seq<seq<int>>, mx: int)
    requires InRange(g, 0, mx)
    ensures ReadBody(Body(g), |Flatten(g)|, mx) == BodyRead(Flatten(g), true)
  {
    if g != [] {
      var row, tail := g[0], g[1..];
      var x := "\n" + Body(tail);
      var m := |Flatten(tail)|;
      assert InRange(tail, 0, mx);
      assert Body(g) == Cells(row) + x by {
        Assoc(Cells(row), "\n", Body(tail));
      }
      assert Flatten(g) == row + Flatten(tail);
      assert ReadBody(x, m, mx) == BodyRead(Flatten(tail), true) by {
        ReadBodyBlank("\n", Body(tail), m, mx);
        ReadBodyRows(tail, mx);
      }
      SamplesInEvery(row, mx);
      ReadBodyCells(row, x, |row| + m, m, mx);
    } else {
      assert ReadBody(Body(g), 0, mx) == BodyRead([], true);
    }
  }

  /** What `projection2D` writes is read back by `loadImage` as the same
      image, provided the header it declares is one `loadImage` accepts and
      every sample lies in [0, mx]. */
  lemma RoundTrip(g: seq<seq<int>>, rows: int, cols: int, mx: int)
    requires IsGrid(g, rows, cols) && ValidHeader(cols, rows, mx) && InRange(g, 0, mx)
    ensures Parse(Serialize(g, cols, rows, mx)) == Parsed(cols, rows, mx, g)
  {
    HeaderWritten(cols, rows, mx, Body(g));
    MagicLine(Comment + "\n" + (SizeLine(cols, rows) + "\n" + (IntToString(mx) + "\n" + Body(g))));
    ReadBodyRows(g, mx);
    FlattenRows(g, cols);
    FillFlatten(g, rows, cols);
  }

  /** A written sample outside [0, mx] stops the sample loop. */
  lemma ReadBodyWrittenOutside(v: int, z: string, m: nat, mx: int)
    requires (v < 0 || v > mx) && m > 0
    ensures !ReadBody(IntToString(v) + (" " + z), m, mx).complete
  {
    ExtractWritten([], v, " " + z);
    Unit(IntToString(v));
  }

  /** A read that completes through a written sample completes on what
      follows it. */
  lemma ReadBodyWrittenComplete(v: int, z: string, m: nat, mx: int)
    requires 0 <= v <= mx && m > 0
    requires ReadBody(IntToString(v) + (" " + z), m, mx).complete
    ensures ReadBody(z, m - 1, mx).complete
  {
    ReadBodyWritten(v, z, m, mx);
  }

  /** The sample loop reads past a written row only when every sample of
      the row is in [0, mx]. */
  lemma {:induction false} ReadBodyCellsComplete(row: seq<int>, x: string, m: nat, n: nat, mx: int)
    requires m == |row| + n
    requires ReadBody(Cells(row) + x, m, mx).complete
    ensures SamplesIn(row, mx)
    ensures ReadBody(x, n, mx).complete
  {
    if row == [] {
      assert Cells(row) + x == x;
    } else {
      var tail := row[1..];
      CellsCons(row, x);
      if row[0] < 0 || row[0] > mx {
        ReadBodyWrittenOutside(row[0], Cells(tail) + x, m, mx);
      } else {
        ReadBodyWrittenComplete(row[0], Cells(tail) + x, m, mx);
        ReadBodyCellsComplete(tail, x, m - 1, n, mx);
      }
    }
  }

  /** The sample loop reads a whole written body only when every sample is
      in [0, mx]. */
  lemma {:induction false} ReadBodyRowsComplete(g: seq<seq<int>>, mx: int)
    requires ReadBody(Body(g), |Flatten(g)|, mx).complete
    ensures InRange(g, 0, mx)
  {
    if g != [] {
      var row, tail := g[0], g[1..];
      var x := "\n" + Body(tail);
      var m := |Flatten(tail)|;
      assert Body(g) == Cells(row) + x by {
        Assoc(Cells(row), "\n", Body(tail));
      }
      assert Flatten(g) == row + Flatten(tail);
      ReadBodyCellsComplete(row, x, |row| + m, m, mx);
      SamplesInEvery(row, mx);
      ReadBodyBlank("\n", Body(tail), m, mx);
      ReadBodyRowsComplete(tail, mx);
      forall r, c | 0 <= r < |g| && 0 <= c < |g[r]|
        ensures 0 <= g[r][c] <= mx
      {
        if r > 0 {
          assert g[r] == tail[r - 1];
        }
      }
    }
  }

  /** With a header `loadImage` accepts, what `projection2D` writes for a
      grid is read back whole exactly when every sample lies in [0, mx];
      otherwise the read stops with corrupt data. */
  lemma SerializedParses(g: seq<seq<int>>, rows: int, cols: int, mx: int)
    requires IsGrid(g, rows, cols) && ValidHeader(cols, rows, mx)
    ensures Parse(Serialize(g, cols, rows, mx)).Parsed? <==> InRange(g, 0, mx)
    ensures !InRange(g, 0, mx) ==> Parse(Serialize(g, cols, rows, mx)).Corrupt?
  {
    if InRange(g, 0, mx) {
      RoundTrip(g, rows, cols, mx);
    } else {
      HeaderWritten(cols, rows, mx, Body(g));
      MagicLine(Comment + "\n" + (SizeLine(cols, rows) + "\n" + (IntToString(mx) + "\n" + Body(g))));
      FlattenRows(g, cols);
      if ReadBody(Body(g), |Flatten(g)|, mx).complete {
        ReadBodyRowsComplete(g, mx);
      }
    }
  }

  // ------------------------------------------------- filling in row-major order

  /** Cells of rows of `w` columns, numbered in row-major order, are
      numbered in the order of their row, then their column. */
  lemma RowMajorOrder(r: nat, c: nat, i: nat, j: nat, w: nat)
    requires c < w && j < w
    ensures r * w + c < i * w + j <==> r < i || (r == i && c < j)
    ensures r * w + c == i * w + j <==> r == i && c == j
  {
    if r < i {
      assert (r + 1) * w <= i * w;
    } else if r > i {
      assert (i + 1) * w <= r * w;
    }
  }

  /** Storing a sample in the next cell of a partly filled grid fills one
      more cell. */
  lemma FillSnoc(h: nat, w: nat, vals: seq<int>, v: int, i: nat, j: nat)
    requires i < h && j < w && |vals| == i * w + j
    ensures Fill(h, w, vals + [v]) == Fill(h, w, vals)[i := Fill(h, w, vals)[i][j := v]]
  {
    var before, after := Fill(h, w, vals), Fill(h, w, vals + [v]);
    var updated := before[i := before[i][j := v]];
    forall r | 0 <= r < h
      ensures after[r] == updated[r]
    {
      forall c | 0 <= c < w
        ensures after[r][c] == updated[r][c]
      {
        RowMajorOrder(r, c, i, j, w);
      }
    }
  }

  /** The zeros `loadImage` creates are a grid no sample has been stored in. */
  lemma ZerosUnfilled(h: nat, w: nat)
    ensures Zeros(h, w) == Fill(h, w, [])
  {
    var z, f := Zeros(h, w), Fill(h, w, []);
    forall r | 0 <= r < h
      ensures z[r] == f[r]
    {
    }
  }

  /** One step of the sample loop, for a loop that has stored `vals` so far
      and has `left` cells to go in the text `t`: a sample in range is
      stored and the loop goes on, ... */
  lemma NextSample(whole: BodyRead, vals: seq<int>, t: string, left: nat, mx: int, v: int, rest: string)
    requires whole == Prepend(vals, ReadBody(t, left, mx)) && left > 0
    requires ExtractInt(t) == Got(v, rest) && 0 <= v <= mx
    ensures whole == Prepend(vals + [v], ReadBody(rest, left - 1, mx))
  {
    PrependTwice(vals, [v], ReadBody(rest, left - 1, mx));
  }

  /** ... and otherwise the loop stops with what it has stored: a sample
      out of range, 0 for text that is not a number, nothing at the end of
      the text. */
  lemma LastTry(whole: BodyRead, vals: seq<int>, t: string, left: nat, mx: int)
    requires whole == Prepend(vals, ReadBody(t, left, mx)) && left > 0
    requires !(ExtractInt(t).Got? && 0 <= ExtractInt(t).value <= mx)
    ensures ExtractInt(t).Got? ==> whole == BodyRead(vals + [ExtractInt(t).value], false)
    ensures ExtractInt(t).Invalid? ==> whole == BodyRead(vals + [0], false)
    ensures ExtractInt(t).Exhausted? ==> whole == BodyRead(vals, false)
  {
    assert vals + [] == vals;
  }

  /** After the last cell the loop has read the whole body. */
  lemma LastSample(whole: BodyRead, vals: seq<int>, t: string, mx: int)
    requires whole == Prepend(vals, ReadBody(t, 0, mx))
    ensures whole == BodyRead(vals, true)
  {
    assert vals + [] == vals;
  }
}
