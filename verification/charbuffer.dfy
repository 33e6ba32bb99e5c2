/** The character grid a frame is composed in (CBuffer.cs): Width*Height cells in
    row-major order, with cell reads and writes, row extraction and wrapped text
    placement. The grid is an immutable value and every write returns the new grid.
    Sizes and offsets are 32-bit C# ints, so their products are reduced with
    `Wrap32`; an exception the .NET runtime would raise becomes a `Failure`. */
module CharBuffer {
  import opened Numeric
  import opened Results

  datatype BufferError =
    | NegativeSize        // an array or string of negative length
    | IndexOutOfRange     // the indexer outside the array
    | ArgumentOutOfRange  // a negative Array.Copy index, or Substring outside the string
    | ArgumentPastEnd     // Array.Copy of more elements than follow the index (ArgumentException)
    | NoProgress          // text at width 0 on a grid of width 0: recursion until the stack overflows

  datatype Buffer = Buffer(width: int, height: int, cells: seq<char>)

  const Blank: char := ' '

  predicate AllBlank(cells: seq<char>) {
    forall i :: 0 <= i < |cells| ==> cells[i] == Blank
  }

  /** A grid of 32-bit dimensions whose cell count is exactly Width*Height: the
      product did not wrap. */
  predicate Fits(b: Buffer) {
    && 0 <= b.width < 0x8000_0000 && 0 <= b.height < 0x8000_0000
    && b.width * b.height < 0x8000_0000
    && |b.cells| == b.width * b.height
  }

  predicate InGrid(b: Buffer, x: int, y: int) {
    0 <= x < b.width && 0 <= y < b.height
  }

  // ---------------------------------------------------------------------------
  // Construction

  /** The constructor allocates `width*height` cells (in 32-bit arithmetic), all
      blank, and fails when that count or the width is negative. */
  function New(width: int, height: int): (r: Result<Buffer, BufferError>)
    ensures r.Success? <==> 0 <= width && 0 <= Wrap32(width * height)
    ensures r.Success? ==> r.value.width == width && r.value.height == height
    ensures r.Success? ==> |r.value.cells| == Wrap32(width * height) && AllBlank(r.value.cells)
  {
    var n := Wrap32(width * height);
    if n < 0 || width < 0 then Failure(NegativeSize)
    else Success(Buffer(width, height, seq(n, _ => Blank)))
  }

  /** Without wrap-around, a new grid has exactly Width*Height blank cells. */
  lemma NewFits(width: int, height: int)
    requires 0 <= width < 0x8000_0000 && 0 <= height < 0x8000_0000 && width * height < 0x8000_0000
    ensures New(width, height).Success?
    ensures Fits(New(width, height).value) && AllBlank(New(width, height).value.cells)
  {
    MulLe(0, width, height);
    assert Wrap32(width * height) == width * height;
  }

  /** 65537 x 65537 wraps to 131073 cells, far fewer than Width*Height. */
  lemma NewWrapsAround()
    ensures New(65537, 65537).Success?
    ensures |New(65537, 65537).value.cells| == 131073
    ensures !Fits(New(65537, 65537).value)
  {
    assert 65537 * 65537 == 0x1_0000_0000 + 131073;
  }

  // ---------------------------------------------------------------------------
  // Cells

  /** The array index of column x, row y: `y*Width+x` in 32-bit arithmetic. */
  function Offset(b: Buffer, x: int, y: int): int {
    Wrap32(y * b.width + x)
  }

  lemma MulLe(a: int, c: int, k: int)
    requires a <= c && 0 <= k
    ensures a * k <= c * k
  {
    assert (c - a) * k >= 0;
  }

  /** Row y of a W x H grid starts at a non-negative offset and ends within it. */
  lemma RowBound(W: int, H: int, y: int)
    requires 0 <= W && 0 <= y < H
    ensures 0 <= y * W && y * W + W <= W * H
  {
    MulLe(y + 1, H, W);
    MulLe(0, y, W);
    assert (y + 1) * W == y * W + W;
    assert H * W == W * H;
  }

  /** In a grid that fits, the offset of a cell is row-major and in range. */
  lemma OffsetRowMajor(b: Buffer, x: int, y: int)
    requires Fits(b) && InGrid(b, x, y)
    ensures Offset(b, x, y) == y * b.width + x
    ensures 0 <= y * b.width + x < |b.cells|
  {
    RowBound(b.width, b.height, y);
  }

  /** Different cells of a grid that fits have different offsets. */
  lemma OffsetInjective(b: Buffer, x: int, y: int, x2: int, y2: int)
    requires Fits(b) && InGrid(b, x, y) && InGrid(b, x2, y2)
    ensures Offset(b, x, y) == Offset(b, x2, y2) ==> x == x2 && y == y2
  {
    OffsetRowMajor(b, x, y);
    OffsetRowMajor(b, x2, y2);
    RowMajorInjective(b.width, x, y, x2, y2);
  }

  lemma RowMajorInjective(W: int, x: int, y: int, x2: int, y2: int)
    requires 0 <= x < W && 0 <= x2 < W
    ensures y * W + x == y2 * W + x2 ==> x == x2 && y == y2
  {
    if y < y2 {
      MulLe(y + 1, y2, W);
    } else if y2 < y {
      MulLe(y2 + 1, y, W);
    }
  }

  /** The cell at column x, row y of a grid that fits. */
  function Cell(b: Buffer, x: int, y: int): (c: char)
    requires Fits(b) && InGrid(b, x, y)
  {
    OffsetRowMajor(b, x, y);
    b.cells[y * b.width + x]
  }

  /** The indexer's getter. */
  function Get(b: Buffer, x: int, y: int): (r: Result<char, BufferError>)
    ensures r.Success? <==> 0 <= Offset(b, x, y) < |b.cells|
  {
    var i := Offset(b, x, y);
    if 0 <= i < |b.cells| then Success(b.cells[i]) else Failure(IndexOutOfRange)
  }

  /** The indexer's setter: one cell changes, every other cell keeps its value. */
  function Set(b: Buffer, x: int, y: int, c: char): (r: Result<Buffer, BufferError>)
    ensures r.Success? <==> 0 <= Offset(b, x, y) < |b.cells|
    ensures r.Success? ==> r.value.width == b.width && r.value.height == b.height
    ensures r.Success? ==> |r.value.cells| == |b.cells| && r.value.cells[Offset(b, x, y)] == c
    ensures r.Success? ==> forall i :: 0 <= i < |b.cells| && i != Offset(b, x, y) ==> r.value.cells[i] == b.cells[i]
  {
    var i := Offset(b, x, y);
    if 0 <= i < |b.cells| then Success(b.(cells := b.cells[i := c])) else Failure(IndexOutOfRange)
  }

  /** `Clear(x, y)` writes a blank into one cell. */
  function Clear(b: Buffer, x: int, y: int): (r: Result<Buffer, BufferError>)
    ensures r.Success? <==> 0 <= Offset(b, x, y) < |b.cells|
    ensures r.Success? ==> Get(r.value, x, y) == Success(Blank)
  {
    Set(b, x, y, Blank)
  }

  /** In a grid that fits, reading a cell reads its row-major element. */
  lemma GetRowMajor(b: Buffer, x: int, y: int)
    requires Fits(b) && InGrid(b, x, y)
    ensures Get(b, x, y) == Success(Cell(b, x, y))
  {
    OffsetRowMajor(b, x, y);
  }

  /** A write is read back at its cell and leaves every other cell as it was. */
  lemma GetAfterSet(b: Buffer, x: int, y: int, c: char, x2: int, y2: int)
    requires Fits(b) && InGrid(b, x, y) && InGrid(b, x2, y2)
    ensures Set(b, x, y, c).Success?
    ensures Get(Set(b, x, y, c).value, x2, y2) == if x2 == x && y2 == y then Success(c) else Get(b, x2, y2)
  {
    OffsetRowMajor(b, x, y);
    OffsetRowMajor(b, x2, y2);
    OffsetInjective(b, x, y, x2, y2);
  }

  /** Clearing a cell blanks it and nothing else. */
  lemma ClearOnlyThat(b: Buffer, x: int, y: int, x2: int, y2: int)
    requires Fits(b) && InGrid(b, x, y) && InGrid(b, x2, y2)
    ensures Clear(b, x, y).Success?
    ensures Get(Clear(b, x, y).value, x2, y2) == if x2 == x && y2 == y then Success(Blank) else Get(b, x2, y2)
  {
    GetAfterSet(b, x, y, Blank, x2, y2);
  }

  /** `ClearAll` copies a blank array of the same length over the cells. */
  function ClearAll(b: Buffer): (r: Buffer)
    ensures r.width == b.width && r.height == b.height && |r.cells| == |b.cells|
    ensures AllBlank(r.cells)
  {
    b.(cells := seq(|b.cells|, _ => Blank))
  }

  /** Clearing twice is clearing once, and a new grid is already clear. */
  lemma ClearAllIdempotent(b: Buffer, width: int, height: int)
    ensures ClearAll(ClearAll(b)) == ClearAll(b)
    ensures New(width, height).Success? ==> ClearAll(New(width, height).value) == New(width, height).value
  {
  }

  // ---------------------------------------------------------------------------
  // Rows and the whole text

  /** A copy of row y: Width cells from offset `y*Width`. */
  function GetRow(b: Buffer, y: int): (r: Result<seq<char>, BufferError>)
    ensures r.Success? ==> |r.value| == b.width
  {
    var start := Wrap32(y * b.width);
    if b.width < 0 then Failure(NegativeSize)
    else if start < 0 then Failure(ArgumentOutOfRange)
    else if start + b.width > |b.cells| then Failure(ArgumentPastEnd)
    else Success(b.cells[start..start + b.width])
  }

  /** Each row of a grid that fits reads, cell by cell, what the indexer reads. */
  lemma GetRowCells(b: Buffer, y: int)
    requires Fits(b) && 0 <= y < b.height
    ensures GetRow(b, y).Success?
    ensures forall x :: 0 <= x < b.width ==> Success(GetRow(b, y).value[x]) == Get(b, x, y)
  {
    var start := y * b.width;
    RowStart(b, y);
    assert GetRow(b, y) == Success(b.cells[start..start + b.width]);
    forall x | 0 <= x < b.width
      ensures Success(GetRow(b, y).value[x]) == Get(b, x, y)
    {
      OffsetRowMajor(b, x, y);
    }
  }

  /** Row y of a grid that fits starts at `y*Width` and ends within the cells. */
  lemma RowStart(b: Buffer, y: int)
    requires Fits(b) && 0 <= y < b.height
    ensures Wrap32(y * b.width) == y * b.width
    ensures 0 <= y * b.width && y * b.width + b.width <= |b.cells|
  {
    RowBound(b.width, b.height, y);
  }

  /** Rows past the last one cannot be copied out of a non-empty row width. */
  lemma GetRowBelow(b: Buffer, y: int)
    requires Fits(b) && 0 < b.width && b.height <= y && y * b.width < 0x8000_0000
    ensures GetRow(b, y) == Failure(ArgumentPastEnd)
  {
    MulLe(b.height, y, b.width);
    assert b.height * b.width == b.width * b.height;
  }

  /** `ToString`: the cells, row after row, as one string. */
  function ToText(b: Buffer): (r: string)
    ensures |r| == |b.cells|
    ensures Fits(b) ==> |r| == b.width * b.height
  {
    b.cells
  }

  /** The first n rows of a grid that fits, concatenated, begin its text and
      are n*Width characters long. */
  lemma {:induction false} TextIsRows(b: Buffer, n: int)
    requires Fits(b) && 0 <= n <= b.height
    ensures |Rows(b, n)| == n * b.width
    ensures Rows(b, n) <= ToText(b)
  {
    if n > 0 {
      TextIsRows(b, n - 1);
      TextStep(b, n);
    }
  }

  /** The text of a grid that fits is all its rows, row after row. */
  lemma TextIsAllRows(b: Buffer)
    requires Fits(b)
    ensures ToText(b) == Rows(b, b.height)
  {
    TextIsRows(b, b.height);
    assert b.height * b.width == b.width * b.height;
  }

  lemma TextStep(b: Buffer, n: int)
    requires Fits(b) && 0 < n <= b.height
    requires |Rows(b, n - 1)| == (n - 1) * b.width && Rows(b, n - 1) <= ToText(b)
    ensures |Rows(b, n)| == n * b.width && Rows(b, n) <= ToText(b)
  {
    RowsStep(b, n);
    TextIsCells(b);
    PrefixGrows(ToText(b), Rows(b, n - 1), Rows(b, n), (n - 1) * b.width, n * b.width);
  }

  lemma TextIsCells(b: Buffer)
    ensures ToText(b) == b.cells
  {
  }

  lemma PrefixGrows<T>(s: seq<T>, front: seq<T>, longer: seq<T>, i: int, j: int)
    requires 0 <= i <= j <= |s| && |front| == i && front <= s && longer == front + s[i..j]
    ensures |longer| == j && longer <= s
  {
    assert front == s[..i];
    assert longer == s[..j];
  }

  /** One more row: the next `Width` cells after the rows before it. */
  lemma RowsStep(b: Buffer, n: int)
    requires Fits(b) && 0 < n <= b.height
    ensures 0 <= (n - 1) * b.width <= n * b.width <= |b.cells|
    ensures Rows(b, n) == Rows(b, n - 1) + b.cells[(n - 1) * b.width..n * b.width]
  {
    RowStart(b, n - 1);
    assert n * b.width == (n - 1) * b.width + b.width;
  }

  /** The first n rows, each as `GetRow` returns it. */
  function Rows(b: Buffer, n: int): seq<char>
    requires Fits(b) && 0 <= n <= b.height
  {
    if n == 0 then []
    else
      RowStart(b, n - 1);
      Rows(b, n - 1) + GetRow(b, n - 1).value
  }

  // ---------------------------------------------------------------------------
  // Text placement

  /** The width `AddText` works with: the given one (-1 meaning the text's
      length), cut at the grid's right edge `Width - x`. */
  function EffectiveWidth(b: Buffer, x: int, text: string, width: int): (w: int)
    ensures -0x8000_0000 <= b.width - x < 0x8000_0000 ==>
      w == MinInt(if width == -1 then |text| else width, b.width - x)
  {
    MinInt(if width == -1 then |text| else width, Wrap32(b.width - x))
  }

  /** `Array.Copy` of the text into the cells from offset `y*Width+x`. */
  function Copy(b: Buffer, x: int, y: int, text: string): (r: Result<Buffer, BufferError>)
    ensures r.Success? <==> 0 <= Offset(b, x, y) && Offset(b, x, y) + |text| <= |b.cells|
    ensures r.Failure? ==> r.error == if Offset(b, x, y) < 0 then ArgumentOutOfRange else ArgumentPastEnd
    ensures r.Success? ==> r.value.width == b.width && r.value.height == b.height
    ensures r.Success? ==> |r.value.cells| == |b.cells|
  {
    var d := Offset(b, x, y);
    if d < 0 then Failure(ArgumentOutOfRange)
    else if d + |text| > |b.cells| then Failure(ArgumentPastEnd)
    else Success(b.(cells := b.cells[..d] + text + b.cells[d + |text|..]))
  }

  /** The body of `AddText` once the width is settled: text longer than `w` is
      written as its first `w` characters at row y and the rest from row y+1 on;
      the recursive calls see the same width, since it is already within the row.
      A negative width fails in `Substring`; width 0 with text left is `ZeroWidth`. */
  function Write(b: Buffer, x: int, y: int, text: string, w: int): (r: Result<Buffer, BufferError>)
    ensures w < 0 ==> r == Failure(ArgumentOutOfRange)
    ensures w == 0 && |text| > 0 ==> r == ZeroWidth(b, x, y)
    ensures r.Success? ==> r.value.width == b.width && r.value.height == b.height
    ensures r.Success? ==> |r.value.cells| == |b.cells|
    decreases |text|
  {
    if |text| > w then
      if w < 0 then Failure(ArgumentOutOfRange)
      else if w == 0 then ZeroWidth(b, x, y)
      else
        match Write(b, x, y, text[..w], w)
        case Failure(e) => Failure(e)
        case Success(first) => Write(first, x, y + 1, text[w..], w)
    else Copy(b, x, y, text)
  }

  function AddText(b: Buffer, x: int, y: int, text: string, width: int): (r: Result<Buffer, BufferError>)
    ensures EffectiveWidth(b, x, text, width) < 0 ==> r == Failure(ArgumentOutOfRange)
    ensures EffectiveWidth(b, x, text, width) == 0 && |text| > 0 ==> r == ZeroWidth(b, x, y)
    ensures r.Success? ==> r.value.width == b.width && r.value.height == b.height
    ensures r.Success? ==> |r.value.cells| == |b.cells|
  {
    Write(b, x, y, text, EffectiveWidth(b, x, text, width))
  }

  /** Text left over at width 0. `AddText` copies the empty string at row y and
      calls itself for row y + 1 with the same text, and so on without end. No
      cell changes: the first row whose zero-length copy fails ends the recursion
      with that copy's exception, and when none fails (the offset stays put on a
      grid of width 0) the stack overflows. The stack is taken as unbounded: a
      failing row too many calls deep is still reached here. */
  function ZeroWidth(b: Buffer, x: int, y: int): (r: Result<Buffer, BufferError>)
    ensures r.Failure?
    ensures r.error == NoProgress <==> forall k :: y <= k ==> Copy(b, x, k, "").Success?
    ensures r.error != NoProgress ==>
      exists k :: (y <= k && r == Copy(b, x, k, "") && forall j :: y <= j < k ==> Copy(b, x, j, "").Success?)
  {
    if Wrap32(b.width) != 0 then Copy(b, x, ZeroWidthEnd(b, x, y), "")
    else
      ZeroWidthStill(b, x, y);
      if Copy(b, x, y, "").Failure? then Copy(b, x, y, "") else Failure(NoProgress)
  }

  /** The row whose zero-length copy ends a stalled `AddText`: the first from y
      whose offset lies outside `[0, |cells|]`. The offset moves by the 32-bit
      width per row, so unless that is 0 it leaves the range after finitely many
      rows, past the end or, once the sum wraps, below zero. */
  function ZeroWidthEnd(b: Buffer, x: int, y: int): (k: int)
    requires Wrap32(b.width) != 0
    ensures y <= k && Copy(b, x, k, "").Failure?
    ensures forall j :: y <= j < k ==> Copy(b, x, j, "").Success?
  {
    if Offset(b, x, y) < 0 || Offset(b, x, y) > |b.cells| then y
    else
      ZeroWidthRows(b, x, y);
      y + Steps(Offset(b, x, y), Wrap32(b.width), MinInt(|b.cells|, 0x7FFF_FFFF))
  }

  /** How many steps of `w` take an offset `d0` out of `[0, cap]`. */
  function Steps(d0: int, w: int, cap: int): (i: int)
    requires 0 <= d0 <= cap && w != 0
    ensures i > 0
  {
    if w > 0 then (cap - d0) / w + 1 else d0 / (-w) + 1
  }

  lemma ZeroWidthRows(b: Buffer, x: int, y: int)
    requires 0 <= Offset(b, x, y) <= |b.cells| && Wrap32(b.width) != 0
    ensures var i := Steps(Offset(b, x, y), Wrap32(b.width), MinInt(|b.cells|, 0x7FFF_FFFF));
      && Copy(b, x, y + i, "").Failure?
      && forall j :: y <= j < y + i ==> Copy(b, x, j, "").Success?
  {
    var d0, w, cap := Offset(b, x, y), Wrap32(b.width), MinInt(|b.cells|, 0x7FFF_FFFF);
    var i := Steps(d0, w, cap);
    forall j | y <= j < y + i
      ensures Copy(b, x, j, "").Success?
    {
      OffsetStep(b, x, y, j - y);
      StepsWithin(d0, w, cap, i, j - y);
    }
    OffsetStep(b, x, y, i);
    StepsLeave(d0, w, cap, i);
  }

  /** Before the stopping row, the offset stays within `[0, cap]`. */
  lemma StepsWithin(d0: int, w: int, cap: int, i: int, n: int)
    requires 0 <= d0 <= cap < 0x8000_0000 && -0x8000_0000 <= w < 0x8000_0000 && w != 0
    requires i == Steps(d0, w, cap) && 0 <= n < i
    ensures 0 <= d0 + n * w <= cap
    ensures Wrap32(d0 + n * w) == d0 + n * w
  {
    if w > 0 {
      BelowQuotient(cap - d0, w, n);
    } else {
      BelowQuotient(d0, -w, n);
      assert n * w == -(n * (-w));
    }
  }

  /** Fewer than `a / w + 1` steps of a positive `w` stay within `a`. */
  lemma BelowQuotient(a: int, w: int, n: int)
    requires 0 <= a && 0 < w && 0 <= n <= a / w
    ensures 0 <= n * w <= a
  {
    MulLe(n, a / w, w);
    MulLe(0, n, w);
  }

  /** At the stopping row, the wrapped offset lies below zero or past `cap`. */
  lemma StepsLeave(d0: int, w: int, cap: int, i: int)
    requires 0 <= d0 <= cap < 0x8000_0000 && -0x8000_0000 <= w < 0x8000_0000 && w != 0
    requires i == Steps(d0, w, cap)
    ensures Wrap32(d0 + i * w) < 0 || cap < Wrap32(d0 + i * w)
  {
    if w > 0 {
      PastQuotient(cap - d0, w, i);
      var v := d0 + i * w;
      if v >= 0x8000_0000 {
        Wrap32Periodic(v - 0x1_0000_0000, 1);
      }
    } else {
      PastQuotient(d0, -w, i);
      assert i * w == -(i * (-w));
    }
  }

  /** `a / w + 1` steps of a positive `w` pass `a`, by at most `w`. */
  lemma PastQuotient(a: int, w: int, i: int)
    requires 0 <= a && 0 < w && i == a / w + 1
    ensures a < i * w <= a + w
  {
    assert i * w == (a / w) * w + w;
  }

  /** The offset of column x in row y + i moves by the 32-bit width per row. */
  lemma OffsetStep(b: Buffer, x: int, y: int, i: int)
    ensures Offset(b, x, y + i) == Wrap32(Offset(b, x, y) + i * Wrap32(b.width))
  {
    var d0, w := Offset(b, x, y), Wrap32(b.width);
    var t1, t2 := (d0 - (y * b.width + x)) / 0x1_0000_0000, (w - b.width) / 0x1_0000_0000;
    assert d0 - (y * b.width + x) == 0x1_0000_0000 * t1;
    assert w - b.width == 0x1_0000_0000 * t2;
    assert (y + i) * b.width == y * b.width + i * b.width;
    assert i * b.width == i * w - 0x1_0000_0000 * (i * t2);
    Wrap32Periodic(d0 + i * w, -(t1 + i * t2));
  }

  /** When the 32-bit width is 0, every row's zero-length copy lands where row y's does. */
  lemma ZeroWidthStill(b: Buffer, x: int, y: int)
    requires Wrap32(b.width) == 0
    ensures forall k :: Copy(b, x, k, "") == Copy(b, x, y, "")
  {
    forall k
      ensures Copy(b, x, k, "") == Copy(b, x, y, "")
    {
      OffsetStep(b, x, y, k - y);
    }
  }

  /** Reference placement: character k of the text lands in row `y + k / w`,
      column `x + k % w`; every other cell keeps its value. Stated per cell. */
  function Wrapped(b: Buffer, x: int, y: int, text: string, w: int, cx: int, cy: int): char
    requires Fits(b) && InGrid(b, cx, cy)
  {
    var k := (cy - y) * w + (cx - x);
    if y <= cy && x <= cx < x + w && 0 <= k < |text| then text[k] else Cell(b, cx, cy)
  }

  /** Text placed at (x, y) in a grid that fits, with room below for all its rows,
      is written row after row from column x, w characters to a row. */
  lemma {:induction false} WriteWraps(b: Buffer, x: int, y: int, text: string, w: int)
    requires Fits(b) && 0 <= x && 0 <= w && x + w <= b.width && 0 <= y < b.height
    requires |text| <= (b.height - y) * w
    ensures Write(b, x, y, text, w).Success?
    ensures var r := Write(b, x, y, text, w).value;
      && Fits(r)
      && forall cx, cy :: InGrid(b, cx, cy) ==> Cell(r, cx, cy) == Wrapped(b, x, y, text, w, cx, cy)
    decreases |text|
  {
    if |text| > w {
      MulLe(1, b.height - y, w);
      var head, rest := text[..w], text[w..];
      WriteWraps(b, x, y, head, w);
      var first := Write(b, x, y, head, w).value;
      assert (b.height - y) * w == (b.height - (y + 1)) * w + w;
      if b.height <= y + 1 {
        MulLe(b.height - (y + 1), 0, w);
      }
      WriteWraps(first, x, y + 1, rest, w);
      var r := Write(first, x, y + 1, rest, w).value;
      forall cx, cy | InGrid(b, cx, cy)
        ensures Cell(r, cx, cy) == Wrapped(b, x, y, text, w, cx, cy)
      {
        WrapStep(b, first, x, y, text, w, cx, cy);
      }
    } else {
      CopyPlaces(b, x, y, text, w);
    }
  }

  /** A text no longer than w is copied into row y alone. */
  lemma CopyPlaces(b: Buffer, x: int, y: int, text: string, w: int)
    requires Fits(b) && 0 <= x && x + w <= b.width && 0 <= y < b.height && |text| <= w
    ensures Copy(b, x, y, text).Success?
    ensures var r := Copy(b, x, y, text).value;
      && Fits(r)
      && forall cx, cy :: InGrid(b, cx, cy) ==> Cell(r, cx, cy) == Wrapped(b, x, y, text, w, cx, cy)
  {
    CopyAt(b, x, y, text, w);
    var r := Copy(b, x, y, text).value;
    forall cx, cy | InGrid(b, cx, cy)
      ensures Cell(r, cx, cy) == Wrapped(b, x, y, text, w, cx, cy)
    {
      CopyCell(b, r, x, y, text, w, cx, cy);
    }
  }

  /** The copy of a text that fits in row y overwrites the cells from `y*Width+x`. */
  lemma CopyAt(b: Buffer, x: int, y: int, text: string, w: int)
    requires Fits(b) && 0 <= x && x + w <= b.width && 0 <= y < b.height && |text| <= w
    ensures 0 <= y * b.width + x && y * b.width + x + |text| <= |b.cells|
    ensures Copy(b, x, y, text)
         == Success(b.(cells := b.cells[..y * b.width + x] + text + b.cells[y * b.width + x + |text|..]))
  {
    RowBound(b.width, b.height, y);
  }

  /** One cell after the copy of a text into row y. */
  lemma CopyCell(b: Buffer, r: Buffer, x: int, y: int, text: string, w: int, cx: int, cy: int)
    requires Fits(b) && 0 <= x && x + w <= b.width && 0 <= y && |text| <= w && InGrid(b, cx, cy)
    requires 0 <= y * b.width + x && y * b.width + x + |text| <= |b.cells|
    requires r.width == b.width && r.height == b.height
    requires r.cells == b.cells[..y * b.width + x] + text + b.cells[y * b.width + x + |text|..]
    ensures Fits(r) && Cell(r, cx, cy) == Wrapped(b, x, y, text, w, cx, cy)
  {
    OffsetRowMajor(b, cx, cy);
    RowSpan(b.width, x, |text|, y, cx, cy);
    if cy > y {
      MulLe(1, cy - y, w);
    }
  }

  /** A row-major index falls in the span of n cells from (x, y) exactly when it
      is a cell of row y between columns x and x + n. */
  lemma RowSpan(W: int, x: int, n: int, y: int, cx: int, cy: int)
    requires 0 <= x && 0 <= n && x + n <= W && 0 <= cx < W
    ensures (y * W + x <= cy * W + cx < y * W + x + n) <==> (cy == y && x <= cx < x + n)
  {
    if cy < y {
      MulLe(cy + 1, y, W);
    } else if y < cy {
      MulLe(y + 1, cy, W);
    }
  }

  /** Writing the first row and then the rest from the next row places each cell
      as the whole text does. */
  lemma WrapStep(b: Buffer, first: Buffer, x: int, y: int, text: string, w: int, cx: int, cy: int)
    requires Fits(b) && Fits(first) && first.width == b.width && first.height == b.height
    requires 0 < w < |text| && InGrid(b, cx, cy)
    requires Cell(first, cx, cy) == Wrapped(b, x, y, text[..w], w, cx, cy)
    ensures Wrapped(first, x, y + 1, text[w..], w, cx, cy) == Wrapped(b, x, y, text, w, cx, cy)
  {
    var k := (cy - y) * w + (cx - x);
    assert (cy - (y + 1)) * w + (cx - x) == k - w;
    if cy > y {
      MulLe(1, cy - y, w);
    }
  }

  /** AddText in a grid that fits, from a cell of the grid, with the default or a
      non-negative width and room below for all the rows it needs. */
  lemma AddTextWraps(b: Buffer, x: int, y: int, text: string, width: int)
    requires Fits(b) && InGrid(b, x, y) && (width == -1 || 0 <= width)
    requires |text| <= (b.height - y) * EffectiveWidth(b, x, text, width)
    ensures AddText(b, x, y, text, width).Success?
    ensures var r, w := AddText(b, x, y, text, width).value, EffectiveWidth(b, x, text, width);
      && Fits(r)
      && forall cx, cy :: InGrid(b, cx, cy) ==> Cell(r, cx, cy) == Wrapped(b, x, y, text, w, cx, cy)
  {
    WriteWraps(b, x, y, text, EffectiveWidth(b, x, text, width));
  }

  /** With the default width, a text that fits in the rest of its row is copied
      into that row and nothing else changes. */
  lemma AddTextInRow(b: Buffer, x: int, y: int, text: string)
    requires Fits(b) && InGrid(b, x, y) && |text| <= b.width - x
    ensures AddText(b, x, y, text, -1).Success?
    ensures var r := AddText(b, x, y, text, -1).value;
      && Fits(r)
      && forall cx, cy :: InGrid(b, cx, cy) ==>
           Cell(r, cx, cy) == (if cy == y && x <= cx < x + |text| then text[cx - x] else Cell(b, cx, cy))
  {
    var n := |text|;
    assert EffectiveWidth(b, x, text, -1) == n;
    CopyPlaces(b, x, y, text, n);
    var r := AddText(b, x, y, text, -1).value;
    forall cx, cy | InGrid(b, cx, cy)
      ensures Cell(r, cx, cy) == (if cy == y && x <= cx < x + n then text[cx - x] else Cell(b, cx, cy))
    {
      assert Cell(r, cx, cy) == Wrapped(b, x, y, text, n, cx, cy);
      if cy > y {
        MulLe(1, cy - y, n);
      }
    }
  }

  /** On a grid of width 0, text at column 0 never gets a character written: every
      row's zero-length copy lands at offset 0, so the recursion never ends. */
  lemma AddTextStalls(b: Buffer, y: int, text: string, width: int)
    requires Fits(b) && b.width == 0 && 0 < |text| && (width == -1 || width == 0)
    ensures AddText(b, 0, y, text, width) == Failure(NoProgress)
  {
    ZeroWidthStill(b, 0, y);
  }

  /** On a grid of positive width, text at the right edge with the default width,
      or with width 0, ends in an exception from the zero-length copies. */
  lemma AddTextRunsOff(b: Buffer, x: int, y: int, text: string, width: int)
    requires Fits(b) && 0 < b.width && 0 <= x <= b.width && 0 < |text|
    requires (x == b.width && width == -1) || width == 0
    ensures AddText(b, x, y, text, width).Failure?
    ensures AddText(b, x, y, text, width).error in {ArgumentOutOfRange, ArgumentPastEnd}
  {
  }

  /** Two characters at the right edge of a blank 4 x 3 grid: the empty copies at
      offsets 4, 8 and 12 succeed, and the one at 16 for row 3 is past the end. */
  lemma ZeroWidthExample()
    ensures New(4, 3).Success?
    ensures AddText(New(4, 3).value, 4, 0, "ab", -1) == Failure(ArgumentPastEnd)
  {
    var b := New(4, 3).value;
    assert Steps(Offset(b, 4, 0), Wrap32(b.width), MinInt(|b.cells|, 0x7FFF_FFFF)) == 3;
  }

  /** Text placed to the right of the grid fails in `Substring`, even when empty. */
  lemma AddTextPastEdge(b: Buffer, x: int, y: int, text: string, width: int)
    requires Fits(b) && b.width < x < 0x8000_0000 && (width == -1 || 0 <= width)
    ensures AddText(b, x, y, text, width) == Failure(ArgumentOutOfRange)
  {
  }

  /** The same placement as `AddText`, one row per iteration instead of recursion. */
  method PlaceText(b: Buffer, x: int, y: int, text: string, width: int) returns (r: Result<Buffer, BufferError>)
    ensures r == AddText(b, x, y, text, width)
    ensures r.Success? ==> r.value.width == b.width && r.value.height == b.height
  {
    var w := MinInt(if width == -1 then |text| else width, Wrap32(b.width - x));
    var cur, row, rest := b, y, text;
    while |rest| > w
      invariant Write(cur, x, row, rest, w) == Write(b, x, y, text, w)
      invariant cur.width == b.width && cur.height == b.height
      decreases |rest|
    {
      if w < 0 {
        return Failure(ArgumentOutOfRange);
      }
      if w == 0 {
        return ZeroWidth(cur, x, row);
      }
      var line := Copy(cur, x, row, rest[..w]);
      assert line == Write(cur, x, row, rest[..w], w);
      if line.Failure? {
        return Failure(line.error);
      }
      cur, row, rest := line.value, row + 1, rest[w..];
    }
    r := Copy(cur, x, row, rest);
  }

  /** Seven characters from column 1 of a blank 4 x 3 grid wrap at the right edge
      into three rows of at most three. */
  lemma WrapExample()
    ensures New(4, 3).Success?
    ensures AddText(New(4, 3).value, 1, 0, "abcdefg", -1).Success?
    ensures ToText(AddText(New(4, 3).value, 1, 0, "abcdefg", -1).value) == " abc def g  "
  {
    var b := Buffer(4, 3, "            ");
    assert New(4, 3).value.cells == b.cells;
    assert EffectiveWidth(b, 1, "abcdefg", -1) == 3;
    assert "abcdefg"[..3] == "abc" && "abcdefg"[3..] == "defg";
    assert "defg"[..3] == "def" && "defg"[3..] == "g";
    ExampleRow0();
    ExampleRow1();
    ExampleRow2();
    assert Write(b, 1, 0, "abc", 3) == Copy(b, 1, 0, "abc");
    var b1 := Buffer(4, 3, " abc        ");
    assert Write(b1, 1, 1, "def", 3) == Copy(b1, 1, 1, "def");
    var b2 := Buffer(4, 3, " abc def    ");
    assert Write(b2, 1, 2, "g", 3) == Copy(b2, 1, 2, "g");
    assert Write(b1, 1, 1, "defg", 3) == Write(b2, 1, 2, "g", 3);
  }

  lemma ExampleRow0()
    ensures Copy(Buffer(4, 3, "            "), 1, 0, "abc") == Success(Buffer(4, 3, " abc        "))
  {
    assert "            "[..1] + "abc" + "            "[4..] == " abc        ";
  }

  lemma ExampleRow1()
    ensures Copy(Buffer(4, 3, " abc        "), 1, 1, "def") == Success(Buffer(4, 3, " abc def    "))
  {
    assert " abc        "[..5] + "def" + " abc        "[8..] == " abc def    ";
  }

  lemma ExampleRow2()
    ensures Copy(Buffer(4, 3, " abc def    "), 1, 2, "g") == Success(Buffer(4, 3, " abc def g  "))
  {
    assert " abc def    "[..9] + "g" + " abc def    "[10..] == " abc def g  ";
  }
}
