/**
 * The paginating scroll view: the attributed string is laid out column by
 * column, `columnsPerPage` columns to a page, pages side by side one view
 * width apart, until the text position reaches the end of the string.
 *
 * How much text fits in a column is decided by Core Text; here it is the
 * oracle `fit`, which maps a start position and a column size to the
 * length of the visible string range of the frame built there.
 */
module Pages {
  import opened Geometry
  import Markup

  /** One laid-out column: its page, its index on the page, its frame in page coordinates and its text range. */
  datatype ColumnRecord = ColumnRecord(page: nat, column: nat, frame: Rect, start: nat, length: nat)

  function End(c: ColumnRecord): nat {
    c.start + c.length
  }

  /** From every position before `n`, the column fits at least one unit of text and no more than what is left. */
  predicate Progresses(fit: (nat, Size) -> nat, n: nat, size: Size) {
    forall p: nat :: p < n ==> 0 < fit(p, size) <= n - p
  }

  /** The number of pages `m` columns take: `m / d` rounded up. */
  function CeilDiv(m: nat, d: nat): nat
    requires d > 0
  {
    (m + d - 1) / d
  }

  /** `CeilDiv(m, d)` groups of `d` hold `m`, and one group fewer does not. */
  lemma CeilDivIsCeiling(m: nat, d: nat)
    requires d > 0
    ensures CeilDiv(m, d) * d >= m
    ensures CeilDiv(m, d) > 0 ==> (CeilDiv(m, d) - 1) * d < m
  {
    var q, r := (m + d - 1) / d, (m + d - 1) % d;
    assert m + d - 1 == q * d + r;
    if q > 0 {
      assert (q - 1) * d == q * d - d;
    }
  }

  /** Quotient and remainder are the only ones with `x == q * d + r` and `0 <= r < d`. */
  lemma DivUnique(x: nat, d: nat, q: nat, r: nat)
    requires d > 0 && x == q * d + r && r < d
    ensures x / d == q && x % d == r
  {
    var q', r' := x / d, x % d;
    assert x == q' * d + r';
    assert (q - q') * d == r' - r;
    if q > q' {
      MulAtLeast(q - q', d);
    } else if q < q' {
      MulAtLeast(q' - q, d);
    }
  }

  /** A positive multiple of `d` is at least `d`. */
  lemma {:induction false} MulAtLeast(k: nat, d: nat)
    requires k > 0
    ensures k * d >= d
    decreases k
  {
    if k > 1 {
      MulAtLeast(k - 1, d);
      assert k * d == (k - 1) * d + d;
    }
  }

  /** Adding one whole page's worth of columns moves to the next page at the same index. */
  lemma DivShift(a: nat, d: nat)
    requires d > 0
    ensures (d + a) / d == a / d + 1 && (d + a) % d == a % d
  {
    var q, r := a / d, a % d;
    assert d + a == (q + 1) * d + r;
    DivUnique(d + a, d, q + 1, r);
  }

  // ---------------------------------------------------------------------
  // Page frames
  // ---------------------------------------------------------------------

  /** Page `j`'s frame: the page rectangle moved right by `j` view widths. */
  function PageFrame(s: Settings, viewWidth: real, j: nat): Rect {
    OffsetBy(s.pageRect, (j as real) * viewWidth, 0.0)
  }

  /** The frames of the first `count` pages, in the order the view adds them. */
  function PageFrames(s: Settings, viewWidth: real, count: nat): (frames: seq<Rect>)
    ensures |frames| == count
  {
    if count == 0 then [] else PageFrames(s, viewWidth, count - 1) + [PageFrame(s, viewWidth, count - 1)]
  }

  /** Page `j` of the first `count` is the page rectangle `j` view widths to the right, of the page rectangle's size. */
  lemma {:induction false} PageFramesAt(s: Settings, viewWidth: real, count: nat)
    ensures forall j :: 0 <= j < count ==>
      PageFrames(s, viewWidth, count)[j].size == s.pageRect.size &&
      PageFrames(s, viewWidth, count)[j].origin.x == s.pageRect.origin.x + (j as real) * viewWidth &&
      PageFrames(s, viewWidth, count)[j].origin.y == s.pageRect.origin.y
  {
    if count > 0 {
      PageFramesAt(s, viewWidth, count - 1);
      var frames := PageFrames(s, viewWidth, count);
      assert forall j :: 0 <= j < count - 1 ==> frames[j] == PageFrames(s, viewWidth, count - 1)[j];
    }
  }

  /** Adding the frame of the next page to the frames of the pages so far gives the frames of one page more. */
  lemma AddPageFrame(before: seq<Rect>, frames: seq<Rect>, s: Settings, viewWidth: real, count: nat, frame: Rect)
    requires frames == before + PageFrames(s, viewWidth, count)
    requires frame == OffsetBy(s.pageRect, (count as real) * viewWidth, 0.0)
    ensures frames + [frame] == before + PageFrames(s, viewWidth, count + 1)
  {
    assert PageFrames(s, viewWidth, count + 1) == PageFrames(s, viewWidth, count) + [frame];
  }

  // ---------------------------------------------------------------------
  // Columns
  // ---------------------------------------------------------------------

  /** The frame of the column with index `column` on its page: the column rectangle moved right by that many column shares. */
  function ColumnFrame(s: Settings, column: nat): Rect
    requires s.columnsPerPage > 0
  {
    OffsetBy(s.columnRect, (column as real) * (s.pageRect.size.width / (s.columnsPerPage as real)), 0.0)
  }

  /** The slot after column `column` of page `page`: the next index on the same page, or the first of the next page. */
  function NextPage(s: Settings, page: nat, column: nat): nat {
    if column + 1 == s.columnsPerPage then page + 1 else page
  }

  function NextColumn(s: Settings, column: nat): nat {
    if column + 1 == s.columnsPerPage then 0 else column + 1
  }

  /**
   * The columns laid out from text position `pos` on, the first of them at
   * index `column` of page `page`: each holds what fits from where the one
   * before it ends, and the columns fill a page before the next one starts.
   */
  function ColumnsAt(s: Settings, n: nat, fit: (nat, Size) -> nat, pos: nat, page: nat, column: nat): (cols: seq<ColumnRecord>)
    requires column < s.columnsPerPage && pos <= n
    requires Progresses(fit, n, s.columnRect.size)
    ensures |cols| <= n - pos
    ensures cols == [] <==> pos == n
    decreases n - pos
  {
    if pos == n then []
    else
      var len := fit(pos, s.columnRect.size);
      [ColumnRecord(page, column, ColumnFrame(s, column), pos, len)]
        + ColumnsAt(s, n, fit, pos + len, NextPage(s, page, column), NextColumn(s, column))
  }

  /** All the columns of a text of length `n`, starting at the first index of the first page. */
  function Columns(s: Settings, n: nat, fit: (nat, Size) -> nat): seq<ColumnRecord>
    requires s.columnsPerPage > 0
    requires Progresses(fit, n, s.columnRect.size)
  {
    ColumnsAt(s, n, fit, 0, 0, 0)
  }

  /**
   * The columns from `pos` on appended to the columns `done` already laid
   * out, accumulated in the order the view adds them. This is `ColumnsAt`
   * in accumulator form; it exists only to state the loop invariant of
   * `LayOutColumns`.
   */
  ghost function LaidOut(s: Settings, n: nat, fit: (nat, Size) -> nat, pos: nat, page: nat, column: nat, done: seq<ColumnRecord>): seq<ColumnRecord>
    requires column < s.columnsPerPage && pos <= n
    requires Progresses(fit, n, s.columnRect.size)
    decreases n - pos
  {
    if pos == n then done
    else
      var len := fit(pos, s.columnRect.size);
      LaidOut(s, n, fit, pos + len, NextPage(s, page, column), NextColumn(s, column),
        done + [ColumnRecord(page, column, ColumnFrame(s, column), pos, len)])
  }

  /** Laying out the column at `pos` moves the layout on to the next slot with that column added. */
  lemma LaidOutStep(s: Settings, n: nat, fit: (nat, Size) -> nat, pos: nat, page: nat, column: nat, done: seq<ColumnRecord>, c: ColumnRecord)
    requires column < s.columnsPerPage && pos < n
    requires Progresses(fit, n, s.columnRect.size)
    requires c == ColumnRecord(page, column, ColumnFrame(s, column), pos, fit(pos, s.columnRect.size))
    ensures pos + c.length <= n && NextColumn(s, column) < s.columnsPerPage
    ensures LaidOut(s, n, fit, pos, page, column, done) ==
      LaidOut(s, n, fit, pos + c.length, NextPage(s, page, column), NextColumn(s, column), done + [c])
  {
  }

  lemma {:induction false} LaidOutAppends(s: Settings, n: nat, fit: (nat, Size) -> nat, pos: nat, page: nat, column: nat, done: seq<ColumnRecord>)
    requires column < s.columnsPerPage && pos <= n
    requires Progresses(fit, n, s.columnRect.size)
    ensures LaidOut(s, n, fit, pos, page, column, done) == done + ColumnsAt(s, n, fit, pos, page, column)
    decreases n - pos
  {
    if pos < n {
      var len := fit(pos, s.columnRect.size);
      var c := ColumnRecord(page, column, ColumnFrame(s, column), pos, len);
      var rest := ColumnsAt(s, n, fit, pos + len, NextPage(s, page, column), NextColumn(s, column));
      LaidOutAppends(s, n, fit, pos + len, NextPage(s, page, column), NextColumn(s, column), done + [c]);
      assert (done + [c]) + rest == done + ([c] + rest);
    }
  }

  /** The total length of the columns' text ranges. */
  function Covered(cols: seq<ColumnRecord>): nat {
    if cols == [] then 0 else cols[0].length + Covered(cols[1..])
  }

  /**
   * The columns tile `[lo, hi)`: each is non-empty and starts where the
   * ones before it end, and together they reach `hi`.
   */
  ghost predicate Tiles(cols: seq<ColumnRecord>, lo: nat, hi: nat) {
    (forall j :: 0 <= j < |cols| ==> cols[j].length > 0 && cols[j].start == lo + Covered(cols[..j])) &&
    lo + Covered(cols) == hi
  }

  /** The layout tiles the text, and each column holds exactly what the oracle says fits from its start. */
  lemma {:induction false} ColumnsTile(s: Settings, n: nat, fit: (nat, Size) -> nat, pos: nat, page: nat, column: nat)
    requires column < s.columnsPerPage && pos <= n
    requires Progresses(fit, n, s.columnRect.size)
    ensures Tiles(ColumnsAt(s, n, fit, pos, page, column), pos, n)
    ensures forall j :: 0 <= j < |ColumnsAt(s, n, fit, pos, page, column)| ==>
      ColumnsAt(s, n, fit, pos, page, column)[j].length ==
        fit(ColumnsAt(s, n, fit, pos, page, column)[j].start, s.columnRect.size)
    decreases n - pos
  {
    if pos < n {
      var cols := ColumnsAt(s, n, fit, pos, page, column);
      var len := fit(pos, s.columnRect.size);
      var rest := ColumnsAt(s, n, fit, pos + len, NextPage(s, page, column), NextColumn(s, column));
      ColumnsTile(s, n, fit, pos + len, NextPage(s, page, column), NextColumn(s, column));
      assert cols[1..] == rest;
      forall j | 0 <= j < |cols|
        ensures cols[j].length > 0 && cols[j].start == pos + Covered(cols[..j])
        ensures cols[j].length == fit(cols[j].start, s.columnRect.size)
      {
        if j == 0 {
          assert cols[..0] == [];
        } else {
          assert cols[..j][1..] == rest[..j - 1];
          assert cols[j] == rest[j - 1];
        }
      }
    }
  }

  /** The slot `j` slots after `(page, column)`. */
  function Advance(s: Settings, page: nat, column: nat, j: nat): (nat, nat)
    decreases j
  {
    if j == 0 then (page, column) else Advance(s, NextPage(s, page, column), NextColumn(s, column), j - 1)
  }

  /** The `j`-th column from slot `(page, column)` on is in the slot `j` slots further. */
  lemma {:induction false} ColumnsPlacement(s: Settings, n: nat, fit: (nat, Size) -> nat, pos: nat, page: nat, column: nat)
    requires column < s.columnsPerPage && pos <= n
    requires Progresses(fit, n, s.columnRect.size)
    ensures forall j :: 0 <= j < |ColumnsAt(s, n, fit, pos, page, column)| ==>
      (ColumnsAt(s, n, fit, pos, page, column)[j].page, ColumnsAt(s, n, fit, pos, page, column)[j].column) == Advance(s, page, column, j)
    decreases n - pos
  {
    if pos < n {
      var cols := ColumnsAt(s, n, fit, pos, page, column);
      var len := fit(pos, s.columnRect.size);
      var page', column' := NextPage(s, page, column), NextColumn(s, column);
      var rest := ColumnsAt(s, n, fit, pos + len, page', column');
      ColumnsPlacement(s, n, fit, pos + len, page', column');
      forall j | 0 < j < |cols|
        ensures (cols[j].page, cols[j].column) == Advance(s, page, column, j)
      {
        assert cols[j] == rest[j - 1];
      }
    }
  }

  /**
   * Counting `j` slots on from index `column` of page `page` lands
   * `(column + j) / columnsPerPage` pages further, at index
   * `(column + j) % columnsPerPage`.
   */
  lemma {:induction false} AdvanceArithmetic(s: Settings, page: nat, column: nat, j: nat)
    requires column < s.columnsPerPage
    ensures Advance(s, page, column, j) == (page + (column + j) / s.columnsPerPage, (column + j) % s.columnsPerPage)
    decreases j
  {
    if j == 0 {
      DivUnique(column, s.columnsPerPage, 0, column);
    } else {
      AdvanceArithmetic(s, NextPage(s, page, column), NextColumn(s, column), j - 1);
      SlotAdvance(s, page, column, j - 1);
    }
  }

  /** Every column from index `column` of page `page` on has the frame of its index on the page. */
  lemma {:induction false} ColumnsFramed(s: Settings, n: nat, fit: (nat, Size) -> nat, pos: nat, page: nat, column: nat)
    requires column < s.columnsPerPage && pos <= n
    requires Progresses(fit, n, s.columnRect.size)
    ensures forall c :: c in ColumnsAt(s, n, fit, pos, page, column) ==> c.column < s.columnsPerPage && c.frame == ColumnFrame(s, c.column)
    decreases n - pos
  {
    if pos < n {
      var len := fit(pos, s.columnRect.size);
      ColumnsFramed(s, n, fit, pos + len, NextPage(s, page, column), NextColumn(s, column));
    }
  }

  /** Counting `i` slots on from the slot after `(page, column)` is counting `i + 1` slots on from `(page, column)`. */
  lemma SlotAdvance(s: Settings, page: nat, column: nat, i: nat)
    requires column < s.columnsPerPage
    ensures NextPage(s, page, column) + (NextColumn(s, column) + i) / s.columnsPerPage == page + (column + i + 1) / s.columnsPerPage
    ensures (NextColumn(s, column) + i) % s.columnsPerPage == (column + i + 1) % s.columnsPerPage
  {
    var d := s.columnsPerPage;
    if column + 1 == d {
      DivShift(i, d);
      assert column + i + 1 == d + i;
    }
  }

  /** Column `j` of the document lies on page `j / columnsPerPage` at index `j % columnsPerPage`. */
  lemma ColumnsOnPages(s: Settings, n: nat, fit: (nat, Size) -> nat)
    requires s.columnsPerPage > 0
    requires Progresses(fit, n, s.columnRect.size)
    ensures forall j :: 0 <= j < |Columns(s, n, fit)| ==>
      Columns(s, n, fit)[j].page == j / s.columnsPerPage &&
      Columns(s, n, fit)[j].column == j % s.columnsPerPage &&
      Columns(s, n, fit)[j].frame == ColumnFrame(s, j % s.columnsPerPage)
  {
    var cols := Columns(s, n, fit);
    ColumnsPlacement(s, n, fit, 0, 0, 0);
    ColumnsFramed(s, n, fit, 0, 0, 0);
    forall j | 0 <= j < |cols|
      ensures cols[j].page == j / s.columnsPerPage && cols[j].column == j % s.columnsPerPage
      ensures cols[j].frame == ColumnFrame(s, j % s.columnsPerPage)
    {
      AdvanceArithmetic(s, 0, 0, j);
      assert cols[j] in cols;
    }
  }

  /** The number of pages the columns start: one more than the last column's page, none for no columns. */
  function PageCount(cols: seq<ColumnRecord>): nat {
    if cols == [] then 0 else cols[|cols| - 1].page + 1
  }

  /** Columns appended after others end on the page of the last column of all. */
  lemma PageCountOfAppended(cols: seq<ColumnRecord>, before: seq<ColumnRecord>, added: seq<ColumnRecord>, pages: nat)
    requires cols == before + added
    requires added == [] ==> pages == 0
    requires added != [] ==> cols[|cols| - 1].page + 1 == pages
    ensures PageCount(added) == pages
  {
    if added != [] {
      assert cols[|cols| - 1] == added[|added| - 1];
    }
  }

  /** The columns start exactly as many pages as it takes to hold them `columnsPerPage` to a page. */
  lemma PagesNeeded(s: Settings, n: nat, fit: (nat, Size) -> nat)
    requires s.columnsPerPage > 0
    requires Progresses(fit, n, s.columnRect.size)
    ensures PageCount(Columns(s, n, fit)) == CeilDiv(|Columns(s, n, fit)|, s.columnsPerPage)
  {
    var cols := Columns(s, n, fit);
    if cols != [] {
      ColumnsPlacement(s, n, fit, 0, 0, 0);
      AdvanceArithmetic(s, 0, 0, |cols| - 1);
      CeilDivOfLast(|cols|, s.columnsPerPage);
    }
  }

  /** `m` things, `d` to a group, take one group more than the index of the last one's group. */
  lemma CeilDivOfLast(m: nat, d: nat)
    requires 0 < m && 0 < d
    ensures CeilDiv(m, d) == (m - 1) / d + 1
  {
    DivShift(m - 1, d);
    assert m + d - 1 == d + (m - 1);
  }


  lemma TilesTail(cols: seq<ColumnRecord>, lo: nat, hi: nat)
    requires Tiles(cols, lo, hi) && cols != []
    ensures Tiles(cols[1..], lo + cols[0].length, hi)
  {
    var tail := cols[1..];
    forall j | 0 <= j < |tail|
      ensures tail[j].length > 0 && tail[j].start == lo + cols[0].length + Covered(tail[..j])
    {
      assert tail[j] == cols[j + 1];
      assert cols[..j + 1][1..] == tail[..j];
    }
  }

  /** Text position `p` lies in column `c`. */
  predicate Holds(c: ColumnRecord, p: nat) {
    c.start <= p < End(c)
  }

  /** Some column holds text position `p`. */
  ghost predicate Placed(cols: seq<ColumnRecord>, p: nat) {
    exists j :: 0 <= j < |cols| && Holds(cols[j], p)
  }

  /**
   * Tiling means every text position in `[lo, hi)` lies in some column,
   * and the columns come in order without overlapping, so that it lies in
   * exactly one.
   */
  lemma {:induction false} TilesPartition(cols: seq<ColumnRecord>, lo: nat, hi: nat)
    requires Tiles(cols, lo, hi)
    ensures forall p: nat :: lo <= p < hi ==> Placed(cols, p)
    ensures forall i, j :: 0 <= i < j < |cols| ==> End(cols[i]) <= cols[j].start
    decreases |cols|
  {
    if cols != [] {
      var lo' := lo + cols[0].length;
      TilesTail(cols, lo, hi);
      TilesPartition(cols[1..], lo', hi);
      assert cols[..0] == [];
      forall p: nat | lo <= p < hi
        ensures Placed(cols, p)
      {
        if p < lo' {
          assert Holds(cols[0], p);
        } else {
          assert Placed(cols[1..], p);
          var j' :| 0 <= j' < |cols[1..]| && Holds(cols[1..][j'], p);
          assert cols[j' + 1] == cols[1..][j'];
        }
      }
      forall i, j | 0 <= i < j < |cols|
        ensures End(cols[i]) <= cols[j].start
      {
        assert cols[j] == cols[1..][j - 1];
        if i == 0 {
          assert cols[1..][j - 1].start >= lo';
        } else {
          assert cols[i] == cols[1..][i - 1];
        }
      }
    }
  }

  /** A text that exactly fills the first column gives exactly one column and no empty one after it. */
  lemma ExactFitOneColumn(s: Settings, n: nat, fit: (nat, Size) -> nat)
    requires s.columnsPerPage > 0 && n > 0
    requires Progresses(fit, n, s.columnRect.size)
    requires fit(0, s.columnRect.size) == n
    ensures |Columns(s, n, fit)| == 1
    ensures Columns(s, n, fit)[0].start == 0 && Columns(s, n, fit)[0].length == n
  {
  }

  /** An empty text gives no columns, and so no pages. */
  lemma EmptyText(s: Settings, fit: (nat, Size) -> nat)
    requires s.columnsPerPage > 0
    ensures Progresses(fit, 0, s.columnRect.size)
    ensures Columns(s, 0, fit) == []
    ensures CeilDiv(|Columns(s, 0, fit)|, s.columnsPerPage) == 0
  {
  }

  /** A column index that never exceeds `d` is a multiple of `d` exactly when it is `0` or `d`. */
  lemma ColumnIndexWraps(c: nat, d: nat)
    requires 0 < d && c <= d
    ensures (c % d == 0) <==> (c == 0 || c == d)
  {
    if 0 < c < d {
      assert c % d == c;
    }
  }

  // ---------------------------------------------------------------------
  // CTView
  // ---------------------------------------------------------------------

  class CTView {
    /** The view's bounds. */
    var bounds: Rect
    var isPagingEnabled: bool
    /** The frames of the page views added as subviews, in the order added. */
    var pageFrames: seq<Rect>
    /** The column views added to the page views, in the order added. */
    var columns: seq<ColumnRecord>
    var contentSize: Size

    constructor (bounds: Rect)
      ensures this.bounds == bounds && !isPagingEnabled
      ensures pageFrames == [] && columns == []
      ensures contentSize == Size(0.0, 0.0)
    {
      this.bounds := bounds;
      isPagingEnabled := false;
      pageFrames := [];
      columns := [];
      contentSize := Size(0.0, 0.0);
    }

    /** Adds the view of page `pageIndex`: the page rectangle moved right by that many view widths. */
    method AddPage(settings: Settings, pageIndex: nat) returns (pageFrame: Rect)
      modifies this`pageFrames
      ensures pageFrame == PageFrame(settings, bounds.size.width, pageIndex)
      ensures pageFrames == old(pageFrames) + [pageFrame]
    {
      pageFrame := OffsetBy(settings.pageRect, (pageIndex as real) * bounds.size.width, 0.0);
      pageFrames := pageFrames + [pageFrame];
    }

    /**
     * Adds the view of the column at index `columnIndex` of the page whose
     * frame is `pageFrame`, holding the text that fits from `textPos`, and
     * returns the length of that text.
     */
    method AddColumn(settings: Settings, pageFrame: Rect, page: nat, columnIndex: nat, textPos: nat, fit: (nat, Size) -> nat)
      returns (visible: nat)
      requires settings.columnsPerPage > 0 && pageFrame.size == settings.pageRect.size
      modifies this`columns
      ensures visible == fit(textPos, settings.columnRect.size)
      ensures columns == old(columns) + [ColumnRecord(page, columnIndex, ColumnFrame(settings, columnIndex), textPos, visible)]
    {
      var columnXOrigin := pageFrame.size.width / (settings.columnsPerPage as real);
      var columnOffset := (columnIndex as real) * columnXOrigin;
      var columnFrame := OffsetBy(settings.columnRect, columnOffset, 0.0);
      assert columnOffset == (columnIndex as real) * (settings.pageRect.size.width / (settings.columnsPerPage as real));
      assert columnFrame == ColumnFrame(settings, columnIndex);
      visible := fit(textPos, columnFrame.size);
      columns := columns + [ColumnRecord(page, columnIndex, columnFrame, textPos, visible)];
    }

    /**
     * One turn of the pagination loop, for the column in slot `(page,
     * column)`: when the column index says the column is the first of its
     * page, starts the page, then adds the column holding what fits from
     * `textPos`. Returns the advanced text position, column index and page
     * index and the frame of the column's page.
     */
    method LayOutColumn(settings: Settings, fit: (nat, Size) -> nat, textPos: nat, columnIndex: nat, pageIndex: nat, pageFrame: Rect,
                        ghost frames0: seq<Rect>, ghost page: nat, ghost column: nat)
      returns (textPos': nat, columnIndex': nat, pageIndex': nat, pageFrame': Rect)
      requires settings.columnsPerPage > 0 && columnIndex <= settings.columnsPerPage
      requires column == (if columnIndex == settings.columnsPerPage then 0 else columnIndex)
      requires page == (if column == 0 then pageIndex else pageIndex - 1)
      requires column != 0 ==> pageFrame.size == settings.pageRect.size
      requires pageFrames == frames0 + PageFrames(settings, bounds.size.width, pageIndex)
      modifies this`pageFrames, this`columns
      ensures columns == old(columns) + [ColumnRecord(page, column, ColumnFrame(settings, column), textPos, fit(textPos, settings.columnRect.size))]
      ensures pageFrames == frames0 + PageFrames(settings, bounds.size.width, pageIndex')
      ensures textPos' == textPos + fit(textPos, settings.columnRect.size)
      ensures columnIndex' == column + 1 && pageIndex' == page + 1
      ensures pageFrame'.size == settings.pageRect.size
    {
      columnIndex', pageIndex', pageFrame' := columnIndex, pageIndex, pageFrame;
      ColumnIndexWraps(columnIndex, settings.columnsPerPage);
      if columnIndex % settings.columnsPerPage == 0 {
        columnIndex' := 0;
        AddPageFrame(frames0, pageFrames, settings, bounds.size.width, pageIndex, PageFrame(settings, bounds.size.width, pageIndex));
        pageFrame' := AddPage(settings, pageIndex);
        pageIndex' := pageIndex + 1;
      }
      var visible := AddColumn(settings, pageFrame', pageIndex' - 1, columnIndex', textPos, fit);
      textPos' := textPos + visible;
      columnIndex' := columnIndex' + 1;
    }

    /**
     * The pagination loop: from the start of a text of length `length`,
     * lays out one column after another until the whole text is laid out.
     * Returns the number of pages started.
     */
    method LayOutColumns(settings: Settings, length: nat, fit: (nat, Size) -> nat) returns (pageIndex: nat)
      requires settings.columnsPerPage > 0
      requires Progresses(fit, length, settings.columnRect.size)
      modifies this`pageFrames, this`columns
      ensures columns == old(columns) + Columns(settings, length, fit)
      ensures pageFrames == old(pageFrames) + PageFrames(settings, bounds.size.width, pageIndex)
      ensures pageIndex == PageCount(Columns(settings, length, fit))
    {
      var pageFrame := Rect(Point(0.0, 0.0), Size(0.0, 0.0));
      var textPos: nat := 0;
      var columnIndex: nat := 0;
      pageIndex := 0;
      // The slot of the next column: its page and its index on that page.
      ghost var page: nat, column: nat := 0, 0;
      while textPos < length
        invariant textPos <= length && columnIndex <= settings.columnsPerPage
        invariant column == (if columnIndex == settings.columnsPerPage then 0 else columnIndex)
        invariant page == (if column == 0 then pageIndex else pageIndex - 1)
        invariant LaidOut(settings, length, fit, textPos, page, column, columns) == LaidOut(settings, length, fit, 0, 0, 0, old(columns))
        invariant pageIndex == 0 ==> columns == old(columns)
        invariant pageIndex > 0 ==> |columns| > |old(columns)| && columns[|columns| - 1].page == pageIndex - 1 && pageFrame.size == settings.pageRect.size
        invariant pageFrames == old(pageFrames) + PageFrames(settings, bounds.size.width, pageIndex)
        decreases length - textPos
      {
        var c := ColumnRecord(page, column, ColumnFrame(settings, column), textPos, fit(textPos, settings.columnRect.size));
        LaidOutStep(settings, length, fit, textPos, page, column, columns, c);
        textPos, columnIndex, pageIndex, pageFrame := LayOutColumn(settings, fit, textPos, columnIndex, pageIndex, pageFrame, old(pageFrames), page, column);
        page, column := NextPage(settings, page, column), NextColumn(settings, column);
      }
      LaidOutAppends(settings, length, fit, 0, 0, 0, old(columns));
      ghost var all := Columns(settings, length, fit);
      assert columns == old(columns) + all;
      PageCountOfAppended(columns, old(columns), all, pageIndex);
    }

    /**
     * Lays out `attrString`: appends one page view per started page and one
     * column view per column (earlier subviews stay), turns paging on and
     * makes the content as wide as the pages laid out.
     */
    method BuildFrames(attrString: seq<Markup.Run>, isPhone: bool, screen: Rect, fit: (nat, Size) -> nat)
      requires ScreenFits(isPhone, screen)
      requires Progresses(fit, |Markup.RunsText(attrString)|, NewSettings(isPhone, screen).columnRect.size)
      modifies this
      ensures bounds == old(bounds) && isPagingEnabled
      ensures columns == old(columns) + Columns(NewSettings(isPhone, screen), |Markup.RunsText(attrString)|, fit)
      ensures var settings := NewSettings(isPhone, screen);
        var pages := CeilDiv(|Columns(settings, |Markup.RunsText(attrString)|, fit)|, settings.columnsPerPage);
        pageFrames == old(pageFrames) + PageFrames(settings, bounds.size.width, pages) &&
        contentSize == Size((pages as real) * bounds.size.width, bounds.size.height)
    {
      isPagingEnabled := true;
      var length := |Markup.RunsText(attrString)|;
      var settings := NewSettings(isPhone, screen);
      var pageCount := LayOutColumns(settings, length, fit);
      PagesNeeded(settings, length, fit);
      contentSize := Size((pageCount as real) * bounds.size.width, bounds.size.height);
    }
  }
}
