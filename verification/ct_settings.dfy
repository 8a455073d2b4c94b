/**
 * The page and column geometry of the magazine: a fixed margin, one column
 * per page on a phone and two otherwise, the page rectangle inset from the
 * screen by the margin, and the column rectangle inset from one column's
 * share of the page.
 *
 * Coordinates are exact reals; the device idiom and the screen bounds are
 * parameters.
 */
module Geometry {

  datatype Point = Point(x: real, y: real)
  datatype Size = Size(width: real, height: real)
  datatype Rect = Rect(origin: Point, size: Size)

  /** The rectangle moved by `dx` horizontally and `dy` vertically. */
  function OffsetBy(r: Rect, dx: real, dy: real): (o: Rect)
    ensures o.size == r.size
    ensures o.origin.x - r.origin.x == dx && o.origin.y - r.origin.y == dy
  {
    Rect(Point(r.origin.x + dx, r.origin.y + dy), r.size)
  }

  /**
   * The rectangle shrunk by `dx` on the left and right and by `dy` on the
   * top and bottom. A result of negative size (which CGRect turns into the
   * null rectangle) is excluded by the precondition.
   */
  function InsetBy(r: Rect, dx: real, dy: real): (o: Rect)
    requires 2.0 * dx <= r.size.width && 2.0 * dy <= r.size.height
    ensures o.size.width >= 0.0 && o.size.height >= 0.0
    ensures o.origin.x + o.size.width + dx == r.origin.x + r.size.width
    ensures o.origin.y + o.size.height + dy == r.origin.y + r.size.height
    ensures o.origin.x == r.origin.x + dx && o.origin.y == r.origin.y + dy
  {
    Rect(Point(r.origin.x + dx, r.origin.y + dy), Size(r.size.width - 2.0 * dx, r.size.height - 2.0 * dy))
  }

  const Margin: real := 20.0

  datatype Settings = Settings(margin: real, columnsPerPage: nat, pageRect: Rect, columnRect: Rect)

  function ColumnsPerPage(isPhone: bool): nat {
    if isPhone then 1 else 2
  }

  /**
   * The screen is large enough that neither inset goes negative: the page
   * is the screen less two margins each way, and each column's share of
   * the page again less two margins each way.
   */
  predicate ScreenFits(isPhone: bool, screen: Rect) {
    screen.size.width - 2.0 * Margin >= 2.0 * Margin * (ColumnsPerPage(isPhone) as real) &&
    screen.size.height >= 4.0 * Margin
  }

  /**
   * The settings for a device: the page is the screen inset by the margin
   * on every side, and the column rectangle, at the origin of the page,
   * is one column's share of the page inset by the margin on every side,
   * so that the columns and their margins exactly fill the page width.
   */
  function NewSettings(isPhone: bool, screen: Rect): (s: Settings)
    requires ScreenFits(isPhone, screen)
    ensures s.margin == 20.0
    ensures s.columnsPerPage == (if isPhone then 1 else 2)
    ensures s.pageRect.origin == Point(screen.origin.x + 20.0, screen.origin.y + 20.0)
    ensures s.pageRect.size == Size(screen.size.width - 40.0, screen.size.height - 40.0)
    ensures s.columnRect.origin == Point(20.0, 20.0)
    ensures s.columnRect.size.width == s.pageRect.size.width / (s.columnsPerPage as real) - 40.0
    ensures s.columnRect.size.height == s.pageRect.size.height - 40.0
    ensures (s.columnsPerPage as real) * (s.columnRect.size.width + 2.0 * s.margin) == s.pageRect.size.width
    ensures s.columnRect.size.width >= 0.0 && s.columnRect.size.height >= 0.0
  {
    var columnsPerPage := ColumnsPerPage(isPhone);
    var pageRect := InsetBy(screen, Margin, Margin);
    var share := Rect(Point(0.0, 0.0), Size(pageRect.size.width / (columnsPerPage as real), pageRect.size.height));
    var columnRect := InsetBy(share, Margin, Margin);
    Settings(Margin, columnsPerPage, pageRect, columnRect)
  }
}
