# CoreTextMagazine in Dafny

A model of the logic of the CoreTextMagazine app, a Core Text magazine
reader. It has three parts:

- **The markup parser** (`markup_parser.dfy`, module `Markup`). The markup
  is cut into chunks by the pattern `(.*?)(<[^>]+>|\Z)`. Each chunk is split
  on `<`. The text before the first `<` is appended as a run in the current
  color and font name. The piece after the first `<` is inspected as the
  tag: a tag that starts with `font` sets the color from every
  `color="word"` match and the font name from every `face="..."` match.
  The model also covers `String.range(from:)`, which turns an NSRange into
  string indices. The parser is a class: `color`, `fontName` and
  `attrString` are fields that `ParseMarkup` and `ApplyFontTag` update.
  `attrString` is nil until the first parse, as the implicitly unwrapped
  optional of the source is. `ParseMarkup` is proved against the fold
  `Runs`/`StyleAfter` over the chunk texts. `ApplyFontTag` is proved
  against the function `ApplyTag`.
- **The geometry** (`ct_settings.dfy`, module `Geometry`). These are the
  settings for a device:
  - a margin of 20;
  - one column per page on a phone, two otherwise;
  - the page rectangle, which is the screen inset by the margin;
  - the column rectangle, which is one column's share of the page inset by
    the margin.

  Rectangles are exact reals.
- **The pagination loop** (`ct_view.dfy`, module `Pages`). The view is a
  class whose page frames, columns and content size are fields. The loop
  lays out one column after another. It starts a page whenever the column
  index wraps to the first column of a page. Each column holds what Core
  Text fits from the current text position. That amount is an oracle
  `fit(position, columnSize)`.
  - The loop is proved against the recursive function `Columns` (through
    `ColumnsAt`, the columns from a given text position and slot on).
  - Lemmas prove what `Columns` promises:
    - the columns tile the text;
    - column `j` sits on page `j / columnsPerPage` at index
      `j % columnsPerPage`, with the frame of that index;
    - the pages started are the number of columns divided by
      `columnsPerPage`, rounded up;
    - page `k` is the page rectangle moved right by `k` view widths;
    - the content width is that many view widths.

Strings are sequences of Dafny `char`s, one `char` for each UTF-16 code
unit, the unit NSRange counts in. A Dafny `char` is a Unicode scalar value
and cannot be half of a surrogate pair. So the model covers only text whose
characters all lie in the Basic Multilingual Plane, where each character is
one code unit.

## Model

| member | source | states |
|---|---|---|
| Markup.RangeFrom | CoreTextMagazine/MarkupParser.swift:114-125 | No range when the location, or the location plus the length, lies past the end of the string. Otherwise the range starts at the location and spans exactly `length` code units, ending within the string. |
| Markup.Split | CoreTextMagazine/MarkupParser.swift:59 | `components(separatedBy: "<")` always gives at least one piece, and no piece contains `<`. |
| Markup.SplitJoin | CoreTextMagazine/MarkupParser.swift:59 | Splitting loses nothing: joining the pieces with the separator gives back the chunk. |
| Markup.SplitFirstTwo | CoreTextMagazine/MarkupParser.swift:59-78 | For `a + "<" + b` followed by the end or another `<`, piece 0 is `a` and piece 1 is `b`. Nothing after a second `<` is seen. |
| Markup.TagEndAt | CoreTextMagazine/MarkupParser.swift:37 | Finds a tag exactly when `<[^>]+>` matches at that position, and gives the end of that match. |
| Markup.ChunkEndShortest | CoreTextMagazine/MarkupParser.swift:37 | The lazy chunk is the shortest. A chunk not reaching the end of input ends with a tag that starts inside it, and no tag starting in it ends earlier. |
| Markup.ChunksPartition | CoreTextMagazine/MarkupParser.swift:37-59 | Every match range converts to string indices, so the `guard ... continue` never skips one. The chunk texts concatenate to the markup (the source differs for markup ending in a line terminator, and for markup with a grapheme cluster of more than one code unit; see the two Markup.ChunksPartition lines under "## Left out"). The last chunk is the empty match at the end. |
| Markup.ColorStartsExact | CoreTextMagazine/MarkupParser.swift:81-85 | The enumeration of `(?<=color=")\w+` finds exactly the positions where the pattern can start, in increasing order. |
| Markup.FaceStartsExact | CoreTextMagazine/MarkupParser.swift:94-98 | The enumeration of `(?<=face=")[^"]+` finds exactly the positions where the pattern can start, in increasing order. |
| Markup.FaceValueShape | CoreTextMagazine/MarkupParser.swift:94-102 | A face value is non-empty, holds no `"`, and follows `face="`. So `face=""` sets nothing. |
| Markup.NamedColor | CoreTextMagazine/MarkupParser.swift:89-90 | A word that names no class color of UIColor gives black. |
| Markup.ColorNameRoundTrip | CoreTextMagazine/MarkupParser.swift:89-90 | Every color is selected by its own name: the name is one the lookup knows, and looking it up gives the color back. |
| Markup.FoldColorLast | CoreTextMagazine/MarkupParser.swift:83-91 | After all the color matches, the color is the last match's named color. With no match it is unchanged. |
| Markup.FoldFaceLast | CoreTextMagazine/MarkupParser.swift:96-103 | After all the face matches, the font name is the last match's value. With no match it is unchanged. |
| Markup.TagEffect | CoreTextMagazine/MarkupParser.swift:80-104 | A tag not starting with `font` (case-sensitive) changes nothing. A `font` tag sets the color to the last color match, or black for an unknown name. It sets the font name to the last face value. A missing attribute leaves its part of the style alone. |
| Markup.StrayOpen | CoreTextMagazine/MarkupParser.swift:59-78 | With a stray `<` in a chunk, the text stops at the first `<`. The piece after it is taken as the tag, so a later font tag in the same chunk is not applied. |
| Markup.RunsShape | CoreTextMagazine/MarkupParser.swift:55-65 | One run per chunk. Chunk `j`'s run carries its text before the first `<`, in the style left by the chunks before it. A tag affects only later chunks. |
| Markup.StyleAfterStep | CoreTextMagazine/MarkupParser.swift:75-104 | The style before chunk `j + 1` is chunk `j`'s tag applied to the style before chunk `j`. |
| Markup.RunsTextIsTextParts | CoreTextMagazine/MarkupParser.swift:55-65 | The text of the appended runs is exactly the concatenation of the chunks' text parts, in order. |
| Markup.PlainMarkup | CoreTextMagazine/MarkupParser.swift:26-109 | Markup without `<` comes out as its own text, and the style is unchanged. |
| Markup.MarkupParser.constructor | CoreTextMagazine/MarkupParser.swift:15-23 | A new parser starts black, in "Arial", with `attrString` nil. |
| Markup.MarkupParser.ApplyFontTag | CoreTextMagazine/MarkupParser.swift:80-104 | Its two loops over the matches leave exactly the style `ApplyTag` gives. |
| Markup.MarkupParser.ParseMarkup | CoreTextMagazine/MarkupParser.swift:26-109 | `attrString` is set (no longer nil) and becomes the runs of the markup's chunks. The style becomes the style after them, starting from the style the previous call left; it is not reset. |
| Geometry.OffsetBy | CoreTextMagazine/CTView.swift:32 | `offsetBy` keeps the size and moves the origin by exactly the offsets. |
| Geometry.InsetBy | CoreTextMagazine/CTSettings.swift:26 | `insetBy` moves the origin in by the insets and keeps the far edges the insets inside the old ones. |
| Geometry.NewSettings | CoreTextMagazine/CTSettings.swift:16-32 | The margin is 20. There is 1 column per page on a phone, else 2. The page is the screen shifted by 20 and shrunk by 40 each way. The column sits at (20, 20), is the page share less 40 wide and the page height less 40 high. The columns and their margins exactly fill the page width. |
| Pages.PageFramesAt | CoreTextMagazine/CTView.swift:32-35 | Page `j`'s frame is the page rectangle, moved right by `j` view widths. |
| Pages.ColumnsAt | CoreTextMagazine/CTView.swift:28-54 | There is at most one column per remaining unit of text, and no column exactly when the text position is at the end. |
| Pages.LaidOutAppends | CoreTextMagazine/CTView.swift:28-54 | Laying out columns one at a time from a position appends exactly the columns `ColumnsAt` gives from there. |
| Pages.ColumnsTile | CoreTextMagazine/CTView.swift:45-51 | The columns are non-empty, each starts where the previous ones end, and together they reach the end of the text. Each holds exactly what the oracle fits from its start. |
| Pages.TilesPartition | CoreTextMagazine/CTView.swift:28-54 | Every text position lies in a column, and the columns come in order without overlap. |
| Pages.ExactFitOneColumn | CoreTextMagazine/CTView.swift:28-54 | A text that exactly fills the first column gives one column holding all of it. |
| Pages.EmptyText | CoreTextMagazine/CTView.swift:28-58 | An empty text gives no columns and no pages. |
| Pages.ColumnsPlacement | CoreTextMagazine/CTView.swift:30-53 | The `j`-th column lies in the slot `j` slots after the first. |
| Pages.AdvanceArithmetic | CoreTextMagazine/CTView.swift:30-53 | `j` slots on from index `c`, the column lies `(c + j) / columnsPerPage` pages further, at index `(c + j) % columnsPerPage`. |
| Pages.ColumnsFramed | CoreTextMagazine/CTView.swift:38-40 | Every column index is below `columnsPerPage`. The column frame is the column rectangle moved right by that many shares of the page width. |
| Pages.ColumnsOnPages | CoreTextMagazine/CTView.swift:30-40 | Column `j` of the text lies on page `j / columnsPerPage`, at index `j % columnsPerPage`, with that index's frame. |
| Pages.ColumnIndexWraps | CoreTextMagazine/CTView.swift:30-31 | For a column index of at most `columnsPerPage`, the remainder is 0 exactly when the index is 0 or `columnsPerPage`. |
| Pages.CeilDivIsCeiling | CoreTextMagazine/CTView.swift:30-35 | `CeilDiv(m, d)` pages of `d` columns hold `m` columns, and one page fewer does not. |
| Pages.PagesNeeded | CoreTextMagazine/CTView.swift:30-35 | The pages the columns start number exactly the column count divided by `columnsPerPage`, rounded up. |
| Pages.CTView.AddPage | CoreTextMagazine/CTView.swift:32-33 | Appends the frame of page `pageIndex` to the page views. |
| Pages.CTView.AddColumn | CoreTextMagazine/CTView.swift:38-51 | Appends a column view at the column's frame on its page, holding what fits from the text position, and returns the length of that text. |
| Pages.CTView.LayOutColumn | CoreTextMagazine/CTView.swift:29-53 | One turn of the loop. It starts the page when the column index wraps, and appends the column `ColumnsAt` gives for the slot. It advances the text position by the column's length and moves the indices to the next slot. |
| Pages.CTView.LayOutColumns | CoreTextMagazine/CTView.swift:22-54 | The loop appends exactly `Columns` and the frames of the pages it starts. Its page count is one more than the last column's page. |
| Pages.CTView.BuildFrames | CoreTextMagazine/CTView.swift:15-59 | Paging is turned on. The columns of the text are appended, along with the frames of `CeilDiv(#columns, columnsPerPage)` pages. The content is that many view widths wide and as high as the view. |

## Left out

- Core Text fitting is not modelled: the framesetter, the frame built in a column and its visible range (CTView.swift:20, 43-45, 50). The fit is the oracle `fit`.
- Pages.CTView.BuildFrames requires a fit that is positive and at most what remains. The source has no guard against a frame that shows no text, so with such a fit it would loop forever. The model follows the code: it leaves that case out by the precondition rather than reporting an error.
- UIKit views are records, not views. Page views are kept as their frames and column views as `ColumnRecord`s, in the order they are added; earlier subviews stay, as with `addSubview`. `CTColumnView` drawing is not part of this model.
- Images are not modelled. The `images` array is never filled, and `andImages` is never used.
- `ViewController.swift` is not part of this model: it loads the file and runs the app lifecycle.
- Markup.NamedColor: `UIColor.perform(NSSelectorFromString(name + "Color"))` becomes a closed table of the class colors of UIColor in the iOS 11 SDK. These are the fifteen basic colors plus lightText, darkText, groupTableViewBackground, viewFlipsideBackground, scrollViewTexturedBackground and underPageBackground. Any other word gives black. Class colors added in later SDKs, such as systemRed or label, therefore give black in the model, though the source running on a later system would find them. The source would trap on a selector that does not exist; that is not modelled.
- `UIFont(name:size:)` and the font size of screen height / 40 are not modelled. A run records its font name as a string.
- The device idiom and the screen bounds are parameters of Geometry.NewSettings.
- Geometry.NewSettings requires a screen large enough that no inset goes negative. For a smaller screen, `insetBy` returns the null rectangle; that case is not modelled.
- CGFloat rounding is not modelled; coordinates are exact reals. `columnIndex` and `pageIndex`, CGFloats in the source, are naturals. For the whole, non-negative values they take, `truncatingRemainder` agrees with the natural-number remainder.
- Markup.ChunksPartition: `\Z` in the chunk pattern (Markup.ChunkEndFrom) is taken as the end of input only. ICU's `\Z` also matches before a final line terminator, so for markup that ends in a line terminator no match covers that terminator, and it never reaches `attrString`. The model puts it in the last chunk's text instead. For such markup, Markup.ChunksPartition's "the chunk texts concatenate to the markup" holds of the model but not of the source, which loses the final terminator.
- The unreachable `catch` for a bad pattern is not modelled; the patterns are constants.
- Markup.RangeFrom: a range that would split a grapheme cluster is not modelled. Conversions that `String.Index(_:within:)` would reject are taken as succeeding, since one `char` stands for one UTF-16 code unit.
- Markup.ChunksPartition: the chunking range (MarkupParser.swift:44) and the ranges the color and face enumerations search (MarkupParser.swift:85, 98) have length `characters.count`, the number of grapheme clusters. The model takes it to be the UTF-16 length, which holds only for text in which every grapheme cluster is one code unit: no CR LF pair, no combining mark, no Hangul jamo sequence. Otherwise `characters.count` is smaller, and the source searches only that many leading code units. For markup, no chunk covers the units past it, so they never reach `attrString` (in `"a\r\nb"`, length 4 but 3 clusters, the `b` is lost). For a tag, a color or face attribute past it is not found. The model searches the whole string, so for such text Markup.ChunksPartition's "the chunk texts concatenate to the markup", and Markup.ColorStartsExact and Markup.FaceStartsExact, hold of the model only.
- `\w` in the color pattern is taken as ASCII letters, digits and `_`, not Unicode word characters.
