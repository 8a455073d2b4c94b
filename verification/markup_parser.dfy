/**
 * The markup parser of the magazine: the markup is cut into chunks by the
 * pattern `(.*?)(<[^>]+>|\Z)`, each chunk is split on `<`, the text before
 * the first `<` is appended as a run in the current style, and a tag that
 * starts with `font` updates the current color and font name for all later
 * chunks.
 *
 * Strings are sequences of UTF-16 code units: one `char` stands for one
 * code unit, which is the unit NSRange and NSAttributedString count in.
 * A Dafny `char` is a Unicode scalar value and cannot be half of a
 * surrogate pair, so only text in the Basic Multilingual Plane is covered.
 */
module Markup {

  datatype Option<T> = None | Some(value: T)

  /** An NSRange: a start location and a length, in code units. */
  datatype NSRange = NSRange(location: nat, length: nat)

  /** A half-open range `lo ..< hi` of code-unit indices of a string. */
  datatype Span = Span(lo: nat, hi: nat)

  /**
   * The colors the named-color lookup can produce: the class colors of
   * UIColor in the iOS 11 SDK, the fifteen basic ones and the six system
   * ones.
   */
  datatype Color =
    | Black | DarkGray | LightGray | White | Gray | Red | Green | Blue
    | Cyan | Yellow | Magenta | Orange | Purple | Brown | Clear
    | LightText | DarkText | GroupTableViewBackground
    | ViewFlipsideBackground | ScrollViewTexturedBackground | UnderPageBackground

  /** The persistent style state of the parser. */
  datatype Style = Style(color: Color, fontName: string)

  /** One appended attributed string: its text, foreground color and font name. */
  datatype Run = Run(text: string, color: Color, fontName: string)

  /** The state a fresh parser starts in. */
  const DefaultStyle := Style(Black, "Arial")

  // ---------------------------------------------------------------------
  // String.range(from:)
  // ---------------------------------------------------------------------

  /**
   * Converts an NSRange into a range of indices of `s`. Both ends are
   * advanced with a limit of the end of the string: if either would pass
   * it, there is no range.
   */
  function RangeFrom(s: string, range: NSRange): (r: Option<Span>)
    ensures r.None? <==> range.location > |s| || range.location + range.length > |s|
    ensures r.Some? ==> r.value.lo == range.location && r.value.hi <= |s|
    ensures r.Some? ==> r.value.hi - r.value.lo == range.length
  {
    if range.location > |s| then None
    else if range.location + range.length > |s| then None
    else Some(Span(range.location, range.location + range.length))
  }

  // ---------------------------------------------------------------------
  // Scanning helpers
  // ---------------------------------------------------------------------

  /** The index of the first `c` at or after `i`, or `|s|` if there is none. */
  function FindFrom(s: string, c: char, i: nat): (j: nat)
    requires i <= |s|
    ensures i <= j <= |s|
    ensures j < |s| ==> s[j] == c
    ensures forall k :: i <= k < j ==> s[k] != c
    decreases |s| - i
  {
    if i == |s| || s[i] == c then i else FindFrom(s, c, i + 1)
  }

  /** The characters the regular-expression class `\w` matches. */
  predicate IsWordChar(c: char) {
    ('a' <= c <= 'z') || ('A' <= c <= 'Z') || ('0' <= c <= '9') || c == '_'
  }

  /** The end of the longest run of word characters starting at `i`. */
  function WordEnd(s: string, i: nat): (j: nat)
    requires i <= |s|
    ensures i <= j <= |s|
    ensures forall k :: i <= k < j ==> IsWordChar(s[k])
    ensures j < |s| ==> !IsWordChar(s[j])
    decreases |s| - i
  {
    if i == |s| || !IsWordChar(s[i]) then i else WordEnd(s, i + 1)
  }

  predicate StartsWith(s: string, prefix: string) {
    |prefix| <= |s| && s[..|prefix|] == prefix
  }

  /** The concatenation of a sequence of strings. */
  function Concat(ss: seq<string>): string {
    if ss == [] then "" else ss[0] + Concat(ss[1..])
  }

  // ---------------------------------------------------------------------
  // components(separatedBy:)
  // ---------------------------------------------------------------------

  /** The pieces of `s` between occurrences of `sep`, as `components(separatedBy:)`. */
  function Split(s: string, sep: char): (parts: seq<string>)
    ensures |parts| >= 1
    ensures forall k :: 0 <= k < |parts| ==> sep !in parts[k]
    decreases |s|
  {
    var j := FindFrom(s, sep, 0);
    if j == |s| then [s] else [s[..j]] + Split(s[j + 1..], sep)
  }

  /** The pieces joined back together with `sep` between them. */
  function Join(parts: seq<string>, sep: char): string {
    if parts == [] then ""
    else if |parts| == 1 then parts[0]
    else parts[0] + [sep] + Join(parts[1..], sep)
  }

  lemma JoinCons(head: string, tail: seq<string>, sep: char)
    requires tail != []
    ensures Join([head] + tail, sep) == head + [sep] + Join(tail, sep)
  {
    assert ([head] + tail)[1..] == tail;
  }

  /** Splitting loses nothing: joining the pieces gives back the string. */
  lemma {:induction false} SplitJoin(s: string, sep: char)
    ensures Join(Split(s, sep), sep) == s
    decreases |s|
  {
    var j := FindFrom(s, sep, 0);
    if j < |s| {
      var rest := s[j + 1..];
      SplitJoin(rest, sep);
      JoinCons(s[..j], Split(rest, sep), sep);
      assert s == s[..j] + [sep] + rest by {
        assert s[j] == sep;
      }
    }
  }

  /**
   * The first two pieces: if `c` is `a + "<" + b` followed by the end or by
   * another `<`, where neither `a` nor `b` contains `<`, the first piece is
   * `a` and the second is `b`; whatever follows a second `<` is never seen.
   */
  lemma SplitFirstTwo(c: string, a: string, b: string, rest: string)
    requires c == a + "<" + b + rest
    requires '<' !in a && '<' !in b
    requires rest == [] || rest[0] == '<'
    ensures Split(c, '<')[0] == a
    ensures |Split(c, '<')| >= 2 && Split(c, '<')[1] == b
  {
    assert c == a + "<" + (b + rest);
    SplitFirst(c, a, b + rest, '<');
    if rest == [] {
      assert b + rest == b;
      SplitFirst(b, b, [], '<');
    } else {
      SplitFirst(b + rest, b, rest[1..], '<');
    }
  }

  /** A piece free of `sep`: `s` is that piece, then either nothing or `sep` and `t`. */
  lemma SplitFirst(s: string, a: string, t: string, sep: char)
    requires sep !in a
    requires s == a || s == a + [sep] + t
    ensures Split(s, sep)[0] == a
    ensures s == a ==> Split(s, sep) == [a]
    ensures s != a ==> Split(s, sep) == [a] + Split(t, sep)
  {
    var j := FindFrom(s, sep, 0);
    forall k | 0 <= k < |a| ensures s[k] != sep {
      assert s[k] == a[k] && a[k] in a;
    }
    if s == a {
      assert j == |a|;
    } else {
      assert s[|a|] == sep;
      assert j == |a|;
      assert s[..j] == a && s[j + 1..] == t;
    }
  }

  // ---------------------------------------------------------------------
  // The chunking pattern `(.*?)(<[^>]+>|\Z)`
  // ---------------------------------------------------------------------

  /**
   * `<[^>]+>` matches `s[q..e]`: a `<`, at least one character other
   * than `>` (a `<` is allowed), and a `>`.
   */
  ghost predicate IsTag(s: string, q: nat, e: nat) {
    q + 3 <= e <= |s| && s[q] == '<' && s[e - 1] == '>' &&
    forall k :: q < k < e - 1 ==> s[k] != '>'
  }

  /** The end of the tag that starts at `q`, if one does. */
  function TagEndAt(s: string, q: nat): (r: Option<nat>)
    ensures r.Some? ==> IsTag(s, q, r.value)
    ensures r.None? ==> forall e: nat :: !IsTag(s, q, e)
  {
    if q + 1 < |s| && s[q] == '<' && s[q + 1] != '>' then
      var j := FindFrom(s, '>', q + 1);
      if j < |s| then Some(j + 1) else None
    else None
  }

  /**
   * Where the chunk that the lazy `(.*?)` starts at `q` ends: at the end of
   * the first tag found scanning forward from `q`, or at the end of input.
   */
  function ChunkEndFrom(s: string, q: nat): (e: nat)
    requires q <= |s|
    ensures q <= e <= |s|
    ensures q < |s| ==> q < e
    decreases |s| - q
  {
    if q == |s| then |s|
    else match TagEndAt(s, q)
      case Some(e) => e
      case None => ChunkEndFrom(s, q + 1)
  }

  /**
   * The lazy match is the shortest: a chunk that does not reach the end of
   * input ends with a tag, and no tag starting inside it ends earlier.
   */
  lemma {:induction false} ChunkEndShortest(s: string, q: nat)
    requires q <= |s|
    ensures ChunkEndFrom(s, q) < |s| ==>
      exists t :: q <= t < ChunkEndFrom(s, q) && IsTag(s, t, ChunkEndFrom(s, q))
    ensures forall t, e :: q <= t && IsTag(s, t, e) ==> ChunkEndFrom(s, q) <= e
    decreases |s| - q
  {
    if q < |s| {
      match TagEndAt(s, q)
      case Some(e0) =>
        assert IsTag(s, q, e0);
        forall t: nat, e: nat | q <= t && IsTag(s, t, e) ensures e0 <= e {
          assert s[e - 1] == '>' && q < e - 1;
        }
      case None =>
        ChunkEndShortest(s, q + 1);
    }
  }

  /**
   * The ranges of all matches, in order. After a chunk ending at the end
   * of input the pattern still matches once more, emptily, at the end.
   */
  function ChunksFrom(s: string, p: nat): (rs: seq<NSRange>)
    requires p <= |s|
    ensures |rs| >= 1
    decreases |s| - p
  {
    if p == |s| then [NSRange(p, 0)]
    else
      var e := ChunkEndFrom(s, p);
      [NSRange(p, e - p)] + ChunksFrom(s, e)
  }

  function Chunks(s: string): seq<NSRange> {
    ChunksFrom(s, 0)
  }

  /** The text of each range that converts into indices of `s`; a range that does not is skipped. */
  function Slices(s: string, rs: seq<NSRange>): seq<string> {
    if rs == [] then []
    else
      var first := match RangeFrom(s, rs[0])
        case None => []
        case Some(sp) => [s[sp.lo..sp.hi]];
      first + Slices(s, rs[1..])
  }

  lemma SlicesCons(s: string, rs: seq<NSRange>)
    requires rs != [] && RangeFrom(s, rs[0]).Some?
    ensures Slices(s, rs) ==
      [s[RangeFrom(s, rs[0]).value.lo..RangeFrom(s, rs[0]).value.hi]] + Slices(s, rs[1..])
  {
  }

  /** The chunk texts the parser loops over. */
  function ChunkTexts(s: string): seq<string> {
    Slices(s, Chunks(s))
  }

  lemma {:induction false} ChunksFromCover(s: string, p: nat)
    requires p <= |s|
    ensures |Slices(s, ChunksFrom(s, p))| == |ChunksFrom(s, p)|
    ensures Concat(Slices(s, ChunksFrom(s, p))) == s[p..]
    ensures Slices(s, ChunksFrom(s, p))[|ChunksFrom(s, p)| - 1] == ""
    decreases |s| - p
  {
    if p == |s| {
      SlicesLast(s, p);
    } else {
      var e := ChunkEndFrom(s, p);
      SlicesStep(s, p);
      ChunksFromCover(s, e);
      CoverStep(s, p, e, Slices(s, ChunksFrom(s, e)));
    }
  }

  /** A chunk `s[p..e]` in front of pieces covering `s[e..]` gives pieces covering `s[p..]`, with the same last piece. */
  lemma CoverStep(s: string, p: nat, e: nat, rest: seq<string>)
    requires p <= e <= |s| && rest != []
    requires Concat(rest) == s[e..]
    ensures Concat([s[p..e]] + rest) == s[p..]
    ensures ([s[p..e]] + rest)[|rest|] == rest[|rest| - 1]
  {
    ConcatCons(s[p..e], rest);
    SliceJoin(s, p, e);
  }

  lemma SliceJoin(s: string, p: nat, e: nat)
    requires p <= e <= |s|
    ensures s[p..e] + s[e..] == s[p..]
  {
  }

  /** At the end of input the only match is the empty one, whose text is empty. */
  lemma SlicesLast(s: string, p: nat)
    requires p == |s|
    ensures Slices(s, ChunksFrom(s, p)) == [""]
  {
    var rs := ChunksFrom(s, p);
    assert rs == [NSRange(p, 0)];
    SlicesCons(s, rs);
    assert rs[1..] == [] && s[p..p] == "";
  }

  /** Before the end of input the first match is the chunk up to its end, and the rest follow from there. */
  lemma SlicesStep(s: string, p: nat)
    requires p < |s|
    ensures Slices(s, ChunksFrom(s, p)) == [s[p..ChunkEndFrom(s, p)]] + Slices(s, ChunksFrom(s, ChunkEndFrom(s, p)))
  {
    var e := ChunkEndFrom(s, p);
    var rs := ChunksFrom(s, p);
    assert rs[1..] == ChunksFrom(s, e);
    SlicesCons(s, rs);
  }

  lemma ConcatCons(head: string, tail: seq<string>)
    ensures Concat([head] + tail) == head + Concat(tail)
  {
    assert ([head] + tail)[1..] == tail;
  }

  /**
   * The chunks partition the markup: every chunk range converts (the
   * `guard ... else { continue }` never skips one), the chunk texts
   * concatenate to the markup, and the last chunk is the empty match at
   * the end.
   */
  lemma ChunksPartition(s: string)
    ensures |ChunkTexts(s)| == |Chunks(s)|
    ensures Concat(ChunkTexts(s)) == s
    ensures ChunkTexts(s)[|ChunkTexts(s)| - 1] == ""
  {
    ChunksFromCover(s, 0);
  }

  // ---------------------------------------------------------------------
  // The attribute patterns `(?<=color=")\w+` and `(?<=face=")[^"]+`
  // ---------------------------------------------------------------------

  /** `(?<=color=")\w+` can start a match at `i`. */
  predicate ColorMatchAt(tag: string, i: nat) {
    7 <= i < |tag| && tag[i - 7..i] == "color=\"" && IsWordChar(tag[i])
  }

  /** The start of every match of the color pattern at or after `i`, found as enumerateMatches finds them. */
  function ColorStarts(tag: string, i: nat): (ps: seq<nat>)
    requires i <= |tag|
    ensures forall k :: 0 <= k < |ps| ==> i <= ps[k] < |tag|
    decreases |tag| - i
  {
    if i == |tag| then []
    else if ColorMatchAt(tag, i) then [i] + ColorStarts(tag, WordEnd(tag, i))
    else ColorStarts(tag, i + 1)
  }

  /** The matched color word that starts at `p`. */
  function ColorWord(tag: string, p: nat): string
    requires p <= |tag|
  {
    tag[p..WordEnd(tag, p)]
  }

  function ColorWords(tag: string): seq<string> {
    var ps := ColorStarts(tag, 0);
    seq(|ps|, k requires 0 <= k < |ps| => ColorWord(tag, ps[k]))
  }

  /**
   * The enumeration finds every match: exactly the positions at or after
   * `i` where the pattern can start, in increasing order.
   */
  lemma {:induction false} ColorStartsExact(tag: string, i: nat)
    requires i <= |tag|
    ensures forall k :: 0 <= k < |ColorStarts(tag, i)| ==> ColorMatchAt(tag, ColorStarts(tag, i)[k])
    ensures forall j: nat :: i <= j && ColorMatchAt(tag, j) ==> j in ColorStarts(tag, i)
    ensures forall a, b :: 0 <= a < b < |ColorStarts(tag, i)| ==> ColorStarts(tag, i)[a] < ColorStarts(tag, i)[b]
    decreases |tag| - i
  {
    if i < |tag| {
      if ColorMatchAt(tag, i) {
        var e := WordEnd(tag, i);
        ColorStartsExact(tag, e);
        forall j: nat | i < j && ColorMatchAt(tag, j) ensures e <= j {
          assert tag[j - 1] == (tag[j - 7..j])[6] == '"';
          assert !IsWordChar(tag[j - 1]);
        }
      } else {
        ColorStartsExact(tag, i + 1);
      }
    }
  }

  /** `(?<=face=")[^"]+` can start a match at `i`. */
  predicate FaceMatchAt(tag: string, i: nat) {
    6 <= i < |tag| && tag[i - 6..i] == "face=\"" && tag[i] != '"'
  }

  /** The start of every match of the face pattern at or after `i`. */
  function FaceStarts(tag: string, i: nat): (ps: seq<nat>)
    requires i <= |tag|
    ensures forall k :: 0 <= k < |ps| ==> i <= ps[k] < |tag|
    decreases |tag| - i
  {
    if i == |tag| then []
    else if FaceMatchAt(tag, i) then [i] + FaceStarts(tag, FindFrom(tag, '"', i))
    else FaceStarts(tag, i + 1)
  }

  /** The matched face value that starts at `p`: everything up to the next `"`. */
  function FaceValue(tag: string, p: nat): string
    requires p <= |tag|
  {
    tag[p..FindFrom(tag, '"', p)]
  }

  function FaceValues(tag: string): seq<string> {
    var ps := FaceStarts(tag, 0);
    seq(|ps|, k requires 0 <= k < |ps| => FaceValue(tag, ps[k]))
  }

  /**
   * The enumeration finds exactly the positions where `face="` is followed
   * by a character other than `"`, in increasing order; the value found at
   * each is non-empty, contains no `"` and is preceded by `face="`.
   */
  lemma {:induction false} FaceStartsExact(tag: string, i: nat)
    requires i <= |tag|
    ensures forall k :: 0 <= k < |FaceStarts(tag, i)| ==> FaceMatchAt(tag, FaceStarts(tag, i)[k])
    ensures forall j: nat :: i <= j && FaceMatchAt(tag, j) ==> j in FaceStarts(tag, i)
    ensures forall a, b :: 0 <= a < b < |FaceStarts(tag, i)| ==> FaceStarts(tag, i)[a] < FaceStarts(tag, i)[b]
    decreases |tag| - i
  {
    if i < |tag| {
      if FaceMatchAt(tag, i) {
        var e := FindFrom(tag, '"', i);
        FaceStartsExact(tag, e);
        forall j: nat | i < j && FaceMatchAt(tag, j) ensures e <= j {
          assert tag[j - 1] == (tag[j - 6..j])[5] == '"';
        }
      } else {
        FaceStartsExact(tag, i + 1);
      }
    }
  }

  /** A face value is never empty and never contains a quote: `face=""` sets nothing. */
  lemma FaceValueShape(tag: string, p: nat)
    requires FaceMatchAt(tag, p)
    ensures FaceValue(tag, p) != ""
    ensures '"' !in FaceValue(tag, p)
    ensures tag[p - 6..p] == "face=\""
  {
    var e := FindFrom(tag, '"', p);
    assert FaceValue(tag, p)[0] == tag[p];
  }

  // ---------------------------------------------------------------------
  // The effect of a tag on the style
  // ---------------------------------------------------------------------

  /** The name of the UIColor class property for each color: the selector `<name>Color`. */
  function ColorName(c: Color): string {
    match c
    case Black => "black"
    case DarkGray => "darkGray"
    case LightGray => "lightGray"
    case White => "white"
    case Gray => "gray"
    case Red => "red"
    case Green => "green"
    case Blue => "blue"
    case Cyan => "cyan"
    case Yellow => "yellow"
    case Magenta => "magenta"
    case Orange => "orange"
    case Purple => "purple"
    case Brown => "brown"
    case Clear => "clear"
    case LightText => "lightText"
    case DarkText => "darkText"
    case GroupTableViewBackground => "groupTableViewBackground"
    case ViewFlipsideBackground => "viewFlipsideBackground"
    case ScrollViewTexturedBackground => "scrollViewTexturedBackground"
    case UnderPageBackground => "underPageBackground"
  }

  /** The names the lookup knows. */
  const ColorNames: set<string> := {
    "black", "darkGray", "lightGray", "white", "gray", "red", "green", "blue", "cyan",
    "yellow", "magenta", "orange", "purple", "brown", "clear", "lightText", "darkText",
    "groupTableViewBackground", "viewFlipsideBackground",
    "scrollViewTexturedBackground", "underPageBackground"}

  /**
   * The color a `color="word"` match selects: the class color whose name
   * the word is, and black for a word that names none.
   */
  function NamedColor(name: string): (c: Color)
    ensures name !in ColorNames ==> c == Black
  {
    if name == "black" then Black
    else if name == "darkGray" then DarkGray
    else if name == "lightGray" then LightGray
    else if name == "white" then White
    else if name == "gray" then Gray
    else if name == "red" then Red
    else if name == "green" then Green
    else if name == "blue" then Blue
    else if name == "cyan" then Cyan
    else if name == "yellow" then Yellow
    else if name == "magenta" then Magenta
    else if name == "orange" then Orange
    else if name == "purple" then Purple
    else if name == "brown" then Brown
    else if name == "clear" then Clear
    else if name == "lightText" then LightText
    else if name == "darkText" then DarkText
    else if name == "groupTableViewBackground" then GroupTableViewBackground
    else if name == "viewFlipsideBackground" then ViewFlipsideBackground
    else if name == "scrollViewTexturedBackground" then ScrollViewTexturedBackground
    else if name == "underPageBackground" then UnderPageBackground
    else Black
  }

  /** Each color's name is one the lookup knows, and looking that name up gives the color back. */
  lemma ColorNameRoundTrip(c: Color)
    ensures ColorName(c) in ColorNames && NamedColor(ColorName(c)) == c
  {
    match c
    case Black =>
    case DarkGray =>
    case LightGray =>
    case White =>
    case Gray =>
    case Red =>
    case Green =>
    case Blue =>
    case Cyan =>
    case Yellow =>
    case Magenta =>
    case Orange =>
    case Purple =>
    case Brown =>
    case Clear =>
    case LightText =>
    case DarkText =>
    case GroupTableViewBackground =>
    case ViewFlipsideBackground =>
    case ScrollViewTexturedBackground =>
    case UnderPageBackground =>
  }

  /** Each color match in turn overwrites the color. */
  function FoldColor(c: Color, words: seq<string>): Color
    decreases words
  {
    if words == [] then c else FoldColor(NamedColor(words[0]), words[1..])
  }

  /** Each face match in turn overwrites the font name. */
  function FoldFace(name: string, values: seq<string>): string
    decreases values
  {
    if values == [] then name else FoldFace(values[0], values[1..])
  }

  /** The last color match wins; without one, the color is unchanged. */
  lemma {:induction false} FoldColorLast(c: Color, words: seq<string>)
    ensures FoldColor(c, words) == if words == [] then c else NamedColor(words[|words| - 1])
    decreases words
  {
    if words != [] {
      FoldColorLast(NamedColor(words[0]), words[1..]);
    }
  }

  /** The last face match wins; without one, the font name is unchanged. */
  lemma {:induction false} FoldFaceLast(name: string, values: seq<string>)
    ensures FoldFace(name, values) == if values == [] then name else values[|values| - 1]
    decreases values
  {
    if values != [] {
      FoldFaceLast(values[0], values[1..]);
    }
  }

  /** A tag changes the style only when it starts with `font` (case-sensitive). */
  function ApplyTag(st: Style, tag: string): Style {
    if StartsWith(tag, "font") then
      Style(FoldColor(st.color, ColorWords(tag)), FoldFace(st.fontName, FaceValues(tag)))
    else st
  }

  /** The text a chunk contributes: the piece before its first `<`. */
  function TextPart(chunk: string): string {
    Split(chunk, '<')[0]
  }

  /** The tag a chunk is inspected for: the piece between its first and second `<`, if any. */
  function TagPart(chunk: string): Option<string> {
    var parts := Split(chunk, '<');
    if |parts| <= 1 then None else Some(parts[1])
  }

  /** The style after a chunk has been processed. */
  function NextStyle(st: Style, chunk: string): Style {
    match TagPart(chunk)
    case None => st
    case Some(tag) => ApplyTag(st, tag)
  }

  /**
   * A stray `<` before a chunk's tag: the chunk's text stops at the first
   * `<`, and what lies between the stray `<` and the next one is taken as
   * the tag, so a font tag further on in the chunk is never applied.
   */
  lemma StrayOpen(st: Style, chunk: string, a: string, b: string, rest: string)
    requires chunk == a + "<" + b + rest
    requires '<' !in a && '<' !in b
    requires rest == [] || rest[0] == '<'
    ensures TextPart(chunk) == a && TagPart(chunk) == Some(b)
    ensures NextStyle(st, chunk) == ApplyTag(st, b)
  {
    SplitFirstTwo(chunk, a, b, rest);
  }

  /**
   * The effect of a font tag: the color becomes the named color of the last
   * `color="word"` (black for an unknown word), the font name becomes the
   * last non-empty `face="..."` value, and each is unchanged when the tag
   * has no such attribute. Any other tag changes nothing.
   */
  lemma TagEffect(st: Style, tag: string)
    ensures !StartsWith(tag, "font") ==> ApplyTag(st, tag) == st
    ensures StartsWith(tag, "font") ==>
      ApplyTag(st, tag).color ==
        (if ColorWords(tag) == [] then st.color
         else NamedColor(ColorWords(tag)[|ColorWords(tag)| - 1]))
    ensures StartsWith(tag, "font") ==>
      ApplyTag(st, tag).fontName ==
        (if FaceValues(tag) == [] then st.fontName
         else FaceValues(tag)[|FaceValues(tag)| - 1])
  {
    FoldColorLast(st.color, ColorWords(tag));
    FoldFaceLast(st.fontName, FaceValues(tag));
  }

  // ---------------------------------------------------------------------
  // The parse as a fold over the chunks
  // ---------------------------------------------------------------------

  /** The style after processing all of `chunks`, starting from `st`. */
  function StyleAfter(st: Style, chunks: seq<string>): Style
    decreases chunks
  {
    if chunks == [] then st else StyleAfter(NextStyle(st, chunks[0]), chunks[1..])
  }

  /**
   * The runs appended for `chunks`, starting from style `st`. This is a
   * finer record than the attributed string: a chunk with no text before its
   * first `<` (the final empty match, or a chunk that starts with its tag)
   * gives an empty run, where appending `""` adds nothing. The two agree on
   * `RunsText` and on the style of each character.
   */
  function Runs(st: Style, chunks: seq<string>): seq<Run>
    decreases chunks
  {
    if chunks == [] then []
    else [Run(TextPart(chunks[0]), st.color, st.fontName)] + Runs(NextStyle(st, chunks[0]), chunks[1..])
  }

  /** The text of an attributed string made of `runs`. */
  function RunsText(runs: seq<Run>): string {
    if runs == [] then "" else runs[0].text + RunsText(runs[1..])
  }

  /** The text part of every chunk, in order. */
  function TextParts(chunks: seq<string>): seq<string> {
    if chunks == [] then [] else [TextPart(chunks[0])] + TextParts(chunks[1..])
  }

  /**
   * One run per chunk, and the run of chunk `j` carries its text before the
   * first `<` in the style left by the chunks before it: its own tag takes
   * effect only from the next chunk on.
   */
  lemma {:induction false} RunsShape(st: Style, chunks: seq<string>)
    ensures |Runs(st, chunks)| == |chunks|
    ensures forall j :: 0 <= j < |chunks| ==>
      Runs(st, chunks)[j] ==
        Run(TextPart(chunks[j]), StyleAfter(st, chunks[..j]).color, StyleAfter(st, chunks[..j]).fontName)
    decreases chunks
  {
    if chunks != [] {
      var st1 := NextStyle(st, chunks[0]);
      var tail := chunks[1..];
      RunsShape(st1, tail);
      forall j | 0 <= j < |chunks|
        ensures Runs(st, chunks)[j] ==
          Run(TextPart(chunks[j]), StyleAfter(st, chunks[..j]).color, StyleAfter(st, chunks[..j]).fontName)
      {
        if j == 0 {
          assert chunks[..0] == [];
        } else {
          assert chunks[..j][0] == chunks[0];
          assert chunks[..j][1..] == tail[..j - 1];
          assert StyleAfter(st, chunks[..j]) == StyleAfter(st1, tail[..j - 1]);
          assert Runs(st, chunks)[j] == Runs(st1, tail)[j - 1];
          assert tail[j - 1] == chunks[j];
        }
      }
    }
  }

  /** Processing one more chunk: the style before chunk `j + 1` is chunk `j`'s tag applied to the style before it. */
  lemma {:induction false} StyleAfterStep(st: Style, chunks: seq<string>, j: nat)
    requires j < |chunks|
    ensures StyleAfter(st, chunks[..j + 1]) == NextStyle(StyleAfter(st, chunks[..j]), chunks[j])
    decreases chunks
  {
    if j == 0 {
      assert chunks[..1][1..] == [];
      assert chunks[..0] == [];
    } else {
      var tail := chunks[1..];
      StyleAfterStep(NextStyle(st, chunks[0]), tail, j - 1);
      assert chunks[..j + 1][1..] == tail[..j];
      assert chunks[..j][1..] == tail[..j - 1];
      assert chunks[..j + 1][0] == chunks[0] && chunks[..j][0] == chunks[0];
    }
  }

  /** Nothing but the chunks' text parts is appended: the text of the runs is their concatenation. */
  lemma {:induction false} RunsTextIsTextParts(st: Style, chunks: seq<string>)
    ensures RunsText(Runs(st, chunks)) == Concat(TextParts(chunks))
    decreases chunks
  {
    if chunks != [] {
      RunsTextIsTextParts(NextStyle(st, chunks[0]), chunks[1..]);
      assert Runs(st, chunks)[1..] == Runs(NextStyle(st, chunks[0]), chunks[1..]);
    }
  }

  /** Unfolds the fold once at chunk `i`. */
  lemma ChunkStep(st: Style, chunks: seq<string>, i: nat, done: seq<Run>)
    requires i < |chunks|
    ensures done + Runs(st, chunks[i..]) ==
      (done + [Run(TextPart(chunks[i]), st.color, st.fontName)]) + Runs(NextStyle(st, chunks[i]), chunks[i + 1..])
    ensures StyleAfter(st, chunks[i..]) == StyleAfter(NextStyle(st, chunks[i]), chunks[i + 1..])
  {
    assert chunks[i..][0] == chunks[i] && chunks[i..][1..] == chunks[i + 1..];
  }

  /** The runs the parser appends for `markup`, starting in style `st`. */
  function ParsedRuns(markup: string, st: Style): seq<Run> {
    Runs(st, ChunkTexts(markup))
  }

  /** The style the parser is left in after `markup`, starting in style `st`. */
  function ParsedStyle(markup: string, st: Style): Style {
    StyleAfter(st, ChunkTexts(markup))
  }

  /** With no `<` in it, no tag starts anywhere in `s`. */
  lemma NoTagWithoutOpen(s: string)
    requires '<' !in s
    ensures forall t: nat, e: nat :: t < |s| ==> !IsTag(s, t, e)
  {
    forall t: nat, e: nat | t < |s| ensures !IsTag(s, t, e) {
      assert s[t] in s;
    }
  }

  /**
   * Markup without a `<` survives unchanged: the text of the runs is the
   * markup itself and the style is untouched.
   */
  lemma PlainMarkup(markup: string, st: Style)
    requires '<' !in markup
    ensures RunsText(ParsedRuns(markup, st)) == markup
    ensures ParsedStyle(markup, st) == st
  {
    var cs := ChunkTexts(markup);
    PlainChunkTexts(markup);
    forall k | 0 <= k < |cs| ensures '<' !in cs[k] {
    }
    UntaggedChunks(st, cs);
    RunsTextIsTextParts(st, cs);
    if markup != [] {
      assert cs[1..] == [""] && [""][1..] == [];
    }
  }

  /** Markup without a `<` is one chunk, followed by the empty match at the end (only that match when the markup is empty). */
  lemma PlainChunkTexts(markup: string)
    requires '<' !in markup
    ensures ChunkTexts(markup) == if markup == [] then [""] else [markup, ""]
  {
    var n := |markup|;
    if markup == [] {
      SlicesLast(markup, 0);
    } else {
      ChunkEndShortest(markup, 0);
      NoTagWithoutOpen(markup);
      assert ChunkEndFrom(markup, 0) == n;
      SlicesStep(markup, 0);
      SlicesLast(markup, n);
      assert markup[0..n] == markup;
    }
  }

  /** Chunks without a `<` contribute their whole text and leave the style alone. */
  lemma {:induction false} UntaggedChunks(st: Style, chunks: seq<string>)
    requires forall k :: 0 <= k < |chunks| ==> '<' !in chunks[k]
    ensures TextParts(chunks) == chunks
    ensures StyleAfter(st, chunks) == st
    decreases chunks
  {
    if chunks != [] {
      SplitFirst(chunks[0], chunks[0], [], '<');
      UntaggedChunks(st, chunks[1..]);
      assert chunks == [chunks[0]] + chunks[1..];
    }
  }

  // ---------------------------------------------------------------------
  // MarkupParser
  // ---------------------------------------------------------------------

  class MarkupParser {
    var color: Color
    var fontName: string
    /** The implicitly unwrapped attributed string: nil until the first parse. */
    var attrString: Option<seq<Run>>

    constructor ()
      ensures color == Black && fontName == "Arial"
      ensures Style(color, fontName) == DefaultStyle
      ensures attrString == None
    {
      color := Black;
      fontName := "Arial";
      attrString := None;
    }

    /**
     * Inspects one tag: if it starts with `font`, every `color="word"`
     * match in turn sets the color and every `face="..."` match in turn
     * sets the font name.
     */
    method ApplyFontTag(tag: string)
      modifies this`color, this`fontName
      ensures Style(color, fontName) == ApplyTag(old(Style(color, fontName)), tag)
    {
      if StartsWith(tag, "font") {
        ghost var st := Style(color, fontName);
        var colorStarts := ColorStarts(tag, 0);
        ghost var words := ColorWords(tag);
        for k := 0 to |colorStarts|
          invariant FoldColor(color, words[k..]) == FoldColor(st.color, words)
          invariant fontName == st.fontName
        {
          assert words[k] == ColorWord(tag, colorStarts[k]);
          assert words[k..][1..] == words[k + 1..];
          color := NamedColor(ColorWord(tag, colorStarts[k]));
        }
        assert words[|colorStarts|..] == [];
        var faceStarts := FaceStarts(tag, 0);
        ghost var values := FaceValues(tag);
        ghost var c1 := color;
        for k := 0 to |faceStarts|
          invariant FoldFace(fontName, values[k..]) == FoldFace(st.fontName, values)
          invariant color == c1
        {
          assert values[k] == FaceValue(tag, faceStarts[k]);
          assert values[k..][1..] == values[k + 1..];
          fontName := FaceValue(tag, faceStarts[k]);
        }
        assert values[|faceStarts|..] == [];
      }
    }

    /**
     * Replaces `attrString` by the runs of `markup`. The color and font
     * name are not reset: they start from whatever the previous call left.
     */
    method ParseMarkup(markup: string)
      modifies this
      ensures attrString == Some(ParsedRuns(markup, old(Style(color, fontName))))
      ensures Style(color, fontName) == ParsedStyle(markup, old(Style(color, fontName)))
    {
      ghost var st0 := Style(color, fontName);
      attrString := Some([]);
      var chunks := ChunkTexts(markup);
      for i := 0 to |chunks|
        invariant attrString.Some?
        invariant attrString.value + Runs(Style(color, fontName), chunks[i..]) == Runs(st0, chunks)
        invariant StyleAfter(Style(color, fontName), chunks[i..]) == StyleAfter(st0, chunks)
      {
        ghost var st := Style(color, fontName);
        ChunkStep(st, chunks, i, attrString.value);
        var parts := Split(chunks[i], '<');
        attrString := Some(attrString.value + [Run(parts[0], color, fontName)]);
        if |parts| <= 1 {
          continue;
        }
        var tag := parts[1];
        assert TagPart(chunks[i]) == Some(tag);
        ApplyFontTag(tag);
        assert Style(color, fontName) == NextStyle(st, chunks[i]);
      }
      assert chunks[|chunks|..] == [];
      assert attrString.value + [] == attrString.value;
    }
  }
}
