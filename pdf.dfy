/** The document model: pages with a searchable text layer and an append-only log of drawing
    operations, and the document object the substitution pass mutates. */
module Pdf {
  import opened Geometry

  datatype Color = Color(r: real, g: real, b: real)

  const White: Color := Color(1.0, 1.0, 1.0)
  const Black: Color := Color(0.0, 0.0, 0.0)

  /** A decoded raster image; the engine never looks at its pixels. */
  datatype Image = Image(pixels: seq<int>)

  /** One drawing primitive applied to a page, in the order it was issued. */
  datatype DrawOp =
    | RectOp(rect: Rect, color: Color, fill: Color)
    | TextOp(at: Point, text: string, fontSize: nat, color: Color)
    | ImageOp(rect: Rect, image: Image)

  /** A place where searching the page for `text` reports the bounding box `rect`. */
  datatype Occurrence = Occurrence(text: string, rect: Rect)

  /** A page: what its text search reports, in the page's native search order, and what has been
      drawn on it. */
  datatype Page = Page(occurrences: seq<Occurrence>, ops: seq<DrawOp>)

  /** The page's text search: the bounding boxes of every occurrence of `text`, in search order. */
  function SearchFor(occurrences: seq<Occurrence>, text: string): (rects: seq<Rect>)
    ensures |rects| <= |occurrences|
    ensures forall r :: r in rects <==> Occurrence(text, r) in occurrences
  {
    if |occurrences| == 0 then []
    else
      var n := |occurrences| - 1;
      assert occurrences == occurrences[..n] + [occurrences[n]];
      SearchFor(occurrences[..n], text) + (if occurrences[n].text == text then [occurrences[n].rect] else [])
  }

  /** Two page sequences whose text layers agree page by page; search cannot tell them apart. */
  predicate SameText(a: seq<Page>, b: seq<Page>) {
    |a| == |b| && forall p :: 0 <= p < |a| ==> a[p].occurrences == b[p].occurrences
  }

  function Append(page: Page, op: DrawOp): Page {
    page.(ops := page.ops + [op])
  }

  /** Appending to a drawing log in two steps or in one gives the same log. */
  lemma ConcatAssoc<T>(a: seq<T>, b: seq<T>, c: seq<T>)
    ensures (a + b) + c == a + (b + c)
  {
  }

  /** An open document, mutated in place by the drawing primitives. */
  class Document {
    var pages: seq<Page>

    constructor (pages: seq<Page>)
      ensures this.pages == pages
    {
      this.pages := pages;
    }

    /** Stroke and fill a rectangle on page `pageNum`. */
    method DrawRect(pageNum: nat, rect: Rect, color: Color, fill: Color)
      requires pageNum < |pages|
      modifies this
      ensures pages == old(pages)[pageNum := Append(old(pages)[pageNum], RectOp(rect, color, fill))]
    {
      pages := pages[pageNum := Append(pages[pageNum], RectOp(rect, color, fill))];
    }

    /** Insert a single line of text with its baseline starting at `at`. */
    method InsertText(pageNum: nat, at: Point, text: string, fontSize: nat, color: Color)
      requires pageNum < |pages|
      modifies this
      ensures pages == old(pages)[pageNum := Append(old(pages)[pageNum], TextOp(at, text, fontSize, color))]
    {
      pages := pages[pageNum := Append(pages[pageNum], TextOp(at, text, fontSize, color))];
    }

    /** Embed an image into `rect`. */
    method InsertImage(pageNum: nat, rect: Rect, image: Image)
      requires pageNum < |pages|
      modifies this
      ensures pages == old(pages)[pageNum := Append(old(pages)[pageNum], ImageOp(rect, image))]
    {
      pages := pages[pageNum := Append(pages[pageNum], ImageOp(rect, image))];
    }
  }
}
