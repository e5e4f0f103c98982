/** The overlay substitutor: what is drawn over one located tag instance, and the effect of
    drawing it over every instance in a located sequence. */
module Substitutor {
  import opened Geometry
  import opened Pdf
  import opened Locator

  /** What a tag is replaced by: literal text, or a decoded signature image. */
  datatype Replacement = TextValue(value: string) | SignatureImage(image: Image)

  /** Font size of replacement text. */
  const FontSize: nat := 10

  /** The drawing operations for one instance. Text: a white box exactly over the tag, then the
      value in black from the text anchor. Signature: the image in the signature box, no fill. */
  function Render(rep: Replacement, rect: Rect): seq<DrawOp> {
    match rep
    case TextValue(value) => [RectOp(rect, White, White), TextOp(TextAnchor(rect), value, FontSize, Black)]
    case SignatureImage(image) => [ImageOp(SignatureRect(rect), image)]
  }

  /** The operations for a run of boxes, one Render per box in order. */
  function RenderRects(rects: seq<Rect>, rep: Replacement): seq<DrawOp> {
    if |rects| == 0 then []
    else RenderRects(rects[..|rects| - 1], rep) + Render(rep, rects[|rects| - 1])
  }

  /** The operations for a run of instances, one Render per instance in order. */
  function RenderInstances(found: seq<TagInstance>, rep: Replacement): seq<DrawOp> {
    if |found| == 0 then []
    else RenderInstances(found[..|found| - 1], rep) + Render(rep, found[|found| - 1].rect)
  }

  /** Draw the replacement over one instance, on the instance's own page. */
  function Paint(pages: seq<Page>, inst: TagInstance, rep: Replacement): (r: seq<Page>)
    ensures |r| == |pages|
  {
    if inst.page < |pages| then
      pages[inst.page := pages[inst.page].(ops := pages[inst.page].ops + Render(rep, inst.rect))]
    else pages
  }

  /** Draw the replacement over every instance of `found`, in order. */
  function Overlay(pages: seq<Page>, found: seq<TagInstance>, rep: Replacement): (r: seq<Page>)
    ensures |r| == |pages|
  {
    if |found| == 0 then pages
    else Paint(Overlay(pages, found[..|found| - 1], rep), found[|found| - 1], rep)
  }

  /** The last instance of `found`, on one page `p`, given what the earlier instances drew there. */
  lemma OverlayEffectStep(pages: seq<Page>, found: seq<TagInstance>, rep: Replacement, p: nat)
    requires |found| > 0 && p < |pages|
    requires var mid := Overlay(pages, found[..|found| - 1], rep);
      mid[p].occurrences == pages[p].occurrences &&
      mid[p].ops == pages[p].ops + RenderInstances(OnPage(found[..|found| - 1], p), rep)
    ensures Overlay(pages, found, rep)[p].occurrences == pages[p].occurrences
    ensures Overlay(pages, found, rep)[p].ops == pages[p].ops + RenderInstances(OnPage(found, p), rep)
  {
    var n := |found| - 1;
    var last := found[n];
    var mid := Overlay(pages, found[..n], rep);
    var before := OnPage(found[..n], p);
    assert Overlay(pages, found, rep) == Paint(mid, last, rep);
    if last.page == p {
      assert Paint(mid, last, rep)[p].occurrences == mid[p].occurrences;
      assert OnPage(found, p) == before + [last];
      assert (before + [last])[..|before|] == before;
      calc {
        Paint(mid, last, rep)[p].ops;
        mid[p].ops + Render(rep, last.rect);
        (pages[p].ops + RenderInstances(before, rep)) + Render(rep, last.rect);
        { ConcatAssoc(pages[p].ops, RenderInstances(before, rep), Render(rep, last.rect)); }
        pages[p].ops + (RenderInstances(before, rep) + Render(rep, last.rect));
        pages[p].ops + RenderInstances(before + [last], rep);
      }
    } else {
      assert OnPage(found, p) == before + [];
      assert before + [] == before;
      assert Paint(mid, last, rep)[p] == mid[p];
    }
  }

  /** Overlaying leaves every page's text layer alone and appends to each page exactly the
      operations for the instances on that page, in instance order. */
  lemma {:induction false} OverlayEffect(pages: seq<Page>, found: seq<TagInstance>, rep: Replacement)
    ensures SameText(Overlay(pages, found, rep), pages)
    ensures forall p :: 0 <= p < |pages| ==>
      Overlay(pages, found, rep)[p].ops == pages[p].ops + RenderInstances(OnPage(found, p), rep)
  {
    if |found| > 0 {
      OverlayEffect(pages, found[..|found| - 1], rep);
      forall p | 0 <= p < |pages|
        ensures Overlay(pages, found, rep)[p].occurrences == pages[p].occurrences
        ensures Overlay(pages, found, rep)[p].ops == pages[p].ops + RenderInstances(OnPage(found, p), rep)
      {
        OverlayEffectStep(pages, found, rep, p);
      }
    }
  }

  lemma {:induction false} RenderInstancesOf(p: nat, rects: seq<Rect>, text: string, rep: Replacement)
    ensures RenderInstances(Instances(p, rects, text), rep) == RenderRects(rects, rep)
  {
    if |rects| > 0 {
      var n := |rects| - 1;
      assert Instances(p, rects, text)[..n] == Instances(p, rects[..n], text);
      RenderInstancesOf(p, rects[..n], text, rep);
    }
  }

  /** Overlaying the located instances of `text` appends to each page exactly the operations for
      that page's own search results; a page where the text does not occur is not drawn on. */
  lemma OverlayLocated(pages: seq<Page>, text: string, rep: Replacement, p: nat)
    requires p < |pages|
    ensures Overlay(pages, Locate(pages, text), rep)[p].ops
         == pages[p].ops + RenderRects(SearchFor(pages[p].occurrences, text), rep)
  {
    OverlayEffect(pages, Locate(pages, text), rep);
    LocateOnPage(pages, text, p);
    RenderInstancesOf(p, SearchFor(pages[p].occurrences, text), text, rep);
  }

  /** Text replacement of a run of boxes: for each box in order, one white fill of exactly that
      box immediately followed by one insertion of the value at the box's text anchor, in black
      at the fixed font size. */
  lemma {:induction false} RenderRectsText(rects: seq<Rect>, value: string)
    ensures |RenderRects(rects, TextValue(value))| == 2 * |rects|
    ensures forall k :: 0 <= k < |rects| ==>
      RenderRects(rects, TextValue(value))[2 * k] == RectOp(rects[k], White, White) &&
      RenderRects(rects, TextValue(value))[2 * k + 1] == TextOp(TextAnchor(rects[k]), value, FontSize, Black)
  {
    if |rects| > 0 {
      var n := |rects| - 1;
      RenderRectsText(rects[..n], value);
      var ops := RenderRects(rects, TextValue(value));
      assert ops == RenderRects(rects[..n], TextValue(value)) + Render(TextValue(value), rects[n]);
      forall k | 0 <= k < |rects|
        ensures ops[2 * k] == RectOp(rects[k], White, White)
        ensures ops[2 * k + 1] == TextOp(TextAnchor(rects[k]), value, FontSize, Black)
      {
        if k < n {
          assert rects[..n][k] == rects[k];
        }
      }
    }
  }

  /** Signature replacement of a run of boxes: exactly one image per box, in order, each in the
      signature box of its tag; no fill is ever drawn. */
  lemma {:induction false} RenderRectsImage(rects: seq<Rect>, image: Image)
    ensures |RenderRects(rects, SignatureImage(image))| == |rects|
    ensures forall k :: 0 <= k < |rects| ==>
      RenderRects(rects, SignatureImage(image))[k] == ImageOp(SignatureRect(rects[k]), image)
    ensures forall op :: op in RenderRects(rects, SignatureImage(image)) ==> op.ImageOp?
  {
    if |rects| > 0 {
      var n := |rects| - 1;
      RenderRectsImage(rects[..n], image);
      var ops := RenderRects(rects, SignatureImage(image));
      assert ops == RenderRects(rects[..n], SignatureImage(image)) + [ImageOp(SignatureRect(rects[n]), image)];
      forall k | 0 <= k < n ensures ops[k] == ImageOp(SignatureRect(rects[k]), image) {
        assert rects[..n][k] == rects[k];
      }
    }
  }
}
