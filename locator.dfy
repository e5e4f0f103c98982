/** The tag locator: every occurrence of a literal tag string, page by page in ascending order. */
module Locator {
  import opened Geometry
  import opened Pdf

  /** One located occurrence of a tag. */
  datatype TagInstance = TagInstance(page: nat, rect: Rect, text: string)

  /** The instances one page contributes, in that page's search order. */
  function Instances(page: nat, rects: seq<Rect>, text: string): seq<TagInstance> {
    seq(|rects|, k requires 0 <= k < |rects| => TagInstance(page, rects[k], text))
  }

  /** What the locator returns: page 0's search results, then page 1's, and so on. */
  function Locate(pages: seq<Page>, text: string): seq<TagInstance> {
    if |pages| == 0 then []
    else
      var n := |pages| - 1;
      Locate(pages[..n], text) + Instances(n, SearchFor(pages[n].occurrences, text), text)
  }

  /** The instances of `found` that lie on page `p`, in their order in `found`. */
  function OnPage(found: seq<TagInstance>, p: nat): seq<TagInstance> {
    if |found| == 0 then []
    else
      var n := |found| - 1;
      OnPage(found[..n], p) + (if found[n].page == p then [found[n]] else [])
  }

  /** Scan the pages in ascending order and collect every occurrence of `searchText`. The document
      is only read. */
  method FindTextInPdf(doc: Document, searchText: string) returns (found: seq<TagInstance>)
    ensures found == Locate(doc.pages, searchText)
    ensures forall k :: 0 <= k < |found| ==> found[k].page < |doc.pages| && found[k].text == searchText
    ensures forall j, k :: 0 <= j <= k < |found| ==> found[j].page <= found[k].page
  {
    found := [];
    var pageNum := 0;
    while pageNum < |doc.pages|
      invariant 0 <= pageNum <= |doc.pages|
      invariant found == Locate(doc.pages[..pageNum], searchText)
    {
      var textInstances := SearchFor(doc.pages[pageNum].occurrences, searchText);
      ghost var before := found;
      var i := 0;
      while i < |textInstances|
        invariant 0 <= i <= |textInstances|
        invariant found == before + Instances(pageNum, textInstances[..i], searchText)
      {
        found := found + [TagInstance(pageNum, textInstances[i], searchText)];
        i := i + 1;
        assert Instances(pageNum, textInstances[..i], searchText)
            == Instances(pageNum, textInstances[..i - 1], searchText) + [TagInstance(pageNum, textInstances[i - 1], searchText)];
      }
      assert textInstances[..i] == textInstances;
      assert doc.pages[..pageNum + 1][..pageNum] == doc.pages[..pageNum];
      pageNum := pageNum + 1;
    }
    assert doc.pages[..pageNum] == doc.pages;
    LocateBounds(doc.pages, searchText);
  }

  /** Every instance is on one of the first `count` pages and carries `text`. */
  predicate AllOn(found: seq<TagInstance>, count: nat, text: string) {
    forall k :: 0 <= k < |found| ==> found[k].page < count && found[k].text == text
  }

  /** Instances come in non-decreasing page order. */
  predicate PageOrdered(found: seq<TagInstance>) {
    forall j, k :: 0 <= j <= k < |found| ==> found[j].page <= found[k].page
  }

  /** Every located instance is on an existing page and carries the searched text, and the
      instances come in non-decreasing page order. */
  lemma {:induction false} LocateBounds(pages: seq<Page>, text: string)
    ensures AllOn(Locate(pages, text), |pages|, text)
    ensures PageOrdered(Locate(pages, text))
  {
    if |pages| > 0 {
      var n := |pages| - 1;
      LocateBounds(pages[..n], text);
      var head := Locate(pages[..n], text);
      var tail := Instances(n, SearchFor(pages[n].occurrences, text), text);
      var found := head + tail;
      assert found == Locate(pages, text);
      forall k | 0 <= k < |found|
        ensures found[k].page < |pages| && found[k].text == text
        ensures k >= |head| ==> found[k].page == n
      {
        if k >= |head| {
          assert found[k] == tail[k - |head|];
        } else {
          assert found[k] == head[k];
        }
      }
      forall j, k | 0 <= j <= k < |found| ensures found[j].page <= found[k].page {
        if k < |head| {
          assert found[j] == head[j] && found[k] == head[k];
        } else if j < |head| {
          assert found[j] == head[j];
        }
      }
    }
  }

  lemma {:induction false} OnPageConcat(a: seq<TagInstance>, b: seq<TagInstance>, p: nat)
    ensures OnPage(a + b, p) == OnPage(a, p) + OnPage(b, p)
  {
    if |b| > 0 {
      var n := |b| - 1;
      assert (a + b)[..|a| + n] == a + b[..n];
      OnPageConcat(a, b[..n], p);
    } else {
      assert a + b == a;
    }
  }

  lemma {:induction false} OnPageInstances(q: nat, rects: seq<Rect>, text: string, p: nat)
    ensures OnPage(Instances(q, rects, text), p) == if q == p then Instances(q, rects, text) else []
  {
    if |rects| > 0 {
      var n := |rects| - 1;
      assert Instances(q, rects, text)[..n] == Instances(q, rects[..n], text);
      OnPageInstances(q, rects[..n], text, p);
      assert Instances(q, rects, text) == Instances(q, rects[..n], text) + [TagInstance(q, rects[n], text)];
    }
  }

  /** The instances the locator reports on page `p` are exactly page `p`'s own search results,
      in its search order; nothing is reported for a page that does not exist. */
  lemma {:induction false} LocateOnPage(pages: seq<Page>, text: string, p: nat)
    ensures OnPage(Locate(pages, text), p)
         == if p < |pages| then Instances(p, SearchFor(pages[p].occurrences, text), text) else []
  {
    if |pages| > 0 {
      var n := |pages| - 1;
      var rects := SearchFor(pages[n].occurrences, text);
      var before := Locate(pages[..n], text);
      LocateOnPage(pages[..n], text, p);
      OnPageConcat(before, Instances(n, rects, text), p);
      OnPageInstances(n, rects, text, p);
      assert Locate(pages, text) == before + Instances(n, rects, text);
      if p < n {
        assert pages[..n][p] == pages[p];
        assert OnPage(Locate(pages, text), p) == OnPage(before, p) + [];
      } else if p == n {
        assert OnPage(Locate(pages, text), p) == [] + Instances(n, rects, text);
      } else {
        assert OnPage(Locate(pages, text), p) == [] + [];
      }
    }
  }

  /** The locator reports nothing exactly when no page's search finds the text. */
  lemma LocateEmpty(pages: seq<Page>, text: string)
    ensures Locate(pages, text) == [] <==>
            forall p :: 0 <= p < |pages| ==> SearchFor(pages[p].occurrences, text) == []
  {
    if Locate(pages, text) == [] {
      forall p | 0 <= p < |pages| ensures SearchFor(pages[p].occurrences, text) == [] {
        LocateOnPage(pages, text, p);
      }
    } else {
      var k :| 0 <= k < |Locate(pages, text)|;
      LocateBounds(pages, text);
      var inst := Locate(pages, text)[k];
      LocateOnPage(pages, text, inst.page);
      LocateOnPageMember(Locate(pages, text), k);
    }
  }

  lemma {:induction false} LocateOnPageMember(found: seq<TagInstance>, k: nat)
    requires k < |found|
    ensures found[k] in OnPage(found, found[k].page)
  {
    var n := |found| - 1;
    if k < n {
      LocateOnPageMember(found[..n], k);
    }
  }

  /** An instance is located exactly when it is on an existing page, carries the searched text,
      and its box is one that page's search reports for that text. */
  lemma LocateMembers(pages: seq<Page>, text: string, inst: TagInstance)
    ensures inst in Locate(pages, text) <==>
            inst.page < |pages| && inst.text == text && Occurrence(text, inst.rect) in pages[inst.page].occurrences
  {
    LocateBounds(pages, text);
    var found := Locate(pages, text);
    LocateOnPage(pages, text, inst.page);
    if inst in found {
      var k :| 0 <= k < |found| && found[k] == inst;
      LocateOnPageMember(found, k);
      var rects := SearchFor(pages[inst.page].occurrences, text);
      var j :| 0 <= j < |rects| && Instances(inst.page, rects, text)[j] == inst;
    } else if inst.page < |pages| && inst.text == text && Occurrence(text, inst.rect) in pages[inst.page].occurrences {
      var rects := SearchFor(pages[inst.page].occurrences, text);
      var j :| 0 <= j < |rects| && rects[j] == inst.rect;
      assert Instances(inst.page, rects, text)[j] == inst;
      OnPageSubset(found, inst.page, inst);
    }
  }

  lemma {:induction false} OnPageSubset(found: seq<TagInstance>, p: nat, inst: TagInstance)
    requires inst in OnPage(found, p)
    ensures inst in found
  {
    var n := |found| - 1;
    if inst in OnPage(found[..n], p) {
      OnPageSubset(found[..n], p, inst);
      assert found[..n] <= found;
    }
  }

  /** Search looks only at the text layer, so pages that agree on it give the same result. */
  lemma {:induction false} LocateSameText(a: seq<Page>, b: seq<Page>, text: string)
    requires SameText(a, b)
    ensures Locate(a, text) == Locate(b, text)
  {
    if |a| > 0 {
      var n := |a| - 1;
      LocateSameText(a[..n], b[..n], text);
    }
  }
}
