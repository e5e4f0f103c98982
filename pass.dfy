/** The substitution pass over one document: the text tags first, then the signature tags, with
    one set of applied tag strings shared by both, and the document saved at the end. */
module Pass {
  import opened Wrappers
  import opened Geometry
  import opened Pdf
  import opened Environment
  import opened Locator
  import opened Substitutor

  /** A string-to-string dictionary, as its items in iteration order. */
  type Mapping = seq<(string, string)>

  /** A dictionary's keys are distinct. */
  predicate DistinctKeys(m: Mapping) {
    forall i, j :: 0 <= i < j < |m| ==> m[i].0 != m[j].0
  }

  /** The document's pages and the tag strings already substituted. */
  datatype PassState = PassState(pages: seq<Page>, applied: set<string>)

  /** One text tag: a tag that is not found is skipped; a found tag not yet applied has every
      instance replaced by `value` and is then marked applied. */
  function TextStep(s: PassState, tag: string, value: string): (r: PassState)
    ensures |r.pages| == |s.pages|
  {
    var found := Locate(s.pages, tag);
    if found == [] then s
    else if tag in s.applied then s
    else PassState(Overlay(s.pages, found, TextValue(value)), s.applied + {tag})
  }

  /** The text loop: every item of the text mapping, in order. */
  function TextPass(s: PassState, docTags: Mapping): (r: PassState)
    ensures |r.pages| == |s.pages|
  {
    if |docTags| == 0 then s
    else
      var n := |docTags| - 1;
      TextStep(TextPass(s, docTags[..n]), docTags[n].0, docTags[n].1)
  }

  /** The tag with every '[', ']' and '_' removed. */
  function StripTagMarks(tag: string): (r: string)
    ensures |r| <= |tag|
    ensures forall c :: c in r <==> c in tag && c != '[' && c != ']' && c != '_'
  {
    if |tag| == 0 then ""
    else
      assert tag == [tag[0]] + tag[1..];
      (if tag[0] == '[' || tag[0] == ']' || tag[0] == '_' then "" else [tag[0]]) + StripTagMarks(tag[1..])
  }

  /** Where a signature image is written before it is embedded. */
  function TempSignaturePath(tag: string): string {
    "temp_main_signature_" + StripTagMarks(tag) + ".png"
  }

  /** One signature tag. It is skipped when its payload is empty, when it is already applied,
      when it is not found, or when its payload does not decode. Otherwise the temporary image
      is written (None: that raised), every instance gets the image, and the tag is marked
      applied. */
  function ImageStep(s: PassState, tag: string, data: string, env: Env): (r: Option<PassState>)
    ensures r.Some? ==> |r.value.pages| == |s.pages|
  {
    if data == "" || tag in s.applied then Some(s)
    else
      var found := Locate(s.pages, tag);
      if found == [] then Some(s)
      else
        match env.decodeImage(data)
        case None => Some(s)
        case Some(image) =>
          if env.tempImageOk(TempSignaturePath(tag), image)
          then Some(PassState(Overlay(s.pages, found, SignatureImage(image)), s.applied + {tag}))
          else None
  }

  /** The image loop: every item of the signature mapping, in order, stopping at the first
      failure. */
  function ImagePass(s: PassState, signData: Mapping, env: Env): (r: Option<PassState>)
    ensures r.Some? ==> |r.value.pages| == |s.pages|
  {
    if |signData| == 0 then Some(s)
    else
      var n := |signData| - 1;
      match ImagePass(s, signData[..n], env)
      case None => None
      case Some(mid) => ImageStep(mid, signData[n].0, signData[n].1, env)
  }

  /** The pages written to the signed file, or None when opening the document or writing a
      temporary image fails. */
  function SignedPages(env: Env, pdfPath: string, signData: Mapping, docTags: Mapping): Option<seq<Page>> {
    match env.openPdf(pdfPath)
    case None => None
    case Some(pages) =>
      match ImagePass(TextPass(PassState(pages, {}), docTags), signData, env)
      case None => None
      case Some(done) => Some(done.pages)
  }

  /** What apply_signatures_to_pdf reports: the document was opened and substituted, and the
      substituted pages were saved to the signed path. */
  predicate SigningSucceeds(env: Env, pdfPath: string, signedPdfPath: string, signData: Mapping, docTags: Mapping) {
    match SignedPages(env, pdfPath, signData, docTags)
    case None => false
    case Some(pages) => env.save(signedPdfPath, pages)
  }

  // ---------------------------------------------------------------------------------------
  // Closed forms of the two loops

  /** The text tags that occur somewhere in the document. */
  function FoundKeys(pages: seq<Page>, docTags: Mapping): set<string> {
    set e | e in docTags && Locate(pages, e.0) != [] :: e.0
  }

  /** What the text loop draws on a page with this text layer. */
  function TextOverlays(occurrences: seq<Occurrence>, docTags: Mapping): seq<DrawOp> {
    if |docTags| == 0 then []
    else
      var n := |docTags| - 1;
      TextOverlays(occurrences, docTags[..n]) + RenderRects(SearchFor(occurrences, docTags[n].0), TextValue(docTags[n].1))
  }

  /** A signature item that the image loop substitutes, given the tags `skip` already applied. */
  predicate Eligible(pages: seq<Page>, skip: set<string>, tag: string, data: string, env: Env) {
    data != "" && tag !in skip && Locate(pages, tag) != [] && env.decodeImage(data).Some?
  }

  /** The signature tags the image loop substitutes; none of them was already applied. */
  function SignatureKeys(pages: seq<Page>, skip: set<string>, signData: Mapping, env: Env): (keys: set<string>)
    ensures keys !! skip
  {
    set e | e in signData && Eligible(pages, skip, e.0, e.1, env) :: e.0
  }

  /** The payload decodes, but writing the decoded image as the tag's temporary PNG fails. */
  predicate TempWriteFails(tag: string, data: string, env: Env) {
    match env.decodeImage(data)
    case None => false
    case Some(image) => !env.tempImageOk(TempSignaturePath(tag), image)
  }

  /** Some substituted signature item fails to write its temporary image. */
  predicate TempFailure(pages: seq<Page>, skip: set<string>, signData: Mapping, env: Env) {
    exists e :: e in signData && Eligible(pages, skip, e.0, e.1, env) && TempWriteFails(e.0, e.1, env)
  }

  /** What the image loop draws on a page with this text layer. */
  function SignatureOverlays(occurrences: seq<Occurrence>, signData: Mapping, skip: set<string>, env: Env): seq<DrawOp> {
    if |signData| == 0 then []
    else
      var n := |signData| - 1;
      var (tag, data) := signData[n];
      SignatureOverlays(occurrences, signData[..n], skip, env) +
        (if data != "" && tag !in skip && env.decodeImage(data).Some?
         then RenderRects(SearchFor(occurrences, tag), SignatureImage(env.decodeImage(data).value))
         else [])
  }

  lemma FoundKeysSnoc(pages: seq<Page>, docTags: Mapping)
    requires |docTags| > 0
    ensures var n := |docTags| - 1;
      FoundKeys(pages, docTags)
      == FoundKeys(pages, docTags[..n]) + (if Locate(pages, docTags[n].0) != [] then {docTags[n].0} else {})
  {
    var n := |docTags| - 1;
    assert docTags == docTags[..n] + [docTags[n]];
  }

  lemma SignatureKeysSnoc(pages: seq<Page>, skip: set<string>, signData: Mapping, env: Env)
    requires |signData| > 0
    ensures var n := |signData| - 1;
      SignatureKeys(pages, skip, signData, env)
      == SignatureKeys(pages, skip, signData[..n], env)
         + (if Eligible(pages, skip, signData[n].0, signData[n].1, env) then {signData[n].0} else {})
  {
    var n := |signData| - 1;
    assert signData == signData[..n] + [signData[n]];
  }

  lemma DistinctPrefix(m: Mapping)
    requires |m| > 0 && DistinctKeys(m)
    ensures DistinctKeys(m[..|m| - 1])
    ensures forall e :: e in m[..|m| - 1] ==> e.0 != m[|m| - 1].0
  {
    var n := |m| - 1;
    forall e | e in m[..n] ensures e.0 != m[n].0 {
      var i :| 0 <= i < n && m[..n][i] == e;
      assert m[i] == e;
    }
  }

  /** The text loop never changes a text layer, and it marks applied exactly the text tags that
      occur in the document. */
  lemma {:induction false} TextPassEffect(s: PassState, docTags: Mapping)
    ensures SameText(TextPass(s, docTags).pages, s.pages)
    ensures TextPass(s, docTags).applied == s.applied + FoundKeys(s.pages, docTags)
  {
    if |docTags| == 0 {
      assert FoundKeys(s.pages, docTags) == {};
    } else {
      var n := |docTags| - 1;
      var tag := docTags[n].0;
      TextPassEffect(s, docTags[..n]);
      FoundKeysSnoc(s.pages, docTags);
      var mid := TextPass(s, docTags[..n]);
      LocateSameText(mid.pages, s.pages, tag);
      var found := Locate(mid.pages, tag);
      if found != [] && tag !in mid.applied {
        OverlayEffect(mid.pages, found, TextValue(docTags[n].1));
      }
    }
  }

  /** One text step on a page `p` whose text layer is that of `pages`. */
  lemma TextStepOnPage(mid: PassState, tag: string, value: string, pages: seq<Page>, p: nat)
    requires SameText(mid.pages, pages) && p < |pages|
    requires Locate(pages, tag) != [] ==> tag !in mid.applied
    ensures TextStep(mid, tag, value).pages[p].ops
         == mid.pages[p].ops + RenderRects(SearchFor(pages[p].occurrences, tag), TextValue(value))
  {
    LocateSameText(mid.pages, pages, tag);
    if Locate(pages, tag) == [] {
      LocateEmpty(pages, tag);
      assert SearchFor(pages[p].occurrences, tag) == [];
    } else {
      OverlayLocated(mid.pages, tag, TextValue(value), p);
    }
  }

  lemma TextPassDrawsStep(s: PassState, docTags: Mapping, p: nat)
    requires |docTags| > 0 && p < |s.pages|
    requires var mid := TextPass(s, docTags[..|docTags| - 1]);
      SameText(mid.pages, s.pages) &&
      mid.pages[p].ops == s.pages[p].ops + TextOverlays(s.pages[p].occurrences, docTags[..|docTags| - 1]) &&
      (Locate(s.pages, docTags[|docTags| - 1].0) != [] ==> docTags[|docTags| - 1].0 !in mid.applied)
    ensures TextPass(s, docTags).pages[p].ops == s.pages[p].ops + TextOverlays(s.pages[p].occurrences, docTags)
  {
    var n := |docTags| - 1;
    var mid := TextPass(s, docTags[..n]);
    var occ := s.pages[p].occurrences;
    var step := TextStep(mid, docTags[n].0, docTags[n].1);
    TextStepOnPage(mid, docTags[n].0, docTags[n].1, s.pages, p);
    var rr := RenderRects(SearchFor(occ, docTags[n].0), TextValue(docTags[n].1));
    assert TextPass(s, docTags) == step;
    calc {
      step.pages[p].ops;
      mid.pages[p].ops + rr;
      (s.pages[p].ops + TextOverlays(occ, docTags[..n])) + rr;
      { ConcatAssoc(s.pages[p].ops, TextOverlays(occ, docTags[..n]), rr); }
      s.pages[p].ops + (TextOverlays(occ, docTags[..n]) + rr);
      s.pages[p].ops + TextOverlays(occ, docTags);
    }
  }

  /** With distinct, not yet applied keys, the text loop appends to every page exactly the text
      overlays of the tags found on that page, tag by tag in mapping order. */
  lemma {:induction false} TextPassDraws(s: PassState, docTags: Mapping)
    requires DistinctKeys(docTags)
    requires forall e :: e in docTags ==> e.0 !in s.applied
    ensures forall p :: 0 <= p < |s.pages| ==>
      TextPass(s, docTags).pages[p].ops == s.pages[p].ops + TextOverlays(s.pages[p].occurrences, docTags)
  {
    if |docTags| > 0 {
      var n := |docTags| - 1;
      var init := docTags[..n];
      DistinctPrefix(docTags);
      assert forall e :: e in init ==> e in docTags;
      TextPassDraws(s, init);
      TextPassEffect(s, init);
      assert docTags[n] in docTags;
      assert docTags[n].0 !in FoundKeys(s.pages, init);
      forall p | 0 <= p < |s.pages|
        ensures TextPass(s, docTags).pages[p].ops == s.pages[p].ops + TextOverlays(s.pages[p].occurrences, docTags)
      {
        TextPassDrawsStep(s, docTags, p);
      }
    }
  }

  /** A text loop in which no tag is found changes nothing. */
  lemma {:induction false} TextPassNothingFound(s: PassState, docTags: Mapping)
    requires forall e :: e in docTags ==> Locate(s.pages, e.0) == []
    ensures TextPass(s, docTags) == s
  {
    if |docTags| > 0 {
      var n := |docTags| - 1;
      assert forall e :: e in docTags[..n] ==> e in docTags;
      TextPassNothingFound(s, docTags[..n]);
      assert docTags[n] in docTags;
    }
  }

  /** When the image loop succeeds it has not changed a text layer, and it has marked applied
      exactly the signature tags it substituted. */
  lemma {:induction false} ImagePassEffect(s: PassState, signData: Mapping, env: Env)
    ensures ImagePass(s, signData, env).Some? ==>
      SameText(ImagePass(s, signData, env).value.pages, s.pages) &&
      ImagePass(s, signData, env).value.applied == s.applied + SignatureKeys(s.pages, s.applied, signData, env)
  {
    if |signData| == 0 {
      assert SignatureKeys(s.pages, s.applied, signData, env) == {};
    } else {
      var n := |signData| - 1;
      var (tag, data) := signData[n];
      ImagePassEffect(s, signData[..n], env);
      SignatureKeysSnoc(s.pages, s.applied, signData, env);
      if ImagePass(s, signData[..n], env).Some? {
        var mid := ImagePass(s, signData[..n], env).value;
        LocateSameText(mid.pages, s.pages, tag);
        var found := Locate(mid.pages, tag);
        if data != "" && tag !in mid.applied && found != [] && env.decodeImage(data).Some? {
          OverlayEffect(mid.pages, found, SignatureImage(env.decodeImage(data).value));
        }
      }
    }
  }

  /** Once the image loop has failed on a prefix of the mapping, it fails on the whole mapping. */
  lemma {:induction false} ImagePassFailureSticks(s: PassState, signData: Mapping, k: nat, env: Env)
    requires k <= |signData|
    requires ImagePass(s, signData[..k], env).None?
    ensures ImagePass(s, signData, env).None?
    decreases |signData|
  {
    if k < |signData| {
      var n := |signData| - 1;
      assert signData[..n][..k] == signData[..k];
      ImagePassFailureSticks(s, signData[..n], k, env);
    } else {
      assert signData[..k] == signData;
    }
  }

  /** One signature step fails exactly when the item is substituted and its temporary image
      cannot be written. */
  lemma ImageStepFails(mid: PassState, tag: string, data: string, env: Env, pages: seq<Page>)
    requires SameText(mid.pages, pages)
    ensures ImageStep(mid, tag, data, env).None? <==>
            Eligible(pages, mid.applied, tag, data, env) && TempWriteFails(tag, data, env)
  {
    LocateSameText(mid.pages, pages, tag);
  }

  /** One successful signature step on a page `p` whose text layer is that of `pages`. */
  lemma ImageStepOnPage(mid: PassState, tag: string, data: string, env: Env, pages: seq<Page>, p: nat)
    requires SameText(mid.pages, pages) && p < |pages|
    requires ImageStep(mid, tag, data, env).Some?
    ensures ImageStep(mid, tag, data, env).value.pages[p].ops
         == mid.pages[p].ops +
            (if data != "" && tag !in mid.applied && env.decodeImage(data).Some?
             then RenderRects(SearchFor(pages[p].occurrences, tag), SignatureImage(env.decodeImage(data).value))
             else [])
  {
    LocateSameText(mid.pages, pages, tag);
    if data != "" && tag !in mid.applied && env.decodeImage(data).Some? {
      var image := env.decodeImage(data).value;
      if Locate(pages, tag) == [] {
        LocateEmpty(pages, tag);
        assert SearchFor(pages[p].occurrences, tag) == [];
      } else {
        OverlayLocated(mid.pages, tag, SignatureImage(image), p);
      }
    }
  }

  /** The last signature item of a successful image loop, on one page `p`, given the overlays
      the loop over the earlier items drew there. */
  lemma ImagePassDrawsStep(s: PassState, signData: Mapping, env: Env, p: nat)
    requires |signData| > 0 && p < |s.pages|
    requires ImagePass(s, signData, env).Some?
    requires var n := |signData| - 1;
      ImagePass(s, signData[..n], env).Some? &&
      var mid := ImagePass(s, signData[..n], env).value;
      SameText(mid.pages, s.pages) &&
      mid.pages[p].ops == s.pages[p].ops + SignatureOverlays(s.pages[p].occurrences, signData[..n], s.applied, env) &&
      (signData[n].0 in mid.applied <==> signData[n].0 in s.applied)
    ensures ImagePass(s, signData, env).value.pages[p].ops
         == s.pages[p].ops + SignatureOverlays(s.pages[p].occurrences, signData, s.applied, env)
  {
    var n := |signData| - 1;
    var (tag, data) := signData[n];
    var init := signData[..n];
    var mid := ImagePass(s, init, env).value;
    var occ := s.pages[p].occurrences;
    ImageStepOnPage(mid, tag, data, env, s.pages, p);
    var rr := if data != "" && tag !in s.applied && env.decodeImage(data).Some?
              then RenderRects(SearchFor(occ, tag), SignatureImage(env.decodeImage(data).value))
              else [];
    assert ImagePass(s, signData, env) == ImageStep(mid, tag, data, env);
    calc {
      ImageStep(mid, tag, data, env).value.pages[p].ops;
      mid.pages[p].ops + rr;
      (s.pages[p].ops + SignatureOverlays(occ, init, s.applied, env)) + rr;
      { ConcatAssoc(s.pages[p].ops, SignatureOverlays(occ, init, s.applied, env), rr); }
      s.pages[p].ops + (SignatureOverlays(occ, init, s.applied, env) + rr);
      s.pages[p].ops + SignatureOverlays(occ, signData, s.applied, env);
    }
  }

  /** With distinct keys, the image loop fails exactly when some signature item it substitutes
      cannot write its temporary image, and when it succeeds it appends to every page exactly the
      signature overlays of that page, item by item in mapping order. */
  lemma {:induction false} ImagePassDraws(s: PassState, signData: Mapping, env: Env)
    requires DistinctKeys(signData)
    ensures ImagePass(s, signData, env).None? <==> TempFailure(s.pages, s.applied, signData, env)
    ensures ImagePass(s, signData, env).Some? ==> forall p :: 0 <= p < |s.pages| ==>
      ImagePass(s, signData, env).value.pages[p].ops
      == s.pages[p].ops + SignatureOverlays(s.pages[p].occurrences, signData, s.applied, env)
  {
    if |signData| > 0 {
      var n := |signData| - 1;
      var (tag, data) := signData[n];
      var init := signData[..n];
      DistinctPrefix(signData);
      ImagePassDraws(s, init, env);
      ImagePassEffect(s, init, env);
      assert signData == init + [signData[n]];
      assert TempFailure(s.pages, s.applied, signData, env) <==>
        TempFailure(s.pages, s.applied, init, env) ||
        (Eligible(s.pages, s.applied, tag, data, env) && TempWriteFails(tag, data, env));
      if ImagePass(s, init, env).Some? {
        var mid := ImagePass(s, init, env).value;
        assert tag !in SignatureKeys(s.pages, s.applied, init, env);
        assert tag in mid.applied <==> tag in s.applied;
        ImageStepFails(mid, tag, data, env, s.pages);
        if ImagePass(s, signData, env).Some? {
          forall p | 0 <= p < |s.pages|
            ensures ImagePass(s, signData, env).value.pages[p].ops
                 == s.pages[p].ops + SignatureOverlays(s.pages[p].occurrences, signData, s.applied, env)
          {
            ImagePassDrawsStep(s, signData, env, p);
          }
        }
      }
    }
  }

  /** An image loop in which no tag is found changes nothing and cannot fail. */
  lemma {:induction false} ImagePassNothingFound(s: PassState, signData: Mapping, env: Env)
    requires forall e :: e in signData ==> Locate(s.pages, e.0) == []
    ensures ImagePass(s, signData, env) == Some(s)
  {
    if |signData| > 0 {
      var n := |signData| - 1;
      assert forall e :: e in signData[..n] ==> e in signData;
      ImagePassNothingFound(s, signData[..n], env);
      assert signData[n] in signData;
    }
  }

  /** The whole pass in closed form: with dictionary (distinct) keys, signing fails exactly when a
      substituted signature cannot write its temporary image; otherwise every page keeps its text
      layer and receives the text overlays of the found text tags followed by the signature
      overlays of the signature tags that no text tag already took. */
  lemma SignedPagesClosedForm(env: Env, pdfPath: string, signData: Mapping, docTags: Mapping, pages: seq<Page>)
    requires env.openPdf(pdfPath) == Some(pages)
    requires DistinctKeys(docTags) && DistinctKeys(signData)
    ensures SignedPages(env, pdfPath, signData, docTags).None? <==>
            TempFailure(pages, FoundKeys(pages, docTags), signData, env)
    ensures SignedPages(env, pdfPath, signData, docTags).Some? ==>
      var signed := SignedPages(env, pdfPath, signData, docTags).value;
      SameText(signed, pages) &&
      forall p :: 0 <= p < |pages| ==>
        signed[p].ops == pages[p].ops + TextOverlays(pages[p].occurrences, docTags)
                         + SignatureOverlays(pages[p].occurrences, signData, FoundKeys(pages, docTags), env)
  {
    var start := PassState(pages, {});
    TextPassEffect(start, docTags);
    TextPassDraws(start, docTags);
    var afterText := TextPass(start, docTags);
    assert afterText.applied == FoundKeys(pages, docTags);
    ImagePassEffect(afterText, signData, env);
    ImagePassDraws(afterText, signData, env);
    forall e | e in signData ensures Locate(afterText.pages, e.0) == Locate(pages, e.0) {
      LocateSameText(afterText.pages, pages, e.0);
    }
    assert TempFailure(afterText.pages, afterText.applied, signData, env)
       <==> TempFailure(pages, FoundKeys(pages, docTags), signData, env);
    if ImagePass(afterText, signData, env).Some? {
      var signed := ImagePass(afterText, signData, env).value.pages;
      forall p | 0 <= p < |pages|
        ensures signed[p].ops == pages[p].ops + TextOverlays(pages[p].occurrences, docTags)
                                 + SignatureOverlays(pages[p].occurrences, signData, FoundKeys(pages, docTags), env)
      {
        assert afterText.pages[p].occurrences == pages[p].occurrences;
      }
    }
  }

  /** A document in which none of the tags occurs is saved exactly as it was opened. */
  lemma NothingFound(env: Env, pdfPath: string, signData: Mapping, docTags: Mapping, pages: seq<Page>)
    requires env.openPdf(pdfPath) == Some(pages)
    requires forall e :: e in docTags ==> Locate(pages, e.0) == []
    requires forall e :: e in signData ==> Locate(pages, e.0) == []
    ensures SignedPages(env, pdfPath, signData, docTags) == Some(pages)
  {
    var start := PassState(pages, {});
    TextPassNothingFound(start, docTags);
    ImagePassNothingFound(start, signData, env);
  }

  // ---------------------------------------------------------------------------------------
  // The pass as the source runs it, on a mutable document

  /** Cover every instance with a white box and write `value` over it. */
  method ReplaceTextInstances(doc: Document, found: seq<TagInstance>, value: string)
    requires forall k :: 0 <= k < |found| ==> found[k].page < |doc.pages|
    modifies doc
    ensures doc.pages == Overlay(old(doc.pages), found, TextValue(value))
  {
    ghost var before := doc.pages;
    var i := 0;
    while i < |found|
      invariant 0 <= i <= |found|
      invariant doc.pages == Overlay(before, found[..i], TextValue(value))
    {
      var pageNum := found[i].page;
      var tagRect := found[i].rect;
      ghost var pre := doc.pages;
      doc.DrawRect(pageNum, tagRect, White, White);
      doc.InsertText(pageNum, TextAnchor(tagRect), value, FontSize, Black);
      assert pre[pageNum].ops + [RectOp(tagRect, White, White)] + [TextOp(TextAnchor(tagRect), value, FontSize, Black)]
          == pre[pageNum].ops + Render(TextValue(value), tagRect);
      assert found[..i + 1][..i] == found[..i];
      i := i + 1;
    }
    assert found[..i] == found;
  }

  /** Embed the signature image over every instance, in its signature box. */
  method PlaceSignatureInstances(doc: Document, found: seq<TagInstance>, image: Image)
    requires forall k :: 0 <= k < |found| ==> found[k].page < |doc.pages|
    modifies doc
    ensures doc.pages == Overlay(old(doc.pages), found, SignatureImage(image))
  {
    ghost var before := doc.pages;
    var i := 0;
    while i < |found|
      invariant 0 <= i <= |found|
      invariant doc.pages == Overlay(before, found[..i], SignatureImage(image))
    {
      var pageNum := found[i].page;
      var tagRect := found[i].rect;
      var signatureRect := SignatureRect(tagRect);
      doc.InsertImage(pageNum, signatureRect, image);
      assert found[..i + 1][..i] == found[..i];
      i := i + 1;
    }
    assert found[..i] == found;
  }

  /** The text loop on the document. */
  method SubstituteText(doc: Document, docTags: Mapping, applied0: set<string>) returns (applied: set<string>)
    modifies doc
    ensures PassState(doc.pages, applied) == TextPass(PassState(old(doc.pages), applied0), docTags)
  {
    ghost var start := PassState(doc.pages, applied0);
    applied := applied0;
    var i := 0;
    while i < |docTags|
      invariant 0 <= i <= |docTags|
      invariant PassState(doc.pages, applied) == TextPass(start, docTags[..i])
    {
      var (tag, value) := docTags[i];
      var tagInstances := FindTextInPdf(doc, tag);
      if tagInstances == [] {
        // not found: skipped
      } else if tag !in applied {
        ReplaceTextInstances(doc, tagInstances, value);
        applied := applied + {tag};
      }
      assert docTags[..i + 1][..i] == docTags[..i];
      i := i + 1;
    }
    assert docTags[..i] == docTags;
  }

  /** The image loop on the document; `ok` is false when writing a temporary image raised. */
  method SubstituteImages(doc: Document, signData: Mapping, applied0: set<string>, env: Env)
    returns (ok: bool, applied: set<string>)
    modifies doc
    ensures ok == ImagePass(PassState(old(doc.pages), applied0), signData, env).Some?
    ensures ok ==> ImagePass(PassState(old(doc.pages), applied0), signData, env) == Some(PassState(doc.pages, applied))
  {
    ghost var start := PassState(doc.pages, applied0);
    applied := applied0;
    var i := 0;
    while i < |signData|
      invariant 0 <= i <= |signData|
      invariant ImagePass(start, signData[..i], env) == Some(PassState(doc.pages, applied))
    {
      var (signTag, base64Data) := signData[i];
      assert signData[..i + 1][..i] == signData[..i];
      if base64Data != "" && signTag !in applied {
        var tagInstances := FindTextInPdf(doc, signTag);
        if tagInstances != [] {
          var signImage := env.decodeImage(base64Data);
          if signImage.Some? {
            var tempSigPath := TempSignaturePath(signTag);
            if !env.tempImageOk(tempSigPath, signImage.value) {
              ImagePassFailureSticks(start, signData, i + 1, env);
              return false, applied;
            }
            PlaceSignatureInstances(doc, tagInstances, signImage.value);
            applied := applied + {signTag};
          }
        }
      }
      i := i + 1;
    }
    assert signData[..i] == signData;
    ok := true;
  }

  /** Open the document, run both loops and save it; false when any step raised. `written` is
      what reaches the save call: the substituted pages, or None when an earlier step raised. */
  method ApplySignaturesToPdf(env: Env, pdfPath: string, signedPdfPath: string, signData: Mapping, docTags: Mapping)
    returns (ok: bool, ghost written: Option<seq<Page>>)
    ensures written == SignedPages(env, pdfPath, signData, docTags)
    ensures ok <==> written.Some? && env.save(signedPdfPath, written.value)
    ensures ok == SigningSucceeds(env, pdfPath, signedPdfPath, signData, docTags)
  {
    var loaded := env.openPdf(pdfPath);
    if loaded.None? {
      return false, None;
    }
    var doc := new Document(loaded.value);
    var applied := SubstituteText(doc, docTags, {});
    var imagesOk;
    imagesOk, applied := SubstituteImages(doc, signData, applied, env);
    if !imagesOk {
      return false, None;
    }
    written := Some(doc.pages);
    ok := env.save(signedPdfPath, doc.pages);
  }
}
