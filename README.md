# Signix document-signing consumer, modelled in Dafny

The Signix consumer takes one signing request at a time. A request names a source directory, an
optional destination directory, a mapping of signature tags to base64 signature images, and a
list of PDF documents, each with its own mapping of text tags to replacement values.

For every document whose original file exists, the consumer:

- opens the PDF;
- replaces each text tag it finds with its value, covering the tag with a white box and writing
  the value in 10-point black text 80% of the way down the tag's box;
- embeds each signature image over every occurrence of its signature tag, in a box at least
  150 by 40 points;
- saves the result as `signed_<name>` in the destination directory.

It acknowledges the request with one outcome per processed document. The batch status is
`completed`, `partial` or `failed`.

The model is split into these modules:

- `Geometry` holds rectangles, the text anchor and the signature box.
- `Pdf` holds pages and the `Document` class. A page is a text layer, given as the
  occurrences its text search reports, plus an append-only log of drawing operations.
  `Document` is mutated in place by `DrawRect`, `InsertText` and `InsertImage`.
- `Environment` holds the oracles for the filesystem, the PDF loader and writer, and the image
  decoder.
- `Locator` holds `find_text_in_pdf`, the tag locator. A method scans the pages and is proved equal
  to the function `Locate`.
- `Substitutor` holds what one tag substitution draws.
- `Pass` holds `apply_signatures_to_pdf`. It has two parts:
  - loops over a mutable `Document`, proved equal to two folds, `TextPass` and `ImagePass`;
  - closed forms of those folds, stating what ends up on each page.
- `Signing` holds `process_document_signing`: path construction, the per-document outcomes and
  the batch status. A loop is proved equal to the function `Process`.

Python dictionaries are modelled as sequences of key/value pairs in iteration order. Lemmas that
rely on distinct keys say so with `DistinctKeys`. Coordinates are `real`.

Some behaviours of the code that are easy to get wrong:

- A document whose original file does not exist is skipped. It gets no outcome at all, not a
  `failed` one.
- A request without `signedDocuments` is acknowledged as `completed` with no outcomes.
- The two loops of one document share one set of applied tags, and the text loop runs first. A
  signature tag equal to a text tag that was found is therefore never substituted.

## Model

| member | source | states |
|---|---|---|
| `Geometry.TextAnchor` | consumer.py:82-87 | Replacement text starts at the tag's left edge, at 80% of its height. The anchor lies within the tag's vertical extent. |
| `Geometry.SignatureRect` | consumer.py:116-124 | The signature box keeps the tag's top-left corner. Its width is max(tag width, 150) and its height is max(tag height, 40). It is well formed and covers the tag. |
| `Geometry.SignatureRectExample` | consumer.py:117-124 | A 100 by 20 tag at (100, 200) gets the box (100, 200)-(250, 240). |
| `Pdf.SearchFor` | consumer.py:34 | A page's search reports exactly the boxes of the occurrences of the searched text, and no more boxes than there are occurrences. |
| `Pdf.Document.DrawRect` | consumer.py:79 | Appends a rectangle with the given stroke and fill to that page's drawing log. Nothing else changes. |
| `Pdf.Document.InsertText` | consumer.py:82-87 | Appends a text operation to that page's drawing log. Nothing else changes. |
| `Pdf.Document.InsertImage` | consumer.py:127 | Appends an image operation to that page's drawing log. Nothing else changes. |
| `Locator.Locate` | consumer.py:28-43 | The reference definition of the locator: page 0's search results, then page 1's, and so on. `Locator.FindTextInPdf` is proved equal to it. What it returns is stated by `Locator.LocateBounds`, `Locator.LocateOnPage`, `Locator.LocateEmpty` and `Locator.LocateMembers`. |
| `Locator.FindTextInPdf` | consumer.py:28-43 | Returns `Locate(pages, text)`, without changing the document. Every instance is on an existing page and carries the searched text. Pages come in non-decreasing order. |
| `Locator.LocateBounds` | consumer.py:32-41 | Every located instance is on an existing page with the searched text, and instances are ordered by page. |
| `Locator.LocateOnPage` | consumer.py:32-41 | The instances located on page p are exactly page p's own search results, in search order. A page that does not exist has none. |
| `Locator.LocateEmpty` | consumer.py:30-43 | The locator finds nothing exactly when no page's search finds the text. |
| `Locator.LocateMembers` | consumer.py:32-41 | An instance is located exactly when its page exists, its text is the searched text, and its box is an occurrence of that text on that page. |
| `Locator.LocateSameText` | consumer.py:34 | Documents whose text layers agree give the same locator result, whatever has been drawn on them. |
| `Substitutor.Render` | consumer.py:79-87 | What one instance gets. A text value gets a white-on-white box over the tag, then the value in 10-point black at the text anchor. A signature gets the image in the signature box. Stated for runs of boxes by `Substitutor.RenderRectsText` and `Substitutor.RenderRectsImage`. |
| `Substitutor.Paint` | consumer.py:71-87 | Drawing over one instance, on the instance's own page, keeps the page count. The per-page effect is stated by `Substitutor.OverlayEffect`. |
| `Substitutor.Overlay` | consumer.py:109-129 | Drawing over every instance in order keeps the page count. The per-page effect is stated by `Substitutor.OverlayEffect` and `Substitutor.OverlayLocated`. |
| `Substitutor.OverlayEffect` | consumer.py:70-89 | Substituting a list of instances keeps every text layer. Each page's log is extended by the renderings of exactly the instances on that page, in list order. |
| `Substitutor.OverlayLocated` | consumer.py:109-129 | Substituting the located instances of a tag extends page p's log by the renderings of p's own search results for that tag. |
| `Substitutor.RenderRectsText` | consumer.py:79-87 | A text value over k boxes draws 2k operations. Each box gets a white-on-white rectangle over the box, then the value in 10-point black at the box's text anchor. |
| `Substitutor.RenderRectsImage` | consumer.py:117-127 | A signature over k boxes draws k operations, all image operations. Operation i places the image in the signature box of box i. |
| `Pass.TextStep` | consumer.py:56-91 | One text tag keeps the page count. Its drawing and bookkeeping are stated by `Pass.TextPassEffect` and `Pass.TextPassDraws`. |
| `Pass.TextPass` | consumer.py:56-91 | The text loop keeps the page count. |
| `Pass.StripTagMarks` | consumer.py:105 | The temporary-file stem holds exactly the tag's characters other than '[', ']' and '_', and is no longer than the tag. |
| `Pass.TempSignaturePath` | consumer.py:105 | The temporary file is `temp_main_signature_` + the tag stem + `.png`. The stem is described by `Pass.StripTagMarks`. |
| `Pass.TempWriteFails` | consumer.py:102-106 | A payload that decodes but whose image cannot be written as the temporary PNG. It is the failure that `Pass.ImageStepFails` and `Pass.ImagePassDraws` characterise. |
| `Pass.ImageStep` | consumer.py:94-137 | One signature tag, when it does not raise, keeps the page count. |
| `Pass.ImagePass` | consumer.py:94-137 | The signature loop, when it does not raise, keeps the page count. |
| `Pass.SignedPages` | consumer.py:46-137 | The pages that reach the save call: the opened pages after both loops, or None when opening or a temporary write raised. Described page by page by `Pass.SignedPagesClosedForm` and `Pass.NothingFound`. |
| `Pass.SigningSucceeds` | consumer.py:186-200 | Returns true exactly when substitution produced pages and saving those pages to the signed path succeeds. `Pass.ApplySignaturesToPdf` is proved to return it. |
| `Pass.SignatureKeys` | consumer.py:95 | No signature tag that is substituted was already applied. |
| `Pass.TextPassEffect` | consumer.py:56-91 | The text loop never changes a text layer. It marks applied exactly the text tags found somewhere in the document. |
| `Pass.TextPassDraws` | consumer.py:56-91 | With distinct tags not yet applied, the text loop appends to every page exactly that page's text overlays, tag by tag in mapping order. |
| `Pass.TextPassNothingFound` | consumer.py:62-64 | A text loop whose tags are all missing from the document changes nothing. |
| `Pass.ImagePassEffect` | consumer.py:94-137 | When the signature loop succeeds, it has kept every text layer. It has marked applied exactly the signature tags it substituted. |
| `Pass.ImagePassFailureSticks` | consumer.py:106 | Once writing a temporary image has raised, the rest of the signature loop also fails. |
| `Pass.ImageStepFails` | consumer.py:95-106 | One signature step fails exactly when the tag is substituted (non-empty payload, not applied, found, decodable) and its temporary image cannot be written. |
| `Pass.ImagePassDraws` | consumer.py:94-137 | With distinct tags, the signature loop fails exactly when some substituted tag cannot write its temporary image. Otherwise each page gets exactly its signature overlays, in mapping order. |
| `Pass.ImagePassNothingFound` | consumer.py:136-137 | A signature loop whose tags are all missing from the document changes nothing and cannot fail. |
| `Pass.SignedPagesClosedForm` | consumer.py:46-200 | Substituting an opened document fails exactly when a substituted signature cannot write its temporary image. Otherwise each page keeps its text layer and receives its text overlays, then the overlays of the signature tags no text tag took. |
| `Pass.NothingFound` | consumer.py:56-137 | A document containing none of the tags is saved exactly as opened. |
| `Pass.ReplaceTextInstances` | consumer.py:70-89 | Covers and rewrites every instance, in order. The document ends as the text overlay of the instances. |
| `Pass.PlaceSignatureInstances` | consumer.py:109-129 | Embeds the image at every instance, in order. The document ends as the signature overlay of the instances. |
| `Pass.SubstituteText` | consumer.py:53-91 | The text loop on the document leaves exactly the pages and the applied set of `TextPass`. |
| `Pass.SubstituteImages` | consumer.py:94-137 | The signature loop reports success exactly when `ImagePass` succeeds. On success it leaves exactly `ImagePass`'s pages and applied set. |
| `Pass.ApplySignaturesToPdf` | consumer.py:46-200 | What it hands to the save call is exactly `SignedPages`, the pages `Pass.SignedPagesClosedForm` describes. It returns true exactly when those pages exist (the document opened and no temporary image write raised) and saving them to the signed path succeeds. |
| `Signing.LStripSlash` | consumer.py:227-228 | `lstrip('/')`, described by `Signing.LStripSlashSuffix`. |
| `Signing.Join` | consumer.py:227-228 | POSIX `os.path.join` of two parts, described by `Signing.JoinPath`. |
| `Signing.SignedDir` | consumer.py:216-217 | The destination directory: `signedPath`, or `originalPath` when that is empty. `Signing.ProcessDocumentSigning` keeps it as a loop invariant. |
| `Signing.OutcomeFor` | consumer.py:248-263 | The outcome of a processed document, described by `Signing.OutcomePaths` and `Signing.OutcomeStatus`. |
| `Signing.Outcomes` | consumer.py:222-263 | The document loop, described by `Signing.OutcomesFail`, `Signing.OutcomesInOrder`, `Signing.OutcomesStep` and `Signing.OutcomesAllCompleted`. |
| `Signing.AllCompleted` | consumer.py:269 | Python's `all(...)` over the outcomes, characterised by `Signing.AllCompletedIff`. |
| `Signing.Process` | consumer.py:265-279 | The acknowledgement of a request. It is described by `Signing.ProcessStatus`, `Signing.ProcessStatusByDocuments` and `Signing.NoDocuments`, and computed by `Signing.ProcessDocumentSigning`. |
| `Signing.LStripSlashSuffix` | consumer.py:227-228 | Stripping leading slashes leaves a suffix that does not start with '/'. Everything removed was '/'. |
| `Signing.JoinPath` | consumer.py:227-228 | A joined path ends with the name. It is the name alone when the name is absolute. Otherwise it starts with the directory and, unless the directory is empty, has a '/' right before the name. |
| `Signing.OutcomePaths` | consumer.py:248-263 | An outcome carries the document's name and the request's timestamp. Its original path ends with the name, and its signed path ends with `signed_` + name. |
| `Signing.OutcomeStatus` | consumer.py:240-263 | An outcome is never partial. It is completed exactly when signing from its original path to its signed path succeeds. |
| `Signing.AllCompletedIff` | consumer.py:269 | Python's `all` over the outcomes holds exactly when every outcome is completed. |
| `Signing.BatchStatus` | consumer.py:269 | An evaluated batch is never failed. It is completed exactly when every outcome is completed, and partial otherwise. |
| `Signing.OutcomesNoneSticks` | consumer.py:222-228 | Once a document without a name has raised, the whole document loop has raised. |
| `Signing.OutcomesFail` | consumer.py:222-228 | The document loop raises exactly when some document has no name. |
| `Signing.KeptIndices` | consumer.py:234-237 | The processed documents are exactly those whose original file exists. Their indices are ascending. |
| `Signing.OutcomesKept` | consumer.py:222-263 | With every document named, outcome k is the outcome of the k-th processed document. |
| `Signing.OutcomesInOrder` | consumer.py:222-263 | With every document named, there is one outcome per document whose file exists, in input order, and none for a missing file. |
| `Signing.ProcessStatus` | consumer.py:265-279 | The batch is failed exactly when some document has no name, and it then reports no outcomes. Otherwise it is completed exactly when every outcome is completed, and partial otherwise. The room id and timestamp are echoed. |
| `Signing.NoDocuments` | consumer.py:211 | A request without documents is completed, with no outcomes. |
| `Signing.OutcomesAllCompleted` | consumer.py:240-263 | Every outcome is completed exactly when every document whose original file exists is signed successfully. |
| `Signing.ProcessStatusByDocuments` | consumer.py:234-270 | With every document named, the batch is completed exactly when every existing document is signed, and partial exactly when one of them fails. |
| `Signing.OutcomesStep` | consumer.py:222-263 | One more document: a missing name raises, a missing file adds nothing, and otherwise that document's outcome is appended. |
| `Signing.ProcessDocumentSigning` | consumer.py:203-279 | Returns exactly `Process(msg, env, now)`. This covers the destination default, path construction, skipping missing files, one outcome per signed document, and the batch status. |

## Left out

- The RabbitMQ transport is not modelled: the connection, queues, JSON parsing of message bodies, acknowledgements, and the callback and main loop (consumer.py:282-347). Requests are given as `Signing.Message` values.
- `base64_to_image` (consumer.py:17-25) is the oracle `Env.decodeImage`. Base64 and PIL decoding are outside the model.
- PyMuPDF's text search is modelled as the occurrences stored on each page, in the engine's search order. Drawing never changes what a later search finds. Text inserted by a substitution that happens to contain a later tag is therefore not found again.
- Opening, saving and closing a PDF are the oracles `Env.openPdf` and `Env.save`. `Env.save` receives the signed path and the pages written. Creating the destination directory (consumer.py:186-189) is folded into `Env.save`.
- Writing the temporary PNG, checking that it exists, and removing it (consumer.py:105-106, 133-135) are one oracle, `Env.tempImageOk`. It is keyed on the path and the decoded image. The file's contents, and their being read back by `insert_image`, are not modelled.
- PyMuPDF drawing calls are modelled as appends to a per-page log. The only exceptions modelled inside `apply_signatures_to_pdf` are a failed open, a failed temporary image write, and a failed save. A drawing call is taken never to raise.
- Pass.SubstituteImages: when it reports failure it states nothing about the document, which the source then discards and never saves.
- Coordinates are exact reals. Floating-point rounding of the anchor and the signature box is not modelled.
- Every `utcnow()` reading is the one timestamp `now`. The ISO formatting is not modelled.
- The `signers` argument and the commented-out signer block (consumer.py:139-184) have no effect on the result and are not modelled. Neither are the log lines that are printed.
- In `process_document_signing`, the only exception modelled is a document entry without a name, which makes `os.path.join` raise. Other malformed JSON (a non-string name, a non-dict entry, a missing `signingRoomId`) is outside the model, because messages are typed.
- Key distinctness of a Python dict is not part of the `Mapping` type. The closed-form lemmas (`Pass.TextPassDraws`, `Pass.ImagePassDraws`, `Pass.SignedPagesClosedForm`) require it, and the fold functions and methods do not.
- The filesystem is taken as fixed for the whole request. A signed file saved for one document, or a temporary PNG, is not seen by a later document's existence check (consumer.py:235) or open (consumer.py:50). If `signedPath` is empty and the list holds `a.pdf` and then `signed_a.pdf`, signing the first produces the second's original file. The code then processes that second document, but the model, whose `Env.fileExists` does not change, skips it.
