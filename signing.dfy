/** Batch orchestration: the documents of one signing request, one outcome per document whose
    original file exists, and the status of the batch. */
module Signing {
  import opened Wrappers
  import opened Pdf
  import opened Environment
  import opened Pass

  /** 'completed', 'partial' or 'failed'; a document outcome is never partial. */
  datatype Status = Completed | Partial | Failed

  datatype DocumentOutcome = DocumentOutcome(
    name: string, originalPath: string, signedPath: string, timestamp: string, status: Status)

  datatype BatchResult = BatchResult(
    signingRoomId: string, processedDocuments: seq<DocumentOutcome>, timestamp: string, status: Status)

  /** One entry of `signedDocuments`; `name` is None when the entry has no name. */
  datatype SignedDocument = SignedDocument(name: Option<string>, docTags: Mapping)

  /** A signing request; absent fields hold their defaults ("" for the paths, empty mappings and
      an empty document list). */
  datatype Message = Message(
    signingRoomId: string,
    originalPath: string,
    signedPath: string,
    signData: Mapping,
    signedDocuments: seq<SignedDocument>)

  predicate EndsWith(s: string, suffix: string) {
    |suffix| <= |s| && s[|s| - |suffix|..] == suffix
  }

  /** `s.lstrip('/')`: `s` without its leading '/' characters. */
  function LStripSlash(s: string): string {
    if |s| > 0 && s[0] == '/' then LStripSlash(s[1..]) else s
  }

  /** What `lstrip('/')` leaves is a suffix of `s` that does not start with '/', and everything it
      removed is '/'. */
  lemma {:induction false} LStripSlashSuffix(s: string)
    ensures var r := LStripSlash(s);
      EndsWith(s, r) && (r == [] || r[0] != '/') &&
      forall k :: 0 <= k < |s| - |r| ==> s[k] == '/'
  {
    if |s| > 0 && s[0] == '/' {
      LStripSlashSuffix(s[1..]);
      var r := LStripSlash(s[1..]);
      assert s[1..][|s| - 1 - |r|..] == s[|s| - |r|..];
      forall k | 0 <= k < |s| - |r| ensures s[k] == '/' {
        if k > 0 {
          assert s[k] == s[1..][k - 1];
        }
      }
    }
  }

  /** POSIX `os.path.join(dir, name)`: an absolute `name` replaces `dir`; otherwise a '/' is put
      between them unless `dir` is empty or already ends with one. */
  function Join(dir: string, name: string): string {
    if |name| > 0 && name[0] == '/' then name
    else if dir == "" || dir[|dir| - 1] == '/' then dir + name
    else dir + "/" + name
  }

  /** A joined path ends with the name joined; it is the name alone when that is absolute, and
      otherwise starts with the directory and has a separator between the two. */
  lemma JoinPath(dir: string, name: string)
    ensures var path := Join(dir, name);
      EndsWith(path, name) &&
      (|name| > 0 && name[0] == '/' ==> path == name) &&
      ((|name| == 0 || name[0] != '/') ==>
         |dir| <= |path| && path[..|dir|] == dir &&
         (dir == [] || path[|path| - |name| - 1] == '/'))
  {
    var path := Join(dir, name);
    if |name| == 0 || name[0] != '/' {
      if dir == "" || dir[|dir| - 1] == '/' {
        assert path == dir + name;
        assert path[|path| - |name|..] == name;
      } else {
        assert path == dir + "/" + name;
        assert path[|path| - |name|..] == name;
        assert path[|dir|] == '/';
      }
    }
  }

  /** The directory signed files go to: `signedPath`, or `originalPath` when that is empty. */
  function SignedDir(msg: Message): string {
    if msg.signedPath == "" then msg.originalPath else msg.signedPath
  }

  function OriginalFilePath(msg: Message, name: string): string {
    Join(LStripSlash(msg.originalPath), name)
  }

  function SignedFilePath(msg: Message, name: string): string {
    Join(LStripSlash(SignedDir(msg)), "signed_" + name)
  }

  /** The outcome recorded for a document whose original file exists: its paths, and completed
      exactly when signing it succeeded. */
  function OutcomeFor(msg: Message, env: Env, now: string, name: string, docTags: Mapping): DocumentOutcome
  {
    var original := OriginalFilePath(msg, name);
    var signed := SignedFilePath(msg, name);
    var ok := SigningSucceeds(env, original, signed, msg.signData, docTags);
    DocumentOutcome(name, original, signed, now, if ok then Completed else Failed)
  }

  /** The recorded outcome carries the document's name and the request's timestamp, and paths
      that end in the document's name and in "signed_" followed by it. */
  lemma OutcomePaths(msg: Message, env: Env, now: string, name: string, docTags: Mapping)
    ensures var o := OutcomeFor(msg, env, now, name, docTags);
      o.name == name && o.timestamp == now &&
      o.originalPath == Join(LStripSlash(msg.originalPath), name) && EndsWith(o.originalPath, name) &&
      o.signedPath == Join(LStripSlash(SignedDir(msg)), "signed_" + name) && EndsWith(o.signedPath, "signed_" + name)
  {
    JoinPath(LStripSlash(msg.originalPath), name);
    JoinPath(LStripSlash(SignedDir(msg)), "signed_" + name);
  }

  /** A recorded outcome is never partial, and is completed exactly when signing the document
      from its original path to its signed path succeeded. */
  lemma OutcomeStatus(msg: Message, env: Env, now: string, name: string, docTags: Mapping)
    ensures var o := OutcomeFor(msg, env, now, name, docTags);
      o.status != Partial &&
      (o.status == Completed <==> SigningSucceeds(env, o.originalPath, o.signedPath, msg.signData, docTags))
  {
  }

  /** The outcomes of the document loop over `docs`, or None when an entry without a name makes
      path construction raise. A document whose original file is missing is skipped. */
  function Outcomes(msg: Message, env: Env, now: string, docs: seq<SignedDocument>): Option<seq<DocumentOutcome>> {
    if |docs| == 0 then Some([])
    else
      var n := |docs| - 1;
      match Outcomes(msg, env, now, docs[..n])
      case None => None
      case Some(outs) =>
        match docs[n].name
        case None => None
        case Some(name) =>
          if env.fileExists(OriginalFilePath(msg, name))
          then Some(outs + [OutcomeFor(msg, env, now, name, docs[n].docTags)])
          else Some(outs)
  }

  /** Python's `all(doc['status'] == 'completed' for doc in outs)`. */
  function AllCompleted(outs: seq<DocumentOutcome>): bool {
    if |outs| == 0 then true else outs[0].status == Completed && AllCompleted(outs[1..])
  }

  lemma {:induction false} AllCompletedIff(outs: seq<DocumentOutcome>)
    ensures AllCompleted(outs) <==> forall k :: 0 <= k < |outs| ==> outs[k].status == Completed
  {
    if |outs| > 0 {
      AllCompletedIff(outs[1..]);
      assert forall k :: 1 <= k < |outs| ==> outs[k] == outs[1..][k - 1];
    }
  }

  /** The status of a batch that was evaluated: completed when every outcome is completed
      (so also when there is none), partial otherwise, never failed. */
  function BatchStatus(outs: seq<DocumentOutcome>): (st: Status)
    ensures st != Failed
    ensures st == Completed <==> forall k :: 0 <= k < |outs| ==> outs[k].status == Completed
  {
    AllCompletedIff(outs);
    if AllCompleted(outs) then Completed else Partial
  }

  /** The acknowledgement of a request: on the exception branch no outcomes and status failed. */
  function Process(msg: Message, env: Env, now: string): BatchResult {
    match Outcomes(msg, env, now, msg.signedDocuments)
    case None => BatchResult(msg.signingRoomId, [], now, Failed)
    case Some(outs) => BatchResult(msg.signingRoomId, outs, now, BatchStatus(outs))
  }

  /** Every entry of `docs` has a name. */
  predicate Named(docs: seq<SignedDocument>) {
    forall i :: 0 <= i < |docs| ==> docs[i].name.Some?
  }

  /** The indices of the entries of `docs` whose original file exists, in ascending order. */
  function Kept(msg: Message, env: Env, docs: seq<SignedDocument>): seq<nat>
    requires Named(docs)
  {
    if |docs| == 0 then []
    else
      var n := |docs| - 1;
      Kept(msg, env, docs[..n]) + (if env.fileExists(OriginalFilePath(msg, docs[n].name.value)) then [n] else [])
  }

  lemma {:induction false} OutcomesNoneSticks(msg: Message, env: Env, now: string, docs: seq<SignedDocument>, k: nat)
    requires k <= |docs|
    requires Outcomes(msg, env, now, docs[..k]).None?
    ensures Outcomes(msg, env, now, docs).None?
    decreases |docs|
  {
    if k < |docs| {
      var n := |docs| - 1;
      assert docs[..n][..k] == docs[..k];
      OutcomesNoneSticks(msg, env, now, docs[..n], k);
    } else {
      assert docs[..k] == docs;
    }
  }

  /** The document loop raises exactly when some entry has no name. */
  lemma {:induction false} OutcomesFail(msg: Message, env: Env, now: string, docs: seq<SignedDocument>)
    ensures Outcomes(msg, env, now, docs).None? <==> !Named(docs)
  {
    if |docs| > 0 {
      var n := |docs| - 1;
      OutcomesFail(msg, env, now, docs[..n]);
      assert Named(docs) <==> Named(docs[..n]) && docs[n].name.Some? by {
        if Named(docs[..n]) && docs[n].name.Some? {
          forall i | 0 <= i < |docs| ensures docs[i].name.Some? {
            if i < n {
              assert docs[..n][i] == docs[i];
            }
          }
        }
      }
    }
  }

  /** The indices `Kept` picks are in range, strictly ascending, and are exactly the entries
      whose original file exists. */
  lemma {:induction false} KeptIndices(msg: Message, env: Env, docs: seq<SignedDocument>)
    requires Named(docs)
    ensures var kept := Kept(msg, env, docs);
      (forall k :: 0 <= k < |kept| ==> kept[k] < |docs|) &&
      (forall j, k :: 0 <= j < k < |kept| ==> kept[j] < kept[k]) &&
      (forall i :: 0 <= i < |docs| ==> (i in kept <==> env.fileExists(OriginalFilePath(msg, docs[i].name.value))))
  {
    if |docs| > 0 {
      var n := |docs| - 1;
      var init := docs[..n];
      NamedPrefix(docs, n);
      KeptIndices(msg, env, init);
      var keptBefore := Kept(msg, env, init);
      var kept := Kept(msg, env, docs);
      forall i | 0 <= i < |docs|
        ensures i in kept <==> env.fileExists(OriginalFilePath(msg, docs[i].name.value))
      {
        if i < n {
          assert init[i] == docs[i];
          assert n !in keptBefore;
        }
      }
    }
  }

  lemma NamedPrefix(docs: seq<SignedDocument>, n: nat)
    requires Named(docs) && n <= |docs|
    ensures Named(docs[..n])
  {
    forall i | 0 <= i < n ensures docs[..n][i].name.Some? {
      assert docs[..n][i] == docs[i];
    }
  }

  /** With every entry named, the document loop yields one outcome per kept index, in that order. */
  lemma {:induction false} OutcomesKept(msg: Message, env: Env, now: string, docs: seq<SignedDocument>)
    requires Named(docs)
    ensures Outcomes(msg, env, now, docs).Some?
    ensures var outs := Outcomes(msg, env, now, docs).value;
      var kept := Kept(msg, env, docs);
      |outs| == |kept| &&
      forall k :: 0 <= k < |kept| ==> (kept[k] < |docs| &&
        outs[k] == OutcomeFor(msg, env, now, docs[kept[k]].name.value, docs[kept[k]].docTags))
  {
    if |docs| > 0 {
      var n := |docs| - 1;
      var init := docs[..n];
      NamedPrefix(docs, n);
      OutcomesKept(msg, env, now, init);
      OutcomesStep(msg, env, now, docs, n);
      assert docs[..n + 1] == docs;
      var before := Outcomes(msg, env, now, init).value;
      var keptBefore := Kept(msg, env, init);
      var outs := Outcomes(msg, env, now, docs).value;
      var kept := Kept(msg, env, docs);
      var d := docs[n];
      if env.fileExists(OriginalFilePath(msg, d.name.value)) {
        var o := OutcomeFor(msg, env, now, d.name.value, d.docTags);
        assert outs == before + [o];
        assert kept == keptBefore + [n];
        forall k | 0 <= k < |kept|
          ensures kept[k] < |docs| && outs[k] == OutcomeFor(msg, env, now, docs[kept[k]].name.value, docs[kept[k]].docTags)
        {
          if k < |keptBefore| {
            assert outs[k] == before[k] && kept[k] == keptBefore[k];
            assert init[keptBefore[k]] == docs[keptBefore[k]];
          } else {
            assert outs[k] == o && kept[k] == n;
          }
        }
      } else {
        assert outs == before;
        assert kept == keptBefore;
        forall k | 0 <= k < |kept|
          ensures kept[k] < |docs| && outs[k] == OutcomeFor(msg, env, now, docs[kept[k]].name.value, docs[kept[k]].docTags)
        {
          assert outs[k] == before[k] && kept[k] == keptBefore[k];
          assert init[keptBefore[k]] == docs[keptBefore[k]];
        }
      }
    }
  }

  /** With every entry named, the document loop records exactly one outcome per entry whose
      original file exists, in input order, and none for an entry whose file is missing. */
  lemma OutcomesInOrder(msg: Message, env: Env, now: string, docs: seq<SignedDocument>)
    requires Named(docs)
    ensures Outcomes(msg, env, now, docs).Some?
    ensures var outs := Outcomes(msg, env, now, docs).value;
      var kept := Kept(msg, env, docs);
      |outs| == |kept| &&
      (forall k :: 0 <= k < |kept| ==> (kept[k] < |docs| &&
         outs[k] == OutcomeFor(msg, env, now, docs[kept[k]].name.value, docs[kept[k]].docTags))) &&
      (forall j, k :: 0 <= j < k < |kept| ==> kept[j] < kept[k]) &&
      (forall i :: 0 <= i < |docs| ==> (i in kept <==> env.fileExists(OriginalFilePath(msg, docs[i].name.value))))
  {
    OutcomesKept(msg, env, now, docs);
    KeptIndices(msg, env, docs);
  }

  /** The batch fails exactly on the exception branch, and then reports no outcomes; otherwise
      it is completed exactly when every recorded outcome is completed, and partial if not. */
  lemma ProcessStatus(msg: Message, env: Env, now: string)
    ensures var r := Process(msg, env, now);
      (r.status == Failed <==> exists i :: 0 <= i < |msg.signedDocuments| && msg.signedDocuments[i].name.None?) &&
      (r.status == Failed ==> r.processedDocuments == []) &&
      (r.status == Completed <==> (Named(msg.signedDocuments) &&
         forall k :: 0 <= k < |r.processedDocuments| ==> r.processedDocuments[k].status == Completed)) &&
      r.signingRoomId == msg.signingRoomId && r.timestamp == now
  {
    OutcomesFail(msg, env, now, msg.signedDocuments);
  }

  /** A request without documents is acknowledged as completed with no outcomes. */
  lemma NoDocuments(msg: Message, env: Env, now: string)
    requires msg.signedDocuments == []
    ensures Process(msg, env, now) == BatchResult(msg.signingRoomId, [], now, Completed)
  {
  }

  /** Signing the named document `d` of `msg` succeeds. */
  predicate Signs(msg: Message, env: Env, d: SignedDocument)
    requires d.name.Some?
  {
    SigningSucceeds(env, OriginalFilePath(msg, d.name.value), SignedFilePath(msg, d.name.value), msg.signData, d.docTags)
  }

  /** Every named document of `docs` whose original file exists is signed successfully. */
  predicate AllSign(msg: Message, env: Env, docs: seq<SignedDocument>)
    requires Named(docs)
  {
    forall i :: 0 <= i < |docs| && env.fileExists(OriginalFilePath(msg, docs[i].name.value)) ==> Signs(msg, env, docs[i])
  }

  /** Every recorded outcome is completed exactly when every document whose file exists signs. */
  lemma OutcomesAllCompleted(msg: Message, env: Env, now: string, docs: seq<SignedDocument>)
    requires Named(docs)
    ensures Outcomes(msg, env, now, docs).Some?
    ensures var outs := Outcomes(msg, env, now, docs).value;
      (forall k :: 0 <= k < |outs| ==> outs[k].status == Completed) <==> AllSign(msg, env, docs)
  {
    OutcomesInOrder(msg, env, now, docs);
    var outs := Outcomes(msg, env, now, docs).value;
    var kept := Kept(msg, env, docs);
    forall k | 0 <= k < |kept|
      ensures outs[k].status == Completed <==> Signs(msg, env, docs[kept[k]])
    {
      OutcomeStatus(msg, env, now, docs[kept[k]].name.value, docs[kept[k]].docTags);
    }
    if !AllSign(msg, env, docs) {
      var i :| 0 <= i < |docs| && env.fileExists(OriginalFilePath(msg, docs[i].name.value)) && !Signs(msg, env, docs[i]);
      var k :| 0 <= k < |kept| && kept[k] == i;
      assert outs[k].status != Completed;
    }
  }

  /** When every entry is named, the batch is completed exactly when each document whose
      original file exists is signed, and partial exactly when one of them fails; a skipped
      document does not affect the status. */
  lemma ProcessStatusByDocuments(msg: Message, env: Env, now: string)
    requires Named(msg.signedDocuments)
    ensures var st := Process(msg, env, now).status;
      (st == Completed <==> AllSign(msg, env, msg.signedDocuments)) &&
      (st == Partial <==> !AllSign(msg, env, msg.signedDocuments))
  {
    OutcomesAllCompleted(msg, env, now, msg.signedDocuments);
  }

  /** One more entry of the document loop: a missing name raises, a missing file adds nothing,
      and otherwise the entry's outcome is appended. */
  lemma OutcomesStep(msg: Message, env: Env, now: string, docs: seq<SignedDocument>, i: nat)
    requires i < |docs|
    requires Outcomes(msg, env, now, docs[..i]).Some?
    ensures var before := Outcomes(msg, env, now, docs[..i]).value;
      Outcomes(msg, env, now, docs[..i + 1]) ==
        match docs[i].name
        case None => None
        case Some(name) =>
          if env.fileExists(OriginalFilePath(msg, name))
          then Some(before + [OutcomeFor(msg, env, now, name, docs[i].docTags)])
          else Some(before)
  {
    assert docs[..i + 1][..i] == docs[..i];
  }

  /** process_document_signing. */
  method ProcessDocumentSigning(msg: Message, env: Env, now: string) returns (result: BatchResult)
    ensures result == Process(msg, env, now)
  {
    var signedPath := msg.signedPath;
    if signedPath == "" {
      signedPath := msg.originalPath;
    }
    var processed: seq<DocumentOutcome> := [];
    var i := 0;
    while i < |msg.signedDocuments|
      invariant 0 <= i <= |msg.signedDocuments|
      invariant signedPath == SignedDir(msg)
      invariant Outcomes(msg, env, now, msg.signedDocuments[..i]) == Some(processed)
    {
      var document := msg.signedDocuments[i];
      OutcomesStep(msg, env, now, msg.signedDocuments, i);
      if document.name.None? {
        // joining a path with a missing name raises: the whole request fails
        OutcomesNoneSticks(msg, env, now, msg.signedDocuments, i + 1);
        return BatchResult(msg.signingRoomId, [], now, Failed);
      }
      var docName := document.name.value;
      var originalFilePath := Join(LStripSlash(msg.originalPath), docName);
      var signedFilePath := Join(LStripSlash(signedPath), "signed_" + docName);
      if env.fileExists(originalFilePath) {
        var success;
        ghost var written;
        success, written := ApplySignaturesToPdf(env, originalFilePath, signedFilePath, msg.signData, document.docTags);
        var status := if success then Completed else Failed;
        var outcome := DocumentOutcome(docName, originalFilePath, signedFilePath, now, status);
        assert outcome == OutcomeFor(msg, env, now, docName, document.docTags);
        processed := processed + [outcome];
      }
      i := i + 1;
    }
    assert msg.signedDocuments[..i] == msg.signedDocuments;
    result := BatchResult(msg.signingRoomId, processed, now, BatchStatus(processed));
  }
}
