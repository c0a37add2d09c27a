/** The back end's endpoints (backend/app/main.py) over the two tables of `Models`.
    The database is a `Database` object whose tables the endpoints change in place;
    the endpoints that only read are functions of the tables. Parsing the uploaded PDF
    and the language-model call are foreign: their outcomes are parameters. */
module Store {
  import opened Wrappers
  import opened Text
  import opened Models

  /** The directory uploaded files are written to. */
  const UploadDir := "uploads"

  /** How many characters of a document's text the prompt may include. */
  const PromptTextLimit: nat := 30000

  /** How many questions a document's entry in the listing previews. */
  const PreviewSize: nat := 3

  /** An HTTP error response: its status code and its `detail`. */
  datatype HttpError = HttpError(status: int, detail: Detail)

  /** The `detail` of an error: a message, or the error that an outer
      `except Exception as e` caught and raised again as `str(e)`. */
  datatype Detail = Message(text: string) | Reraised(cause: HttpError)

  const NotFound := HttpError(404, Message("Document not found"))
  const NotPdf := HttpError(400, Message("File must be a PDF"))
  const MissingField := HttpError(400, Message("Missing document_id or question"))

  /** The 500 response an endpoint's catch-all handler turns `e` into. */
  function Internal(e: HttpError): HttpError {
    HttpError(500, Reraised(e))
  }

  /** A question in a document's preview. */
  datatype PreviewQuestion = PreviewQuestion(question: string, answer: string, createdAt: nat)

  /** One element of the `GET /documents` listing. */
  datatype DocumentEntry = DocumentEntry(
    id: int,
    filename: string,
    fileUrl: string,
    createdAt: nat,
    previewQuestions: seq<PreviewQuestion>)

  /** The body of `GET /documents/{id}`. */
  datatype DocumentInfo = DocumentInfo(id: int, filename: string, fileUrl: string, createdAt: nat)

  /** One element of `GET /documents/{id}/questions`. */
  datatype HistoryItem = HistoryItem(id: int, question: string, answer: string, createdAt: nat)

  /** The body of a successful `POST /upload`. */
  datatype UploadReceipt = UploadReceipt(message: string, documentId: int, fileUrl: string)

  /** The body of a successful `POST /ask`. */
  datatype AskReply = AskReply(answer: string)

  /** What saving and parsing the uploaded file gave: the text of each page, or the
      message of the exception raised while writing or reading it. */
  datatype PdfOutcome = Extracted(pageTexts: seq<string>) | Unreadable(reason: string)

  /** What the language model gave for a prompt: its text, or the message of the
      exception raised while generating it. */
  datatype GeminiReply = Generated(text: string) | GenerationFailed(reason: string)

  /** The URL under which an uploaded file is served. */
  function FileUrl(filename: string): string {
    "/uploads/" + filename
  }

  /** `os.path.join(UPLOAD_DIR, filename)`: an absolute name replaces the directory. */
  function FilePath(filename: string): string {
    if filename != [] && filename[0] == '/' then filename else UploadDir + "/" + filename
  }

  /** The stored path always ends with the file name, and is the name itself exactly
      when the name is absolute. */
  lemma FilePathKeepsName(filename: string)
    ensures EndsWith(FilePath(filename), filename)
    ensures FilePath(filename) == filename <==> filename != [] && filename[0] == '/'
  {
    if !(filename != [] && filename[0] == '/') {
      assert |FilePath(filename)| > |filename|;
    }
  }

  /** The elements of `s` in the opposite order. */
  function Reverse<T>(s: seq<T>): (r: seq<T>)
    ensures |r| == |s|
  {
    if s == [] then [] else Reverse(s[1..]) + [s[0]]
  }

  /** Element `i` of the reversal is element `|s| - 1 - i` of `s`. */
  lemma {:induction false} ReverseAt<T>(s: seq<T>, i: nat)
    requires i < |s|
    ensures Reverse(s)[i] == s[|s| - 1 - i]
  {
    if i < |s| - 1 {
      ReverseAt(s[1..], i);
    }
  }

  /** At most the first `n` elements: a query's `.limit(n)`, and Python's slice `[:n]`. */
  function Take<T>(s: seq<T>, n: nat): (r: seq<T>)
    ensures |r| == if |s| <= n then |s| else n
    ensures r == s[..|r|]
  {
    if |s| <= n then s else s[..n]
  }

  // ---------------------------------------------------------------- GET /documents

  /** The document's questions newest first, at most `PreviewSize` of them: the query
      ordered by `created_at` descending and limited to three (the table is kept in
      insertion order, see `Database.Valid`). */
  function LatestQuestions(qs: seq<Question>, documentId: int): seq<Question> {
    Take(Reverse(QuestionsOf(qs, documentId)), PreviewSize)
  }

  function ToPreview(q: Question): PreviewQuestion {
    PreviewQuestion(q.questionText, q.answerText, q.createdAt)
  }

  /** `preview_questions`: the latest questions turned back to oldest first. */
  function PreviewOf(qs: seq<Question>, documentId: int): seq<PreviewQuestion> {
    var latest := Reverse(LatestQuestions(qs, documentId));
    seq(|latest|, i requires 0 <= i < |latest| => ToPreview(latest[i]))
  }

  /** The listing's entry for one document. */
  function Entry(doc: Document, qs: seq<Question>): DocumentEntry {
    DocumentEntry(doc.id, doc.filename, FileUrl(doc.filename), doc.createdAt, PreviewOf(qs, doc.id))
  }

  /** Reversing, keeping the first `k` and reversing back keeps the last `k`. */
  lemma LastOfReversed<T>(s: seq<T>, k: nat)
    ensures Reverse(Take(Reverse(s), k)) == s[|s| - |Take(Reverse(s), k)|..]
  {
    var t := Take(Reverse(s), k);
    var r := Reverse(t);
    var m := |t|;
    forall i | 0 <= i < m ensures r[i] == s[|s| - m + i] {
      ReverseAt(t, i);
      ReverseAt(s, m - 1 - i);
    }
  }

  /** A document's preview holds its `min(3, n)` most recent questions, oldest first. */
  lemma PreviewIsMostRecent(qs: seq<Question>, documentId: int)
    ensures var h := QuestionsOf(qs, documentId);
            var p := PreviewOf(qs, documentId);
            var m := if |h| <= PreviewSize then |h| else PreviewSize;
            && |p| == m
            && forall i :: 0 <= i < m ==> p[i] == ToPreview(h[|h| - m + i])
  {
    LastOfReversed(QuestionsOf(qs, documentId), PreviewSize);
  }

  /** In a table kept in stamp order, the preview is in stamp order and every question
      of the document it leaves out is older than every question it shows. */
  lemma PreviewShowsNewest(qs: seq<Question>, documentId: int)
    requires Chronological(qs)
    ensures var h := QuestionsOf(qs, documentId);
            var p := PreviewOf(qs, documentId);
            && (forall i, j :: 0 <= i < j < |p| ==> p[i].createdAt < p[j].createdAt)
            && (forall i, j :: 0 <= i < |h| - |p| && 0 <= j < |p| ==> h[i].createdAt < p[j].createdAt)
  {
    PreviewIsMostRecent(qs, documentId);
    QuestionsOfChronological(qs, documentId);
    StampsOfSuffix(QuestionsOf(qs, documentId), PreviewOf(qs, documentId));
  }

  /** The stamps of a preview of the last `|p|` rows of a chronological `h`. */
  lemma StampsOfSuffix(h: seq<Question>, p: seq<PreviewQuestion>)
    requires Chronological(h) && |p| <= |h|
    requires forall i :: 0 <= i < |p| ==> p[i] == ToPreview(h[|h| - |p| + i])
    ensures forall i, j :: 0 <= i < j < |p| ==> p[i].createdAt < p[j].createdAt
    ensures forall i, j :: 0 <= i < |h| - |p| && 0 <= j < |p| ==> h[i].createdAt < p[j].createdAt
  {
    var m := |p|;
    forall i, j | 0 <= i < j < m ensures p[i].createdAt < p[j].createdAt {
      assert p[i].createdAt == h[|h| - m + i].createdAt;
      assert p[j].createdAt == h[|h| - m + j].createdAt;
    }
    forall i, j | 0 <= i < |h| - m && 0 <= j < m ensures h[i].createdAt < p[j].createdAt {
      assert p[j].createdAt == h[|h| - m + j].createdAt;
    }
  }

  // ------------------------------------------------------------ GET /documents/{id}

  /** The first row of `docs` with key `id`, if any. */
  function FindDocument(docs: seq<Document>, id: int): (r: Option<Document>)
    ensures r.Some? <==> HasDocument(docs, id)
    ensures r.Some? ==> r.value in docs && r.value.id == id
  {
    if docs == [] then None
    else if docs[0].id == id then Some(docs[0])
    else
      var r := FindDocument(docs[1..], id);
      assert HasDocument(docs, id) ==> HasDocument(docs[1..], id) by {
        if HasDocument(docs, id) {
          var i :| 0 <= i < |docs| && docs[i].id == id;
          assert docs[1..][i - 1] == docs[i];
        }
      }
      r
  }

  /** `GET /documents/{id}`: the document's name, URL and stamp, or 404. */
  function GetDocument(docs: seq<Document>, id: int): (r: Result<DocumentInfo, HttpError>)
    ensures r.Success? <==> HasDocument(docs, id)
    ensures r.Failure? ==> r.error == NotFound
    ensures r.Success? ==> exists d :: d in docs && d.id == id
                             && r.value == DocumentInfo(id, d.filename, FileUrl(d.filename), d.createdAt)
  {
    match FindDocument(docs, id)
    case None => Failure(NotFound)
    case Some(d) => Success(DocumentInfo(d.id, d.filename, FileUrl(d.filename), d.createdAt))
  }

  // --------------------------------------------------- GET /documents/{id}/questions

  function ToHistoryItem(q: Question): HistoryItem {
    HistoryItem(q.id, q.questionText, q.answerText, q.createdAt)
  }

  /** `GET /documents/{id}/questions`: exactly the document's questions, oldest first.
      An unknown id is not an error; it has no questions. */
  function GetDocumentQuestions(qs: seq<Question>, documentId: int): (r: seq<HistoryItem>)
    ensures forall i :: 0 <= i < |r| ==> IsRowOf(qs, documentId, r[i])
    ensures forall q :: q in qs && q.documentId == documentId ==> ToHistoryItem(q) in r
    ensures Chronological(qs) ==> forall i, j :: 0 <= i < j < |r| ==> r[i].createdAt < r[j].createdAt
  {
    HistoryItemsFaithful(qs, documentId);
    HistoryItems(QuestionsOf(qs, documentId))
  }

  /** `item` is the response row of one of document `documentId`'s questions in `qs`. */
  predicate IsRowOf(qs: seq<Question>, documentId: int, item: HistoryItem) {
    exists q :: q in qs && q.documentId == documentId && item == ToHistoryItem(q)
  }

  /** The response rows for a list of questions, in the same order. */
  function HistoryItems(h: seq<Question>): seq<HistoryItem> {
    seq(|h|, i requires 0 <= i < |h| => ToHistoryItem(h[i]))
  }

  /** The rows for a document's questions: one per question of that document, none
      other, in stamp order when the table is. */
  lemma HistoryItemsFaithful(qs: seq<Question>, documentId: int)
    ensures var r := HistoryItems(QuestionsOf(qs, documentId));
            && (forall i :: 0 <= i < |r| ==> IsRowOf(qs, documentId, r[i]))
            && (forall q :: q in qs && q.documentId == documentId ==> ToHistoryItem(q) in r)
            && (Chronological(qs) ==> forall i, j :: 0 <= i < j < |r| ==> r[i].createdAt < r[j].createdAt)
  {
    var h := QuestionsOf(qs, documentId);
    var r := HistoryItems(h);
    forall i | 0 <= i < |r| ensures IsRowOf(qs, documentId, r[i]) {
      assert h[i] in h;
      assert r[i] == ToHistoryItem(h[i]);
    }
    forall q | q in qs && q.documentId == documentId ensures ToHistoryItem(q) in r {
      assert q in h;
      var i :| 0 <= i < |h| && h[i] == q;
      assert r[i] == ToHistoryItem(q);
    }
    if Chronological(qs) {
      QuestionsOfChronological(qs, documentId);
    }
  }

  // ---------------------------------------------------------------------- POST /ask

  const PromptOpening :=
    "Based on the following text from a PDF document, please answer the question.\n"
    + "        If the answer cannot be found in the text, say \"I cannot find the answer in the document.\"\n"
    + "        \n"
    + "        Text: "
  const PromptQuestionLabel := "\n        \n        Question: "
  const PromptClosing := "\n        \n        Answer:"

  /** The prompt sent to the language model for a question about a document's text. */
  function Prompt(text: string, question: string): string {
    PromptOpening + Take(text, PromptTextLimit) + PromptQuestionLabel + question + PromptClosing
  }

  /** Two texts give the same prompt for a question exactly when their first
      `PromptTextLimit` characters agree: every character up to the limit reaches the
      language model, and none past it does. */
  lemma PromptDeterminedByTextPrefix(t1: string, t2: string, question: string)
    ensures Prompt(t1, question) == Prompt(t2, question)
        <==> Take(t1, PromptTextLimit) == Take(t2, PromptTextLimit)
  {
    var tail := PromptQuestionLabel + question + PromptClosing;
    assert Prompt(t1, question) == PromptOpening + Take(t1, PromptTextLimit) + tail;
    assert Prompt(t2, question) == PromptOpening + Take(t2, PromptTextLimit) + tail;
    SameFrameSameMiddle(PromptOpening, Take(t1, PromptTextLimit), Take(t2, PromptTextLimit), tail);
  }

  /** Between the same opening and the same tail, two middles give the same string
      exactly when they are equal. */
  lemma SameFrameSameMiddle(opening: string, a: string, b: string, tail: string)
    ensures opening + a + tail == opening + b + tail <==> a == b
  {
    if opening + a + tail == opening + b + tail {
      var p1, p2 := opening + a + tail, opening + b + tail;
      assert |a| == |b|;
      forall i | 0 <= i < |a| ensures a[i] == b[i] {
        assert a[i] == p1[|opening| + i];
        assert b[i] == p2[|opening| + i];
      }
    }
  }

  /** A prompt is longer than the prompt for an empty text by at most `PromptTextLimit`. */
  lemma PromptLength(text: string, question: string)
    ensures |Prompt(text, question)| == |Prompt("", question)|
              + (if |text| <= PromptTextLimit then |text| else PromptTextLimit)
  {
  }

  /** Text past the limit never reaches the language model. */
  lemma PromptIgnoresTextPastLimit(text: string, more: string, question: string)
    requires |text| >= PromptTextLimit
    ensures Prompt(text + more, question) == Prompt(text, question)
  {
    assert (text + more)[..PromptTextLimit] == text[..PromptTextLimit];
  }

  /** `not document_id or not question_text` is false: both keys are present and truthy. */
  predicate AskFieldsPresent(documentId: Option<int>, question: Option<string>) {
    documentId.Some? && documentId.value != 0 && question.Some? && question.value != ""
  }

  // ------------------------------------------------------------------ the database

  /** The two tables, the next free keys and the stamp the next inserted row gets. */
  class Database {
    var documents: seq<Document>
    var questions: seq<Question>
    var nextDocumentId: int
    var nextQuestionId: int
    var clock: nat

    /** The keys and the foreign key hold, fresh keys are above every key in use
        and stamps below `clock`, and questions are stored in stamp order. */
    ghost predicate Valid()
      reads this
    {
      && Consistent(documents, questions)
      && Chronological(questions)
      && (forall d :: d in documents ==> d.id < nextDocumentId)
      && (forall q :: q in questions ==> q.id < nextQuestionId && q.createdAt < clock)
    }

    /** Empty tables; keys start at 1. */
    constructor ()
      ensures Valid()
      ensures documents == [] && questions == []
      ensures nextDocumentId == 1 && nextQuestionId == 1 && clock == 0
    {
      documents, questions := [], [];
      nextDocumentId, nextQuestionId, clock := 1, 1, 0;
    }

    /** `GET /documents`: one entry per document, in table order. */
    method GetDocuments() returns (r: seq<DocumentEntry>)
      ensures |r| == |documents|
      ensures forall i :: 0 <= i < |r| ==> r[i] == Entry(documents[i], questions)
    {
      r := [];
      var i := 0;
      while i < |documents|
        invariant 0 <= i <= |documents|
        invariant |r| == i
        invariant forall k :: 0 <= k < i ==> r[k] == Entry(documents[k], questions)
      {
        r := r + [Entry(documents[i], questions)];
        i := i + 1;
      }
    }

    /** `POST /upload`: a file whose name does not end in ".pdf" is refused with 400;
        a file that cannot be saved or parsed gives 500; otherwise exactly one
        document is inserted, holding the pages' text in order, under a fresh key. */
    method UploadPdf(filename: string, pdf: PdfOutcome) returns (r: Result<UploadReceipt, HttpError>)
      requires Valid()
      modifies this
      ensures Valid()
      ensures !EndsWith(filename, ".pdf") ==> r == Failure(NotPdf) && unchanged(this)
      ensures EndsWith(filename, ".pdf") && pdf.Unreadable? ==>
                r == Failure(HttpError(500, Message(pdf.reason))) && unchanged(this)
      ensures EndsWith(filename, ".pdf") && pdf.Extracted? ==>
                && r == Success(UploadReceipt("PDF uploaded successfully", old(nextDocumentId), FileUrl(filename)))
                && documents == old(documents)
                     + [Document(old(nextDocumentId), filename, FilePath(filename), Concat(pdf.pageTexts), old(clock))]
                && questions == old(questions)
                && nextDocumentId == old(nextDocumentId) + 1
                && nextQuestionId == old(nextQuestionId)
                && clock == old(clock) + 1
    {
      if !EndsWith(filename, ".pdf") {
        return Failure(NotPdf);
      }
      match pdf
      case Unreadable(reason) =>
        return Failure(HttpError(500, Message(reason)));
      case Extracted(pageTexts) =>
        var text := JoinPageTexts(pageTexts);
        var doc := Document(nextDocumentId, filename, FilePath(filename), text, clock);
        InsertKeepsReferences(documents, doc, questions);
        documents := documents + [doc];
        nextDocumentId := nextDocumentId + 1;
        clock := clock + 1;
        r := Success(UploadReceipt("PDF uploaded successfully", doc.id, FileUrl(filename)));
    }

    /** `POST /ask`: a missing or falsy `document_id` or `question` and an unknown
        document are refused, as 500 responses wrapping the 400 and the 404; a failed
        generation gives 500; otherwise exactly one question, linked to the document
        and holding the stripped answer, is inserted under a fresh key and stamp. */
    method AskQuestion(documentId: Option<int>, question: Option<string>, generate: string -> GeminiReply)
      returns (r: Result<AskReply, HttpError>)
      requires Valid()
      modifies this
      ensures Valid()
      ensures !AskFieldsPresent(documentId, question) ==>
                r == Failure(Internal(MissingField)) && unchanged(this)
      ensures AskFieldsPresent(documentId, question) && !HasDocument(old(documents), documentId.value) ==>
                r == Failure(Internal(NotFound)) && unchanged(this)
      ensures AskFieldsPresent(documentId, question) && HasDocument(old(documents), documentId.value) ==>
                var doc := FindDocument(old(documents), documentId.value).value;
                var reply := generate(Prompt(doc.textContent, question.value));
                && (reply.GenerationFailed? ==>
                      r == Failure(HttpError(500, Message(reply.reason))) && unchanged(this))
                && (reply.Generated? ==>
                      var answer := Trim(reply.text, IsPyWhitespace);
                      && r == Success(AskReply(answer))
                      && questions == old(questions)
                           + [Question(old(nextQuestionId), documentId.value, question.value, answer, old(clock))]
                      && documents == old(documents)
                      && nextQuestionId == old(nextQuestionId) + 1
                      && nextDocumentId == old(nextDocumentId)
                      && clock == old(clock) + 1)
    {
      if !AskFieldsPresent(documentId, question) {
        return Failure(Internal(MissingField));
      }
      var found := FindDocument(documents, documentId.value);
      if found.None? {
        return Failure(Internal(NotFound));
      }
      var prompt := Prompt(found.value.textContent, question.value);
      var reply := generate(prompt);
      match reply
      case GenerationFailed(reason) =>
        return Failure(HttpError(500, Message(reason)));
      case Generated(text) =>
        var answer := Trim(text, IsPyWhitespace);
        var q := Question(nextQuestionId, documentId.value, question.value, answer, clock);
        AppendQuestionKeepsConsistent(documents, questions, q);
        AppendChronological(questions, q);
        questions := questions + [q];
        nextQuestionId := nextQuestionId + 1;
        clock := clock + 1;
        r := Success(AskReply(answer));
    }

    /** `DELETE /documents/{id}`: an unknown id, or a failure to remove the stored
        file, gives 500 and, after the rollback, removes nothing; otherwise the
        document's questions and then the document itself are deleted. `removal` is
        the message of the exception removing the file raised, if it raised one. */
    method DeleteDocument(id: int, removal: Option<string>) returns (r: Result<string, HttpError>)
      requires Valid()
      modifies this
      ensures Valid()
      ensures !HasDocument(old(documents), id) ==> r == Failure(Internal(NotFound)) && unchanged(this)
      ensures HasDocument(old(documents), id) && removal.Some? ==>
                r == Failure(HttpError(500, Message(removal.value))) && unchanged(this)
      ensures HasDocument(old(documents), id) && removal.None? ==>
                && r == Success("Document deleted successfully")
                && documents == DocumentsExcept(old(documents), id)
                && |documents| == |old(documents)| - 1
                && questions == QuestionsNotOf(old(questions), id)
                && nextDocumentId == old(nextDocumentId)
                && nextQuestionId == old(nextQuestionId)
                && clock == old(clock)
    {
      var found := FindDocument(documents, id);
      if found.None? {
        return Failure(Internal(NotFound));
      }
      if removal.Some? {
        return Failure(HttpError(500, Message(removal.value)));
      }
      CascadeKeepsConsistent(documents, questions, id);
      QuestionsNotOfChronological(questions, id);
      DocumentsExceptCount(documents, id);
      questions := QuestionsNotOf(questions, id);
      documents := DocumentsExcept(documents, id);
      r := Success("Document deleted successfully");
    }
  }

  /** The extraction loop of `POST /upload`: each page's text appended to the previous ones. */
  method JoinPageTexts(pageTexts: seq<string>) returns (text: string)
    ensures text == Concat(pageTexts)
  {
    text := "";
    for i := 0 to |pageTexts|
      invariant text == Concat(pageTexts[..i])
    {
      assert pageTexts[..i + 1][..i] == pageTexts[..i];
      text := text + pageTexts[i];
    }
    assert pageTexts[..|pageTexts|] == pageTexts;
  }

  /** Appending a document keeps every foreign key resolving. */
  lemma InsertKeepsReferences(docs: seq<Document>, doc: Document, qs: seq<Question>)
    requires ReferencesResolve(docs, qs)
    ensures ReferencesResolve(docs + [doc], qs)
  {
    forall i | 0 <= i < |qs| ensures HasDocument(docs + [doc], qs[i].documentId) {
      var j :| 0 <= j < |docs| && docs[j].id == qs[i].documentId;
      assert (docs + [doc])[j] == docs[j];
    }
  }
}
