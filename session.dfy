/** The front end's session state (frontend/src/App.jsx): the component's state
    fields and the way its event handlers change them. Every asynchronous handler is
    split into the part that runs when it is invoked and one method per way its
    request can settle; the settled request's result is a parameter. Handlers see the
    state of the render they were created in, so what a request needs later is returned
    by the method that starts it. There is no check that a request still belongs to the
    document shown when it settles. */
module Session {
  import opened Wrappers
  import opened Text
  import Models
  import Store

  const ApiBaseUrl := "http://localhost:8000"
  const PdfType := "application/pdf"

  const UploadFallback := "Error uploading PDF"
  const AskFallback := "Error getting answer"
  const AskFailureNotice := "Failed to get answer. Please try again."
  const ListLoadError := "Failed to load documents"
  const DetailsLoadError := "Failed to load document details"
  const HistoryLoadError := "Failed to load question history"
  const DeleteError := "Failed to delete document"

  /** A file the browser hands over, with the media type it reports. */
  datatype FileRef = FileRef(name: string, mediaType: string)

  /** One entry of the transcript. */
  datatype Message =
    | QuestionMessage(content: string)
    | AnswerMessage(content: string)
    | ErrorMessage(content: string)

  /** The body of the `POST /ask` a submitted question sends. */
  datatype AskRequest = AskRequest(documentId: int, question: string)

  /** An upload in flight: the file the handler accepted. */
  datatype UploadRequest = UploadRequest(file: FileRef)

  /** A confirmed deletion in flight: the id to delete and the active document
      the handler saw when it was clicked. */
  datatype DeleteRequest = DeleteRequest(docId: int, activeAtClick: Option<int>)

  /** A document id is truthy in JavaScript when it is present and not 0. */
  predicate Truthy(id: Option<int>) {
    id.Some? && id.value != 0
  }

  /** `err.response?.data?.detail || fallback`: an absent or empty detail gives the fallback. */
  function DetailOr(detail: Option<string>, fallback: string): (r: string)
    ensures r == fallback || detail == Some(r)
    ensures detail.Some? && detail.value != "" ==> r == detail.value
    ensures fallback != "" ==> r != ""
  {
    if detail.Some? && detail.value != "" then detail.value else fallback
  }

  /** The list holds an entry for document `id`. */
  predicate Lists(entries: seq<Store.DocumentEntry>, id: int) {
    exists i :: 0 <= i < |entries| && entries[i].id == id
  }

  /** The transcript rebuilt from a document's question history: each item becomes
      its question followed by its answer. */
  function HistoryMessages(items: seq<Store.HistoryItem>): (r: seq<Message>)
    ensures |r| == 2 * |items|
    ensures forall i :: 0 <= i < |items| ==>
              r[2 * i] == QuestionMessage(items[i].question) && r[2 * i + 1] == AnswerMessage(items[i].answer)
  {
    if items == [] then []
    else [QuestionMessage(items[0].question), AnswerMessage(items[0].answer)] + HistoryMessages(items[1..])
  }

  /** The question/answer pairs a transcript starts with. */
  function Exchanges(msgs: seq<Message>): seq<(string, string)>
  {
    if |msgs| >= 2 && msgs[0].QuestionMessage? && msgs[1].AnswerMessage? then
      [(msgs[0].content, msgs[1].content)] + Exchanges(msgs[2..])
    else []
  }

  /** Reading the pairs back out of a rebuilt transcript gives the history's
      questions and answers, all of them and in their order. */
  lemma {:induction false} HistoryRoundTrip(items: seq<Store.HistoryItem>)
    ensures Exchanges(HistoryMessages(items))
         == seq(|items|, i requires 0 <= i < |items| => (items[i].question, items[i].answer))
  {
    if items != [] {
      HistoryRoundTrip(items[1..]);
      var m := HistoryMessages(items);
      assert m[2..] == HistoryMessages(items[1..]);
    }
  }

  /** Reloading a document's history shows, pair by pair and in stored order, the
      question and answer of every question the store holds for that document. */
  lemma StoredHistoryTranscript(qs: seq<Models.Question>, documentId: int)
    ensures var h := Models.QuestionsOf(qs, documentId);
            Exchanges(HistoryMessages(Store.GetDocumentQuestions(qs, documentId)))
              == seq(|h|, i requires 0 <= i < |h| => (h[i].questionText, h[i].answerText))
  {
    var items := Store.GetDocumentQuestions(qs, documentId);
    HistoryRoundTrip(items);
  }

  /** The component's state. */
  class App {
    var selectedFile: Option<FileRef>
    var fileUrl: Option<string>
    var question: string
    var isUploading: bool
    var documentId: Option<int>
    var messages: seq<Message>
    var error: Option<string>
    var isLoadingHistory: bool
    var documents: seq<Store.DocumentEntry>
    var isLoadingDocuments: bool
    var isTyping: bool

    /** The initial values of the state hooks. */
    constructor ()
      ensures selectedFile == None && fileUrl == None && question == ""
      ensures !isUploading && documentId == None && messages == [] && error == None
      ensures !isLoadingHistory && documents == [] && !isLoadingDocuments && !isTyping
    {
      selectedFile, fileUrl, question := None, None, "";
      isUploading, documentId, messages, error := false, None, [], None;
      isLoadingHistory, documents, isLoadingDocuments, isTyping := false, [], false, false;
    }

    /** The sidebar offers `docId` for selection and deletion: the list is not
        replaced by its loading spinner and holds an entry with that id. */
    predicate Offers(docId: int)
      reads this
    {
      !isLoadingDocuments && Lists(documents, docId)
    }

    /** The question form can be submitted: it is rendered only while a file is shown,
        and its button is enabled only with a truthy document id, no upload and no
        history load running. */
    predicate CanSubmit()
      reads this
    {
      selectedFile.Some? && Truthy(documentId) && !isUploading && !isLoadingHistory
    }

    // ------------------------------------------------------------ the documentId effect

    /** The effect on `documentId`, run after a render in which it differs from
        `previous`: when the new id is truthy it requests that document's history
        and details (`requested`), and the history load marks itself as loading. */
    method DocumentIdEffect(previous: Option<int>) returns (requested: bool)
      modifies this`isLoadingHistory
      ensures requested == (documentId != previous && Truthy(documentId))
      ensures isLoadingHistory == (requested || old(isLoadingHistory))
    {
      requested := documentId != previous && Truthy(documentId);
      if requested {
        isLoadingHistory := true;
      }
    }

    // ---------------------------------------------------------------- loadDocuments

    /** `loadDocuments` up to its request. */
    method LoadDocumentsStarted()
      modifies this`isLoadingDocuments
      ensures isLoadingDocuments
    {
      isLoadingDocuments := true;
    }

    /** The list request succeeded: the list is replaced. */
    method DocumentsLoaded(list: seq<Store.DocumentEntry>)
      modifies this`documents, this`isLoadingDocuments
      ensures documents == list && !isLoadingDocuments
    {
      documents := list;
      isLoadingDocuments := false;
    }

    /** The list request failed: the previous list stays. */
    method DocumentsLoadFailed()
      modifies this`error, this`isLoadingDocuments
      ensures error == Some(ListLoadError) && !isLoadingDocuments
    {
      error := Some(ListLoadError);
      isLoadingDocuments := false;
    }

    // ---------------------------------------------------------- loadDocumentDetails

    /** The details request succeeded: the viewer shows the stored file. */
    method DetailsLoaded(info: Store.DocumentInfo)
      modifies this`selectedFile, this`fileUrl
      ensures selectedFile == Some(FileRef(info.filename, PdfType))
      ensures fileUrl == Some(ApiBaseUrl + info.fileUrl)
    {
      selectedFile := Some(FileRef(info.filename, PdfType));
      fileUrl := Some(ApiBaseUrl + info.fileUrl);
    }

    /** The details request failed. */
    method DetailsLoadFailed()
      modifies this`error
      ensures error == Some(DetailsLoadError)
    {
      error := Some(DetailsLoadError);
    }

    // ---------------------------------------------------------- loadQuestionHistory

    /** The history request succeeded: the transcript is replaced by the history,
        whatever document is shown by now. */
    method HistoryLoaded(items: seq<Store.HistoryItem>)
      modifies this`messages, this`isLoadingHistory
      ensures messages == HistoryMessages(items) && !isLoadingHistory
    {
      messages := HistoryMessages(items);
      isLoadingHistory := false;
    }

    /** The history request failed: the transcript stays. */
    method HistoryLoadFailed()
      modifies this`error, this`isLoadingHistory
      ensures error == Some(HistoryLoadError) && !isLoadingHistory
    {
      error := Some(HistoryLoadError);
      isLoadingHistory := false;
    }

    // ------------------------------------------------------ handleFileUpload, handleDrop

    /** A file picked or dropped: unless it is present and reports the PDF media type
        nothing happens; otherwise the upload is marked as running and the error cleared. */
    method UploadStarted(file: Option<FileRef>) returns (request: Option<UploadRequest>)
      modifies this`isUploading, this`error
      ensures request.Some? <==> file.Some? && file.value.mediaType == PdfType
      ensures request.None? ==> unchanged(this)
      ensures request.Some? ==> request.value.file == file.value && isUploading && error == None
    {
      if file.Some? && file.value.mediaType == PdfType {
        isUploading := true;
        error := None;
        request := Some(UploadRequest(file.value));
      } else {
        request := None;
      }
    }

    /** The upload of the request's file succeeded with `newDocumentId`: the new document becomes
        the active one with an empty transcript, the list is reloaded, and the effect
        requests its history when the id changed. `objectUrl` is the local URL the
        browser made for the file. */
    method UploadSucceeded(request: UploadRequest, objectUrl: string, newDocumentId: int) returns (requested: bool)
      modifies this`selectedFile, this`fileUrl, this`documentId, this`messages
      modifies this`isLoadingDocuments, this`isUploading, this`isLoadingHistory
      ensures selectedFile == Some(request.file) && fileUrl == Some(objectUrl)
      ensures documentId == Some(newDocumentId) && messages == []
      ensures isLoadingDocuments && !isUploading
      ensures requested == (old(documentId) != Some(newDocumentId) && newDocumentId != 0)
      ensures isLoadingHistory == (requested || old(isLoadingHistory))
    {
      var previous := documentId;
      selectedFile := Some(request.file);
      fileUrl := Some(objectUrl);
      documentId := Some(newDocumentId);
      messages := [];
      LoadDocumentsStarted();
      isUploading := false;
      requested := DocumentIdEffect(previous);
    }

    /** The upload failed: the error shows the server's detail or the fallback, the
        file is dropped, and the active document and transcript stay. */
    method UploadFailed(detail: Option<string>)
      modifies this`error, this`selectedFile, this`fileUrl, this`isUploading
      ensures error == Some(DetailOr(detail, UploadFallback))
      ensures selectedFile == None && fileUrl == None && !isUploading
    {
      error := Some(DetailOr(detail, UploadFallback));
      selectedFile := None;
      fileUrl := None;
      isUploading := false;
    }

    // --------------------------------------------------------- handleQuestionSubmit

    /** The input field changed. */
    method QuestionTyped(text: string)
      modifies this`question
      ensures question == text
    {
      question := text;
    }

    /** The question form was submitted. With an input that trims to nothing or no
        truthy active document nothing happens. Otherwise the raw input is appended as
        a question at once, the input is cleared, typing is shown, and the returned
        request carries the active document and the trimmed input. */
    method QuestionSubmitted() returns (request: Option<AskRequest>)
      modifies this`messages, this`question, this`isTyping
      ensures request.Some? <==> Trim(old(question), IsJsWhitespace) != "" && Truthy(old(documentId))
      ensures request.None? ==> unchanged(this)
      ensures request.Some? ==>
                && request.value == AskRequest(old(documentId).value, Trim(old(question), IsJsWhitespace))
                && messages == old(messages) + [QuestionMessage(old(question))]
                && question == "" && isTyping
    {
      var text := question;
      if Trim(text, IsJsWhitespace) != "" && Truthy(documentId) {
        messages := messages + [QuestionMessage(text)];
        question := "";
        isTyping := true;
        request := Some(AskRequest(documentId.value, Trim(text, IsJsWhitespace)));
      } else {
        request := None;
      }
    }

    /** The answer arrived: it is appended to the current transcript, whatever
        document is shown by now, and the list is reloaded. */
    method AnswerReceived(answer: string)
      modifies this`messages, this`isLoadingDocuments, this`isTyping
      ensures messages == old(messages) + [AnswerMessage(answer)]
      ensures isLoadingDocuments && !isTyping
    {
      messages := messages + [AnswerMessage(answer)];
      LoadDocumentsStarted();
      isTyping := false;
    }

    /** The question failed: the error shows the detail or the fallback and one error
        message is appended to the transcript. */
    method AnswerFailed(detail: Option<string>)
      modifies this`error, this`messages, this`isTyping
      ensures error == Some(DetailOr(detail, AskFallback))
      ensures messages == old(messages) + [ErrorMessage(AskFailureNotice)]
      ensures !isTyping
    {
      error := Some(DetailOr(detail, AskFallback));
      messages := messages + [ErrorMessage(AskFailureNotice)];
      isTyping := false;
    }

    // --------------------------------------------------------- handleDocumentSelect

    /** A document of the list was chosen; the effect requests its history when the
        id changed. */
    method DocumentSelected(docId: int) returns (requested: bool)
      modifies this`documentId, this`isLoadingHistory
      ensures documentId == Some(docId)
      ensures requested == (old(documentId) != Some(docId) && docId != 0)
      ensures isLoadingHistory == (requested || old(isLoadingHistory))
    {
      var previous := documentId;
      documentId := Some(docId);
      requested := DocumentIdEffect(previous);
    }

    // --------------------------------------------------------- handleDeleteDocument

    /** Delete was clicked for `docId`. Unless the user confirms nothing is sent; the
        request remembers the active document as the handler saw it. No state changes. */
    method DeleteRequested(docId: int, confirmed: bool) returns (request: Option<DeleteRequest>)
      ensures request.Some? <==> confirmed
      ensures request.Some? ==> request.value == DeleteRequest(docId, documentId)
    {
      if !confirmed {
        return None;
      }
      request := Some(DeleteRequest(docId, documentId));
    }

    /** The deletion succeeded. When the deleted id is the active document the handler
        saw, the selection and transcript are cleared; the list is reloaded either way.
        (The effect requests nothing: the id becomes null or stays.) */
    method DeleteSucceeded(request: DeleteRequest)
      modifies this`selectedFile, this`fileUrl, this`documentId, this`messages, this`isLoadingDocuments
      ensures Some(request.docId) == request.activeAtClick ==>
                selectedFile == None && fileUrl == None && documentId == None && messages == []
      ensures Some(request.docId) != request.activeAtClick ==>
                && selectedFile == old(selectedFile) && fileUrl == old(fileUrl)
                && documentId == old(documentId) && messages == old(messages)
      ensures isLoadingDocuments
    {
      if Some(request.docId) == request.activeAtClick {
        selectedFile := None;
        fileUrl := None;
        documentId := None;
        messages := [];
      }
      LoadDocumentsStarted();
    }

    /** The deletion failed: only the error changes. */
    method DeleteFailed()
      modifies this`error
      ensures error == Some(DeleteError)
    {
      error := Some(DeleteError);
    }
  }

  // ------------------------------------------------------------------- scenarios

  /** An answer requested while document `a` was shown, settling after the user chose
      document `b` from the list and its history arrived, is appended to `b`'s
      transcript. Every click is one the rendered component offers at that point. */
  method StaleAnswerLandsInOtherTranscript(
    list: seq<Store.DocumentEntry>, a: int, b: int, info: Store.DocumentInfo,
    text: string, history: seq<Store.HistoryItem>, answer: string)
    returns (app: App, request: Option<AskRequest>)
    requires Lists(list, a) && Lists(list, b)
    requires a != 0 && b != 0 && a != b
    requires Trim(text, IsJsWhitespace) != ""
    ensures request == Some(AskRequest(a, Trim(text, IsJsWhitespace)))
    ensures app.documentId == Some(b)
    ensures app.messages == HistoryMessages(history) + [AnswerMessage(answer)]
  {
    app := new App();
    app.LoadDocumentsStarted();
    app.DocumentsLoaded(list);
    assert app.Offers(a);
    var _ := app.DocumentSelected(a);
    app.HistoryLoaded([]);
    app.DetailsLoaded(info);
    app.QuestionTyped(text);
    assert app.question == text && app.documentId == Some(a);
    assert app.CanSubmit();
    request := app.QuestionSubmitted();
    assert app.documents == list && !app.isLoadingDocuments;
    assert app.Offers(b);
    var _ := app.DocumentSelected(b);
    app.HistoryLoaded(history);
    app.AnswerReceived(answer);
  }

  /** A history requested for `a` that settles after `b`'s replaces `b`'s transcript. */
  method StaleHistoryReplacesTranscript(
    list: seq<Store.DocumentEntry>, a: int, b: int,
    historyA: seq<Store.HistoryItem>, historyB: seq<Store.HistoryItem>)
    returns (app: App)
    requires Lists(list, a) && Lists(list, b)
    requires a != 0 && b != 0 && a != b
    ensures app.documentId == Some(b)
    ensures app.messages == HistoryMessages(historyA)
    ensures !app.isLoadingHistory
  {
    app := new App();
    app.LoadDocumentsStarted();
    app.DocumentsLoaded(list);
    assert app.Offers(a);
    var requestedA := app.DocumentSelected(a);
    assert app.Offers(b);
    var requestedB := app.DocumentSelected(b);
    assert requestedA && requestedB;
    app.HistoryLoaded(historyB);
    app.HistoryLoaded(historyA);
  }

  /** Deleting the document shown at the click clears the session even when the user
      has chosen another document from the list before the deletion settles. */
  method StaleDeleteClearsOtherDocument(
    list: seq<Store.DocumentEntry>, a: int, b: int, history: seq<Store.HistoryItem>)
    returns (app: App)
    requires Lists(list, a) && Lists(list, b)
    requires a != 0 && b != 0 && a != b
    ensures app.documentId == None && app.messages == []
  {
    app := new App();
    app.LoadDocumentsStarted();
    app.DocumentsLoaded(list);
    assert app.Offers(a);
    var _ := app.DocumentSelected(a);
    assert app.Offers(a);
    var request := app.DeleteRequested(a, true);
    assert app.Offers(b);
    var _ := app.DocumentSelected(b);
    app.HistoryLoaded(history);
    app.DeleteSucceeded(request.value);
  }

  /** Questions appear in submission order; answers in the order they settle. The
      typing indicator goes off with the first answer (`typingAfterFirst`), while the
      other question is still in flight. */
  method AnswersInCompletionOrder(app: App, q1: string, q2: string, answer1: string, answer2: string)
    returns (typingAfterFirst: bool)
    requires Truthy(app.documentId)
    requires Trim(q1, IsJsWhitespace) != "" && Trim(q2, IsJsWhitespace) != ""
    modifies app
    ensures app.messages == old(app.messages)
              + [QuestionMessage(q1), QuestionMessage(q2), AnswerMessage(answer2), AnswerMessage(answer1)]
    ensures !typingAfterFirst && !app.isTyping
  {
    ghost var before := app.messages;
    app.QuestionTyped(q1);
    var first := app.QuestionSubmitted();
    app.QuestionTyped(q2);
    var second := app.QuestionSubmitted();
    assert app.messages == before + [QuestionMessage(q1)] + [QuestionMessage(q2)];
    app.AnswerReceived(answer2);
    typingAfterFirst := app.isTyping;
    app.AnswerReceived(answer1);
    assert app.messages
        == before + [QuestionMessage(q1)] + [QuestionMessage(q2)] + [AnswerMessage(answer2)] + [AnswerMessage(answer1)];
  }
}
