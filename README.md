# Chat with a PDF: a Dafny model of the session and the document store

This project models the two halves of a small "ask questions about a PDF" web
application and proves properties of both.

- **Back end (`backend/app/main.py`, `backend/app/models.py`).** A FastAPI service
  over two tables, documents and questions, joined by a foreign key. It lists
  documents with a preview of their three most recent questions. It returns one
  document and a document's question history. It accepts PDF uploads, whose page
  texts are concatenated and stored. It answers questions by sending a prompt
  (at most 30000 characters of the document's text) to a language model and
  storing the stripped answer. It deletes a document together with its questions.
- **Front end (`frontend/src/App.jsx`).** A React component whose state hooks hold
  the active document, its transcript, the document list, the error line and the
  busy flags. Its asynchronous handlers change that state when they start and
  again when their request settles.

## Layout

| file | module | contents |
|---|---|---|
| `wrappers.dfy` | `Wrappers` | `Option`, `Result` |
| `text.dfy` | `Text` | ECMAScript and Python whitespace, `Trim` with its characterisation, `endswith`, concatenation |
| `models.dfy` | `Models` | the `Document` and `Question` rows; key, foreign-key and stamp-order invariants; the filters the queries and the cascade delete use, with their lemmas |
| `store.dfy` | `Store` | response shapes and error responses; the read-only endpoints as functions; the prompt; `class Database` with the endpoints that write |
| `session.dfy` | `Session` | `class App` holding the component's state; one method per handler start and per way a request settles; scenarios for the races the component allows |

## How the model is built

- **The database** is a `Database` object. It holds two `seq` tables, the next
  free keys and a logical `clock` that stamps each inserted row. `Valid()` states
  four invariants:
  - keys are unique;
  - every question's document exists;
  - rows carry keys below the next free key, and stamps below `clock`;
  - questions are stored in strictly increasing stamp order.

  Each endpoint that writes is a method that keeps `Valid()` and states the whole
  new state on every branch.
- **Read-only endpoints** (`GET /documents/{id}`, `GET /documents/{id}/questions`)
  are functions of the tables. `GET /documents` is a method with the source's loop.
  It is tied to the pure `Entry` function, and the preview's properties are
  lemmas about `PreviewOf`.
- **Foreign calls are parameters.** The language model is a function
  `string -> GeminiReply`, and the saved-and-parsed PDF is a `PdfOutcome`. An
  exception raised while removing a file is an `Option<string>`.
- **Re-raised errors.** An `HTTPException` caught by an endpoint's catch-all
  `except Exception` and raised again as a 500 is `Internal(e)`, whose detail is
  `Reraised(e)`. So `POST /ask` answers a missing field with 500 wrapping the 400,
  and an unknown document with 500 wrapping the 404. `DELETE` answers an unknown
  id with 500 wrapping the 404. `POST /upload`'s extension check sits outside its
  `try` and stays a 400.
- **Asynchronous handlers.** In the component, each handler is split at its
  `await`:
  - a method for the synchronous part (`UploadStarted`, `QuestionSubmitted`,
    `DeleteRequested`, `LoadDocumentsStarted`, `DocumentIdEffect`);
  - one method per outcome (`…Loaded`, `…Succeeded`, `…Received`, `…Failed`).

  A handler reads the state of the render that created it, so the start
  method returns what the continuation needs. For example, `DeleteRequest`
  records the active document at the click.
- **No staleness check.** The component has no guard that drops a response
  belonging to a document that is no longer shown, and the model has none
  either. Three scenario methods prove the effects of that:
  - a late answer lands in another document's transcript;
  - a late history replaces the current one;
  - a late delete clears a different document.

## Model

| member | source | states |
|---|---|---|
| Text.TrimSpec | frontend/src/App.jsx:146 | `Trim` removes a maximal run of whitespace at each end and nothing else: the result is a contiguous slice of the input, everything outside it is whitespace, and its first and last characters are not |
| Text.TrimEmptyIff | frontend/src/App.jsx:146 | a string trims to the empty string exactly when every character is whitespace, so `question.trim()` is falsy exactly for blank input |
| Text.IsJsWhitespace | frontend/src/App.jsx:146 | the characters `question.trim()` removes here and at line 155: ECMAScript's WhiteSpace (tab, vertical tab, form feed, space, no-break space, the byte order mark and every space separator) and LineTerminator (line feed, carriage return, line and paragraph separator) |
| Text.IsPyWhitespace | backend/app/main.py:152 | the characters `response.text.strip()` removes: those for which Python's `str.isspace` holds, the ASCII whitespace and the file, group, record and unit separators, next line, and the Unicode space separators and line and paragraph separators |
| Text.EndsWith | backend/app/main.py:90 | `filename.endswith('.pdf')`: the name's last characters are the suffix, compared case-sensitively |
| Text.ConcatPlacesPart | backend/app/main.py:101-103 | after the page loop, page `k`'s text sits in the document text right after the earlier pages' texts |
| Models.QuestionsOf | backend/app/models.py:15-26 | the questions of a document are the rows whose foreign key is its id, no others, and never more than the table |
| Models.DocumentIdsUnique | backend/app/models.py:9 | the documents' primary key: no two rows share an id |
| Models.QuestionIdsUnique | backend/app/models.py:20 | the questions' primary key: no two rows share an id |
| Models.ReferencesResolve | backend/app/models.py:21 | the foreign key: every question's `document_id` is the id of a stored document |
| Models.QuestionsOfAppend | backend/app/main.py:155-161 | inserting a question adds it at the end of its own document's questions and leaves every other document's questions unchanged |
| Models.QuestionsOfChronological | backend/app/main.py:174-176 | in a table kept in stamp order, a document's questions are in ascending `created_at` order |
| Models.FreshDocumentHasNoQuestions | backend/app/main.py:106-113 | a document inserted under a key no document had has no questions, as long as the foreign keys resolve |
| Models.QuestionsNotOf | backend/app/main.py:202 | the cascade keeps exactly the questions of other documents |
| Models.DocumentsExcept | backend/app/main.py:205 | deleting a document keeps exactly the rows with other ids |
| Models.QuestionsNotOfKeepsOthers | backend/app/main.py:201-206 | deleting one document leaves every other document's questions, and their order, untouched |
| Models.DocumentsExceptUnique | backend/app/models.py:9 | deleting a document keeps the primary key unique |
| Models.DocumentsExceptCount | backend/app/main.py:193-206 | with unique keys, deleting a present document removes exactly one row |
| Models.DocumentsExceptAbsent | backend/app/main.py:205 | filtering out a key that no row carries leaves the table exactly as it was; `DocumentsExceptCount` uses this for the rows after the deleted one |
| Models.QuestionsNotOfUnique | backend/app/models.py:20 | the cascade keeps question keys unique |
| Models.QuestionsNotOfChronological | backend/app/main.py:202 | the cascade keeps the question table in stamp order |
| Models.AppendQuestionKeepsConsistent | backend/app/main.py:136-161 | a question inserted for a document that exists, under a key above every key in use, keeps keys unique and foreign keys resolving |
| Models.AppendChronological | backend/app/models.py:24 | a question stamped later than every stored question keeps the table in stamp order |
| Models.CascadeKeepsConsistent | backend/app/main.py:201-206 | deleting a document's questions and then the document keeps keys unique and every remaining foreign key resolving |
| Models.DocumentFirstBreaksReferences | backend/app/main.py:201 | deleting a document that still has questions, without the cascade first, leaves a foreign key dangling |
| Store.FilePathKeepsName | backend/app/main.py:95 | `os.path.join(UPLOAD_DIR, filename)`: the path always ends with the file name, and it is the name itself exactly when the name is absolute (starts with `/`) |
| Store.AskFieldsPresent | backend/app/main.py:132 | the guard `not document_id or not question_text` passes exactly when both keys are present, the id is not 0 and the question is not empty |
| Store.Reverse | backend/app/main.py:65 | reversal keeps the length |
| Store.ReverseAt | backend/app/main.py:65 | element `i` of the reversal is element `n-1-i` of the original |
| Store.Take | backend/app/main.py:52 | `.limit(n)` keeps the first `n` rows, or all of fewer; the same holds for the text slice `[:30000]` at line 144 |
| Store.LastOfReversed | backend/app/main.py:50-65 | reversing, limiting and reversing back keeps the last rows, in original order |
| Store.LatestQuestions | backend/app/main.py:50-52 | the preview query: in a table kept in stamp order, the document's questions newest first (`created_at` descending), limited to three |
| Store.PreviewOf | backend/app/main.py:59-66 | `preview_questions`: the latest questions turned back to oldest first, each as its question, answer and stamp; `PreviewIsMostRecent` and `PreviewShowsNewest` state what it holds |
| Store.Entry | backend/app/main.py:54-67 | one listing entry: the document's id, name, `/uploads/` URL, stamp and preview |
| Store.FileUrl | backend/app/main.py:57 | the served URL of an upload, `/uploads/` followed by the file name, used alike at lines 81 and 118 |
| Store.PreviewIsMostRecent | backend/app/main.py:48-66 | a document's preview has `min(3, n)` entries, and they are its `n` questions' last `min(3, n)`, oldest first |
| Store.PreviewShowsNewest | backend/app/main.py:50-52 | in a table kept in stamp order, the preview is in ascending stamp order and every question it leaves out is older than every question it shows |
| Store.StampsOfSuffix | backend/app/main.py:50-65 | the stamps of a preview of the last rows of a stamp-ordered list ascend and exceed those of the omitted rows |
| Store.FindDocument | backend/app/main.py:74 | the lookup by key finds a row exactly when a row with that key exists, and the row it finds has that key |
| Store.GetDocument | backend/app/main.py:71-83 | the endpoint succeeds exactly when the document exists and then returns its id, name, `/uploads/` URL and stamp; otherwise it fails with 404 "Document not found" |
| Store.GetDocumentQuestions | backend/app/main.py:168-186 | the history holds a row for every question of the document and only such rows, ascending by stamp when the table is in stamp order; an unknown id gives an empty list, not an error |
| Store.HistoryItemsFaithful | backend/app/main.py:174-186 | the history rows built from a document's questions are exactly that document's questions, ascending by stamp when the table is |
| Store.Prompt | backend/app/main.py:141-148 | the prompt f-string: the fixed instructions and `Text: ` label, the document text cut to its first 30000 characters, then the question and the answer cue between the fixed labels, with the source's line breaks and eight-space indentation |
| Store.PromptDeterminedByTextPrefix | backend/app/main.py:144 | two texts give the same prompt for a question exactly when their first 30000 characters agree: each of those characters reaches the language model and none after them does |
| Store.PromptLength | backend/app/main.py:144 | the document text adds at most 30000 characters to the prompt |
| Store.PromptIgnoresTextPastLimit | backend/app/main.py:144 | text beyond the first 30000 characters never changes the prompt |
| Store.InsertKeepsReferences | backend/app/main.py:106-112 | inserting a document keeps every question's foreign key resolving |
| Store.Database.constructor | backend/app/models.py:6-26 | the store starts with empty tables, keys from 1, and satisfies the invariant |
| Store.Database.Valid | backend/app/models.py:9-21 | the store's invariant: both primary keys unique, every question's document exists, every key below its table's next free key, every stamp below `clock`, and questions stored in strictly increasing stamp order |
| Store.Database.GetDocuments | backend/app/main.py:42-69 | the listing has one entry per document, in table order (an order SQL does not promise; see Left out), each with its id, name, `/uploads/` URL, stamp and preview |
| Store.Database.UploadPdf | backend/app/main.py:85-121 | a name not ending in ".pdf" gives 400 "File must be a PDF" and changes nothing; an unreadable file gives 500 with the exception's text and changes nothing; otherwise exactly one document is inserted, holding the pages' texts concatenated in order under the next key and stamp, and the receipt carries that key and the file's URL; the invariant is kept |
| Store.JoinPageTexts | backend/app/main.py:101-103 | the extraction loop: the text it builds is the pages' texts concatenated in page order |
| Store.Database.AskQuestion | backend/app/main.py:123-166 | a missing or falsy id or question gives 500 wrapping the 400, an unknown document gives 500 wrapping the 404, and a failed generation gives 500 with its text, all changing nothing; otherwise the model is given the prompt for that document's text, and exactly one question is inserted under the next key and stamp, holding the question as sent and the answer stripped of Python whitespace, which is returned; the invariant is kept |
| Store.Database.DeleteDocument | backend/app/main.py:188-211 | an unknown id gives 500 wrapping the 404 and a failed file removal gives 500 with its text, and both change nothing; otherwise the document's questions and then the document are removed, exactly one document row disappears, and the invariant is kept |
| Session.Truthy | frontend/src/App.jsx:31 | a document id is truthy exactly when it is present and not 0, as the effect's `if (documentId)` and the submit guard at line 146 test it |
| Session.DetailOr | frontend/src/App.jsx:97 | the logical-or fallback on the error detail: the error line is the server's detail when that is present and non-empty, and otherwise the fallback, so it is never blank; lines 135 and 162 use the same rule |
| Session.HistoryMessages | frontend/src/App.jsx:63-66 | the rebuilt transcript has two messages per history item: item `i`'s question at `2i` and its answer at `2i+1` |
| Session.HistoryRoundTrip | frontend/src/App.jsx:63-67 | reading question/answer pairs back out of the rebuilt transcript gives every history item's question and answer, in order |
| Session.StoredHistoryTranscript | frontend/src/App.jsx:59-67 | after a history reload, the transcript shows, pair by pair and in stored order, the question and answer of every question the store holds for that document |
| Session.App.constructor | frontend/src/App.jsx:11-22 | the initial state: no file, URL or document; empty input, transcript and list; no error; every busy flag off (the state before the mount effect's `LoadDocumentsStarted`) |
| Session.App.Offers | frontend/src/App.jsx:314-337 | the sidebar offers a document for selection and deletion only while the list is not replaced by its loading spinner and holds an entry with that id; the scenarios check it before every such click |
| Session.App.CanSubmit | frontend/src/App.jsx:373-439 | the question form is rendered only while a file is shown, and its button is enabled only with a truthy id, no upload and no history load; the stale-answer scenario checks it before submitting |
| Session.App.DocumentIdEffect | frontend/src/App.jsx:30-35 | the effect requests the history and the details exactly when the id changed and the new id is truthy; the history load then marks itself as loading |
| Session.App.LoadDocumentsStarted | frontend/src/App.jsx:37-40 | starting the list load sets the loading flag; the mount effect at lines 25-27 is one such call right after the constructor |
| Session.App.DocumentsLoaded | frontend/src/App.jsx:41-45 | a loaded list replaces the old one and clears the loading flag |
| Session.App.DocumentsLoadFailed | frontend/src/App.jsx:42-46 | a failed list load sets "Failed to load documents" and clears the loading flag, keeping the old list |
| Session.App.DetailsLoaded | frontend/src/App.jsx:51-53 | the viewer shows a PDF file reference with the stored name, at the API base URL followed by the file URL |
| Session.App.DetailsLoadFailed | frontend/src/App.jsx:54-56 | a failed details load sets "Failed to load document details" |
| Session.App.HistoryLoaded | frontend/src/App.jsx:61-71 | a loaded history replaces the transcript, whatever document is shown by then, and clears the loading flag |
| Session.App.HistoryLoadFailed | frontend/src/App.jsx:68-71 | a failed history load sets "Failed to load question history", clears the loading flag and keeps the transcript |
| Session.App.UploadStarted | frontend/src/App.jsx:75-80 | a file is accepted exactly when one is present with the PDF media type, and the returned request carries that file; a refused file changes nothing; an accepted one sets the uploading flag and clears the error; the drop handler at lines 111-118 behaves the same |
| Session.App.UploadSucceeded | frontend/src/App.jsx:91-101 | the file the upload request carries becomes the active document with its local URL and an empty transcript, the list reload starts, uploading ends, and the effect requests the history exactly when the id changed and is truthy |
| Session.App.UploadFailed | frontend/src/App.jsx:96-101 | the error shows the server's non-empty detail or "Error uploading PDF", and the file and URL are cleared while the active document and transcript stay |
| Session.App.QuestionTyped | frontend/src/App.jsx:433 | the input holds what was typed |
| Session.App.QuestionSubmitted | frontend/src/App.jsx:144-156 | a request is sent exactly when the input trims to something and the active id is truthy; otherwise nothing changes; when sent, the raw input is appended as a question, the input is cleared, typing starts, and the request carries the active id and the trimmed input |
| Session.App.AnswerReceived | frontend/src/App.jsx:158-160 | the answer is appended to the current transcript, the list reload starts and typing stops |
| Session.App.AnswerFailed | frontend/src/App.jsx:161-166 | the error shows the non-empty detail or "Error getting answer", one "Failed to get answer. Please try again." error message is appended, and typing stops |
| Session.App.DocumentSelected | frontend/src/App.jsx:171-173 | the chosen id becomes active, and the effect requests its history exactly when the id changed and is truthy |
| Session.App.DeleteRequested | frontend/src/App.jsx:175-179 | a deletion is sent exactly when the user confirms, and it remembers the active document at the click; no state changes |
| Session.App.DeleteSucceeded | frontend/src/App.jsx:181-193 | the file, URL, active id and transcript are cleared exactly when the deleted id equals the active document seen at the click, and stay otherwise; the list reload starts either way |
| Session.App.DeleteFailed | frontend/src/App.jsx:194-196 | a failed deletion sets "Failed to delete document" and nothing else |
| Session.StaleAnswerLandsInOtherTranscript | frontend/src/App.jsx:153-159 | after the list has loaded with documents `a` and `b`, an answer asked for `a` (chosen from the list, its details shown, the form enabled) that settles after the user has chosen `b` and `b`'s history has loaded is appended to `b`'s transcript |
| Session.StaleHistoryReplacesTranscript | frontend/src/App.jsx:59-67 | after the list has loaded with `a` and `b` and both are chosen from it, when `a`'s history settles after `b`'s the transcript shown for `b` is `a`'s history |
| Session.StaleDeleteClearsOtherDocument | frontend/src/App.jsx:175-190 | after the list has loaded with `a` and `b`, deleting `a` while it is shown clears the session even after the user has chosen `b` from the list before the deletion settles |
| Session.AnswersInCompletionOrder | frontend/src/App.jsx:144-167 | two questions in flight show in submission order, their answers in the order they settle, and the typing indicator is already off after the first answer (`typingAfterFirst`) while the other question is still in flight |

## Left out

- Rendering is not modelled: the JSX tree, `formatDate`, the sidebar toggle (`showSidebar`), `handlePDFClick` (`window.open`) and `handleDragOver`. The JSX also decides which handlers can fire: the question form exists only while `selectedFile` is set (App.jsx:373-406), the document list with its select and delete buttons is hidden while it loads (App.jsx:314) and holds only loaded entries (App.jsx:320-337), and the drop zone exists only while `!selectedFile && !isUploading` (App.jsx:373-385). The handler methods do not require these gates; they are the predicates `Offers` and `CanSubmit`, which the race scenarios check before each click.
- Session.App.QuestionSubmitted: the model allows submissions that the form blocks. `App.jsx:439` disables the form's only submit button while there is no truthy `documentId`, an upload is running or a history is loading, so neither a click nor the Enter key reaches `handleQuestionSubmit` in those states. The method models only the handler's own guard at line 146, so it also accepts a submission during an upload or a history load. `Session.AnswersInCompletionOrder` inherits this: its precondition does not exclude those states.
- HTTP itself is not modelled: axios, `FormData`, the multipart encoding, CORS and the static file mount. Each request's outcome is a parameter of the method that handles it.
- `URL.createObjectURL` and `window.confirm` are not modelled. They become the `objectUrl` and `confirmed` parameters.
- Scheduling is not modelled. The model does not say in which order requests settle. Each scenario fixes one order and proves what that order produces.
- Session.App.HistoryLoaded: a history response is applied whatever document is active by then, because `App.jsx` has no generation token or other staleness check; a late response is applied when it arrives.
- Store.Database.UploadPdf: writing the upload to disk, the file left behind when parsing fails, and one upload overwriting another's file under the same name are not modelled. `pypdf` is not modelled either. Together they are one `PdfOutcome` parameter.
- Store.Database.AskQuestion: the language-model call is the `generate` parameter. Its `.text` failing becomes the `GenerationFailed` case. The SDK, the network and the model's answer are not modelled.
- Store.Database.DeleteDocument: `os.path.exists` and `os.remove` are the `removal` parameter. A missing file and a removal that succeeded are both `None`. A removal that raised is `Some`, whose text becomes the 500 detail.
- Store.Database.GetDocuments: `db.query(models.Document).all()` at main.py:45 has no `order_by`, so SQL promises no order for the listing. The model returns the entries in table (insertion) order.
- Store.GetDocumentQuestions: SQL leaves the order of questions that share a `created_at` value unspecified. The model stamps rows from a strictly increasing logical clock, so ties do not occur and the same holds for the preview's descending order.
- The SQLAlchemy session, transactions, connection handling and SQLite's choice of primary key are not modelled. `backend/app/database.py` is not part of this model. Keys come from counters that start at 1 and never reuse a key.
- Wall-clock time: `server_default=func.now()` is the `clock` counter, so only the order of stamps is modelled, not their values.
- JSON typing is not modelled. `document_id` is an optional integer whose truthiness is "present and not 0". Request values of other JSON types (strings, floats, booleans) are not modelled.
- `str(e)` for a re-raised `HTTPException` is kept as the structured `Reraised` detail rather than rendered as text.
- Characters are Unicode code points. Python slices and `str.strip` count code points, as the model does. JavaScript's `trim` works on UTF-16 units; the whitespace it removes all lies in the Basic Multilingual Plane, so this does not change the result.
