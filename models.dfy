/** The two tables of the back end (backend/app/models.py): documents and the
    questions asked about them, and the key relationships between their rows. */
module Models {

  /** A row of `documents`. `createdAt` is the store's insertion stamp. */
  datatype Document = Document(
    id: int,
    filename: string,
    filePath: string,
    textContent: string,
    createdAt: nat)

  /** A row of `questions`; `documentId` is a foreign key into `documents`. */
  datatype Question = Question(
    id: int,
    documentId: int,
    questionText: string,
    answerText: string,
    createdAt: nat)

  /** `documents.id` is a primary key. */
  predicate DocumentIdsUnique(docs: seq<Document>) {
    forall i, j :: 0 <= i < j < |docs| ==> docs[i].id != docs[j].id
  }

  /** `questions.id` is a primary key. */
  predicate QuestionIdsUnique(qs: seq<Question>) {
    forall i, j :: 0 <= i < j < |qs| ==> qs[i].id != qs[j].id
  }

  /** Some row of `docs` has key `id`. */
  predicate HasDocument(docs: seq<Document>, id: int) {
    exists i :: 0 <= i < |docs| && docs[i].id == id
  }

  /** The foreign key `questions.document_id -> documents.id` holds for every question. */
  predicate ReferencesResolve(docs: seq<Document>, qs: seq<Question>) {
    forall i :: 0 <= i < |qs| ==> HasDocument(docs, qs[i].documentId)
  }

  /** Both primary keys and the foreign key hold. */
  predicate Consistent(docs: seq<Document>, qs: seq<Question>) {
    DocumentIdsUnique(docs) && QuestionIdsUnique(qs) && ReferencesResolve(docs, qs)
  }

  /** Rows appear in strictly increasing order of insertion stamp. */
  predicate Chronological(qs: seq<Question>) {
    forall i, j :: 0 <= i < j < |qs| ==> qs[i].createdAt < qs[j].createdAt
  }

  /** The `Document.questions` relationship: the rows of `qs` whose
      `documentId` is `documentId`, in table order. */
  function QuestionsOf(qs: seq<Question>, documentId: int): (r: seq<Question>)
    ensures |r| <= |qs|
    ensures forall q :: q in r <==> q in qs && q.documentId == documentId
  {
    if qs == [] then []
    else (if qs[0].documentId == documentId then [qs[0]] else []) + QuestionsOf(qs[1..], documentId)
  }

  /** Inserting a row at the end of the table extends exactly its own document's questions. */
  lemma {:induction false} QuestionsOfAppend(qs: seq<Question>, q: Question, documentId: int)
    ensures QuestionsOf(qs + [q], documentId)
         == QuestionsOf(qs, documentId) + (if q.documentId == documentId then [q] else [])
  {
    if qs == [] {
      assert [q][1..] == [];
    } else {
      var s := qs + [q];
      assert s[0] == qs[0];
      assert s[1..] == qs[1..] + [q];
      QuestionsOfAppend(qs[1..], q, documentId);
      var head := if qs[0].documentId == documentId then [qs[0]] else [];
      assert QuestionsOf(s, documentId) == head + QuestionsOf(qs[1..] + [q], documentId);
      assert QuestionsOf(qs, documentId) == head + QuestionsOf(qs[1..], documentId);
    }
  }

  /** Selecting a document's questions keeps the table's chronological order. */
  lemma {:induction false} QuestionsOfChronological(qs: seq<Question>, documentId: int)
    requires Chronological(qs)
    ensures Chronological(QuestionsOf(qs, documentId))
  {
    if qs != [] {
      QuestionsOfChronological(qs[1..], documentId);
      var rest := QuestionsOf(qs[1..], documentId);
      forall q | q in rest ensures qs[0].createdAt < q.createdAt {
        var k :| 1 <= k < |qs| && qs[k] == q;
      }
    }
  }

  /** While every foreign key resolves, a key above every document key has no questions:
      a freshly inserted document starts with an empty history. */
  lemma FreshDocumentHasNoQuestions(docs: seq<Document>, qs: seq<Question>, id: int)
    requires ReferencesResolve(docs, qs)
    requires forall i :: 0 <= i < |docs| ==> docs[i].id < id
    ensures QuestionsOf(qs, id) == []
  {
  }

  /** The rows of `qs` whose `documentId` is not `documentId`: what deleting
      that document's questions leaves. */
  function QuestionsNotOf(qs: seq<Question>, documentId: int): (r: seq<Question>)
    ensures |r| <= |qs|
    ensures forall q :: q in r <==> q in qs && q.documentId != documentId
  {
    if qs == [] then []
    else (if qs[0].documentId != documentId then [qs[0]] else []) + QuestionsNotOf(qs[1..], documentId)
  }

  /** The rows of `docs` whose key is not `id`. */
  function DocumentsExcept(docs: seq<Document>, id: int): (r: seq<Document>)
    ensures |r| <= |docs|
    ensures forall d :: d in r <==> d in docs && d.id != id
  {
    if docs == [] then []
    else (if docs[0].id != id then [docs[0]] else []) + DocumentsExcept(docs[1..], id)
  }

  /** Deleting one document's questions leaves every other document's questions
      exactly as they were, in the same order. */
  lemma {:induction false} QuestionsNotOfKeepsOthers(qs: seq<Question>, deleted: int, other: int)
    requires other != deleted
    ensures QuestionsOf(QuestionsNotOf(qs, deleted), other) == QuestionsOf(qs, other)
  {
    if qs != [] {
      QuestionsNotOfKeepsOthers(qs[1..], deleted, other);
      var head := if qs[0].documentId != deleted then [qs[0]] else [];
      var tail := QuestionsNotOf(qs[1..], deleted);
      assert QuestionsNotOf(qs, deleted) == head + tail;
      if head == [] {
        assert QuestionsNotOf(qs, deleted) == tail;
      } else {
        assert (head + tail)[0] == qs[0];
        assert (head + tail)[1..] == tail;
      }
    }
  }

  /** A subsequence of a table with unique keys has unique keys. */
  lemma {:induction false} DocumentsExceptUnique(docs: seq<Document>, id: int)
    requires DocumentIdsUnique(docs)
    ensures DocumentIdsUnique(DocumentsExcept(docs, id))
  {
    if docs != [] {
      DocumentsExceptUnique(docs[1..], id);
      var rest := DocumentsExcept(docs[1..], id);
      forall d | d in rest ensures d.id != docs[0].id {
        var k :| 1 <= k < |docs| && docs[k] == d;
      }
    }
  }

  /** Appending a question under a fresh key, for a document that exists, keeps
      both primary keys and the foreign key. */
  lemma AppendQuestionKeepsConsistent(docs: seq<Document>, qs: seq<Question>, q: Question)
    requires Consistent(docs, qs)
    requires HasDocument(docs, q.documentId)
    requires forall i :: 0 <= i < |qs| ==> qs[i].id < q.id
    ensures Consistent(docs, qs + [q])
  {
    forall i | 0 <= i < |qs + [q]| ensures HasDocument(docs, (qs + [q])[i].documentId) {
      if i < |qs| { assert (qs + [q])[i] == qs[i]; }
    }
  }

  /** Appending a row stamped later than every row keeps the table in stamp order. */
  lemma AppendChronological(qs: seq<Question>, q: Question)
    requires Chronological(qs)
    requires forall i :: 0 <= i < |qs| ==> qs[i].createdAt < q.createdAt
    ensures Chronological(qs + [q])
  {
    forall i, j | 0 <= i < j < |qs + [q]| ensures (qs + [q])[i].createdAt < (qs + [q])[j].createdAt {
      assert (qs + [q])[i] == qs[i];
    }
  }

  /** A subsequence of a table with unique keys has unique keys. */
  lemma {:induction false} QuestionsNotOfUnique(qs: seq<Question>, id: int)
    requires QuestionIdsUnique(qs)
    ensures QuestionIdsUnique(QuestionsNotOf(qs, id))
  {
    if qs != [] {
      QuestionsNotOfUnique(qs[1..], id);
      var rest := QuestionsNotOf(qs[1..], id);
      forall q | q in rest ensures q.id != qs[0].id {
        var k :| 1 <= k < |qs| && qs[k] == q;
      }
    }
  }

  /** With unique keys, deleting an existing key removes exactly one row. */
  lemma {:induction false} DocumentsExceptCount(docs: seq<Document>, id: int)
    requires DocumentIdsUnique(docs) && HasDocument(docs, id)
    ensures |DocumentsExcept(docs, id)| == |docs| - 1
  {
    var i :| 0 <= i < |docs| && docs[i].id == id;
    if docs[0].id == id {
      assert !HasDocument(docs[1..], id);
      DocumentsExceptAbsent(docs[1..], id);
    } else {
      assert docs[1..][i - 1] == docs[i];
      DocumentsExceptCount(docs[1..], id);
    }
  }

  /** Deleting a key no row has removes nothing. */
  lemma {:induction false} DocumentsExceptAbsent(docs: seq<Document>, id: int)
    requires !HasDocument(docs, id)
    ensures DocumentsExcept(docs, id) == docs
  {
    if docs != [] {
      assert !HasDocument(docs[1..], id);
      DocumentsExceptAbsent(docs[1..], id);
      assert docs == [docs[0]] + docs[1..];
    }
  }

  /** Keeping a subsequence keeps the chronological order. */
  lemma {:induction false} QuestionsNotOfChronological(qs: seq<Question>, id: int)
    requires Chronological(qs)
    ensures Chronological(QuestionsNotOf(qs, id))
  {
    if qs != [] {
      QuestionsNotOfChronological(qs[1..], id);
      var rest := QuestionsNotOf(qs[1..], id);
      forall q | q in rest ensures qs[0].createdAt < q.createdAt {
        var k :| 1 <= k < |qs| && qs[k] == q;
      }
    }
  }

  /** The cascade of a delete, questions first and then the document, keeps
      both primary keys and the foreign key. */
  lemma CascadeKeepsConsistent(docs: seq<Document>, qs: seq<Question>, id: int)
    requires Consistent(docs, qs)
    ensures Consistent(DocumentsExcept(docs, id), QuestionsNotOf(qs, id))
  {
    DocumentsExceptUnique(docs, id);
    QuestionsNotOfUnique(qs, id);
    var docs', qs' := DocumentsExcept(docs, id), QuestionsNotOf(qs, id);
    forall i | 0 <= i < |qs'| ensures HasDocument(docs', qs'[i].documentId) {
      assert qs'[i] in qs;
      var k :| 0 <= k < |qs| && qs[k] == qs'[i];
      var j :| 0 <= j < |docs| && docs[j].id == qs[k].documentId;
      assert docs[j] in docs';
      var j' :| 0 <= j' < |docs'| && docs'[j'] == docs[j];
    }
  }

  /** Deleting a document that still has questions, without deleting them first,
      leaves questions whose foreign key points nowhere. */
  lemma DocumentFirstBreaksReferences(docs: seq<Document>, qs: seq<Question>, id: int)
    requires exists i :: 0 <= i < |qs| && qs[i].documentId == id
    ensures !ReferencesResolve(DocumentsExcept(docs, id), qs)
  {
    var i :| 0 <= i < |qs| && qs[i].documentId == id;
    assert !HasDocument(DocumentsExcept(docs, id), id);
  }
}
