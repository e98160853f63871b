/** The collaboration server: documents, sessions, the operation log and its replay. */
module CollaborationServer {
  import opened Sequences
  import opened TextOperations

  datatype Session = Session(userId: string, documentId: string, lastActivityAt: int)

  datatype DocumentState<T> = DocumentState(
    initialContent: seq<T>,
    content: seq<T>,
    version: nat,
    operations: seq<Operation<T>>,
    lastModifiedAt: int)

  datatype ReplayFrame<T> = ReplayFrame(
    version: nat, content: seq<T>, operation: Option<Operation<T>>, timestamp: int)

  datatype Error = SessionNotFound | Forbidden

  // ----- what the methods compute -----

  function NewDocument<T>(initialContent: seq<T>, now: int): DocumentState<T> {
    DocumentState(initialContent, initialContent, 0, [], now)
  }

  /** The text as it was at an earlier version. */
  function ContentAt<T>(doc: DocumentState<T>, version: nat): seq<T>
    requires version <= |doc.operations|
  {
    ApplyAll(doc.operations[..version], doc.initialContent)
  }

  /** The operations a client at `baseVersion` has not seen. */
  function Later<T>(doc: DocumentState<T>, baseVersion: int): seq<Operation<T>> {
    if baseVersion < doc.version then From(doc.operations, baseVersion) else []
  }

  function Transformed<T>(doc: DocumentState<T>, op: Operation<T>): Operation<T> {
    op.(position := Rebase(Later(doc, op.baseVersion), op.position), baseVersion := doc.version)
  }

  function Accept<T>(doc: DocumentState<T>, op: Operation<T>, now: int): DocumentState<T> {
    doc.(content := ApplyTextOperation(doc.content, Transformed(doc, op)),
         operations := doc.operations + [Transformed(doc, op)],
         version := doc.version + 1,
         lastModifiedAt := now)
  }

  // ----- what holds of every reachable document -----

  /** Version, log and text agree. */
  ghost predicate Consistent<T>(doc: DocumentState<T>) {
    && doc.version == |doc.operations|
    && doc.content == ApplyAll(doc.operations, doc.initialContent)
    && forall i :: 0 <= i < |doc.operations| ==> doc.operations[i].baseVersion == i
  }

  /** Every logged operation was applied at an index of the text it was applied to. */
  ghost predicate AppliedInRange<T>(doc: DocumentState<T>) {
    forall i :: 0 <= i < |doc.operations| ==>
      && doc.operations[i].WellFormed()
      && doc.operations[i].position <= |ContentAt(doc, i)|
  }

  /** An edit its author made at a version that exists, inside the text of that version. */
  ghost predicate ValidEdit<T>(doc: DocumentState<T>, op: Operation<T>) {
    && op.WellFormed()
    && 0 <= op.baseVersion <= |doc.operations|
    && op.position <= |ContentAt(doc, op.baseVersion)|
  }

  lemma AcceptKeepsConsistent<T>(doc: DocumentState<T>, op: Operation<T>, now: int)
    requires Consistent(doc)
    ensures Consistent(Accept(doc, op, now))
    ensures ApplyAll(Accept(doc, op, now).operations, doc.initialContent)
         == ApplyTextOperation(doc.content, Transformed(doc, op))
  {
    var log := Accept(doc, op, now).operations;
    assert log[..|log| - 1] == doc.operations;
  }

  /** The unseen operations lead from the author's text to the current one. */
  lemma LaterLeadsToContent<T>(doc: DocumentState<T>, baseVersion: nat)
    requires Consistent(doc) && baseVersion <= doc.version
    ensures ApplyAll(Later(doc, baseVersion), ContentAt(doc, baseVersion)) == doc.content
    ensures Later(doc, baseVersion) == doc.operations[baseVersion..]
  {
    var seen := doc.operations[..baseVersion];
    assert doc.operations == seen + doc.operations[baseVersion..];
    ApplyAllConcat(seen, doc.operations[baseVersion..], doc.initialContent);
  }

  /** Accepting an operation keeps the earlier texts. */
  lemma ContentAtKept<T>(doc: DocumentState<T>, op: Operation<T>, now: int, i: nat)
    requires Consistent(doc) && i <= |doc.operations|
    ensures ContentAt(Accept(doc, op, now), i) == ContentAt(doc, i)
    ensures i == |doc.operations| ==> ContentAt(doc, i) == doc.content
  {
    assert Accept(doc, op, now).operations[..i] == doc.operations[..i];
    assert doc.operations[..|doc.operations|] == doc.operations;
  }

  lemma RebasedEditStaysInRange<T>(doc: DocumentState<T>, op: Operation<T>, now: int)
    requires Consistent(doc) && AppliedInRange(doc) && ValidEdit(doc, op)
    ensures 0 <= Transformed(doc, op).position <= |doc.content|
    ensures AppliedInRange(Accept(doc, op, now))
  {
    hide ContentAt, Later, Rebase, ApplyAll, ApplyTextOperation;
    LaterLeadsToContent(doc, op.baseVersion);
    LaterIsWellFormed(doc, op.baseVersion);
    RebaseStaysInRange(ContentAt(doc, op.baseVersion), Later(doc, op.baseVersion), op.position);
    var after := Accept(doc, op, now);
    forall i | 0 <= i < |after.operations|
      ensures after.operations[i].WellFormed() && after.operations[i].position <= |ContentAt(after, i)|
    {
      ContentAtKept(doc, op, now, i);
    }
  }

  /** The operation as logged: moved and stamped, nothing else of it and of the document changed. */
  lemma AcceptChangesOnly<T>(doc: DocumentState<T>, op: Operation<T>, now: int)
    ensures
      var moved := Transformed(doc, op);
      && moved.id == op.id && moved.userId == op.userId && moved.timestamp == op.timestamp
      && moved.kind == op.kind && moved.length == op.length && moved.content == op.content
      && moved.baseVersion == doc.version
      && Accept(doc, op, now).operations == doc.operations + [moved]
      && Accept(doc, op, now).initialContent == doc.initialContent && Accept(doc, op, now).lastModifiedAt == now
  {
  }

  /** `cursors` follows a cursor from the text of a version through every later operation. */
  ghost predicate FollowsLog<T>(doc: DocumentState<T>, version: nat, cursors: seq<int>) {
    && version + |cursors| == |doc.operations| + 1
    && forall k :: 0 <= k < |cursors| - 1 ==>
         CursorMoved(doc.operations[version + k], ContentAt(doc, version + k), cursors[k], cursors[k + 1])
  }

  /** A stale edit is applied where its author's cursor has got to, operation by operation. */
  lemma TransformedFollowsLog<T>(doc: DocumentState<T>, op: Operation<T>) returns (cursors: seq<int>)
    requires Consistent(doc) && AppliedInRange(doc) && ValidEdit(doc, op)
    ensures FollowsLog(doc, op.baseVersion, cursors)
    ensures cursors != [] && cursors[0] == op.position && cursors[|cursors| - 1] == Transformed(doc, op).position
  {
    hide ContentAt, Rebase, ApplyAll, ApplyTextOperation, CursorMoved, AppliedInRange;
    LaterLeadsToContent(doc, op.baseVersion);
    LaterIsWellFormed(doc, op.baseVersion);
    cursors := CursorsOver(ContentAt(doc, op.baseVersion), Later(doc, op.baseVersion), op.position);
    forall k | 0 <= k < |cursors| - 1
      ensures CursorMoved(doc.operations[op.baseVersion + k], ContentAt(doc, op.baseVersion + k), cursors[k], cursors[k + 1])
    {
      TextOnTheWay(doc, op.baseVersion, k);
    }
  }

  lemma TextOnTheWay<T>(doc: DocumentState<T>, version: nat, k: nat)
    requires Consistent(doc) && version + k <= |doc.operations|
    ensures k <= |Later(doc, version)|
    ensures ApplyAll(Later(doc, version)[..k], ContentAt(doc, version)) == ContentAt(doc, version + k)
  {
    hide ApplyAll;
    LaterLeadsToContent(doc, version);
    var seen := doc.operations[..version];
    assert doc.operations[..version + k] == seen + doc.operations[version..][..k];
    ApplyAllConcat(seen, doc.operations[version..][..k], doc.initialContent);
  }

  /** Where the cursor is after each of the operations. */
  lemma {:induction false} CursorsOver<T>(base: seq<T>, later: seq<Operation<T>>, position: int) returns (cursors: seq<int>)
    requires AllWellFormed(later) && 0 <= position <= |base|
    ensures |cursors| == |later| + 1 && cursors[0] == position && cursors[|later|] == Rebase(later, position)
    ensures forall k :: 0 <= k < |later| ==> CursorMoved(later[k], ApplyAll(later[..k], base), cursors[k], cursors[k + 1])
  {
    cursors := [position];
    if later != [] {
      var n := |later| - 1;
      var front := later[..n];
      var before := CursorsOver(base, front, position);
      cursors := before + [Rebase(later, position)];
      RebaseStaysInRange(base, front, position);
      RebaseOverMovesCursor(later[n], ApplyAll(front, base), Rebase(front, position));
      forall k | 0 <= k < |later|
        ensures CursorMoved(later[k], ApplyAll(later[..k], base), cursors[k], cursors[k + 1])
      {
        if k < n {
          assert front[..k] == later[..k] && front[k] == later[k];
        }
      }
    }
  }

  // ----- runs of edits on one document -----

  datatype Edit<T> = Edit(operation: Operation<T>, at: int)

  function RunEdits<T>(doc: DocumentState<T>, edits: seq<Edit<T>>): DocumentState<T>
    decreases |edits|
  {
    if edits == [] then doc
    else RunEdits(Accept(doc, edits[0].operation, edits[0].at), edits[1..])
  }

  /** Each edit is valid for the document it meets. */
  ghost predicate ValidRun<T>(doc: DocumentState<T>, edits: seq<Edit<T>>)
    decreases |edits|
  {
    edits == [] ||
    (ValidEdit(doc, edits[0].operation) &&
     ValidRun(Accept(doc, edits[0].operation, edits[0].at), edits[1..]))
  }

  lemma {:induction false} RunKeepsConsistent<T>(doc: DocumentState<T>, edits: seq<Edit<T>>)
    requires Consistent(doc)
    ensures Consistent(RunEdits(doc, edits))
    ensures RunEdits(doc, edits).version == doc.version + |edits|
    ensures RunEdits(doc, edits).initialContent == doc.initialContent
    decreases |edits|
  {
    if edits != [] {
      AcceptKeepsConsistent(doc, edits[0].operation, edits[0].at);
      RunKeepsConsistent(Accept(doc, edits[0].operation, edits[0].at), edits[1..]);
    }
  }

  /** Over any run of valid edits, every logged operation was applied at a valid index. */
  lemma {:induction false} RunAppliesInRange<T>(doc: DocumentState<T>, edits: seq<Edit<T>>)
    requires Consistent(doc) && AppliedInRange(doc) && ValidRun(doc, edits)
    ensures AppliedInRange(RunEdits(doc, edits))
    decreases |edits|
  {
    if edits != [] {
      AcceptKeepsConsistent(doc, edits[0].operation, edits[0].at);
      RebasedEditStaysInRange(doc, edits[0].operation, edits[0].at);
      RunAppliesInRange(Accept(doc, edits[0].operation, edits[0].at), edits[1..]);
    }
  }

  /** Every document reached from a new one: the log is complete, and valid edits were applied in range. */
  lemma ReachableDocument<T>(initialContent: seq<T>, now: int, edits: seq<Edit<T>>)
    ensures
      var doc := RunEdits(NewDocument(initialContent, now), edits);
      && Consistent(doc) && doc.version == |edits| && doc.initialContent == initialContent
      && (ValidRun(NewDocument(initialContent, now), edits) ==> AppliedInRange(doc))
  {
    var doc := NewDocument(initialContent, now);
    RunKeepsConsistent(doc, edits);
    if ValidRun(doc, edits) {
      RunAppliesInRange(doc, edits);
    }
  }

  lemma LaterIsWellFormed<T>(doc: DocumentState<T>, baseVersion: nat)
    requires Consistent(doc) && AppliedInRange(doc) && baseVersion <= doc.version
    ensures AllWellFormed(Later(doc, baseVersion))
  {
  }

  lemma FreshSplit<T>(later: seq<Operation<T>>, op: Operation<T>, base: seq<T>)
    requires AddsFreshAtoms(later + [op], base)
    ensures AddsFreshAtoms(later, base)
    ensures forall a :: a in base ==> a !in op.Added()
  {
    var all := later + [op];
    forall k | 0 <= k < |later| ensures forall a :: a in base ==> a !in later[k].Added() {
      assert later[k] == all[k];
    }
    assert all[|later|] == op;
  }

  lemma InsertedInOnePiece<T>(op: Operation<T>, content: seq<T>)
    requires op.kind.Insert? && 0 <= op.position <= |content|
    ensures op.position + |op.Inserted()| <= |ApplyTextOperation(content, op)|
    ensures ApplyTextOperation(content, op)[op.position..op.position + |op.Inserted()|] == op.Inserted()
  {
  }

  /**
   * A stale insert lands where its author meant it: its text ends up in one piece, the atoms the
   * author saw left of the position stay left of it and the others stay right of it.
   */
  lemma StaleInsertKeepsItsPlace<T>(doc: DocumentState<T>, op: Operation<T>, now: int, i: nat, j: nat)
    requires Consistent(doc) && AppliedInRange(doc) && ValidEdit(doc, op) && op.kind.Insert?
    requires
      var base := ContentAt(doc, op.baseVersion);
      && Distinct(base) && AddsFreshAtoms(Later(doc, op.baseVersion) + [op], base)
      && i < |base| && j < |Accept(doc, op, now).content| && base[i] == Accept(doc, op, now).content[j]
    ensures
      var at := Transformed(doc, op).position;
      && 0 <= at <= at + |op.Inserted()| <= |Accept(doc, op, now).content|
      && Accept(doc, op, now).content[at..at + |op.Inserted()|] == op.Inserted()
      && (i < op.position ==> j < at)
      && (op.position <= i ==> at + |op.Inserted()| <= j)
  {
    hide Later, ContentAt, Rebase, ApplyAll, AddsFreshAtoms, AppliedInRange;
    var base, later := ContentAt(doc, op.baseVersion), Later(doc, op.baseVersion);
    var moved := Transformed(doc, op);
    LaterLeadsToContent(doc, op.baseVersion);
    LaterIsWellFormed(doc, op.baseVersion);
    RebasedEditStaysInRange(doc, op, now);
    FreshSplit(later, op, base);
    assert base[i] !in op.Added() && moved.Added() == op.Added();
    SpliceKeepsOrigin(moved, doc.content, j);
    RebasePreservesIntention(base, later, op.position, i, Origin(moved, |doc.content|, j));
    InsertedInOnePiece(moved, doc.content);
  }

  /** The text with the atoms from `at` to `end` taken out and the edit's put in. */
  ghost predicate Replaces<T>(before: seq<T>, at: int, end: int, added: seq<T>, after: seq<T>) {
    0 <= at <= end <= |before| && after == before[..at] + added + before[end..]
  }

  /** From `at` to `end` stand exactly the atoms of `meant`. */
  ghost predicate HoldsExactly<T>(content: seq<T>, at: int, end: int, meant: seq<T>) {
    forall j :: 0 <= j < |content| ==> (at <= j < end <==> content[j] in meant)
  }

  lemma EditReplaces<T>(op: Operation<T>, content: seq<T>)
    requires op.WellFormed() && 0 <= op.position <= |content|
    ensures Replaces(content, op.position, Min(op.position + op.Removed(), |content|), op.Added(),
                     ApplyTextOperation(content, op))
  {
  }

  /**
   * A stale edit takes the atoms from its rebased position on out of the current text. They are what
   * is left of those its author meant if and only if the range is still whole.
   */
  lemma StaleEditRemovesMeantIff<T>(doc: DocumentState<T>, op: Operation<T>, now: int, base: seq<T>, later: seq<Operation<T>>)
    requires Consistent(doc) && AppliedInRange(doc) && ValidEdit(doc, op)
    requires base == ContentAt(doc, op.baseVersion) && later == Later(doc, op.baseVersion)
    requires Distinct(base) && AddsFreshAtoms(later, base) && InText(op, base)
    ensures
      var at := Transformed(doc, op).position;
      var end := Min(at + op.Removed(), |doc.content|);
      && Replaces(doc.content, at, end, op.Added(), Accept(doc, op, now).content)
      && (HoldsExactly(doc.content, at, end, Meant(op, base)) <==> RangeWhole(base, later, op))
  {
    hide Later, ContentAt, Rebase, ApplyAll, AddsFreshAtoms, AppliedInRange, RangeWhole, Distinct, Meant, Replaces;
    LaterLeadsToContent(doc, op.baseVersion);
    LaterIsWellFormed(doc, op.baseVersion);
    RebasedEditStaysInRange(doc, op, now);
    EditReplaces(Transformed(doc, op), doc.content);
    StaleRemovalIff(base, later, op);
  }

  // ----- replay -----

  /** Frame `k` of a replay: the text after the first `k` operations. */
  function Frame<T>(doc: DocumentState<T>, k: nat): ReplayFrame<T>
    requires k <= |doc.operations|
  {
    if k == 0 then
      ReplayFrame(0, doc.initialContent, None,
                  if doc.operations == [] then doc.lastModifiedAt else doc.operations[0].timestamp)
    else
      ReplayFrame(k, ContentAt(doc, k), Some(doc.operations[k - 1]), doc.operations[k - 1].timestamp)
  }

  /** The first frame shows the initial text, and each other one applies its operation to the one before. */
  ghost predicate Replays<T>(doc: DocumentState<T>, frames: seq<ReplayFrame<T>>) {
    && |frames| == |doc.operations| + 1
    && frames[0].content == doc.initialContent && frames[0].operation == None
    && frames[0].timestamp == (if doc.operations == [] then doc.lastModifiedAt else doc.operations[0].timestamp)
    && (forall k :: 0 <= k < |frames| ==> frames[k].version == k)
    && forall k :: 0 <= k < |doc.operations| ==>
         && frames[k + 1].operation == Some(doc.operations[k])
         && frames[k + 1].timestamp == doc.operations[k].timestamp
         && frames[k + 1].content == ApplyTextOperation(frames[k].content, doc.operations[k])
  }

  lemma FirstFrame<T>(doc: DocumentState<T>)
    ensures Frame(doc, 0).content == doc.initialContent && Frame(doc, 0).operation == None && Frame(doc, 0).version == 0
    ensures Frame(doc, 0).timestamp == if doc.operations == [] then doc.lastModifiedAt else doc.operations[0].timestamp
  {
  }

  lemma FrameVersion<T>(doc: DocumentState<T>, k: nat)
    requires k <= |doc.operations|
    ensures Frame(doc, k).version == k
  {
  }

  lemma NextFrame<T>(doc: DocumentState<T>, k: nat)
    requires k < |doc.operations|
    ensures Frame(doc, k + 1).operation == Some(doc.operations[k])
    ensures Frame(doc, k + 1).timestamp == doc.operations[k].timestamp
    ensures Frame(doc, k + 1).content == ApplyTextOperation(Frame(doc, k).content, doc.operations[k])
  {
    hide ApplyTextOperation;
    var first := doc.operations[..k + 1];
    assert first[..k] == doc.operations[..k] && first[k] == doc.operations[k];
    assert ContentAt(doc, k + 1) == ApplyTextOperation(ContentAt(doc, k), doc.operations[k]);
    assert k == 0 ==> ContentAt(doc, k) == doc.initialContent;
  }

  lemma FramesReplay<T>(doc: DocumentState<T>, frames: seq<ReplayFrame<T>>)
    requires |frames| == |doc.operations| + 1
    requires forall k :: 0 <= k < |frames| ==> frames[k] == Frame(doc, k)
    ensures Replays(doc, frames)
  {
    hide ApplyTextOperation, Frame;
    FirstFrame(doc);
    forall k | 0 <= k < |frames| ensures frames[k].version == k {
      FrameVersion(doc, k);
    }
    forall k | 0 <= k < |doc.operations|
      ensures frames[k + 1].operation == Some(doc.operations[k])
      ensures frames[k + 1].timestamp == doc.operations[k].timestamp
      ensures frames[k + 1].content == ApplyTextOperation(frames[k].content, doc.operations[k])
    {
      assert frames[k] == Frame(doc, k) && frames[k + 1] == Frame(doc, k + 1);
      NextFrame(doc, k);
    }
  }

  ghost predicate AllConsistent<T>(documents: map<string, DocumentState<T>>) {
    forall d :: d in documents ==> Consistent(documents[d])
  }

  lemma UpdateKeepsConsistent<T>(documents: map<string, DocumentState<T>>, d: string, op: Operation<T>, now: int)
    requires AllConsistent(documents) && d in documents
    ensures AllConsistent(documents[d := Accept(documents[d], op, now)])
  {
    hide Consistent, Accept;
    AcceptKeepsConsistent(documents[d], op, now);
  }

  /** The server object. */
  class Server<T(==)> {
    var documents: map<string, DocumentState<T>>
    var sessions: map<string, Session>

    ghost predicate Valid()
      reads this
    {
      && AllConsistent(documents)
      && (forall s :: s in sessions ==> sessions[s].documentId in documents)
    }

    constructor ()
      ensures Valid() && documents == map[] && sessions == map[]
    {
      documents, sessions := map[], map[];
    }

    method EnsureDocument(documentId: string, initialContent: seq<T>, now: int)
      returns (doc: DocumentState<T>)
      requires Valid()
      modifies this`documents
      ensures Valid()
      ensures doc == if documentId in old(documents) then old(documents)[documentId]
                     else NewDocument(initialContent, now)
      ensures documents == old(documents)[documentId := doc]
      ensures documentId !in old(documents) ==>
                && doc.initialContent == doc.content == initialContent
                && doc.version == 0 && doc.operations == [] && doc.lastModifiedAt == now
    {
      if documentId in documents {
        return documents[documentId];
      }
      doc := NewDocument(initialContent, now);
      documents := documents[documentId := doc];
    }

    /** `sessionId` is the fresh random id; `canRead` is the verdict of the permission manager. */
    method JoinSession(userId: string, documentId: string, initialContent: Option<seq<T>>,
                       canRead: bool, sessionId: string, now: int)
      returns (r: Result<DocumentState<T>, Error>)
      requires Valid() && sessionId !in sessions
      modifies this
      ensures Valid()
      ensures !canRead ==> r == Failure(Forbidden) && documents == old(documents) && sessions == old(sessions)
      ensures canRead ==>
                var doc := if documentId in old(documents) then old(documents)[documentId]
                           else NewDocument(initialContent.GetOr([]), now);
                && r == Success(doc)
                && documents == old(documents)[documentId := doc]
                && sessions == old(sessions)[sessionId := Session(userId, documentId, now)]
    {
      if !canRead {
        return Failure(Forbidden);
      }
      var doc := EnsureDocument(documentId, initialContent.GetOr([]), now);
      sessions := sessions[sessionId := Session(userId, documentId, now)];
      r := Success(doc);
    }

    method LeaveSession(sessionId: string)
      requires Valid()
      modifies this`sessions
      ensures Valid() && sessions == old(sessions) - {sessionId}
    {
      sessions := sessions - {sessionId};
    }

    method TransformOperation(document: DocumentState<T>, operation: Operation<T>)
      returns (transformed: Operation<T>)
      ensures transformed == Transformed(document, operation)
    {
      var position := operation.position;
      if operation.baseVersion < document.version {
        var laterOperations := From(document.operations, operation.baseVersion);
        for k := 0 to |laterOperations|
          invariant position == Rebase(laterOperations[..k], operation.position)
        {
          var applied := laterOperations[k];
          if applied.kind.Insert? && applied.position <= position {
            position := position + |applied.Inserted()|;
          }
          if applied.kind.Delete? && applied.position < position {
            position := Max(applied.position, position - applied.Span());
          }
          if applied.kind.Replace? && applied.position < position {
            var delta := |applied.Inserted()| - applied.Span();
            position := Max(applied.position, position + delta);
          }
          assert laterOperations[..k + 1][..k] == laterOperations[..k];
        }
        assert laterOperations[..|laterOperations|] == laterOperations;
      }
      transformed := operation.(position := position, baseVersion := document.version);
    }

    method ApplyOperation(sessionId: string, operation: Operation<T>, canWrite: bool, now: int)
      returns (r: Result<DocumentState<T>, Error>)
      requires Valid()
      modifies this
      ensures Valid()
      ensures sessionId !in old(sessions) ==> r == Failure(SessionNotFound)
      ensures sessionId in old(sessions) && !canWrite ==> r == Failure(Forbidden)
      ensures r.Failure? ==> documents == old(documents) && sessions == old(sessions)
      ensures sessionId in old(sessions) && canWrite ==>
                var session := old(sessions)[sessionId];
                && r == Success(Accept(old(documents)[session.documentId], operation, now))
                && documents == old(documents)[session.documentId := r.value]
                && sessions == old(sessions)[sessionId := session.(lastActivityAt := now)]
    {
      if sessionId !in sessions {
        return Failure(SessionNotFound);
      }
      var session := sessions[sessionId];
      if !canWrite {
        return Failure(Forbidden);
      }
      var document := ApplyToDocument(session.documentId, operation, now);
      sessions := sessions[sessionId := session.(lastActivityAt := now)];
      r := Success(document);
    }

    /** Transforms the operation, applies it and logs it. */
    method ApplyToDocument(documentId: string, operation: Operation<T>, now: int) returns (document: DocumentState<T>)
      requires Valid() && documentId in documents
      modifies this`documents
      ensures Valid()
      ensures document == Accept(old(documents)[documentId], operation, now)
      ensures documents == old(documents)[documentId := document]
    {
      hide AllConsistent, Transformed, ApplyTextOperation;
      document := EnsureDocument(documentId, [], now);
      UpdateKeepsConsistent(old(documents), documentId, operation, now);
      var transformed := TransformOperation(document, operation);
      document := document.(content := ApplyTextOperation(document.content, transformed),
                            operations := document.operations + [transformed],
                            version := document.version + 1,
                            lastModifiedAt := now);
      documents := documents[documentId := document];
      assert documents == old(documents)[documentId := document];
    }

    /** One frame per version, the last one showing the current text. */
    method ReplayDocumentOperations(documentId: string) returns (frames: seq<ReplayFrame<T>>)
      requires Valid()
      ensures documentId !in documents ==> frames == []
      ensures documentId in documents ==>
                && |frames| == documents[documentId].version + 1
                && (forall k :: 0 <= k < |frames| ==> frames[k] == Frame(documents[documentId], k))
                && frames[|frames| - 1].content == documents[documentId].content
                && Replays(documents[documentId], frames)
    {
      if documentId !in documents {
        return [];
      }
      hide Replays, ApplyTextOperation;
      var document := documents[documentId];
      var content := document.initialContent;
      frames := [ReplayFrame(0, content, None,
                             if document.operations == [] then document.lastModifiedAt
                             else document.operations[0].timestamp)];
      for index := 0 to |document.operations|
        invariant |frames| == index + 1
        invariant content == ContentAt(document, index)
        invariant forall k :: 0 <= k <= index ==> frames[k] == Frame(document, k)
      {
        var operation := document.operations[index];
        assert document.operations[..index + 1][..index] == document.operations[..index];
        content := ApplyTextOperation(content, operation);
        frames := frames + [ReplayFrame(index + 1, content, Some(operation), operation.timestamp)];
      }
      assert document.operations[..|document.operations|] == document.operations;
      FramesReplay(document, frames);
    }
  }
}
