/**
 Who may do what to a row, and what a refused caller is told. The transition table is read the other way round here,
 by the state a move leads to, and every guard is stated over the calls it lets through.
 */
module Decisions {
  import opened PyText
  import opened Proposals

  /** The moves that are open at all, whoever makes them. */
  predicate MoveIsOpen(from: Status, to: Status) {
    match to
    case Approved => from == Draft || from == PendingReview || from == NeedsSme
    case Rejected => from != Rejected && from != Exported
    case PendingReview => from != PendingReview && from != Exported
    case NeedsSme => from != NeedsSme && from != Exported
    case _ => false
  }

  /** Some single review, by somebody, takes the row to this status. */
  ghost predicate CanMove(s: Store, id: RowId, to: Status) {
    exists e: Event :: e.Review? && e.id == id && e.action == to && Accepted(s, e)
  }

  /** A row can be approved in one review exactly when it has text and waits for a decision. */
  lemma ApprovableIff(s: Store, id: RowId)
    requires id in s.rows
    ensures CanMove(s, id, Approved) <==>
      NonBlank(FinalText(s.rows[id])) && s.rows[id].status in {Draft, PendingReview, NeedsSme}
  {
    var e := Review(id, 0, Owner, Approved, s.rows[id].version, Some("x"), None, true, 0);
    assert Strip("x") == "x";
    if NonBlank(FinalText(s.rows[id])) && s.rows[id].status in {Draft, PendingReview, NeedsSme} {
      assert Accepted(s, e);
    }
  }

  /** Every other move is open exactly as the table says, and no review leads to any other status. */
  lemma MovableIff(s: Store, id: RowId, to: Status)
    requires id in s.rows && to != Approved
    ensures CanMove(s, id, to) <==> MoveIsOpen(s.rows[id].status, to)
  {
    var e := Review(id, 0, Owner, to, s.rows[id].version, None, None, false, 0);
    if MoveIsOpen(s.rows[id].status, to) {
      assert Accepted(s, e);
    }
  }

  /** What an owner's fresh review needs: an open move and, to approve, text with citations or a vouching note. */
  lemma OwnerReviewAcceptedIff(s: Store, id: RowId, actor: UserId, action: Status, version: int,
                               notes: Option<string>, sme: Option<UserId>, acknowledged: bool, now: int)
    ensures Accepted(s, Review(id, actor, Owner, action, version, notes, sme, acknowledged, now)) <==>
      && id in s.rows && s.rows[id].version == version && MoveIsOpen(s.rows[id].status, action)
      && (action == Approved ==>
            && NonBlank(FinalText(s.rows[id]))
            && (s.rows[id].born.citations != [] || (acknowledged && NonBlank(notes))))
  {
  }

  /** The same call made in another role. */
  function As(e: Event, role: Role): Event
    requires e.Review? || e.Edit?
  {
    match e
    case Review(id, actor, _, action, version, notes, sme, acknowledged, now) =>
      Review(id, actor, role, action, version, notes, sme, acknowledged, now)
    case Edit(id, actor, _, text, version, notes) => Edit(id, actor, role, text, version, notes)
  }

  /**
   The roles, by what they may do that an owner may: a bid manager everything, a viewer nothing, an SME whatever
   is no decision on a row assigned to them.
   */
  lemma RolesCompared(s: Store, e: Event)
    requires e.Review? || e.Edit?
    ensures Verdict(s, As(e, BidManager)) == Verdict(s, As(e, Owner))
    ensures !Accepted(s, As(e, Viewer))
    ensures Accepted(s, As(e, Sme)) <==>
      && Accepted(s, As(e, Owner)) && s.rows[e.id].assignedSme == Some(e.actor)
      && (e.Review? ==> e.action != Approved && e.action != Rejected)
  {
  }

  /** An owner's edit goes through exactly when it is fresh and the row is not exported. */
  lemma OwnerEditAcceptedIff(s: Store, id: RowId, actor: UserId, text: string, version: int, notes: Option<string>)
    ensures Accepted(s, Edit(id, actor, Owner, text, version, notes)) <==>
      id in s.rows && s.rows[id].version == version && s.rows[id].status != Exported
  {
  }

  /** What a refused reviewer or editor is told, first reason first: existence, freshness, state, role, evidence. */
  lemma RefusalsComeInOrder(s: Store, e: Event)
    requires e.Review? || e.Edit?
    ensures Verdict(s, e) == Fail(NotFound) <==> e.id !in s.rows
    ensures e.id in s.rows ==>
      var r := s.rows[e.id];
      var stateOpen := if e.Review? then MoveIsOpen(r.status, e.action) else r.status != Exported;
      && (Verdict(s, e) == Fail(VersionConflict(e.expectedVersion, r.version)) <==> r.version != e.expectedVersion)
      && (Verdict(s, e) == Fail(InvalidTransition) <==> r.version == e.expectedVersion && !stateOpen)
      && (Verdict(s, e) == Fail(PermissionDenied) <==>
            r.version == e.expectedVersion && stateOpen
            && (|| e.role == Viewer
                || (e.role == Sme && (r.assignedSme != Some(e.actor)
                                      || (e.Review? && (e.action == Approved || e.action == Rejected))))))
  {
  }

  /** Why an approval that is fresh, open and permitted is still refused. */
  lemma UngroundedReasons(s: Store, e: Event)
    requires e.Review? && e.action == Approved && e.id in s.rows && s.rows[e.id].version == e.expectedVersion
    requires MoveIsOpen(s.rows[e.id].status, Approved) && (e.role == Owner || e.role == BidManager)
    ensures var r := s.rows[e.id];
      && (Verdict(s, e) == Fail(UngroundedApproval(EmptyText)) <==> !NonBlank(FinalText(r)))
      && (Verdict(s, e) == Fail(UngroundedApproval(NoCitations)) <==>
            NonBlank(FinalText(r)) && r.born.citations == [] && !e.acknowledged)
      && (Verdict(s, e) == Fail(UngroundedApproval(AcknowledgementWithoutNotes)) <==>
            NonBlank(FinalText(r)) && r.born.citations == [] && e.acknowledged && !NonBlank(e.notes))
  {
  }

  /**
   The table takes a generation exactly when its scores are shares, an abstention explains itself and holds no text,
   and nothing is approved from birth.
   */
  lemma GenerationAcceptedIff(s: Store, ws: WorkspaceId, ref: string, g: Generation)
    ensures Accepted(s, Generate(ws, ref, g)) <==>
      && (g.confidence.Some? ==> 0.0 <= g.confidence.value <= 1.0)
      && (g.coverage.Some? ==> 0.0 <= g.coverage.value <= 1.0)
      && (g.status == Abstained ==> g.abstentionReason.Some? && g.answerText.None?)
      && g.status != Approved
    ensures !Accepted(s, Generate(ws, ref, g)) ==> Verdict(s, Generate(ws, ref, g)) == Fail(CheckViolation)
  {
  }

  /** The text that ships is the edit, unless that is missing or empty: then it is the generated answer. */
  lemma FinalTextIs(r: Row)
    ensures r.editedText != None && r.editedText != Some("") ==> FinalText(r) == r.editedText
    ensures r.editedText == None || r.editedText == Some("") ==> FinalText(r) == r.born.answerText
  {
  }

  /** What a review leaves: the decision with its author and time, notes and SME where given, and the text as it was. */
  lemma ReviewLeaves(s: Store, e: Event)
    requires e.Review? && Accepted(s, e)
    ensures e.id in s.rows && e.id in Apply(s, e).rows
    ensures var before, after := s.rows[e.id], Apply(s, e).rows[e.id];
      && after.status == e.action && after.reviewedBy == Some(e.actor) && after.reviewedAt == Some(e.now)
      && after.version == e.expectedVersion + 1
      && (if e.notes == None then after.reviewNotes == before.reviewNotes else after.reviewNotes == e.notes)
      && (if e.sme == None then after.assignedSme == before.assignedSme else after.assignedSme == e.sme)
      && after.born == before.born && after.editedText == before.editedText && after.isCurrent == before.isCurrent
  {
  }

  /** What an edit leaves: the new text beside the generated one, and, of an approved row, no approval. */
  lemma EditLeaves(s: Store, e: Event)
    requires e.Edit? && Accepted(s, e)
    ensures e.id in s.rows && e.id in Apply(s, e).rows
    ensures var before, after := s.rows[e.id], Apply(s, e).rows[e.id];
      && after.editedText == Some(e.text) && after.born == before.born && after.version == e.expectedVersion + 1
      && (if e.notes == None then after.reviewNotes == before.reviewNotes else after.reviewNotes == e.notes)
      && after.assignedSme == before.assignedSme && after.isCurrent == before.isCurrent
      && (before.status == Approved ==>
            after.status == PendingReview && after.reviewedBy == None && after.reviewedAt == None)
      && (before.status != Approved ==>
            && after.status == before.status
            && after.reviewedBy == before.reviewedBy && after.reviewedAt == before.reviewedAt)
  {
  }

  /** What a generation leaves: the answer unreviewed, current, linked to the row it replaces and one version above. */
  lemma GenerationLeaves(s: Store, ws: WorkspaceId, ref: string, g: Generation)
    requires Accepted(s, Generate(ws, ref, g)) && forall id :: id in s.rows ==> id < s.nextId
    ensures var t, previous := Apply(s, Generate(ws, ref, g)), CurrentOf(s, ws, ref);
      && IsCurrentFor(t, s.nextId, ws, ref) && t.nextId == s.nextId + 1
      && var r := t.rows[s.nextId];
         && r.born == g && r.status == g.status && r.editedText == None && r.previousVersion == previous
         && r.reviewedBy == None && r.reviewedAt == None && r.reviewNotes == None && r.assignedSme == None
         && (previous == None ==> r.version == 1)
         && (previous.Some? ==>
               && r.version == s.rows[previous.value].version + 1
               && !t.rows[previous.value].isCurrent && t.rows[previous.value].version == s.rows[previous.value].version)
  {
  }
}
