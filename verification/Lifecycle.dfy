/**
 Whole runs of the proposal table: what every reachable state keeps, whatever the callers do and in whatever
 order. A run is the list of calls made; `State` is the table after them.
 */
module Lifecycle {
  import opened PyText
  import opened Proposals

  /** What the generation paths may save: a draft or an abstention, never anything further along. */
  predicate CallerShape(e: Event) {
    e.Generate? ==> e.generation.status == Draft || e.generation.status == Abstained
  }

  ghost predicate ValidRun(es: seq<Event>) {
    forall i :: 0 <= i < |es| ==> CallerShape(es[i])
  }

  ghost function State(es: seq<Event>): Store {
    if es == [] then EMPTY else Apply(State(es[..|es| - 1]), es[|es| - 1])
  }

  // ------------------------------------------------------- version chains

  ghost predicate LinkSound(s: Store, id: RowId)
    requires id in s.rows
  {
    s.rows[id].previousVersion.Some? ==>
      s.rows[id].previousVersion.value in s.rows && s.rows[id].previousVersion.value < id
  }

  ghost predicate Linked(s: Store) {
    forall id {:trigger LinkSound(s, id)} :: id in s.rows ==> LinkSound(s, id)
  }

  /** The rows met by following `previous_version_id` from a row, that row first. */
  ghost function Chain(s: Store, id: RowId): seq<RowId>
    requires Linked(s) && id in s.rows
    decreases id
  {
    assert LinkSound(s, id);
    match s.rows[id].previousVersion
    case None => [id]
    case Some(p) => [id] + Chain(s, p)
  }

  predicate SameRequirement(a: Row, b: Row) {
    a.workspace == b.workspace && a.ref == b.ref
  }

  /** Each link stays within one requirement. */
  ghost predicate LinkWithin(s: Store, id: RowId)
    requires id in s.rows
  {
    s.rows[id].previousVersion.Some? && s.rows[id].previousVersion.value in s.rows ==>
      SameRequirement(s.rows[id], s.rows[s.rows[id].previousVersion.value])
  }

  ghost predicate LinksWithin(s: Store) {
    forall id {:trigger LinkWithin(s, id)} :: id in s.rows ==> LinkWithin(s, id)
  }

  /** Every row hangs off the current row of its requirement. */
  ghost predicate Covered(s: Store, id: RowId)
    requires Linked(s) && id in s.rows
  {
    exists cur :: IsCurrentFor(s, cur, s.rows[id].workspace, s.rows[id].ref) && id in Chain(s, cur)
  }

  ghost predicate Structured(s: Store) {
    && OneCurrent(s) && Linked(s) && LinksWithin(s)
    && (forall id {:trigger Covered(s, id)} :: id in s.rows ==> Covered(s, id))
  }

  ghost predicate RowSound(r: Row) {
    r.version >= 1 && ChecksHold(r)
  }

  ghost predicate RowsSound(s: Store) {
    forall id :: id in s.rows ==> id < s.nextId && RowSound(s.rows[id])
  }

  ghost predicate Inv(s: Store) {
    RowsSound(s) && Structured(s)
  }

  lemma {:induction false} ChainFrame(s: Store, t: Store, id: RowId)
    requires Linked(s) && Linked(t) && id in s.rows
    requires forall i :: i in s.rows ==> i in t.rows && t.rows[i].previousVersion == s.rows[i].previousVersion
    ensures Chain(t, id) == Chain(s, id)
    decreases id
  {
    assert LinkSound(s, id) && LinkSound(t, id);
    match s.rows[id].previousVersion
    case None =>
    case Some(p) => ChainFrame(s, t, p);
  }

  /** A chain runs downwards, link by link, to a first version. */
  ghost predicate FollowsLinks(s: Store, c: seq<RowId>) {
    && c != []
    && (forall i :: 0 <= i < |c| ==> c[i] in s.rows)
    && (forall i, j {:trigger c[i], c[j]} :: 0 <= i < |c| - 1 && j == i + 1 ==>
      s.rows[c[i]].previousVersion == Some(c[j]))
    && s.rows[c[|c| - 1]].previousVersion == None
    && (forall i, j :: 0 <= i < j < |c| ==> c[j] < c[i])
  }

  lemma {:induction false} ChainFollowsLinks(s: Store, id: RowId)
    requires Linked(s) && LinksWithin(s) && id in s.rows
    ensures FollowsLinks(s, Chain(s, id)) && Chain(s, id)[0] == id
    ensures forall x :: x in Chain(s, id) ==> x in s.rows && SameRequirement(s.rows[x], s.rows[id])
    decreases id
  {
    assert LinkSound(s, id) && LinkWithin(s, id);
    match s.rows[id].previousVersion
    case None =>
    case Some(p) => ChainFollowsLinks(s, p);
  }

  // ------------------------------------------------------- what one call may do to a row

  predicate SameBirth(a: Row, b: Row) {
    a.workspace == b.workspace && a.ref == b.ref && a.born == b.born && a.previousVersion == b.previousVersion
  }

  /** Equal in everything but whether the row is the current one. */
  predicate SamePayload(a: Row, b: Row) {
    b == a.(isCurrent := b.isCurrent)
  }

  /** How a row may move between an earlier and a later state of a run. */
  predicate Advances(a: Row, b: Row) {
    && SameBirth(a, b)
    && a.version <= b.version
    && (a.version == b.version ==> SamePayload(a, b))
    && (a.status == Exported ==> SamePayload(a, b))
    && (b.isCurrent ==> a.isCurrent)
  }

  /** Which rows one accepted call may change: the one it names, the one it supersedes, the ones it ships. */
  ghost predicate Concerns(s: Store, e: Event, id: RowId)
    requires id in s.rows
  {
    match e
    case Generate(ws, ref, _) => IsCurrentFor(s, id, ws, ref)
    case MarkExported(ids) => id in ids && s.rows[id].status == Approved
    case _ => e.id == id
  }

  function Rewritten(r: Row, e: Event): Row {
    match e
    case Generate(_, _, _) => r.(isCurrent := false)
    case Review(_, _, _, _, _, _, _, _, _) => Touched(r, e)
    case Edit(_, _, _, _, _, _) => Edited(r, e)
    case MarkExported(_) => Shipped(r)
  }

  /** What one call leaves of each earlier row, and which rows it adds. */
  lemma Footprint(s: Store, e: Event)
    requires OneCurrent(s) && forall id :: id in s.rows ==> id < s.nextId
    ensures Apply(s, e).rows.Keys == s.rows.Keys + (if e.Generate? && Accepted(s, e) then {s.nextId} else {})
    ensures forall id :: id in s.rows ==>
      Apply(s, e).rows[id] == if Accepted(s, e) && Concerns(s, e, id) then Rewritten(s.rows[id], e) else s.rows[id]
  {
    if Accepted(s, e) {
      match e
      case Generate(ws, ref, g) =>
        assert Apply(s, e) == Generated(s, ws, ref, g);
      case Review(_, _, _, _, _, _, _, _, _) =>
        assert Apply(s, e) == s.(rows := s.rows[e.id := Touched(s.rows[e.id], e)]);
      case Edit(_, _, _, _, _, _) =>
        assert Apply(s, e) == s.(rows := s.rows[e.id := Edited(s.rows[e.id], e)]);
      case MarkExported(ids) =>
        assert Apply(s, e) == Marked(s, ids);
    }
  }

  lemma RowAfter(s: Store, e: Event, id: RowId)
    requires RowsSound(s) && OneCurrent(s) && id in s.rows
    ensures id in Apply(s, e).rows
    ensures Apply(s, e).rows[id]
      == if Accepted(s, e) && Concerns(s, e, id) then Rewritten(s.rows[id], e) else s.rows[id]
  {
    Footprint(s, e);
  }

  lemma StepAdvances(s: Store, e: Event, id: RowId)
    requires Inv(s) && id in s.rows
    ensures id in Apply(s, e).rows && Advances(s.rows[id], Apply(s, e).rows[id])
  {
    RowAfter(s, e, id);
  }

  /** The table after a call that inserted nothing, as far as links and the unique index can tell. */
  ghost predicate SameShape(s: Store, t: Store) {
    && t.rows.Keys == s.rows.Keys && t.nextId == s.nextId
    && forall id :: id in s.rows ==> SameBirth(s.rows[id], t.rows[id]) && t.rows[id].isCurrent == s.rows[id].isCurrent
  }

  lemma SameShapeKeepsCover(s: Store, t: Store, id: RowId)
    requires Linked(s) && Linked(t) && SameShape(s, t) && id in s.rows && Covered(s, id)
    ensures Covered(t, id)
  {
    var cur: RowId :| IsCurrentFor(s, cur, s.rows[id].workspace, s.rows[id].ref) && id in Chain(s, cur);
    ChainFrame(s, t, cur);
    assert IsCurrentFor(t, cur, t.rows[id].workspace, t.rows[id].ref);
  }

  lemma SameShapeKeepsStructure(s: Store, t: Store)
    requires Structured(s) && SameShape(s, t)
    ensures Structured(t)
  {
    forall id | id in t.rows ensures LinkSound(t, id) && LinkWithin(t, id) {
      assert LinkSound(s, id) && LinkWithin(s, id);
    }
    assert forall id, ws, ref :: IsCurrentFor(t, id, ws, ref) ==> IsCurrentFor(s, id, ws, ref);
    forall id | id in t.rows ensures Covered(t, id) {
      assert Covered(s, id);
      SameShapeKeepsCover(s, t, id);
    }
  }

  /** `row` may be inserted over `previous`, the current version of its requirement if it has one. */
  ghost predicate Insertable(s: Store, previous: Option<RowId>, row: Row) {
    && (forall id :: id in s.rows ==> id < s.nextId)
    && row.isCurrent && row.previousVersion == previous
    && (previous.Some? ==> IsCurrentFor(s, previous.value, row.workspace, row.ref))
    && (previous.None? ==> !HasCurrent(s, row.workspace, row.ref))
  }

  lemma InsertKeepsLinks(s: Store, previous: Option<RowId>, row: Row)
    requires OneCurrent(s) && Linked(s) && LinksWithin(s) && Insertable(s, previous, row)
    ensures var t := Inserted(s, previous, row); OneCurrent(t) && Linked(t) && LinksWithin(t)
  {
    var t := Inserted(s, previous, row);
    forall id | id in t.rows ensures LinkSound(t, id) && LinkWithin(t, id) {
      if id in s.rows { assert LinkSound(s, id) && LinkWithin(s, id); }
    }
    forall a, b, ws, ref | IsCurrentFor(t, a, ws, ref) && IsCurrentFor(t, b, ws, ref) ensures a == b {
      assert a != s.nextId ==> IsCurrentFor(s, a, ws, ref);
      assert b != s.nextId ==> IsCurrentFor(s, b, ws, ref);
    }
  }

  lemma InsertKeepsStructure(s: Store, previous: Option<RowId>, row: Row)
    requires Structured(s) && Insertable(s, previous, row)
    ensures Structured(Inserted(s, previous, row))
  {
    InsertKeepsLinks(s, previous, row);
    var t, added := Inserted(s, previous, row), s.nextId;
    assert LinkSound(t, added) && IsCurrentFor(t, added, row.workspace, row.ref);
    assert previous.Some? ==> Chain(t, added) == [added] + Chain(t, previous.value);
    forall id | id in s.rows ensures Covered(t, id) {
      assert Covered(s, id);
      var cur: RowId :| IsCurrentFor(s, cur, s.rows[id].workspace, s.rows[id].ref) && id in Chain(s, cur);
      ChainFrame(s, t, cur);
      if Some(cur) == previous {
        assert IsCurrentFor(t, added, t.rows[id].workspace, t.rows[id].ref);
      } else {
        assert IsCurrentFor(t, cur, t.rows[id].workspace, t.rows[id].ref);
      }
    }
    assert added in Chain(t, added);
    assert Covered(t, added);
  }

  lemma StepKeepsRowsSound(s: Store, e: Event)
    requires RowsSound(s) && OneCurrent(s)
    ensures RowsSound(Apply(s, e))
  {
    Footprint(s, e);
    forall id | id in Apply(s, e).rows ensures id < Apply(s, e).nextId && RowSound(Apply(s, e).rows[id]) {
      if id !in s.rows { assert Apply(s, e) == Generated(s, e.workspace, e.ref, e.generation); }
    }
  }

  lemma StepKeepsStructure(s: Store, e: Event)
    requires RowsSound(s) && Structured(s)
    ensures Structured(Apply(s, e))
  {
    if Accepted(s, e) {
      var t := Apply(s, e);
      if e.Generate? {
        var previous := CurrentOf(s, e.workspace, e.ref);
        var version := if previous.Some? then s.rows[previous.value].version + 1 else 1;
        InsertKeepsStructure(s, previous, NewRow(e.workspace, e.ref, e.generation, previous, version));
      } else {
        assert t.rows.Keys == s.rows.Keys && t.nextId == s.nextId;
        forall id | id in s.rows
          ensures SameBirth(s.rows[id], t.rows[id]) && t.rows[id].isCurrent == s.rows[id].isCurrent
        {
          RowAfter(s, e, id);
        }
        SameShapeKeepsStructure(s, t);
      }
    }
  }

  lemma StepKeepsInv(s: Store, e: Event)
    requires Inv(s)
    ensures Inv(Apply(s, e))
  {
    StepKeepsRowsSound(s, e);
    StepKeepsStructure(s, e);
  }

  /** Every reachable table satisfies the invariant, so no UPDATE ever trips a CHECK or the unique index. */
  lemma {:induction false} Reachable(es: seq<Event>)
    ensures Inv(State(es))
  {
    if es != [] {
      Reachable(es[..|es| - 1]);
      StepKeepsInv(State(es[..|es| - 1]), es[|es| - 1]);
    }
  }

  // ------------------------------------------------------- theorems over runs

  lemma {:induction false} RowAdvances(es: seq<Event>, k: nat, id: RowId)
    requires k <= |es| && id in State(es[..k]).rows
    ensures id in State(es).rows && Advances(State(es[..k]).rows[id], State(es).rows[id])
  {
    if k == |es| {
      assert es[..k] == es;
    } else {
      var before := es[..|es| - 1];
      assert before[..k] == es[..k];
      RowAdvances(before, k, id);
      Reachable(before);
      StepAdvances(State(before), es[|es| - 1], id);
    }
  }

  /** Optimistic locking is sound: a version number names one payload of a row for the whole run. */
  lemma VersionNamesPayload(es: seq<Event>, i: nat, j: nat, id: RowId)
    requires i <= |es| && j <= |es|
    requires id in State(es[..i]).rows && id in State(es[..j]).rows
    requires State(es[..i]).rows[id].version == State(es[..j]).rows[id].version
    ensures SamePayload(State(es[..i]).rows[id], State(es[..j]).rows[id])
  {
    if i <= j {
      assert es[..j][..i] == es[..i];
      RowAdvances(es[..j], i, id);
    } else {
      assert es[..i][..j] == es[..j];
      RowAdvances(es[..i], j, id);
    }
  }

  /** So a decision that passes the freshness check acts on exactly the row its caller was shown. */
  lemma FreshDecisionSeesWhatItWasShown(es: seq<Event>, shown: nat, id: RowId)
    requires es != [] && shown < |es| && id in State(es[..shown]).rows
    requires Touches(es[|es| - 1], id) && Accepted(State(es[..|es| - 1]), es[|es| - 1])
    requires es[|es| - 1].expectedVersion == State(es[..shown]).rows[id].version
    ensures SamePayload(State(es[..shown]).rows[id], State(es[..|es| - 1]).rows[id])
  {
    assert es[..|es| - 1][..shown] == es[..shown];
    RowAdvances(es[..|es| - 1], shown, id);
  }

  /**
   A requirement with any row has exactly one current row, and following `previous_version_id` from it
   terminates and meets every row of the requirement exactly once.
   */
  lemma VersionChain(es: seq<Event>, some: RowId) returns (cur: RowId)
    requires some in State(es).rows
    ensures var s := State(es); var ws, ref := s.rows[some].workspace, s.rows[some].ref;
      && Linked(s)
      && IsCurrentFor(s, cur, ws, ref)
      && (forall other :: IsCurrentFor(s, other, ws, ref) ==> other == cur)
      && (forall id :: id in Chain(s, cur) <==> id in s.rows && SameRequirement(s.rows[id], s.rows[some]))
      && FollowsLinks(s, Chain(s, cur))
  {
    Reachable(es);
    var s := State(es);
    assert Covered(s, some);
    cur :| IsCurrentFor(s, cur, s.rows[some].workspace, s.rows[some].ref) && some in Chain(s, cur);
    ChainFollowsLinks(s, cur);
    forall id | id in s.rows && SameRequirement(s.rows[id], s.rows[some]) ensures id in Chain(s, cur) {
      assert Covered(s, id);
    }
  }

  /** The requirement, the generated text, the citations and the link of a row are never rewritten. */
  lemma BirthIsPermanent(es: seq<Event>, k: nat, id: RowId)
    requires k <= |es| && id in State(es[..k]).rows
    ensures id in State(es).rows && SameBirth(State(es[..k]).rows[id], State(es).rows[id])
  {
    RowAdvances(es, k, id);
  }

  /** Every row was inserted by one accepted generation, for its own requirement. */
  lemma {:induction false} BornOfAGeneration(es: seq<Event>, id: RowId) returns (k: nat)
    requires id in State(es).rows
    ensures k < |es| && es[k] == Generate(State(es).rows[id].workspace, State(es).rows[id].ref, State(es).rows[id].born)
    ensures AcceptedAt(es, k) && State(es[..k]).nextId == id
  {
    var before, last := es[..|es| - 1], es[|es| - 1];
    Reachable(before);
    Footprint(State(before), last);
    if id in State(before).rows {
      k := BornOfAGeneration(before, id);
      assert before[..k] == es[..k];
    } else {
      k := |es| - 1;
      assert Apply(State(before), last) == Generated(State(before), last.workspace, last.ref, last.generation);
    }
  }

  /** Once exported, a row is a historical fact: only its current flag may still be cleared. */
  lemma ExportedIsFrozen(es: seq<Event>, k: nat, id: RowId)
    requires k <= |es| && id in State(es[..k]).rows && State(es[..k]).rows[id].status == Exported
    ensures id in State(es).rows && SamePayload(State(es[..k]).rows[id], State(es).rows[id])
  {
    RowAdvances(es, k, id);
  }

  // ------------------------------------------------------- sign-off

  predicate Touches(e: Event, id: RowId) {
    (e.Review? || e.Edit?) && e.id == id
  }

  ghost predicate AcceptedAt(es: seq<Event>, k: nat)
    requires k < |es|
  {
    Accepted(State(es[..k]), es[k])
  }

  /** Call `k` approved the row, and no review or edit of the row has been accepted since. */
  ghost predicate StandingApproval(es: seq<Event>, k: nat, id: RowId) {
    && k < |es| && es[k].Review? && es[k].id == id && es[k].action == Approved && AcceptedAt(es, k)
    && (forall j :: k < j < |es| && Touches(es[j], id) ==> !AcceptedAt(es, j))
  }

  lemma PrefixStanding(es: seq<Event>, k: nat, id: RowId)
    requires |es| > 0 && k < |es| - 1
    ensures StandingApproval(es, k, id) <==>
            StandingApproval(es[..|es| - 1], k, id)
            && (Touches(es[|es| - 1], id) ==> !AcceptedAt(es, |es| - 1))
  {
    var before := es[..|es| - 1];
    assert before[..k] == es[..k];
    assert forall j :: 0 <= j < |before| ==> before[..j] == es[..j];
  }

  /** What the record of a signed-off row says, and what was true when the approver clicked. */
  ghost predicate Vouched(r: Row, seen: Row, e: Event)
    requires e.Review?
  {
    && SignedOff(r)
    && (e.role == Owner || e.role == BidManager)
    && r.reviewedBy == Some(e.actor) && r.reviewedAt == Some(e.now)
    && seen.version == e.expectedVersion
    && FinalText(r) == FinalText(seen) && NonBlank(FinalText(r))
    && (r.born.citations != [] || (e.acknowledged && NonBlank(r.reviewNotes) && r.reviewNotes == e.notes))
  }

  lemma ApprovalRecords(s: Store, e: Event)
    requires e.Review? && e.action == Approved && Accepted(s, e)
    ensures Vouched(Apply(s, e).rows[e.id], s.rows[e.id], e)
  {
    assert Apply(s, e).rows[e.id] == Touched(s.rows[e.id], e);
  }

  lemma VouchingPersists(s: Store, id: RowId, seen: Row, approval: Event, e: Event)
    requires Inv(s) && id in s.rows && approval.Review? && Vouched(s.rows[id], seen, approval)
    requires !(Touches(e, id) && Accepted(s, e))
    ensures id in Apply(s, e).rows && Vouched(Apply(s, e).rows[id], seen, approval)
  {
    RowAfter(s, e, id);
  }

  lemma {:induction false} ApprovalIsVouched(es: seq<Event>, k: nat, id: RowId)
    requires StandingApproval(es, k, id)
    ensures id in State(es[..k]).rows && id in State(es).rows
    ensures Vouched(State(es).rows[id], State(es[..k]).rows[id], es[k])
  {
    var before, last := es[..|es| - 1], es[|es| - 1];
    if k == |es| - 1 {
      ApprovalRecords(State(before), last);
    } else {
      PrefixStanding(es, k, id);
      assert before[..k] == es[..k];
      ApprovalIsVouched(before, k, id);
      Reachable(before);
      VouchingPersists(State(before), id, State(es[..k]).rows[id], es[k], last);
    }
  }

  /** A row is signed off exactly when the last accepted human decision on it was an approval. */
  lemma {:induction false} SignedOffIffApproved(es: seq<Event>, id: RowId)
    requires ValidRun(es) && id in State(es).rows
    ensures SignedOff(State(es).rows[id]) <==> exists k :: StandingApproval(es, k, id)
  {
    if SignedOff(State(es).rows[id]) {
      var before, e := es[..|es| - 1], es[|es| - 1];
      Reachable(before);
      if Touches(e, id) && Accepted(State(before), e) {
        assert StandingApproval(es, |es| - 1, id);
      } else {
        SignedOffIffApproved(before, id);
        var k :| StandingApproval(before, k, id);
        PrefixStanding(es, k, id);
      }
    }
    forall k | StandingApproval(es, k, id) ensures SignedOff(State(es).rows[id]) {
      ApprovalIsVouched(es, k, id);
    }
  }

  /**
   The sign-off invariant. Behind every approved or exported row of every reachable state stands one accepted
   approval by an owner or a bid manager, made on the very text the row ships, with evidence or a written note.
   */
  lemma SignOff(es: seq<Event>, id: RowId) returns (k: nat)
    requires ValidRun(es) && id in State(es).rows && SignedOff(State(es).rows[id])
    ensures StandingApproval(es, k, id)
    ensures id in State(es[..k]).rows && Vouched(State(es).rows[id], State(es[..k]).rows[id], es[k])
  {
    SignedOffIffApproved(es, id);
    k :| StandingApproval(es, k, id);
    ApprovalIsVouched(es, k, id);
  }

  /** A row born without text or citations ships only a human's words, with a human's note. */
  lemma HumanWrittenException(es: seq<Event>, born: nat, id: RowId)
    requires ValidRun(es) && born <= |es| && id in State(es[..born]).rows
    requires var g := State(es[..born]).rows[id].born;
      (g.answerText == None || g.answerText == Some("")) && g.citations == []
    requires id in State(es).rows && SignedOff(State(es).rows[id])
    ensures var r := State(es).rows[id];
      NonBlank(r.editedText) && NonBlank(r.reviewNotes) && FinalText(r) == r.editedText
    ensures exists k: nat :: StandingApproval(es, k, id) && es[k].acknowledged
  {
    var k := SignOff(es, id);
    BirthIsPermanent(es, born, id);
  }

  // ------------------------------------------------------- delegation and rejection

  /** An SME acts on a row only after an accepted review named that SME. */
  lemma {:induction false} AssignmentIsExplicit(es: seq<Event>, id: RowId, u: UserId)
    requires id in State(es).rows && State(es).rows[id].assignedSme == Some(u)
    ensures exists k :: 0 <= k < |es| && es[k].Review? && es[k].id == id && es[k].sme == Some(u) && AcceptedAt(es, k)
  {
    var before, e := es[..|es| - 1], es[|es| - 1];
    if Touches(e, id) && Accepted(State(before), e) && e.Review? && e.sme == Some(u) {
      assert AcceptedAt(es, |es| - 1);
    } else {
      Reachable(before);
      AssignmentIsExplicit(before, id, u);
      var k :| 0 <= k < |before| && before[k].Review? && before[k].id == id && before[k].sme == Some(u)
        && AcceptedAt(before, k);
      assert before[..k] == es[..k];
      assert AcceptedAt(es, k);
    }
  }

  lemma SmeActsOnlyWhenAssigned(es: seq<Event>, e: Event)
    requires (e.Review? || e.Edit?) && e.role == Sme && Accepted(State(es), e)
    ensures e.Review? ==> e.action != Approved && e.action != Rejected
    ensures exists k ::
      0 <= k < |es| && es[k].Review? && es[k].id == e.id && es[k].sme == Some(e.actor) && AcceptedAt(es, k)
  {
    AssignmentIsExplicit(es, e.id, e.actor);
  }

  /**
   Escalating hands the answer to the named SME and to no other: that SME may edit it, and may give it back for
   review, but may not decide on it.
   */
  lemma EscalationHandsOver(s: Store, e: Event, back: Event, edit: Event)
    requires Inv(s) && e.Review? && e.action == NeedsSme && e.sme.Some? && Accepted(s, e)
    requires back.Review? && back.id == e.id && back.role == Sme && back.expectedVersion == e.expectedVersion + 1
    requires edit.Edit? && edit.id == e.id && edit.role == Sme && edit.expectedVersion == e.expectedVersion + 1
    ensures Accepted(Apply(s, e), back) <==> back.actor == e.sme.value && back.action == PendingReview
    ensures Accepted(Apply(s, e), edit) <==> edit.actor == e.sme.value
  {
    RowAfter(s, e, e.id);
  }

  // ------------------------------------------------------- rejection

  /** No call of any kind takes a rejected row straight to sign-off. */
  lemma NoCallSignsOffARejectedRow(s: Store, id: RowId, e: Event)
    requires Inv(s) && id in s.rows && s.rows[id].status == Rejected
    ensures id in Apply(s, e).rows && !SignedOff(Apply(s, e).rows[id])
  {
    RowAfter(s, e, id);
  }

  predicate Reopens(e: Event, id: RowId) {
    e.Review? && e.id == id && (e.action == PendingReview || e.action == NeedsSme)
  }

  /** A rejected row that is signed off later was reopened in between by an accepted review. */
  lemma {:induction false} RejectionMustBeReopened(es: seq<Event>, k: nat, id: RowId) returns (j: nat)
    requires k <= |es| && id in State(es[..k]).rows && State(es[..k]).rows[id].status == Rejected
    requires id in State(es).rows && State(es).rows[id].status != Rejected
    ensures k <= j < |es| && Reopens(es[j], id) && AcceptedAt(es, j)
  {
    assert es[..|es|] == es;
    assert k < |es|;
    var before, last := es[..|es| - 1], es[|es| - 1];
    assert before[..k] == es[..k];
    RowAdvances(before, k, id);
    Reachable(before);
    RowAfter(State(before), last, id);
    if State(before).rows[id].status == Rejected {
      j := |es| - 1;
    } else {
      j := RejectionMustBeReopened(before, k, id);
      assert before[..j] == es[..j];
    }
  }

  /** Two reviews of the row, no edit, that leave it approved. */
  ghost predicate Reverses(s: Store, id: RowId, first: Event, second: Event) {
    && first.Review? && first.id == id && Accepted(s, first)
    && second.Review? && second.id == id && Accepted(Apply(s, first), second)
    && id in Apply(Apply(s, first), second).rows && Apply(Apply(s, first), second).rows[id].status == Approved
  }

  /** Rejection can be overturned by two reviews, the text unmoved, exactly when there is a text to approve. */
  lemma RejectionCanBeReversed(s: Store, id: RowId)
    requires Inv(s) && id in s.rows && s.rows[id].status == Rejected
    ensures (exists first, second :: Reverses(s, id, first, second)) <==> NonBlank(FinalText(s.rows[id]))
    ensures forall first, second :: Reverses(s, id, first, second) ==>
      Reopens(first, id) && FinalText(Apply(Apply(s, first), second).rows[id]) == FinalText(s.rows[id])
  {
    forall first, second | Reverses(s, id, first, second)
      ensures NonBlank(FinalText(s.rows[id])) && Reopens(first, id)
      ensures FinalText(Apply(Apply(s, first), second).rows[id]) == FinalText(s.rows[id])
    {
      assert Apply(s, first).rows[id] == Touched(s.rows[id], first);
      assert Apply(Apply(s, first), second).rows[id] == Touched(Touched(s.rows[id], first), second);
    }
    if NonBlank(FinalText(s.rows[id])) {
      var v := s.rows[id].version;
      var reopen := Review(id, 0, Owner, PendingReview, v, None, None, false, 0);
      var approve := Review(id, 0, Owner, Approved, v + 1, Some("x"), None, true, 0);
      assert Strip("x") == "x";
      assert Apply(s, reopen).rows[id] == Touched(s.rows[id], reopen);
      assert Apply(Apply(s, reopen), approve).rows[id] == Touched(Touched(s.rows[id], reopen), approve);
      assert Reverses(s, id, reopen, approve);
    }
  }

  // ------------------------------------------------------- the order of versions

  /** The row's version is above that of the row it replaced. */
  predicate Outranks(s: Store, j: RowId)
    requires j in s.rows
  {
    var p := s.rows[j].previousVersion;
    p.Some? && p.value in s.rows ==> s.rows[p.value].version < s.rows[j].version
  }

  ghost predicate Descending(s: Store) {
    forall j {:trigger Outranks(s, j)} :: j in s.rows ==> Outranks(s, j)
  }

  ghost predicate VersionsDescend(s: Store, c: seq<RowId>) {
    forall i, j :: 0 <= i < j < |c| ==> c[i] in s.rows && c[j] in s.rows && s.rows[c[j]].version < s.rows[c[i]].version
  }

  lemma ChainStarts(s: Store, id: RowId)
    requires Linked(s) && id in s.rows
    ensures Chain(s, id) != [] && Chain(s, id)[0] == id
  {
  }

  lemma {:induction false} ChainDescends(s: Store, id: RowId)
    requires Linked(s) && Descending(s) && id in s.rows
    ensures VersionsDescend(s, Chain(s, id))
    ensures forall i :: 0 < i < |Chain(s, id)| ==>
      Chain(s, id)[i] in s.rows && s.rows[Chain(s, id)[i]].version < s.rows[id].version
    decreases id
  {
    assert LinkSound(s, id) && Outranks(s, id);
    match s.rows[id].previousVersion
    case None =>
    case Some(p) => ChainDescends(s, p); assert Chain(s, p)[0] == p;
  }

  /** Newest version first is the order of the chain, for every row, exactly when every link descends in version. */
  lemma HistoryIsChainOrderIff(s: Store)
    requires Linked(s)
    ensures Descending(s) <==> forall id :: id in s.rows ==> VersionsDescend(s, Chain(s, id))
  {
    if Descending(s) {
      forall id | id in s.rows ensures VersionsDescend(s, Chain(s, id)) {
        ChainDescends(s, id);
      }
    }
    if forall id :: id in s.rows ==> VersionsDescend(s, Chain(s, id)) {
      forall j | j in s.rows ensures Outranks(s, j) {
        assert LinkSound(s, j);
        assert VersionsDescend(s, Chain(s, j));
        if s.rows[j].previousVersion.Some? {
          ChainStarts(s, s.rows[j].previousVersion.value);
          assert Chain(s, j)[0] == j && Chain(s, j)[1] == s.rows[j].previousVersion.value;
        }
      }
    }
  }

  /** The accepted call raises the version of the row: a review, an edit, or an export of it. */
  ghost predicate Raises(s: Store, e: Event, id: RowId)
    requires id in s.rows
  {
    !e.Generate? && Concerns(s, e, id)
  }

  /** The call raises the row that `j` replaced to the version of `j`, which it leaves alone. */
  ghost predicate CatchesUpWith(s: Store, e: Event, j: RowId)
    requires j in s.rows
  {
    var p := s.rows[j].previousVersion;
    && p.Some? && p.value in s.rows && Raises(s, e, p.value) && !Raises(s, e, j)
    && s.rows[j].version == s.rows[p.value].version + 1
  }

  lemma OutranksAfter(s: Store, e: Event, j: RowId)
    requires Inv(s) && Descending(s) && Accepted(s, e) && j in s.rows
    ensures j in Apply(s, e).rows && (Outranks(Apply(s, e), j) <==> !CatchesUpWith(s, e, j))
  {
    assert LinkSound(s, j) && Outranks(s, j);
    RowAfter(s, e, j);
    if s.rows[j].previousVersion.Some? {
      RowAfter(s, e, s.rows[j].previousVersion.value);
    }
  }

  lemma NewVersionOutranks(s: Store, e: Event)
    requires Inv(s) && Accepted(s, e) && e.Generate?
    ensures s.nextId in Apply(s, e).rows && Outranks(Apply(s, e), s.nextId)
  {
  }

  /**
   The exact condition for an accepted call to keep the version order of `history` the order of the chain: it does
   not raise a superseded row level with the row that replaced it. Superseding bumps no version, so one write to a
   superseded row is enough to reach its successor.
   */
  lemma OrderIsKeptIff(s: Store, e: Event)
    requires Inv(s) && Descending(s) && Accepted(s, e)
    ensures Descending(Apply(s, e)) <==> forall j :: j in s.rows ==> !CatchesUpWith(s, e, j)
  {
    Footprint(s, e);
    forall j | j in s.rows ensures Outranks(Apply(s, e), j) <==> !CatchesUpWith(s, e, j) {
      OutranksAfter(s, e, j);
    }
    if e.Generate? { NewVersionOutranks(s, e); }
    forall j | j in Apply(s, e).rows && j !in s.rows ensures Outranks(Apply(s, e), j) {
      assert j == s.nextId;
    }
  }

  lemma {:induction false} ChainRunsDown(s: Store, id: RowId, x: RowId)
    requires Linked(s) && id in s.rows && x in Chain(s, id)
    ensures x <= id
    decreases id
  {
    assert LinkSound(s, id);
    if x != id { ChainRunsDown(s, s.rows[id].previousVersion.value, x); }
  }

  /** A row that has been replaced is no longer current. */
  lemma ReplacedIsNotCurrent(s: Store, id: RowId, j: RowId)
    requires Inv(s) && id in s.rows && j in s.rows && s.rows[j].previousVersion == Some(id)
    ensures !s.rows[id].isCurrent
  {
    assert LinkSound(s, j) && LinkWithin(s, j) && Covered(s, j);
    var cur: RowId :| IsCurrentFor(s, cur, s.rows[j].workspace, s.rows[j].ref) && j in Chain(s, cur);
    ChainRunsDown(s, cur, j);
    assert id < cur;
    assert !IsCurrentFor(s, id, s.rows[j].workspace, s.rows[j].ref);
  }

  /** The call writes current rows only. */
  ghost predicate KeepsToCurrent(s: Store, e: Event) {
    forall id :: id in s.rows && Raises(s, e, id) ==> s.rows[id].isCurrent
  }

  /** So a run whose reviews, edits and exports all hit current rows keeps the order. */
  lemma {:induction false} CurrentWritesKeepOrder(es: seq<Event>)
    requires forall k :: 0 <= k < |es| && AcceptedAt(es, k) ==> KeepsToCurrent(State(es[..k]), es[k])
    ensures Descending(State(es))
  {
    if es != [] {
      var before, last := es[..|es| - 1], es[|es| - 1];
      forall k | 0 <= k < |before| && AcceptedAt(before, k) ensures KeepsToCurrent(State(before[..k]), before[k]) {
        assert before[..k] == es[..k];
        assert AcceptedAt(es, k);
      }
      CurrentWritesKeepOrder(before);
      Reachable(before);
      if Accepted(State(before), last) {
        assert AcceptedAt(es, |es| - 1);
        forall j | j in State(before).rows ensures !CatchesUpWith(State(before), last, j) {
          var p := State(before).rows[j].previousVersion;
          if p.Some? && p.value in State(before).rows {
            ReplacedIsNotCurrent(State(before), p.value, j);
          }
        }
        OrderIsKeptIff(State(before), last);
      }
    }
  }

  lemma StateSnoc(es: seq<Event>, e: Event)
    ensures State(es + [e]) == Apply(State(es), e)
  {
    assert (es + [e])[..|es|] == es;
  }

  lemma RegeneratedTwice(ws: WorkspaceId, ref: string, g: Generation)
    requires ChecksHold(NewRow(ws, ref, g, None, 1))
    ensures var again := Generate(ws, ref, g);
      && Accepted(EMPTY, again) && Accepted(Apply(EMPTY, again), again)
      && Apply(Apply(EMPTY, again), again).rows
         == map[0 := NewRow(ws, ref, g, None, 1).(isCurrent := false), 1 := NewRow(ws, ref, g, Some(0), 2)]
  {
    var one := Apply(EMPTY, Generate(ws, ref, g));
    assert CurrentOf(EMPTY, ws, ref) == None;
    assert one == Store(map[0 := NewRow(ws, ref, g, None, 1)], 1);
    assert IsCurrentFor(one, 0, ws, ref);
    assert CurrentOf(one, ws, ref) == Some(0);
    assert Superseded(one, Some(0)) == map[0 := NewRow(ws, ref, g, None, 1).(isCurrent := false)];
  }

  /** A run that breaks the order: generate, regenerate, and edit the version that was superseded. */
  lemma SupersededRowCatchesUp(ws: WorkspaceId, ref: string, g: Generation, actor: UserId, text: string)
    returns (es: seq<Event>)
    requires g.status == Draft && ChecksHold(NewRow(ws, ref, g, None, 1))
    ensures es == [Generate(ws, ref, g), Generate(ws, ref, g), Edit(0, actor, Owner, text, 1, None)]
    ensures ValidRun(es) && forall k :: 0 <= k < |es| ==> AcceptedAt(es, k)
    ensures var s := State(es);
      && s.rows.Keys == {0, 1} && s.rows[1].previousVersion == Some(0) && s.rows[1].isCurrent
      && s.rows[0].version == s.rows[1].version == 2 && !Descending(s)
  {
    var again, edit := Generate(ws, ref, g), Edit(0, actor, Owner, text, 1, None);
    var one, two := Apply(EMPTY, again), Apply(Apply(EMPTY, again), again);
    RegeneratedTwice(ws, ref, g);
    StateSnoc([], again);
    StateSnoc([again], again);
    StateSnoc([again, again], edit);
    assert [] + [again] == [again] && [again] + [again] == [again, again];
    es := [again, again] + [edit];
    assert es[..0] == [] && es[..1] == [again] && es[..2] == [again, again];
    assert State(es) == Apply(two, edit) == two.(rows := two.rows[0 := Edited(two.rows[0], edit)]);
    assert !Outranks(State(es), 1);
  }
}
