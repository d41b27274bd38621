/**
 The proposal table: one row per version of one answer, the guards a write must pass and the effect each
 write has. Every operation is split the way the code splits it: a `Verdict` computed from what was read,
 then an `Effect` on the table when the verdict is Pass.
 */
module Proposals {
  import opened PyText

  type RowId = nat
  type WorkspaceId = nat
  type UserId = nat

  datatype Status = Draft | Abstained | PendingReview | NeedsSme | Rejected | Approved | Exported

  datatype Role = Owner | BidManager | Sme | Viewer

  /** One evidence span, as stored with an answer. */
  datatype Citation = Citation(chunkId: string, documentId: string, documentName: string, pageNumber: Option<int>,
                               quotedText: string, sectionPath: Option<string>, relevance: real)

  /** What the generation side hands to `save_generation`. */
  datatype Generation = Generation(
    requirementText: string, sectionPath: Option<string>, isMandatory: bool,
    answerText: Option<string>, citations: seq<Citation>,
    coverage: Option<real>, confidence: Option<real>, abstentionReason: Option<string>, status: Status)

  datatype Row = Row(
    workspace: WorkspaceId, ref: string, born: Generation,
    editedText: Option<string>, status: Status,
    reviewedBy: Option<UserId>, reviewedAt: Option<int>, reviewNotes: Option<string>, assignedSme: Option<UserId>,
    version: int, isCurrent: bool, previousVersion: Option<RowId>)

  /** The table. `nextId` stands for the database's generator of fresh primary keys. */
  datatype Store = Store(rows: map<RowId, Row>, nextId: RowId)

  const EMPTY := Store(map[], 0)

  datatype UngroundedReason = EmptyText | NoCitations | AcknowledgementWithoutNotes

  datatype Error =
    | NotFound
    | VersionConflict(expected: int, current: int)
    | InvalidTransition
    | PermissionDenied
    | UngroundedApproval(reason: UngroundedReason)
    | CheckViolation

  datatype Outcome = Pass | Fail(error: Error)

  /** One call into the review, generation or export services. */
  datatype Event =
    | Generate(workspace: WorkspaceId, ref: string, generation: Generation)
    | Review(id: RowId, actor: UserId, role: Role, action: Status, expectedVersion: int,
             notes: Option<string>, sme: Option<UserId>, acknowledged: bool, now: int)
    | Edit(id: RowId, actor: UserId, role: Role, text: string, expectedVersion: int, notes: Option<string>)
    | MarkExported(ids: set<RowId>)

  // ------------------------------------------------------------------- rows

  function Coalesce(a: Option<string>, b: Option<string>): Option<string> {
    if a.Some? && a.value != "" then a else b
  }

  /** The text that ships: the human edit unless it is missing or empty, else the generated answer. */
  function FinalText(r: Row): Option<string> {
    Coalesce(r.editedText, r.born.answerText)
  }

  predicate NonBlank(t: Option<string>) {
    t.Some? && !Blank(t.value)
  }

  predicate SignedOff(r: Row) {
    r.status == Approved || r.status == Exported
  }

  function Transitions(s: Status): set<Status> {
    match s
    case Draft => {PendingReview, NeedsSme, Approved, Rejected}
    case Abstained => {PendingReview, NeedsSme, Rejected}
    case PendingReview => {Approved, Rejected, NeedsSme}
    case NeedsSme => {PendingReview, Approved, Rejected}
    case Rejected => {PendingReview, NeedsSme}
    case Approved => {Rejected, PendingReview, NeedsSme}
    case Exported => {}
  }

  predicate Editable(s: Status) {
    s != Exported
  }

  predicate UnitInterval(x: Option<real>) {
    x.Some? ==> 0.0 <= x.value <= 1.0
  }

  /** The CHECK constraints of the table. */
  predicate ChecksHold(r: Row) {
    && UnitInterval(r.born.confidence)
    && UnitInterval(r.born.coverage)
    && (r.status == Approved ==> r.reviewedBy.Some? && r.reviewedAt.Some?)
    && (r.status == Abstained ==> r.born.abstentionReason.Some? && r.born.answerText.None?)
  }

  // ---------------------------------------------------------------- queries

  predicate IsCurrentFor(s: Store, id: RowId, ws: WorkspaceId, ref: string) {
    id in s.rows && s.rows[id].isCurrent && s.rows[id].workspace == ws && s.rows[id].ref == ref
  }

  predicate HasCurrent(s: Store, ws: WorkspaceId, ref: string) {
    exists id :: id in s.rows && IsCurrentFor(s, id, ws, ref)
  }

  /** The partial unique index: at most one current row for a requirement of a workspace. */
  ghost predicate OneCurrent(s: Store) {
    forall a, b, ws, ref :: IsCurrentFor(s, a, ws, ref) && IsCurrentFor(s, b, ws, ref) ==> a == b
  }

  /** `get_current` */
  ghost function CurrentOf(s: Store, ws: WorkspaceId, ref: string): (r: Option<RowId>)
    ensures r.Some? ==> IsCurrentFor(s, r.value, ws, ref)
    ensures r.None? <==> !HasCurrent(s, ws, ref)
  {
    if HasCurrent(s, ws, ref) then
      var id :| id in s.rows && IsCurrentFor(s, id, ws, ref); Some(id)
    else None
  }

  // ----------------------------------------------------------------- guards

  function RoleVerdict(r: Row, actor: UserId, role: Role, action: Status): Outcome {
    if role == Viewer then Fail(PermissionDenied)
    else if role == Sme && (action == Approved || action == Rejected) then Fail(PermissionDenied)
    else if role == Sme && r.assignedSme != Some(actor) then Fail(PermissionDenied)
    else Pass
  }

  function EvidenceVerdict(r: Row, acknowledged: bool, notes: Option<string>): Outcome {
    if !NonBlank(FinalText(r)) then Fail(UngroundedApproval(EmptyText))
    else if r.born.citations != [] then Pass
    else if !acknowledged then Fail(UngroundedApproval(NoCitations))
    else if !NonBlank(notes) then Fail(UngroundedApproval(AcknowledgementWithoutNotes))
    else Pass
  }

  /** The checks `apply_action` runs on the row it loaded, in its order. */
  function ReviewVerdict(r: Row, e: Event): Outcome
    requires e.Review?
  {
    if r.version != e.expectedVersion then Fail(VersionConflict(e.expectedVersion, r.version))
    else if e.action !in Transitions(r.status) then Fail(InvalidTransition)
    else if RoleVerdict(r, e.actor, e.role, e.action).Fail? then RoleVerdict(r, e.actor, e.role, e.action)
    else if e.action == Approved then EvidenceVerdict(r, e.acknowledged, e.notes)
    else Pass
  }

  /** The checks `apply_edit` runs on the row it loaded, in its order. */
  function EditVerdict(r: Row, e: Event): Outcome
    requires e.Edit?
  {
    if r.version != e.expectedVersion then Fail(VersionConflict(e.expectedVersion, r.version))
    else if !Editable(r.status) then Fail(InvalidTransition)
    else if e.role == Viewer then Fail(PermissionDenied)
    else if e.role == Sme && r.assignedSme != Some(e.actor) then Fail(PermissionDenied)
    else Pass
  }

  /** The row `save_generation` inserts over the version it supersedes, if any. */
  function NewRow(ws: WorkspaceId, ref: string, g: Generation, previous: Option<RowId>, version: int): Row {
    Row(ws, ref, g, None, g.status, None, None, None, None, version, true, previous)
  }

  function Verdict(s: Store, e: Event): Outcome {
    match e
    case Generate(ws, ref, g) => if ChecksHold(NewRow(ws, ref, g, None, 1)) then Pass else Fail(CheckViolation)
    case Review(id, _, _, _, _, _, _, _, _) => if id in s.rows then ReviewVerdict(s.rows[id], e) else Fail(NotFound)
    case Edit(id, _, _, _, _, _) => if id in s.rows then EditVerdict(s.rows[id], e) else Fail(NotFound)
    case MarkExported(_) => Pass
  }

  // ---------------------------------------------------------------- effects

  /** `touch_reviewed` */
  function Touched(r: Row, e: Event): Row
    requires e.Review?
  {
    r.(status := e.action, reviewedBy := Some(e.actor), reviewedAt := Some(e.now), version := r.version + 1,
       reviewNotes := if e.notes.Some? then e.notes else r.reviewNotes,
       assignedSme := if e.sme.Some? then e.sme else r.assignedSme)
  }

  /** `ProposalRepository.apply_edit`, with the reset the service asks for when the row was approved. */
  function Edited(r: Row, e: Event): Row
    requires e.Edit?
  {
    var t := r.(editedText := Some(e.text), version := r.version + 1,
                reviewNotes := if e.notes.Some? then e.notes else r.reviewNotes);
    if r.status == Approved then t.(status := PendingReview, reviewedBy := None, reviewedAt := None) else t
  }

  function Shipped(r: Row): Row {
    r.(status := Exported, version := r.version + 1)
  }

  function Superseded(s: Store, previous: Option<RowId>): map<RowId, Row> {
    if previous.Some? && previous.value in s.rows
    then s.rows[previous.value := s.rows[previous.value].(isCurrent := false)]
    else s.rows
  }

  function Inserted(s: Store, previous: Option<RowId>, row: Row): Store {
    Store(Superseded(s, previous)[s.nextId := row], s.nextId + 1)
  }

  ghost function Generated(s: Store, ws: WorkspaceId, ref: string, g: Generation): Store {
    var previous := CurrentOf(s, ws, ref);
    var version := if previous.Some? then s.rows[previous.value].version + 1 else 1;
    Inserted(s, previous, NewRow(ws, ref, g, previous, version))
  }

  /** Marking touches the listed rows that are still approved, and no other. */
  function Marked(s: Store, ids: set<RowId>): Store {
    s.(rows := map id | id in s.rows ::
         if id in ids && s.rows[id].status == Approved then Shipped(s.rows[id]) else s.rows[id])
  }

  ghost function Effect(s: Store, e: Event): Store
    requires Verdict(s, e).Pass?
  {
    match e
    case Generate(ws, ref, g) => Generated(s, ws, ref, g)
    case Review(id, _, _, _, _, _, _, _, _) => s.(rows := s.rows[id := Touched(s.rows[id], e)])
    case Edit(id, _, _, _, _, _) => s.(rows := s.rows[id := Edited(s.rows[id], e)])
    case MarkExported(ids) => Marked(s, ids)
  }

  predicate Accepted(s: Store, e: Event) {
    Verdict(s, e).Pass?
  }

  /** One whole call: the effect when it is accepted, nothing at all otherwise. */
  ghost function Apply(s: Store, e: Event): Store {
    if Accepted(s, e) then Effect(s, e) else s
  }
}
