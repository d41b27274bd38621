/**
 The export gate: what `count_approved`, `progress` and `_collect` compute from the table, what the collected
 bundle is allowed to contain, and what marking it afterwards leaves true.
 */
module ExportGate {
  import opened PyText
  import opened Proposals
  import opened Lifecycle

  const EXPORT_LIMIT := 10_000
  const EXAMPLE_LIMIT := 10

  datatype Progress = Progress(approved: nat, total: nat, outstanding: int, ready: bool)

  /** One requirement as a renderer sees it. */
  datatype ExportRow = ExportRow(
    ref: string, requirementText: string, isMandatory: bool, status: Status, sectionPath: Option<string>,
    answerText: Option<string>, sourceDocuments: seq<string>, citationCount: nat,
    reviewer: Option<UserId>, reviewedAt: Option<int>, wasEdited: bool, confidence: Option<real>)

  datatype Gate =
    | NoWorkspace
    | Blocked(outstanding: int, total: nat, examples: seq<string>)
    | Open(rows: seq<ExportRow>, exportable: seq<RowId>)

  // ------------------------------------------------------------ queries

  function CurrentIds(s: Store, ws: WorkspaceId): set<RowId> {
    set id | id in s.rows && s.rows[id].isCurrent && s.rows[id].workspace == ws
  }

  function MandatoryIds(s: Store, ws: WorkspaceId): set<RowId> {
    set id | id in CurrentIds(s, ws) && s.rows[id].born.isMandatory
  }

  function SignedMandatoryIds(s: Store, ws: WorkspaceId): set<RowId> {
    set id | id in MandatoryIds(s, ws) && SignedOff(s.rows[id])
  }

  /** `count_approved`: signed off and total, over current mandatory rows. */
  function CountApproved(s: Store, ws: WorkspaceId): (nat, nat) {
    (|SignedMandatoryIds(s, ws)|, |MandatoryIds(s, ws)|)
  }

  function ProgressOf(s: Store, ws: WorkspaceId): Progress {
    var (approved, total) := CountApproved(s, ws);
    Progress(approved, total, total - approved, total > 0 && total - approved == 0)
  }

  function Refs(s: Store, ids: set<RowId>): map<RowId, string>
    requires ids <= s.rows.Keys
  {
    map id | id in ids :: s.rows[id].ref
  }

  predicate IsFirst(refs: map<RowId, string>, m: RowId) {
    m in refs && forall x :: x in refs ==> LexLeq(refs[m], refs[x])
  }

  lemma {:induction false} FirstExists(refs: map<RowId, string>)
    requires refs.Keys != {}
    ensures exists m :: IsFirst(refs, m)
    decreases |refs|
  {
    var a :| a in refs;
    LexTotal(refs[a], refs[a]);
    var rest := refs - {a};
    if rest.Keys == {} {
      assert refs.Keys == {a};
      assert IsFirst(refs, a);
    } else {
      assert |rest.Keys| < |refs.Keys| by { assert rest.Keys == refs.Keys - {a}; }
      FirstExists(rest);
      var m :| IsFirst(rest, m);
      LexTotal(refs[a], refs[m]);
      var first := if LexLeq(refs[m], refs[a]) then m else a;
      forall x | x in refs ensures LexLeq(refs[first], refs[x]) {
        if x != a {
          assert x in rest;
          if first == a { LexTransitive(refs[a], refs[m], refs[x]); }
        }
      }
      assert IsFirst(refs, first);
    }
  }

  /** ORDER BY requirement_ref */
  ghost function Ordered(refs: map<RowId, string>): seq<RowId>
    decreases |refs|
  {
    if refs.Keys == {} then []
    else
      FirstExists(refs);
      var m :| IsFirst(refs, m);
      assert |(refs - {m}).Keys| < |refs.Keys| by { assert (refs - {m}).Keys == refs.Keys - {m}; }
      [m] + Ordered(refs - {m})
  }

  lemma {:induction false} OrderedMembers(refs: map<RowId, string>)
    ensures |Ordered(refs)| == |refs.Keys|
    ensures forall id :: id in Ordered(refs) <==> id in refs
    decreases |refs|
  {
    if refs.Keys != {} {
      FirstExists(refs);
      var m := Ordered(refs)[0];
      var rest := refs - {m};
      assert Ordered(refs) == [m] + Ordered(rest);
      assert rest.Keys == refs.Keys - {m};
      assert |refs.Keys| == |rest.Keys| + 1;
      OrderedMembers(rest);
    }
  }

  ghost predicate InOrder(refs: map<RowId, string>, a: RowId, b: RowId) {
    a in refs && b in refs && a != b && LexLeq(refs[a], refs[b])
  }

  lemma {:induction false} OrderedInOrder(refs: map<RowId, string>, i: nat, j: nat)
    requires i < j < |Ordered(refs)|
    ensures InOrder(refs, Ordered(refs)[i], Ordered(refs)[j])
    decreases |refs|
  {
    FirstExists(refs);
    var m := Ordered(refs)[0];
    var rest := refs - {m};
    assert Ordered(refs) == [m] + Ordered(rest);
    assert |rest.Keys| < |refs.Keys| by { assert rest.Keys == refs.Keys - {m}; }
    if i == 0 {
      OrderedMembers(rest);
      assert Ordered(refs)[j] in Ordered(rest);
    } else {
      OrderedInOrder(rest, i - 1, j - 1);
    }
  }

  function Take<T>(xs: seq<T>, limit: nat): seq<T> {
    if |xs| <= limit then xs else xs[..limit]
  }

  /** `list_current`: LIMIT and OFFSET over the current rows by reference. */
  ghost function Page(s: Store, ws: WorkspaceId, limit: nat, offset: nat): seq<RowId> {
    Take(After(Ordered(Refs(s, CurrentIds(s, ws))), offset), limit)
  }

  function After<T>(xs: seq<T>, offset: nat): seq<T> {
    if offset <= |xs| then xs[offset..] else []
  }

  lemma PageIsCut(s: Store, ws: WorkspaceId, limit: nat, offset: nat)
    ensures Page(s, ws, limit, offset) == After(Take(Ordered(Refs(s, CurrentIds(s, ws))), offset + limit), offset)
  {
  }

  /** Page by page, a listing gives the rows in order of reference, none skipped and none twice. */
  lemma PageHolds(s: Store, ws: WorkspaceId, limit: nat, offset: nat, i: nat)
    ensures var all, page := Ordered(Refs(s, CurrentIds(s, ws))), Page(s, ws, limit, offset);
      && |page| == (if offset + limit <= |all| then limit else if offset <= |all| then |all| - offset else 0)
      && (i < |page| ==> page[i] == all[offset + i])
  {
  }

  lemma FirstPage(s: Store, ws: WorkspaceId, limit: nat)
    ensures Page(s, ws, limit, 0) == ListCurrent(s, ws, limit)
  {
    var all := Ordered(Refs(s, CurrentIds(s, ws)));
    assert all[0..] == all;
  }

  /** What the gate lists: the first page. */
  ghost function ListCurrent(s: Store, ws: WorkspaceId, limit: nat): seq<RowId> {
    Take(Ordered(Refs(s, CurrentIds(s, ws))), limit)
  }

  /** `_blocking_refs` */
  ghost function BlockingIds(s: Store, ws: WorkspaceId): seq<RowId> {
    Take(Ordered(Refs(s, MandatoryIds(s, ws) - SignedMandatoryIds(s, ws))), EXAMPLE_LIMIT)
  }

  // ------------------------------------------------------------ the bundle

  /** `_source_documents`: distinct names, in the order they are first cited. */
  function SourceDocuments(citations: seq<Citation>): seq<string> {
    if citations == [] then []
    else
      var seen := SourceDocuments(citations[..|citations| - 1]);
      var name := Strip(citations[|citations| - 1].documentName);
      if name != "" && name !in seen then seen + [name] else seen
  }

  lemma {:induction false} SourceDocumentsDistinct(citations: seq<Citation>, i: nat, j: nat)
    requires i < j < |SourceDocuments(citations)|
    ensures SourceDocuments(citations)[i] != SourceDocuments(citations)[j]
  {
    var front := citations[..|citations| - 1];
    if j < |SourceDocuments(front)| {
      SourceDocumentsDistinct(front, i, j);
    }
  }

  /** Exactly the named documents that are cited appear. */
  lemma {:induction false} SourceDocumentsMembers(citations: seq<Citation>, n: string)
    ensures n in SourceDocuments(citations) <==>
      n != "" && exists i :: 0 <= i < |citations| && Strip(citations[i].documentName) == n
  {
    if citations != [] {
      var front, last := citations[..|citations| - 1], citations[|citations| - 1];
      SourceDocumentsMembers(front, n);
      if n in SourceDocuments(citations) && n !in SourceDocuments(front) {
        assert Strip(citations[|citations| - 1].documentName) == n;
      }
    }
  }

  /** Citing more never disturbs the names already listed: they stand in first-cited order. */
  lemma {:induction false} SourceDocumentsInOrder(citations: seq<Citation>, k: nat)
    requires k <= |citations|
    ensures SourceDocuments(citations[..k]) <= SourceDocuments(citations)
  {
    if k == |citations| {
      assert citations[..k] == citations;
    } else {
      var front := citations[..|citations| - 1];
      assert front[..k] == citations[..k];
      SourceDocumentsInOrder(front, k);
    }
  }

  method ListSourceDocuments(citations: seq<Citation>) returns (seen: seq<string>)
    ensures seen == SourceDocuments(citations)
  {
    seen := [];
    for i := 0 to |citations|
      invariant seen == SourceDocuments(citations[..i])
    {
      assert citations[..i + 1][..i] == citations[..i];
      var name := Strip(citations[i].documentName);
      if name != "" && name !in seen {
        seen := seen + [name];
      }
    }
    assert citations[..|citations|] == citations;
  }

  function ToRow(r: Row): ExportRow {
    ExportRow(r.ref, r.born.requirementText, r.born.isMandatory, r.status, r.born.sectionPath,
              if SignedOff(r) then FinalText(r) else None,
              SourceDocuments(r.born.citations), |r.born.citations|, r.reviewedBy, r.reviewedAt,
              r.editedText.Some? && r.editedText.value != "" && r.editedText != r.born.answerText, r.born.confidence)
  }

  function ToRows(s: Store, ids: seq<RowId>): (rows: seq<ExportRow>)
    requires forall id :: id in ids ==> id in s.rows
  {
    seq(|ids|, i requires 0 <= i < |ids| => ToRow(s.rows[ids[i]]))
  }

  predicate IsAnswered(row: ExportRow) {
    NonBlank(row.answerText)
  }

  /** `answered_rows`: the rows of the response document. */
  function AnsweredRows(rows: seq<ExportRow>): seq<ExportRow> {
    if rows == [] then []
    else AnsweredRows(rows[..|rows| - 1]) + if IsAnswered(rows[|rows| - 1]) then [rows[|rows| - 1]] else []
  }

  function WithStatus(s: Store, ids: seq<RowId>, status: Status): seq<RowId>
    requires forall id :: id in ids ==> id in s.rows
  {
    if ids == [] then []
    else
      var last := ids[|ids| - 1];
      WithStatus(s, ids[..|ids| - 1], status) + if s.rows[last].status == status then [last] else []
  }

  /** The signed-off rows among `ids`, in the same order. */
  function SignedOffIds(s: Store, ids: seq<RowId>): seq<RowId>
    requires forall id :: id in ids ==> id in s.rows
  {
    if ids == [] then []
    else SignedOffIds(s, ids[..|ids| - 1]) + if SignedOff(s.rows[ids[|ids| - 1]]) then [ids[|ids| - 1]] else []
  }

  lemma ListedRowsExist(s: Store, ws: WorkspaceId, limit: nat)
    ensures forall id :: id in ListCurrent(s, ws, limit) ==> id in CurrentIds(s, ws)
  {
    var all := Ordered(Refs(s, CurrentIds(s, ws)));
    OrderedMembers(Refs(s, CurrentIds(s, ws)));
    assert forall id :: id in Take(all, limit) ==> id in all;
  }

  lemma BlockingRowsExist(s: Store, ws: WorkspaceId)
    ensures forall i :: 0 <= i < |BlockingIds(s, ws)| ==>
      BlockingIds(s, ws)[i] in MandatoryIds(s, ws) - SignedMandatoryIds(s, ws)
  {
    var all := Ordered(Refs(s, MandatoryIds(s, ws) - SignedMandatoryIds(s, ws)));
    OrderedMembers(Refs(s, MandatoryIds(s, ws) - SignedMandatoryIds(s, ws)));
    forall i | 0 <= i < |BlockingIds(s, ws)|
      ensures BlockingIds(s, ws)[i] in MandatoryIds(s, ws) - SignedMandatoryIds(s, ws)
    {
      assert all[i] in all;
    }
  }

  /** The references `_blocking_refs` puts in the refusal. */
  ghost function BlockingRefs(s: Store, ws: WorkspaceId): seq<string> {
    BlockingRowsExist(s, ws);
    var blocking := BlockingIds(s, ws);
    seq(|blocking|, i requires 0 <= i < |blocking| => s.rows[blocking[i]].ref)
  }

  /** What an open gate hands on: the rows listed at one moment, and which of them to mark. */
  ghost function Bundle(s: Store, ws: WorkspaceId): (g: Gate)
    ensures g.Open?
  {
    ListedRowsExist(s, ws, EXPORT_LIMIT);
    var ids := ListCurrent(s, ws, EXPORT_LIMIT);
    Open(ToRows(s, ids), WithStatus(s, ids, Approved))
  }

  /** `_collect`: the gate, then the bundle and the ids to mark. */
  ghost function Collect(s: Store, ws: WorkspaceId, workspaceLive: bool): Gate {
    var (approved, total) := CountApproved(s, ws);
    if !workspaceLive then NoWorkspace
    else if total == 0 then Blocked(0, 0, [])
    else if approved < total then
      Blocked(total - approved, total, BlockingRefs(s, ws))
    else Bundle(s, ws)
  }

  /**
   `_collect` among other sessions: the total, the approved count and the listing are statements of their own, each
   of which sees what had committed at its moment.
   */
  ghost function CollectAcross(es: seq<Event>, ws: WorkspaceId, counted: nat, approved: nat, listed: nat): Gate
    requires counted <= approved <= listed <= |es|
  {
    var total := |MandatoryIds(State(es[..counted]), ws)|;
    var signed := |SignedMandatoryIds(State(es[..approved]), ws)|;
    if total == 0 then Blocked(0, 0, [])
    else if signed < total then Blocked(total - signed, total, BlockingRefs(State(es[..listed]), ws))
    else Bundle(State(es[..listed]), ws)
  }

  // ------------------------------------------------------------ when the gate opens

  lemma SubsetOfSameSize<T>(a: set<T>, b: set<T>)
    requires a <= b
    ensures |a| <= |b|
    ensures |a| == |b| <==> a == b
  {
    assert b == a + (b - a);
    assert |b| == |a| + |b - a|;
  }

  /** What `progress` reports: how many mandatory rows there are, how many are signed off, and how many are not. */
  lemma ProgressCounts(s: Store, ws: WorkspaceId)
    ensures var p, open_ := ProgressOf(s, ws), MandatoryIds(s, ws) - SignedMandatoryIds(s, ws);
      && p.total == |MandatoryIds(s, ws)| && p.approved + |open_| == p.total && p.outstanding == |open_|
      && forall id :: id in open_ <==>
           id in s.rows && s.rows[id].isCurrent && s.rows[id].workspace == ws && s.rows[id].born.isMandatory
           && s.rows[id].status != Approved && s.rows[id].status != Exported
  {
    OutstandingCount(s, ws);
  }

  /** The gate opens exactly when `progress` reports ready: there is something mandatory and all of it is signed off. */
  lemma GateOpensIffReady(s: Store, ws: WorkspaceId)
    ensures Collect(s, ws, true).Open? <==> ProgressOf(s, ws).ready
    ensures Collect(s, ws, false) == NoWorkspace && Collect(s, ws, true) != NoWorkspace
    ensures ProgressOf(s, ws).ready <==>
      MandatoryIds(s, ws) != {} && forall id :: id in MandatoryIds(s, ws) ==> SignedOff(s.rows[id])
  {
    SubsetOfSameSize(SignedMandatoryIds(s, ws), MandatoryIds(s, ws));
    assert SignedMandatoryIds(s, ws) == MandatoryIds(s, ws) <==>
           forall id :: id in MandatoryIds(s, ws) ==> SignedOff(s.rows[id]);
  }

  lemma OutstandingCount(s: Store, ws: WorkspaceId)
    ensures |MandatoryIds(s, ws)| == |SignedMandatoryIds(s, ws)| + |MandatoryIds(s, ws) - SignedMandatoryIds(s, ws)|
  {
    assert MandatoryIds(s, ws) == SignedMandatoryIds(s, ws) + (MandatoryIds(s, ws) - SignedMandatoryIds(s, ws));
  }

  /** `refs` are the first references of `open_` in order: as many as asked for, and nothing left out sorts earlier. */
  ghost predicate FirstRefs(s: Store, open_: set<RowId>, refs: seq<string>, limit: nat) {
    && open_ <= s.rows.Keys
    && |refs| == (if |open_| <= limit then |open_| else limit)
    && (forall i :: 0 <= i < |refs| ==> exists id :: id in open_ && s.rows[id].ref == refs[i])
    && (forall i, j :: 0 <= i < j < |refs| ==> LexLeq(refs[i], refs[j]))
    && (forall id, i :: id in open_ && 0 <= i < |refs| && s.rows[id].ref !in refs ==> LexLeq(refs[i], s.rows[id].ref))
  }

  lemma TakenInOrder(refs: map<RowId, string>, limit: nat, i: nat, j: nat)
    requires i < j < |Take(Ordered(refs), limit)|
    ensures InOrder(refs, Take(Ordered(refs), limit)[i], Take(Ordered(refs), limit)[j])
  {
    OrderedInOrder(refs, i, j);
  }

  lemma TakenComeFirst(refs: map<RowId, string>, limit: nat, i: nat, id: RowId)
    requires i < |Take(Ordered(refs), limit)| && id in refs && id !in Take(Ordered(refs), limit)
    ensures InOrder(refs, Take(Ordered(refs), limit)[i], id)
  {
    OrderedMembers(refs);
    assert id in Ordered(refs);
    var n :| 0 <= n < |Ordered(refs)| && Ordered(refs)[n] == id;
    assert forall m :: 0 <= m < |Take(Ordered(refs), limit)| ==> Take(Ordered(refs), limit)[m] == Ordered(refs)[m];
    OrderedInOrder(refs, i, n);
  }

  /** The rows whose references a refusal names. */
  lemma ExamplesAreOutstanding(s: Store, ws: WorkspaceId)
    ensures var open_, examples := MandatoryIds(s, ws) - SignedMandatoryIds(s, ws), BlockingRefs(s, ws);
      && |examples| == |BlockingIds(s, ws)| == (if |open_| <= EXAMPLE_LIMIT then |open_| else EXAMPLE_LIMIT)
      && (forall i :: 0 <= i < |examples| ==>
            BlockingIds(s, ws)[i] in open_ && s.rows[BlockingIds(s, ws)[i]].ref == examples[i])
  {
    var open_ := MandatoryIds(s, ws) - SignedMandatoryIds(s, ws);
    OrderedMembers(Refs(s, open_));
    assert Refs(s, open_).Keys == open_;
    BlockingRowsExist(s, ws);
  }

  lemma ExamplesInOrder(s: Store, ws: WorkspaceId, i: nat, j: nat)
    requires i < j < |BlockingRefs(s, ws)|
    ensures LexLeq(BlockingRefs(s, ws)[i], BlockingRefs(s, ws)[j])
    ensures OneCurrent(s) ==> BlockingRefs(s, ws)[i] != BlockingRefs(s, ws)[j]
  {
    var open_, blocking := MandatoryIds(s, ws) - SignedMandatoryIds(s, ws), BlockingIds(s, ws);
    ExamplesAreOutstanding(s, ws);
    TakenInOrder(Refs(s, open_), EXAMPLE_LIMIT, i, j);
    var ref := s.rows[blocking[i]].ref;
    assert s.rows[blocking[j]].ref == ref ==>
      IsCurrentFor(s, blocking[i], ws, ref) && IsCurrentFor(s, blocking[j], ws, ref);
  }

  lemma ExamplesComeFirst(s: Store, ws: WorkspaceId, i: nat, id: RowId)
    requires i < |BlockingRefs(s, ws)| && id in MandatoryIds(s, ws) - SignedMandatoryIds(s, ws)
    requires s.rows[id].ref !in BlockingRefs(s, ws)
    ensures LexLeq(BlockingRefs(s, ws)[i], s.rows[id].ref)
  {
    var refs, blocking := Refs(s, MandatoryIds(s, ws) - SignedMandatoryIds(s, ws)), BlockingIds(s, ws);
    ExamplesAreOutstanding(s, ws);
    forall n | 0 <= n < |blocking| ensures blocking[n] != id {
      assert s.rows[blocking[n]].ref == BlockingRefs(s, ws)[n];
      assert BlockingRefs(s, ws)[n] in BlockingRefs(s, ws);
    }
    TakenComeFirst(refs, EXAMPLE_LIMIT, i, id);
  }

  lemma ExamplesAreFirst(s: Store, ws: WorkspaceId)
    ensures FirstRefs(s, MandatoryIds(s, ws) - SignedMandatoryIds(s, ws), BlockingRefs(s, ws), EXAMPLE_LIMIT)
  {
    var open_, examples := MandatoryIds(s, ws) - SignedMandatoryIds(s, ws), BlockingRefs(s, ws);
    ExamplesAreOutstanding(s, ws);
    forall i, j | 0 <= i < j < |examples| ensures LexLeq(examples[i], examples[j]) {
      ExamplesInOrder(s, ws, i, j);
    }
    forall id, i | id in open_ && 0 <= i < |examples| && s.rows[id].ref !in examples
      ensures LexLeq(examples[i], s.rows[id].ref)
    {
      ExamplesComeFirst(s, ws, i, id);
    }
  }

  /**
   A refusal counts exactly the outstanding mandatory rows and names the first ten of their references in order, or
   all when fewer; each once, as long as the unique index holds.
   */
  lemma RefusalNamesBlockers(s: Store, ws: WorkspaceId)
    requires Collect(s, ws, true).Blocked?
    ensures var g := Collect(s, ws, true); var open_ := MandatoryIds(s, ws) - SignedMandatoryIds(s, ws);
      && g.outstanding == |open_| && FirstRefs(s, open_, g.examples, 10)
      && (OneCurrent(s) ==> forall i, j :: 0 <= i < j < |g.examples| ==> g.examples[i] != g.examples[j])
  {
    OutstandingCount(s, ws);
    ExamplesAreFirst(s, ws);
    forall i, j | 0 <= i < j < |BlockingRefs(s, ws)| && OneCurrent(s)
      ensures BlockingRefs(s, ws)[i] != BlockingRefs(s, ws)[j]
    {
      ExamplesInOrder(s, ws, i, j);
    }
  }

  /**
   Read at three moments the gate compares the total of the first with the sign-offs of the second, and a refusal names
   what is outstanding at the third.
   */
  lemma OpensAcrossIff(es: seq<Event>, ws: WorkspaceId, counted: nat, approved: nat, listed: nat)
    requires counted <= approved <= listed <= |es|
    ensures var g := CollectAcross(es, ws, counted, approved, listed);
      var total, signed := |MandatoryIds(State(es[..counted]), ws)|, |SignedMandatoryIds(State(es[..approved]), ws)|;
      var t := State(es[..listed]);
      && (g.Open? <==> total > 0 && signed >= total)
      && (total > signed ==>
            && g.Blocked? && g.outstanding == total - signed && g.total == total
            && FirstRefs(t, MandatoryIds(t, ws) - SignedMandatoryIds(t, ws), g.examples, 10))
  {
    ExamplesAreFirst(State(es[..listed]), ws);
  }

  // ------------------------------------------------------------ what leaves the system

  lemma {:induction false} AnsweredAreSignedOff(s: Store, ids: seq<RowId>)
    requires forall id :: id in ids ==> id in s.rows
    requires forall id :: id in ids && SignedOff(s.rows[id]) ==> NonBlank(FinalText(s.rows[id]))
    ensures forall id :: id in SignedOffIds(s, ids) ==> id in ids && SignedOff(s.rows[id])
    ensures AnsweredRows(ToRows(s, ids)) == ToRows(s, SignedOffIds(s, ids))
  {
    if ids != [] {
      var front, last := ids[..|ids| - 1], ids[|ids| - 1];
      assert ToRows(s, ids)[..|ids| - 1] == ToRows(s, front);
      assert last in ids;
      AnsweredAreSignedOff(s, front);
    }
  }

  lemma SignedRowsHaveText(es: seq<Event>)
    requires ValidRun(es)
    ensures forall id :: id in State(es).rows && SignedOff(State(es).rows[id]) ==>
      NonBlank(FinalText(State(es).rows[id]))
  {
    forall id | id in State(es).rows && SignedOff(State(es).rows[id]) ensures NonBlank(FinalText(State(es).rows[id])) {
      var _ := SignOff(es, id);
    }
  }

  lemma RowIsAnsweredIffSignedOff(r: Row)
    requires SignedOff(r) ==> NonBlank(FinalText(r))
    ensures IsAnswered(ToRow(r)) <==> SignedOff(r)
    ensures ToRow(r).answerText == if SignedOff(r) then FinalText(r) else None
  {
  }

  /** The response document holds exactly the rows whose text has some content. */
  lemma {:induction false} AnsweredRowsHaveContent(rows: seq<ExportRow>, row: ExportRow)
    ensures row in AnsweredRows(rows) <==>
      row in rows && row.answerText.Some? && NonSpace(row.answerText.value) != ""
    decreases |rows|
  {
    if rows != [] {
      var front, last := rows[..|rows| - 1], rows[|rows| - 1];
      AnsweredRowsHaveContent(front, row);
      assert row in rows <==> row in front || row == last;
      if last.answerText.Some? { BlankIffNoContent(last.answerText.value); }
    }
  }

  /** What a row of the matrix says of the row it stands for, column by column. */
  ghost predicate Tells(row: ExportRow, r: Row) {
    && row.ref == r.ref && row.requirementText == r.born.requirementText && row.isMandatory == r.born.isMandatory
    && row.sectionPath == r.born.sectionPath && row.status == r.status && row.confidence == r.born.confidence
    && row.reviewer == r.reviewedBy && row.reviewedAt == r.reviewedAt && row.citationCount == |r.born.citations|
    && (row.answerText.Some? ==> r.status == Approved || r.status == Exported)
    && (row.wasEdited <==> r.editedText.Some? && r.editedText != Some("") && r.editedText != r.born.answerText)
    && (forall n :: n in row.sourceDocuments <==>
          n != "" && exists i :: 0 <= i < |r.born.citations| && Strip(r.born.citations[i].documentName) == n)
  }

  lemma RowTells(r: Row)
    ensures Tells(ToRow(r), r)
  {
    forall n ensures n in SourceDocuments(r.born.citations) <==>
      n != "" && exists i :: 0 <= i < |r.born.citations| && Strip(r.born.citations[i].documentName) == n
    {
      SourceDocumentsMembers(r.born.citations, n);
    }
  }

  /** Row `i` of a bundle tells of the `i`-th row listed; the rows to mark are those of them that are approved. */
  lemma BundleTells(s: Store, ws: WorkspaceId)
    ensures var g, ids := Bundle(s, ws), ListCurrent(s, ws, EXPORT_LIMIT);
      && |g.rows| == |ids|
      && (forall i :: 0 <= i < |ids| ==> ids[i] in CurrentIds(s, ws) && Tells(g.rows[i], s.rows[ids[i]]))
      && (forall id :: id in g.exportable <==> id in ids && id in s.rows && s.rows[id].status == Approved)
  {
    var ids := ListCurrent(s, ws, EXPORT_LIMIT);
    ListedRowsExist(s, ws, EXPORT_LIMIT);
    StatusMembers(s, ids, Approved);
    forall i | 0 <= i < |ids| ensures ids[i] in CurrentIds(s, ws) && Tells(Bundle(s, ws).rows[i], s.rows[ids[i]]) {
      assert ids[i] in ids;
      RowTells(s.rows[ids[i]]);
    }
  }

  /** On every reachable table the response document of a bundle holds exactly the listed signed-off rows. */
  lemma ResponseIsExactlySignedOff(es: seq<Event>, ws: WorkspaceId)
    requires ValidRun(es)
    ensures var s := State(es); var ids := ListCurrent(s, ws, EXPORT_LIMIT);
      && (forall id :: id in ids ==> id in CurrentIds(s, ws))
      && (forall id :: id in SignedOffIds(s, ids) ==> id in ids && SignedOff(s.rows[id]))
      && AnsweredRows(Bundle(s, ws).rows) == ToRows(s, SignedOffIds(s, ids))
  {
    ListedRowsExist(State(es), ws, EXPORT_LIMIT);
    SignedRowsHaveText(es);
    AnsweredAreSignedOff(State(es), ListCurrent(State(es), ws, EXPORT_LIMIT));
  }

  /** A row of the matrix carries text exactly when it is signed off, and then the text is not blank. */
  lemma MatrixTextIsSignedOff(es: seq<Event>, ws: WorkspaceId, row: ExportRow)
    requires ValidRun(es) && row in Bundle(State(es), ws).rows
    ensures IsAnswered(row) <==> row.status == Approved || row.status == Exported
    ensures IsAnswered(row) <==> row.answerText.Some?
  {
    var s := State(es);
    var ids := ListCurrent(s, ws, EXPORT_LIMIT);
    ListedRowsExist(s, ws, EXPORT_LIMIT);
    SignedRowsHaveText(es);
    forall i | 0 <= i < |ids| ensures ids[i] in s.rows {
      assert ids[i] in ids;
    }
    var i :| 0 <= i < |ids| && row == ToRow(s.rows[ids[i]]);
    RowIsAnsweredIffSignedOff(s.rows[ids[i]]);
  }

  /** Each shipped text is the one an owner or a bid manager approved, in one accepted call. */
  lemma ShippedTextWasApproved(es: seq<Event>, ws: WorkspaceId, row: ExportRow) returns (id: RowId, k: nat)
    requires ValidRun(es) && row in AnsweredRows(Bundle(State(es), ws).rows)
    ensures id in CurrentIds(State(es), ws) && row == ToRow(State(es).rows[id]) && StandingApproval(es, k, id)
    ensures id in State(es[..k]).rows && row.answerText == FinalText(State(es[..k]).rows[id])
    ensures row.reviewer == Some(es[k].actor) && (es[k].role == Owner || es[k].role == BidManager)
  {
    ResponseIsExactlySignedOff(es, ws);
    var s := State(es);
    var signed := SignedOffIds(s, ListCurrent(s, ws, EXPORT_LIMIT));
    assert row in ToRows(s, signed);
    var i :| 0 <= i < |signed| && row == ToRow(s.rows[signed[i]]);
    id := signed[i];
    assert id in signed;
    k := SignOff(es, id);
  }

  /** The matrix runs in reference order and names no requirement twice. */
  lemma MatrixInOrder(es: seq<Event>, ws: WorkspaceId, i: nat, j: nat)
    requires i < j < |Bundle(State(es), ws).rows|
    ensures var rows := Bundle(State(es), ws).rows;
      rows[i].ref != rows[j].ref && LexLeq(rows[i].ref, rows[j].ref)
  {
    Reachable(es);
    var s := State(es);
    var refs := Refs(s, CurrentIds(s, ws));
    var a, b := Ordered(refs)[i], Ordered(refs)[j];
    OrderedInOrder(refs, i, j);
    assert InOrder(refs, a, b);
    assert refs[a] == refs[b] ==> IsCurrentFor(s, a, ws, refs[a]) && IsCurrentFor(s, b, ws, refs[a]);
  }

  /** The matrix has one row per current requirement exactly when they fit the query's limit. */
  lemma MatrixCompleteIffWithinLimit(s: Store, ws: WorkspaceId)
    ensures |CurrentIds(s, ws)| <= 10_000 <==>
            forall id :: id in CurrentIds(s, ws) ==> id in ListCurrent(s, ws, EXPORT_LIMIT)
    ensures |CurrentIds(s, ws)| <= 10_000 <==> |Bundle(s, ws).rows| == |CurrentIds(s, ws)|
    ensures forall id :: id in ListCurrent(s, ws, EXPORT_LIMIT) ==>
      id in s.rows && ToRow(s.rows[id]) in Bundle(s, ws).rows
  {
    var refs, listed := Refs(s, CurrentIds(s, ws)), ListCurrent(s, ws, EXPORT_LIMIT);
    var all := Ordered(refs);
    assert refs.Keys == CurrentIds(s, ws);
    OrderedMembers(refs);
    ListedRowsExist(s, ws, EXPORT_LIMIT);
    forall id | id in listed ensures ToRow(s.rows[id]) in Bundle(s, ws).rows {
      var i :| 0 <= i < |listed| && listed[i] == id;
      assert Bundle(s, ws).rows[i] == ToRow(s.rows[id]);
    }
    if |all| > EXPORT_LIMIT {
      var left := all[EXPORT_LIMIT];
      assert left in all;
      forall i | 0 <= i < EXPORT_LIMIT ensures all[i] != left {
        OrderedInOrder(refs, i, EXPORT_LIMIT);
      }
      assert left !in listed;
    }
  }

  /** Within the limit the response holds a current row, with its final text, exactly when it is signed off. */
  lemma RowShipsIffSignedOff(es: seq<Event>, ws: WorkspaceId, id: RowId)
    requires ValidRun(es) && |CurrentIds(State(es), ws)| <= EXPORT_LIMIT && id in CurrentIds(State(es), ws)
    ensures ToRow(State(es).rows[id]) in AnsweredRows(Bundle(State(es), ws).rows) <==> SignedOff(State(es).rows[id])
    ensures SignedOff(State(es).rows[id]) ==> ToRow(State(es).rows[id]).answerText == FinalText(State(es).rows[id])
  {
    MatrixCompleteIffWithinLimit(State(es), ws);
    MatrixTextIsSignedOff(es, ws, ToRow(State(es).rows[id]));
    AnsweredMembers(Bundle(State(es), ws).rows, ToRow(State(es).rows[id]));
  }

  /** Every mandatory row of the workspace is in the response. */
  ghost predicate ShipsAllMandatory(s: Store, ws: WorkspaceId, rows: seq<ExportRow>) {
    forall id :: id in MandatoryIds(s, ws) ==> ToRow(s.rows[id]) in AnsweredRows(rows)
  }

  lemma OpensIffAllSigned(s: Store, ws: WorkspaceId)
    ensures (forall id :: id in MandatoryIds(s, ws) ==> SignedOff(s.rows[id]))
      <==> MandatoryIds(s, ws) == {} || Collect(s, ws, true).Open?
  {
    GateOpensIffReady(s, ws);
  }

  /** An open gate hands on the bundle of the moment it listed; counted at that moment too, it was ready then. */
  lemma OpenIsTheBundle(es: seq<Event>, ws: WorkspaceId, counted: nat, approved: nat, listed: nat)
    requires counted <= approved <= listed <= |es| && CollectAcross(es, ws, counted, approved, listed).Open?
    ensures CollectAcross(es, ws, counted, approved, listed) == Bundle(State(es[..listed]), ws)
    ensures counted == listed ==> Collect(State(es[..listed]), ws, true).Open?
  {
  }

  lemma ShipsAllIffSignedOff(es: seq<Event>, ws: WorkspaceId)
    requires ValidRun(es) && |CurrentIds(State(es), ws)| <= EXPORT_LIMIT
    ensures ShipsAllMandatory(State(es), ws, Bundle(State(es), ws).rows)
      <==> forall id :: id in MandatoryIds(State(es), ws) ==> SignedOff(State(es).rows[id])
  {
    var s := State(es);
    forall id | id in MandatoryIds(s, ws)
      ensures ToRow(s.rows[id]) in AnsweredRows(Bundle(s, ws).rows) <==> SignedOff(s.rows[id])
    {
      RowShipsIffSignedOff(es, ws, id);
    }
  }

  /**
   Within the limit an open gate ships every mandatory requirement of the moment it listed, if and only if the gate
   would have opened on that moment alone, or nothing was mandatory any more. Read at one moment, it always does.
   */
  lemma EveryMandatoryRequirementShips(es: seq<Event>, ws: WorkspaceId, counted: nat, approved: nat, listed: nat)
    requires ValidRun(es) && counted <= approved <= listed <= |es|
    requires CollectAcross(es, ws, counted, approved, listed).Open?
    requires |CurrentIds(State(es[..listed]), ws)| <= EXPORT_LIMIT
    ensures var s := State(es[..listed]);
      && (ShipsAllMandatory(s, ws, CollectAcross(es, ws, counted, approved, listed).rows)
          <==> MandatoryIds(s, ws) == {} || Collect(s, ws, true).Open?)
      && (counted == listed ==> ShipsAllMandatory(s, ws, CollectAcross(es, ws, counted, approved, listed).rows))
  {
    OpenIsTheBundle(es, ws, counted, approved, listed);
    OpensIffAllSigned(State(es[..listed]), ws);
    ShipsAllIffSignedOff(es[..listed], ws);
  }

  /** Read at one moment, the gate is the gate of that moment's table. */
  lemma AtOneMoment(es: seq<Event>, ws: WorkspaceId)
    ensures CollectAcross(es, ws, |es|, |es|, |es|) == Collect(State(es), ws, true)
  {
    assert es[..|es|] == es;
  }

  /**
   The race: an edit that revokes an approval between the count and the listing lets the bundle through without a
   mandatory requirement.
   */
  lemma CollectRace(es: seq<Event>, ws: WorkspaceId, id: RowId, actor: UserId, words: string)
    requires ValidRun(es) && Collect(State(es), ws, true).Open?
    requires id in MandatoryIds(State(es), ws) && State(es).rows[id].status == Approved
    ensures var revoke := Edit(id, actor, Owner, words, State(es).rows[id].version, None);
      var later := es + [revoke];
      var g := CollectAcross(later, ws, |es|, |es|, |later|);
      && ValidRun(later) && AcceptedAt(later, |es|) && g.Open?
      && id in MandatoryIds(State(later), ws) && ToRow(State(later).rows[id]) !in AnsweredRows(g.rows)
  {
    var revoke := Edit(id, actor, Owner, words, State(es).rows[id].version, None);
    var later := es + [revoke];
    assert later[..|es|] == es && later[..|later|] == later;
    StateSnoc(es, revoke);
    assert State(later).rows[id] == Edited(State(es).rows[id], revoke);
    AnsweredMembers(Bundle(State(later), ws).rows, ToRow(State(later).rows[id]));
  }

  lemma {:induction false} AnsweredMembers(rows: seq<ExportRow>, row: ExportRow)
    ensures row in AnsweredRows(rows) <==> row in rows && IsAnswered(row)
  {
    if rows != [] {
      AnsweredMembers(rows[..|rows| - 1], row);
    }
  }

  // ------------------------------------------------------------ marking what was collected

  lemma {:induction false} StatusMembers(s: Store, ids: seq<RowId>, status: Status)
    requires forall id :: id in ids ==> id in s.rows
    ensures forall id :: id in WithStatus(s, ids, status) <==> id in ids && s.rows[id].status == status
  {
    if ids != [] {
      var front, last := ids[..|ids| - 1], ids[|ids| - 1];
      assert forall id :: id in ids <==> id in front || id == last;
      StatusMembers(s, front, status);
    }
  }

  lemma {:induction false} NoneWithStatus(s: Store, ids: seq<RowId>, status: Status)
    requires forall id :: id in ids ==> id in s.rows && s.rows[id].status != status
    ensures WithStatus(s, ids, status) == []
  {
    if ids != [] {
      assert ids[|ids| - 1] in ids;
      NoneWithStatus(s, ids[..|ids| - 1], status);
    }
  }

  /** Equal but for the approved status having become exported. */
  predicate SameButExported(a: ExportRow, b: ExportRow) {
    b == a.(status := if a.status == Approved then Exported else a.status)
  }

  /** Marking any set of rows moves neither count nor listing. */
  lemma MarkingKeepsCounts(s: Store, ws: WorkspaceId, ids: set<RowId>)
    ensures CountApproved(Marked(s, ids), ws) == CountApproved(s, ws)
    ensures ListCurrent(Marked(s, ids), ws, EXPORT_LIMIT) == ListCurrent(s, ws, EXPORT_LIMIT)
  {
    var t := Marked(s, ids);
    assert CurrentIds(t, ws) == CurrentIds(s, ws);
    assert MandatoryIds(t, ws) == MandatoryIds(s, ws);
    assert SignedMandatoryIds(t, ws) == SignedMandatoryIds(s, ws);
    assert Refs(t, CurrentIds(t, ws)) == Refs(s, CurrentIds(s, ws));
  }

  lemma MarkedRowShipsTheSame(s: Store, ids: set<RowId>, id: RowId)
    requires id in s.rows && (s.rows[id].status == Approved ==> id in ids)
    ensures id in Marked(s, ids).rows && Marked(s, ids).rows[id].status != Approved
    ensures SameButExported(ToRow(s.rows[id]), ToRow(Marked(s, ids).rows[id]))
  {
  }

  /** A set of rows that covers every approved one in a list leaves nothing of the list approved. */
  lemma MarkingCollected(s: Store, ids: seq<RowId>, marked: set<RowId>)
    requires forall id :: id in ids ==> id in s.rows && (s.rows[id].status == Approved ==> id in marked)
    ensures forall id :: id in ids ==> id in Marked(s, marked).rows
    ensures WithStatus(Marked(s, marked), ids, Approved) == []
    ensures var g, h := ToRows(s, ids), ToRows(Marked(s, marked), ids);
      |h| == |g| && forall i :: 0 <= i < |g| ==> SameButExported(g[i], h[i])
  {
    var t := Marked(s, marked);
    forall id | id in ids ensures t.rows[id].status != Approved {
      MarkedRowShipsTheSame(s, marked, id);
    }
    NoneWithStatus(t, ids, Approved);
    forall i | 0 <= i < |ids| ensures SameButExported(ToRow(s.rows[ids[i]]), ToRow(t.rows[ids[i]])) {
      assert ids[i] in ids;
      MarkedRowShipsTheSame(s, marked, ids[i]);
    }
  }

  function IdSet(ids: seq<RowId>): set<RowId> {
    set id | id in ids
  }

  /**
   Collect followed at once by mark: both counts stand, the gate stays open, and collecting again yields the same
   requirements, texts and reviewers, with nothing left to mark.
   */
  lemma MarkingKeepsTheGateOpen(s: Store, ws: WorkspaceId)
    requires Collect(s, ws, true).Open?
    ensures var g := Collect(s, ws, true);
      var t := Apply(s, MarkExported(IdSet(g.exportable)));
      var h := Collect(t, ws, true);
      && CountApproved(t, ws) == CountApproved(s, ws)
      && h.Open? && h.exportable == []
      && |h.rows| == |g.rows| && forall i :: 0 <= i < |g.rows| ==> SameButExported(g.rows[i], h.rows[i])
  {
    var ids := ListCurrent(s, ws, EXPORT_LIMIT);
    var marked := IdSet(Collect(s, ws, true).exportable);
    ListedRowsExist(s, ws, EXPORT_LIMIT);
    StatusMembers(s, ids, Approved);
    MarkingKeepsCounts(s, ws, marked);
    MarkingCollected(s, ids, marked);
  }

  /** Collecting and marking are two transactions: a row moved in between is exported with text that never shipped. */
  lemma ExportRace(s: Store, id: RowId, actor: UserId, words: string, now: int)
    requires Inv(s) && id in s.rows && s.rows[id].status == Approved && s.rows[id].born.citations != []
    requires !Blank(words) && Some(words) != FinalText(s.rows[id])
    ensures var v := s.rows[id].version;
      var edited := Apply(s, Edit(id, actor, Owner, words, v, None));
      var approved := Apply(edited, Review(id, actor, Owner, Approved, v + 1, None, None, false, now));
      var t := Apply(approved, MarkExported({id}));
      t.rows[id].status == Exported && FinalText(t.rows[id]) != FinalText(s.rows[id])
  {
    var v := s.rows[id].version;
    var e1 := Edit(id, actor, Owner, words, v, None);
    var edited := Apply(s, e1);
    assert edited.rows[id] == Edited(s.rows[id], e1);
    var e2 := Review(id, actor, Owner, Approved, v + 1, None, None, false, now);
    assert FinalText(edited.rows[id]) == Some(words) by { assert words != "" by { assert Strip("") == ""; } }
    assert Accepted(edited, e2);
    assert Apply(edited, e2).rows[id] == Touched(edited.rows[id], e2);
  }

  /** A row once approved and now exported one version later was exported as it was: nothing else came between. */
  lemma {:induction false} ExportedNext(es: seq<Event>, k: nat, id: RowId)
    requires k <= |es| && id in State(es[..k]).rows && State(es[..k]).rows[id].status == Approved
    requires id in State(es).rows && State(es).rows[id].status == Exported
    requires State(es).rows[id].version == State(es[..k]).rows[id].version + 1
    ensures SamePayload(Shipped(State(es[..k]).rows[id]), State(es).rows[id])
    decreases |es|
  {
    assert es[..|es|] == es;
    var before, last := es[..|es| - 1], es[|es| - 1];
    assert before[..k] == es[..k];
    RowAdvances(before, k, id);
    Reachable(before);
    RowAfter(State(before), last, id);
    if State(before).rows[id].status == Exported {
      ExportedNext(before, k, id);
    }
  }

  /**
   What was shipped is what the exported row says, exactly when the row's version had not moved between collecting
   and marking, or had moved by one and the row was already exported, by another export of the same approval.
   */
  lemma ExportMatchesIff(es: seq<Event>, collected: nat, id: RowId, ids: set<RowId>)
    requires collected <= |es| && id in State(es[..collected]).rows && id in ids
    requires State(es[..collected]).rows[id].status == Approved
    ensures id in State(es).rows && id in Apply(State(es), MarkExported(ids)).rows
    ensures var c, now := State(es[..collected]).rows[id], State(es).rows[id];
      SamePayload(Shipped(c), Apply(State(es), MarkExported(ids)).rows[id])
      <==> now.version == c.version || (now.version == c.version + 1 && now.status == Exported)
  {
    RowAdvances(es, collected, id);
    Reachable(es);
    RowAfter(State(es), MarkExported(ids), id);
    var c, now := State(es[..collected]).rows[id], State(es).rows[id];
    if now.version == c.version + 1 && now.status == Exported { ExportedNext(es, collected, id); }
  }

  /** So a row whose version has not moved since it was collected is exported with exactly the text that shipped. */
  lemma UntouchedRowExportsShippedText(es: seq<Event>, collected: nat, id: RowId, ids: set<RowId>)
    requires collected <= |es| && id in State(es[..collected]).rows && id in State(es).rows
    requires State(es[..collected]).rows[id].status == Approved && id in ids
    requires State(es).rows[id].version == State(es[..collected]).rows[id].version
    ensures var t := Apply(State(es), MarkExported(ids));
      && id in t.rows && t.rows[id].status == Exported
      && FinalText(t.rows[id]) == ToRow(State(es[..collected]).rows[id]).answerText
      && t.rows[id].reviewedBy == State(es[..collected]).rows[id].reviewedBy
  {
    ExportMatchesIff(es, collected, id, ids);
  }
}
