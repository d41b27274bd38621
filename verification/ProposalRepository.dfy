/**
 The repository and the services that write through it, in the form the code has: proposal objects whose
 columns are assigned in place. Each method is tied to the table function it implements; what those functions
 guarantee over whole runs is proved in `Lifecycle`.
 */
module ProposalRepository {
  import opened PyText
  import opened Proposals
  import Gate = ExportGate
  import Registration
  import Extraction

  /** One row of `generated_proposals`. What is fixed at the insert is a constant, the rest is assigned later. */
  class GeneratedProposal {
    const id: RowId
    const workspace: WorkspaceId
    const ref: string
    const born: Generation
    const previousVersion: Option<RowId>
    var editedText: Option<string>
    var status: Status
    var reviewedBy: Option<UserId>
    var reviewedAt: Option<int>
    var reviewNotes: Option<string>
    var assignedSme: Option<UserId>
    var version: int
    var isCurrent: bool

    function Snapshot(): Row
      reads this
    {
      Row(workspace, ref, born, editedText, status, reviewedBy, reviewedAt, reviewNotes, assignedSme,
          version, isCurrent, previousVersion)
    }

    constructor (id: RowId, workspace: WorkspaceId, ref: string, g: Generation, previous: Option<RowId>, version: int)
      ensures this.id == id && Snapshot() == NewRow(workspace, ref, g, previous, version)
    {
      this.id, this.workspace, this.ref, this.born, this.previousVersion := id, workspace, ref, g, previous;
      editedText, status := None, g.status;
      reviewedBy, reviewedAt, reviewNotes, assignedSme := None, None, None, None;
      this.version, isCurrent := version, true;
    }

    /** `touch_reviewed` */
    method TouchReviewed(e: Event)
      requires e.Review?
      modifies this
      ensures Snapshot() == Touched(old(Snapshot()), e)
    {
      status := e.action;
      reviewedBy := Some(e.actor);
      reviewedAt := Some(e.now);
      version := version + 1;
      if e.notes.Some? {
        reviewNotes := e.notes;
      }
      if e.sme.Some? {
        assignedSme := e.sme;
      }
    }

    /** `apply_edit`: the generated original is left alone, an approval is cleared. */
    method StoreEdit(e: Event)
      requires e.Edit?
      modifies this
      ensures Snapshot() == Edited(old(Snapshot()), e)
    {
      var reset := if status == Approved then Some(PendingReview) else None;
      editedText := Some(e.text);
      version := version + 1;
      if e.notes.Some? {
        reviewNotes := e.notes;
      }
      if reset.Some? {
        status := reset.value;
        reviewedBy := None;
        reviewedAt := None;
      }
    }

    /** The two columns `_mark_exported` assigns. */
    method Ship()
      modifies this
      ensures Snapshot() == Shipped(old(Snapshot()))
    {
      status := Exported;
      version := version + 1;
    }

    method Supersede()
      modifies this
      ensures Snapshot() == old(Snapshot()).(isCurrent := false)
    {
      isCurrent := false;
    }
  }

  class Repository {
    var table: map<RowId, GeneratedProposal>
    var nextId: RowId

    /** Primary keys: rows sit under their own id, and fresh ids are unused. */
    ghost predicate Keyed()
      reads this, table.Values
    {
      forall id :: id in table ==> table[id].id == id && id < nextId
    }

    ghost predicate Valid()
      reads this, table.Values
    {
      Keyed() && OneCurrent(Contents())
    }

    ghost function Contents(): Store
      reads this, table.Values
    {
      Store(map id | id in table :: table[id].Snapshot(), nextId)
    }

    constructor ()
      ensures Valid() && Contents() == EMPTY
    {
      table, nextId := map[], 0;
    }

    /** `get_current`: the select can match at most one row, by the partial unique index. */
    method GetCurrent(ws: WorkspaceId, ref: string) returns (id: Option<RowId>)
      requires Valid()
      ensures id == CurrentOf(Contents(), ws, ref)
    {
      if i :| i in table && table[i].isCurrent && table[i].workspace == ws && table[i].ref == ref {
        assert IsCurrentFor(Contents(), i, ws, ref);
        id := Some(i);
      } else {
        id := None;
        assert forall i :: i in Contents().rows ==> !IsCurrentFor(Contents(), i, ws, ref);
      }
    }

    /** The first half of `save_generation`: clear the current flag of the version being replaced. */
    method SupersedePrevious(ws: WorkspaceId, ref: string) returns (previous: Option<RowId>, version: int)
      requires Valid()
      modifies table.Values
      ensures previous == old(CurrentOf(Contents(), ws, ref))
      ensures version == if previous.Some? then old(Contents()).rows[previous.value].version + 1 else 1
      ensures Keyed() && Contents() == old(Contents()).(rows := Superseded(old(Contents()), previous))
    {
      version := 1;
      previous := GetCurrent(ws, ref);
      if previous.Some? {
        table[previous.value].Supersede();
        version := table[previous.value].version + 1;
      }
    }

    /** The second half: insert the new version under a fresh key. */
    method AddVersion(ws: WorkspaceId, ref: string, g: Generation, previous: Option<RowId>, version: int)
      requires Keyed()
      modifies this
      ensures Keyed() && fresh(table.Values - old(table.Values))
      ensures Contents() == Store(old(Contents()).rows[old(nextId) := NewRow(ws, ref, g, previous, version)],
        old(nextId) + 1)
    {
      var proposal := new GeneratedProposal(nextId, ws, ref, g, previous, version);
      table, nextId := table[nextId := proposal], nextId + 1;
    }

    /** `save_generation`; a failed CHECK rolls the transaction back, so it is checked before anything is written. */
    method SaveGeneration(ws: WorkspaceId, ref: string, g: Generation) returns (outcome: Outcome)
      requires Valid()
      modifies this, table.Values
      ensures Valid() && fresh(table.Values - old(table.Values))
      ensures outcome == Verdict(old(Contents()), Generate(ws, ref, g))
      ensures Contents() == Apply(old(Contents()), Generate(ws, ref, g))
    {
      if !ChecksHold(NewRow(ws, ref, g, None, 1)) {
        return Fail(CheckViolation);
      }
      ghost var before := Contents();
      var previous, version := SupersedePrevious(ws, ref);
      AddVersion(ws, ref, g, previous, version);
      outcome := Pass;
      assert Contents() == Generated(before, ws, ref, g);
      InsertKeepsIndex(before, ws, ref, g);
    }

    /** `ReviewService.apply_action` */
    method ApplyAction(e: Event) returns (outcome: Outcome)
      requires Valid() && e.Review?
      modifies this, table.Values
      ensures Valid() && table == old(table)
      ensures outcome == Verdict(old(Contents()), e)
      ensures Contents() == Apply(old(Contents()), e)
    {
      if e.id !in table {
        return Fail(NotFound);
      }
      ghost var before := Contents();
      var proposal := table[e.id];
      outcome := ReviewVerdict(proposal.Snapshot(), e);
      if outcome.Fail? {
        return;
      }
      proposal.TouchReviewed(e);
      assert Contents().rows == before.rows[e.id := Touched(before.rows[e.id], e)];
      SameFlagsKeepIndex(before, Contents());
    }

    /** `ReviewService.apply_edit` */
    method ApplyEdit(e: Event) returns (outcome: Outcome)
      requires Valid() && e.Edit?
      modifies this, table.Values
      ensures Valid() && table == old(table)
      ensures outcome == Verdict(old(Contents()), e)
      ensures Contents() == Apply(old(Contents()), e)
    {
      if e.id !in table {
        return Fail(NotFound);
      }
      ghost var before := Contents();
      var proposal := table[e.id];
      outcome := EditVerdict(proposal.Snapshot(), e);
      if outcome.Fail? {
        return;
      }
      proposal.StoreEdit(e);
      assert Contents().rows == before.rows[e.id := Edited(before.rows[e.id], e)];
      SameFlagsKeepIndex(before, Contents());
    }

    method ShipRow(id: RowId)
      requires Keyed() && id in table
      modifies table[id]
      ensures Keyed()
      ensures Contents() == old(Contents()).(rows := old(Contents()).rows[id := Shipped(old(Contents()).rows[id])])
    {
      table[id].Ship();
    }

    /** `ExportService._mark_exported`: one pass over the rows the select returned. */
    method MarkExported(ids: set<RowId>)
      requires Valid()
      modifies table.Values
      ensures Valid()
      ensures Contents() == Marked(old(Contents()), ids)
    {
      ghost var before := Contents();
      var selected := set id | id in table && id in ids && table[id].status == Approved;
      var rest := selected;
      while rest != {}
        invariant rest <= selected && Keyed()
        invariant Contents() == Marked(before, selected - rest)
        decreases rest
      {
        var id :| id in rest;
        MarkOneMore(before, selected - rest, id);
        ShipRow(id);
        OneFewer(selected, rest, id);
        rest := rest - {id};
      }
      assert selected - rest == selected;
      MarkSelected(before, selected, ids);
      SameFlagsKeepIndex(before, Marked(before, ids));
    }

    /** The registration loop of `extract_and_register`. */
    method RegisterRequirements(ws: WorkspaceId, reqs: seq<Extraction.Requirement>, overwrite: bool)
      returns (created: nat, skipped: nat)
      requires Valid()
      modifies this, table.Values
      ensures Valid() && fresh(table.Values - old(table.Values))
      ensures var t := Registration.Register(old(Contents()), ws, reqs, overwrite);
        Contents() == t.store && created == t.created && skipped == t.skipped
    {
      ghost var before := Contents();
      created, skipped := 0, 0;
      for i := 0 to |reqs|
        invariant Valid() && fresh(table.Values - old(table.Values))
        invariant Registration.Register(before, ws, reqs[..i], overwrite)
          == Registration.Tally(Contents(), created, skipped)
      {
        assert reqs[..i + 1][..i] == reqs[..i];
        var existing := GetCurrent(ws, reqs[i].ref);
        if existing.Some? && !overwrite {
          skipped := skipped + 1;
        } else {
          var _ := SaveGeneration(ws, reqs[i].ref, Registration.Placeholder(reqs[i]));
          created := created + 1;
        }
      }
      assert reqs[..|reqs|] == reqs;
    }

    /** `count_approved` */
    method CountApproved(ws: WorkspaceId) returns (approved: nat, total: nat)
      requires Valid()
      ensures (approved, total) == Gate.CountApproved(Contents(), ws)
    {
      var mandatory := set id | id in table && table[id].isCurrent && table[id].workspace == ws
        && table[id].born.isMandatory;
      var signed := set id | id in mandatory && (table[id].status == Approved || table[id].status == Exported);
      assert mandatory == Gate.MandatoryIds(Contents(), ws);
      assert signed == Gate.SignedMandatoryIds(Contents(), ws);
      approved, total := |signed|, |mandatory|;
    }

    /** The current rows, with their references. */
    method CurrentRows(ws: WorkspaceId) returns (refs: map<RowId, string>)
      requires Valid()
      ensures refs == Gate.Refs(Contents(), Gate.CurrentIds(Contents(), ws))
      ensures refs.Keys == Gate.CurrentIds(Contents(), ws) && Distinct(refs)
    {
      ghost var s := Contents();
      refs := map id | id in table && table[id].isCurrent && table[id].workspace == ws :: table[id].ref;
      assert refs == Gate.Refs(s, Gate.CurrentIds(s, ws));
      RefsDistinct(s, ws, Gate.CurrentIds(s, ws));
    }

    /** `list_current`: one page of the current rows by reference, and how many there are. */
    method ListCurrent(ws: WorkspaceId, limit: nat, offset: nat) returns (ids: seq<RowId>, total: nat)
      requires Valid()
      ensures ids == Gate.Page(Contents(), ws, limit, offset)
      ensures total == |Gate.CurrentIds(Contents(), ws)|
    {
      var refs := CurrentRows(ws);
      total := |refs.Keys|;
      var upTo := SelectOrdered(refs, offset + limit);
      ids := Gate.After(upTo, offset);
      Gate.PageIsCut(Contents(), ws, limit, offset);
    }

    /** The current mandatory rows nobody has signed off, with their references. */
    method Outstanding(ws: WorkspaceId) returns (refs: map<RowId, string>)
      requires Valid()
      ensures refs == Gate.Refs(Contents(), Gate.MandatoryIds(Contents(), ws) - Gate.SignedMandatoryIds(Contents(), ws))
      ensures Distinct(refs)
    {
      ghost var s := Contents();
      refs := map id | id in table && table[id].isCurrent && table[id].workspace == ws && table[id].born.isMandatory
                       && table[id].status != Approved && table[id].status != Exported :: table[id].ref;
      assert refs == Gate.Refs(s, Gate.MandatoryIds(s, ws) - Gate.SignedMandatoryIds(s, ws));
      RefsDistinct(s, ws, Gate.MandatoryIds(s, ws) - Gate.SignedMandatoryIds(s, ws));
    }

    /** `_blocking_refs` */
    method BlockingRefs(ws: WorkspaceId) returns (examples: seq<string>)
      requires Valid()
      ensures examples == Gate.BlockingRefs(Contents(), ws)
    {
      var refs := Outstanding(ws);
      var ids := SelectOrdered(refs, Gate.EXAMPLE_LIMIT);
      examples := Lookup(refs, ids);
      LookupBlocking(Contents(), ws, refs);
    }

    /** The bundle rows and the ids to mark, in listing order. */
    method BuildRows(ids: seq<RowId>) returns (rows: seq<Gate.ExportRow>, exportable: seq<RowId>)
      requires Valid() && forall id :: id in ids ==> id in table
      ensures rows == Gate.ToRows(Contents(), ids)
      ensures exportable == Gate.WithStatus(Contents(), ids, Approved)
    {
      ghost var s := Contents();
      rows, exportable := [], [];
      for i := 0 to |ids|
        invariant forall id :: id in ids[..i] ==> id in s.rows
        invariant rows == Gate.ToRows(s, ids[..i])
        invariant exportable == Gate.WithStatus(s, ids[..i], Approved)
      {
        assert ids[i] in ids && ids[..i + 1] == ids[..i] + [ids[i]];
        assert table[ids[i]].Snapshot() == s.rows[ids[i]];
        rows := rows + [Gate.ToRow(table[ids[i]].Snapshot())];
        if table[ids[i]].status == Approved {
          exportable := exportable + [ids[i]];
        }
      }
      assert ids[..|ids|] == ids;
    }

    /** `_collect`: run the gate, then build the bundle. In that order. */
    method Collect(ws: WorkspaceId, workspaceLive: bool) returns (gate: Gate.Gate)
      requires Valid()
      ensures gate == Gate.Collect(Contents(), ws, workspaceLive)
    {
      if !workspaceLive {
        return Gate.NoWorkspace;
      }
      var approved, total := CountApproved(ws);
      if total == 0 {
        return Gate.Blocked(0, 0, []);
      }
      if approved < total {
        var examples := BlockingRefs(ws);
        return Gate.Blocked(total - approved, total, examples);
      }
      gate := BuildBundle(ws);
    }

    method BuildBundle(ws: WorkspaceId) returns (gate: Gate.Gate)
      requires Valid()
      ensures gate == Gate.Bundle(Contents(), ws)
    {
      var ids, _ := ListCurrent(ws, Gate.EXPORT_LIMIT, 0);
      Gate.FirstPage(Contents(), ws, Gate.EXPORT_LIMIT);
      Gate.ListedRowsExist(Contents(), ws, Gate.EXPORT_LIMIT);
      var rows, exportable := BuildRows(ids);
      gate := Gate.Open(rows, exportable);
    }
  }

  /** ORDER BY requirement_ref LIMIT limit, over rows no two of which share a reference. */
  method SelectOrdered(selected: map<RowId, string>, limit: nat) returns (ids: seq<RowId>)
    requires Distinct(selected)
    ensures ids == Gate.Take(Gate.Ordered(selected), limit)
    ensures forall i :: 0 <= i < |ids| ==> ids[i] in selected
  {
    var refs := selected;
    ids := [];
    ghost var all := Gate.Ordered(selected);
    while refs.Keys != {} && |ids| < limit
      invariant all == ids + Gate.Ordered(refs)
      invariant Distinct(refs) && |ids| <= limit
      decreases refs.Keys
    {
      var m := FirstByReference(refs);
      Associate(ids, [m], Gate.Ordered(refs - {m}));
      ids := ids + [m];
      refs := refs - {m};
    }
    TakePrefix(ids, Gate.Ordered(refs), limit);
    Gate.OrderedMembers(refs);
    Gate.OrderedMembers(selected);
    assert forall i :: 0 <= i < |ids| ==> ids[i] == all[i];
  }

  method FirstByReference(refs: map<RowId, string>) returns (m: RowId)
    requires Distinct(refs) && refs.Keys != {}
    ensures m in refs && Gate.Ordered(refs) == [m] + Gate.Ordered(refs - {m}) && Distinct(refs - {m})
  {
    Gate.FirstExists(refs);
    m :| Gate.IsFirst(refs, m);
    FirstIsUnique(refs, m);
  }

  lemma TakePrefix(ids: seq<RowId>, rest: seq<RowId>, limit: nat)
    requires |ids| <= limit && (rest == [] || |ids| == limit)
    ensures Gate.Take(ids + rest, limit) == ids
  {
  }

  ghost predicate Distinct(refs: map<RowId, string>) {
    forall a, b :: a in refs && b in refs && refs[a] == refs[b] ==> a == b
  }

  function Lookup(refs: map<RowId, string>, ids: seq<RowId>): seq<string>
    requires forall i :: 0 <= i < |ids| ==> ids[i] in refs
  {
    seq(|ids|, i requires 0 <= i < |ids| => refs[ids[i]])
  }

  lemma LookupBlocking(s: Store, ws: WorkspaceId, refs: map<RowId, string>)
    requires refs == Gate.Refs(s, Gate.MandatoryIds(s, ws) - Gate.SignedMandatoryIds(s, ws))
    ensures forall i :: 0 <= i < |Gate.BlockingIds(s, ws)| ==> Gate.BlockingIds(s, ws)[i] in refs
    ensures Lookup(refs, Gate.BlockingIds(s, ws)) == Gate.BlockingRefs(s, ws)
  {
    Gate.BlockingRowsExist(s, ws);
  }

  lemma RefsDistinct(s: Store, ws: WorkspaceId, ids: set<RowId>)
    requires OneCurrent(s) && ids <= Gate.CurrentIds(s, ws)
    ensures Distinct(Gate.Refs(s, ids))
  {
    var refs := Gate.Refs(s, ids);
    forall a, b | a in refs && b in refs && refs[a] == refs[b] ensures a == b {
      assert IsCurrentFor(s, a, ws, refs[a]) && IsCurrentFor(s, b, ws, refs[a]);
    }
  }

  /** With distinct references the row that sorts first is determined, so the listing is. */
  lemma FirstIsUnique(refs: map<RowId, string>, m: RowId)
    requires Distinct(refs) && Gate.IsFirst(refs, m)
    ensures Gate.Ordered(refs) == [m] + Gate.Ordered(refs - {m})
  {
    var n := Gate.Ordered(refs)[0];
    Gate.FirstExists(refs);
    assert Gate.IsFirst(refs, n);
    LexAntisymmetric(refs[m], refs[n]);
  }

  lemma OneFewer(all: set<RowId>, rest: set<RowId>, id: RowId)
    requires id in rest && rest <= all
    ensures all - (rest - {id}) == all - rest + {id}
  {
  }

  lemma MarkOneMore(s: Store, done: set<RowId>, id: RowId)
    requires id in s.rows && s.rows[id].status == Approved && id !in done
    ensures var m := Marked(s, done); Marked(s, done + {id}) == m.(rows := m.rows[id := Shipped(m.rows[id])])
  {
  }

  lemma MarkSelected(s: Store, selected: set<RowId>, ids: set<RowId>)
    requires forall id :: id in selected <==> id in s.rows && id in ids && s.rows[id].status == Approved
    ensures Marked(s, selected) == Marked(s, ids)
  {
  }

  lemma SameFlagsKeepIndex(s: Store, t: Store)
    requires OneCurrent(s) && t.rows.Keys == s.rows.Keys
    requires forall id :: id in s.rows ==>
      t.rows[id].isCurrent == s.rows[id].isCurrent && t.rows[id].workspace == s.rows[id].workspace
        && t.rows[id].ref == s.rows[id].ref
    ensures OneCurrent(t)
  {
    forall a, b, ws, ref | IsCurrentFor(t, a, ws, ref) && IsCurrentFor(t, b, ws, ref) ensures a == b {
      assert IsCurrentFor(s, a, ws, ref) && IsCurrentFor(s, b, ws, ref);
    }
  }

  lemma InsertKeepsIndex(s: Store, ws: WorkspaceId, ref: string, g: Generation)
    requires OneCurrent(s) && forall id :: id in s.rows ==> id < s.nextId
    ensures OneCurrent(Generated(s, ws, ref, g))
  {
    var t := Generated(s, ws, ref, g);
    forall a, b, w, r | IsCurrentFor(t, a, w, r) && IsCurrentFor(t, b, w, r) ensures a == b {
      assert a != s.nextId ==> IsCurrentFor(s, a, w, r);
      assert b != s.nextId ==> IsCurrentFor(s, b, w, r);
    }
  }
}
