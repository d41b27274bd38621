/**
 Sessions that interleave. A call reads in one step and commits in a later one, and any number of other
 sessions may commit in between. The database contributes two guards: every UPDATE carries the version that was
 read (`version_id_col`), and an INSERT may not give a requirement a second current row (the partial unique
 index). The theorem is that nothing else is needed: every interleaving is a sequential run.
 */
module Interleaving {
  import opened PyText
  import opened Proposals
  import opened Lifecycle

  type TxId = nat

  /** What a session holds between its read and its commit. */
  datatype Pending = Pending(call: Event, loaded: map<RowId, Row>, previous: Option<RowId>)

  datatype Action = Begin(tx: TxId, call: Event) | Commit(tx: TxId) | Abandon(tx: TxId)

  datatype System = System(store: Store, pending: map<TxId, Pending>)

  const IDLE := System(EMPTY, map[])

  // ------------------------------------------------------------ the two halves of a call

  /** The rows a call has in hand once its checks have passed. */
  ghost function Load(s: Store, e: Event): Pending
    requires Accepted(s, e)
  {
    match e
    case Generate(ws, ref, _) =>
      var previous := CurrentOf(s, ws, ref);
      Pending(e, if previous.Some? then map[previous.value := s.rows[previous.value]] else map[], previous)
    case MarkExported(ids) =>
      Pending(e, map id | id in s.rows && id in ids && s.rows[id].status == Approved :: s.rows[id], None)
    case _ => Pending(e, map[e.id := s.rows[e.id]], None)
  }

  /** Every version-guarded UPDATE still matches its row. */
  predicate VersionsMatch(s: Store, p: Pending) {
    forall id :: id in p.loaded ==> id in s.rows && s.rows[id].version == p.loaded[id].version
  }

  /** The INSERT leaves at most one current row for its requirement. */
  ghost predicate IndexFree(s: Store, p: Pending) {
    p.call.Generate? ==> forall id :: IsCurrentFor(s, id, p.call.workspace, p.call.ref) ==> id in p.loaded
  }

  ghost predicate CanCommit(s: Store, p: Pending) {
    VersionsMatch(s, p) && IndexFree(s, p)
  }

  /** The columns `touch_reviewed` assigns: values come from the call and the row as loaded. */
  function SetReviewed(target: Row, loaded: Row, e: Event): Row
    requires e.Review?
  {
    var t := target.(status := e.action, reviewedBy := Some(e.actor), reviewedAt := Some(e.now),
      version := loaded.version + 1);
    var u := if e.notes.Some? then t.(reviewNotes := e.notes) else t;
    if e.sme.Some? then u.(assignedSme := e.sme) else u
  }

  /** The columns `apply_edit` assigns; whether the approval is cleared was decided on the row as loaded. */
  function SetEdited(target: Row, loaded: Row, e: Event): Row
    requires e.Edit?
  {
    var t := target.(editedText := Some(e.text), version := loaded.version + 1);
    var u := if e.notes.Some? then t.(reviewNotes := e.notes) else t;
    if loaded.status == Approved then u.(status := PendingReview, reviewedBy := None, reviewedAt := None) else u
  }

  /** What the commit writes. Nothing is read again: it works from the rows loaded at the start. */
  function Write(s: Store, p: Pending): Store
    requires VersionsMatch(s, p) && LoadedFor(p)
  {
    match p.call
    case Generate(ws, ref, g) =>
      var version := if p.previous.Some? then p.loaded[p.previous.value].version + 1 else 1;
      Inserted(s, p.previous, NewRow(ws, ref, g, p.previous, version))
    case Review(id, _, _, _, _, _, _, _, _) => s.(rows := s.rows[id := SetReviewed(s.rows[id], p.loaded[id], p.call)])
    case Edit(id, _, _, _, _, _) => s.(rows := s.rows[id := SetEdited(s.rows[id], p.loaded[id], p.call)])
    case MarkExported(_) =>
      s.(rows := map id | id in s.rows ::
           if id in p.loaded then s.rows[id].(status := Exported, version := p.loaded[id].version + 1) else s.rows[id])
  }

  /** The rows a pending call works from are the ones its kind of call loads. */
  predicate LoadedFor(p: Pending) {
    match p.call
    case Generate(_, _, _) => p.loaded.Keys == if p.previous.Some? then {p.previous.value} else {}
    case MarkExported(_) => true
    case _ => p.loaded.Keys == {p.call.id}
  }

  ghost function Act(c: System, a: Action): System {
    match a
    case Begin(tx, call) =>
      if tx !in c.pending && Accepted(c.store, call) then c.(pending := c.pending[tx := Load(c.store, call)]) else c
    case Abandon(tx) => c.(pending := c.pending - {tx})
    case Commit(tx) =>
      if tx in c.pending && LoadedFor(c.pending[tx]) && CanCommit(c.store, c.pending[tx])
      then System(Write(c.store, c.pending[tx]), c.pending - {tx})
      else c.(pending := c.pending - {tx})
  }

  ghost function Exec(acts: seq<Action>): System {
    if acts == [] then IDLE else Act(Exec(acts[..|acts| - 1]), acts[|acts| - 1])
  }

  /** The sequential call a commit stands for: an export marks the rows it had read. */
  function Serialized(p: Pending): Event {
    if p.call.MarkExported? then MarkExported(p.loaded.Keys) else p.call
  }

  ghost predicate Commits(c: System, a: Action) {
    a.Commit? && a.tx in c.pending && LoadedFor(c.pending[a.tx]) && CanCommit(c.store, c.pending[a.tx])
  }

  /** The calls that took effect, in the order of their commits. */
  ghost function History(acts: seq<Action>): seq<Event> {
    if acts == [] then []
    else
      var before, a := acts[..|acts| - 1], acts[|acts| - 1];
      History(before) + if Commits(Exec(before), a) then [Serialized(Exec(before).pending[a.tx])] else []
  }

  ghost predicate ValidActions(acts: seq<Action>) {
    forall i :: 0 <= i < |acts| && acts[i].Begin? ==> CallerShape(acts[i].call)
  }

  // ------------------------------------------------------------ what a pending call still knows

  /** The checks passed on the rows in hand, whatever has become of them since. */
  ghost predicate ChecksPassed(p: Pending) {
    match p.call
    case Generate(ws, ref, g) =>
      && ChecksHold(NewRow(ws, ref, g, None, 1))
      && (p.previous.Some? ==>
            p.previous.value in p.loaded
            && p.loaded[p.previous.value].workspace == ws && p.loaded[p.previous.value].ref == ref)
    case Review(id, _, _, _, _, _, _, _, _) => id in p.loaded && ReviewVerdict(p.loaded[id], p.call).Pass?
    case Edit(id, _, _, _, _, _) => id in p.loaded && EditVerdict(p.loaded[id], p.call).Pass?
    case MarkExported(ids) => forall id :: id in p.loaded ==> p.loaded[id].status == Approved
  }

  ghost predicate Tracks(s: Store, p: Pending) {
    && LoadedFor(p) && ChecksPassed(p) && CallerShape(p.call)
    && forall id :: id in p.loaded ==> id in s.rows && Advances(p.loaded[id], s.rows[id])
  }

  ghost predicate Consistent(c: System) {
    && Inv(c.store)
    && forall tx :: tx in c.pending ==> Tracks(c.store, c.pending[tx])
  }

  lemma LoadTracks(s: Store, e: Event)
    requires Inv(s) && Accepted(s, e) && CallerShape(e)
    ensures Tracks(s, Load(s, e))
  {
  }

  /** What was loaded earlier in a run is still known at its end. */
  lemma LoadedEarlierTracks(es: seq<Event>, k: nat, e: Event)
    requires k <= |es| && Accepted(State(es[..k]), e) && CallerShape(e)
    ensures Tracks(State(es), Load(State(es[..k]), e))
  {
    var p := Load(State(es[..k]), e);
    Reachable(es[..k]);
    LoadTracks(State(es[..k]), e);
    forall id | id in p.loaded ensures id in State(es).rows && Advances(p.loaded[id], State(es).rows[id]) {
      RowAdvances(es, k, id);
    }
  }

  lemma TrackingPersists(s: Store, e: Event, p: Pending)
    requires Inv(s) && Tracks(s, p)
    ensures Tracks(Apply(s, e), p)
  {
    forall id | id in p.loaded ensures id in Apply(s, e).rows && Advances(p.loaded[id], Apply(s, e).rows[id]) {
      StepAdvances(s, e, id);
    }
  }

  // ------------------------------------------------------------ a commit is the atomic call

  lemma ReviewCommit(s: Store, p: Pending)
    requires Tracks(s, p) && p.call.Review? && VersionsMatch(s, p)
    ensures Accepted(s, p.call) && Write(s, p) == Apply(s, p.call)
  {
    var id := p.call.id;
    assert SamePayload(p.loaded[id], s.rows[id]);
    assert ReviewVerdict(s.rows[id], p.call) == ReviewVerdict(p.loaded[id], p.call);
    assert SetReviewed(s.rows[id], p.loaded[id], p.call) == Touched(s.rows[id], p.call);
  }

  lemma EditCommit(s: Store, p: Pending)
    requires Tracks(s, p) && p.call.Edit? && VersionsMatch(s, p)
    ensures Accepted(s, p.call) && Write(s, p) == Apply(s, p.call)
  {
    var id := p.call.id;
    assert SamePayload(p.loaded[id], s.rows[id]);
    assert SetEdited(s.rows[id], p.loaded[id], p.call) == Edited(s.rows[id], p.call);
  }

  /** The index lets an insert through only when the current row is still the one that was read. */
  lemma GenerateCommit(s: Store, p: Pending)
    requires Inv(s) && Tracks(s, p) && p.call.Generate? && CanCommit(s, p)
    ensures CurrentOf(s, p.call.workspace, p.call.ref) == p.previous
    ensures Accepted(s, p.call) && Write(s, p) == Apply(s, p.call)
  {
    var ws, ref := p.call.workspace, p.call.ref;
    if p.previous.Some? {
      var id := p.previous.value;
      assert Covered(s, id);
      var cur: RowId :| IsCurrentFor(s, cur, ws, ref) && id in Chain(s, cur);
      assert cur in p.loaded;
      assert IsCurrentFor(s, id, ws, ref);
    }
    assert CurrentOf(s, ws, ref) == p.previous;
  }

  lemma MarkCommit(s: Store, p: Pending)
    requires Tracks(s, p) && p.call.MarkExported? && VersionsMatch(s, p)
    ensures Write(s, p) == Apply(s, MarkExported(p.loaded.Keys))
  {
    forall id | id in p.loaded ensures SamePayload(p.loaded[id], s.rows[id]) {
    }
    assert Write(s, p).rows == Marked(s, p.loaded.Keys).rows;
  }

  /** A commit that passes the guards has exactly the effect of the whole call run at commit time. */
  lemma CommitIsAtomic(s: Store, p: Pending)
    requires Inv(s) && Tracks(s, p) && CanCommit(s, p)
    ensures Accepted(s, Serialized(p)) && Write(s, p) == Apply(s, Serialized(p))
  {
    match p.call
    case Generate(_, _, _) => GenerateCommit(s, p);
    case Review(_, _, _, _, _, _, _, _, _) => ReviewCommit(s, p);
    case Edit(_, _, _, _, _, _) => EditCommit(s, p);
    case MarkExported(_) => MarkCommit(s, p);
  }

  /** A decision or an edit commits exactly when the call, run whole at that moment, would be accepted. */
  lemma DecisionCommitsIffStillValid(s: Store, p: Pending)
    requires Inv(s) && Tracks(s, p) && (p.call.Review? || p.call.Edit?)
    ensures CanCommit(s, p) <==> Accepted(s, p.call)
    ensures !CanCommit(s, p) ==>
      Verdict(s, p.call) == Fail(VersionConflict(p.call.expectedVersion, s.rows[p.call.id].version))
  {
    if CanCommit(s, p) {
      CommitIsAtomic(s, p);
    } else {
      assert s.rows[p.call.id].version != p.loaded[p.call.id].version;
    }
  }

  /** A regeneration commits exactly when the version it means to replace is still current and unchanged. */
  lemma RegenerationCommitsIffUndisturbed(s: Store, p: Pending)
    requires Inv(s) && Tracks(s, p) && p.call.Generate?
    ensures CanCommit(s, p) <==>
      CurrentOf(s, p.call.workspace, p.call.ref) == p.previous
      && (p.previous.Some? ==> s.rows[p.previous.value].version == p.loaded[p.previous.value].version)
  {
    if CanCommit(s, p) {
      GenerateCommit(s, p);
    }
  }

  // ------------------------------------------------------------ progress

  /** A call that would be accepted, begun and committed with nobody in between, takes its full effect. */
  lemma UncontendedCallTakesEffect(c: System, tx: TxId, e: Event)
    requires Consistent(c) && tx !in c.pending && CallerShape(e) && Accepted(c.store, e)
    ensures var begun := Act(c, Begin(tx, e));
      && begun.store == c.store && Commits(begun, Commit(tx))
      && Act(begun, Commit(tx)) == System(Apply(c.store, e), c.pending)
  {
    var begun := Act(c, Begin(tx, e));
    LoadTracks(c.store, e);
    assert begun.pending[tx] == Load(c.store, e);
    assert CanCommit(c.store, Load(c.store, e));
    CommitIsAtomic(c.store, Load(c.store, e));
    SerializedEffect(c.store, e);
    assert begun.pending - {tx} == c.pending;
  }

  /** Naming the rows an export read instead of the rows it was asked to mark makes no difference at that moment. */
  lemma SerializedEffect(s: Store, e: Event)
    requires Accepted(s, e)
    ensures Apply(s, Serialized(Load(s, e))) == Apply(s, e)
  {
    if e.MarkExported? {
      assert Marked(s, Load(s, e).loaded.Keys).rows == Marked(s, e.ids).rows;
    }
  }

  /** What one session does leaves what every other session holds as it was. */
  lemma OtherSessionsUntouched(c: System, a: Action, other: TxId)
    requires other != a.tx
    ensures other in Act(c, a).pending <==> other in c.pending
    ensures other in c.pending ==> Act(c, a).pending[other] == c.pending[other]
  {
  }

  /** A commit, whether it goes through or not, and an abandoned session leave nothing pending behind. */
  lemma SessionsEnd(c: System, a: Action)
    requires a.Commit? || a.Abandon?
    ensures a.tx !in Act(c, a).pending && (a.Abandon? ==> Act(c, a).store == c.store)
  {
  }

  // ------------------------------------------------------------ the refinement

  lemma ActRefines(c: System, a: Action)
    requires Consistent(c) && (a.Begin? ==> CallerShape(a.call))
    ensures Consistent(Act(c, a))
    ensures Act(c, a).store == if Commits(c, a) then Apply(c.store, Serialized(c.pending[a.tx])) else c.store
  {
    match a
    case Begin(tx, call) =>
      if tx !in c.pending && Accepted(c.store, call) { LoadTracks(c.store, call); }
    case Abandon(tx) =>
    case Commit(tx) =>
      if Commits(c, a) {
        var p := c.pending[tx];
        CommitIsAtomic(c.store, p);
        StepKeepsInv(c.store, Serialized(p));
        forall other | other in c.pending - {tx} ensures Tracks(Act(c, a).store, c.pending[other]) {
          TrackingPersists(c.store, Serialized(p), c.pending[other]);
        }
      }
  }

  lemma AcceptedRunGrows(h: seq<Event>, e: Event)
    requires forall k :: 0 <= k < |h| ==> AcceptedAt(h, k)
    requires Accepted(State(h), e)
    ensures State(h + [e]) == Apply(State(h), e)
    ensures forall k :: 0 <= k < |h + [e]| ==> AcceptedAt(h + [e], k)
  {
    assert (h + [e])[..|h|] == h;
    forall k | 0 <= k < |h| ensures AcceptedAt(h + [e], k) {
      assert AcceptedAt(h, k);
      assert (h + [e])[..k] == h[..k];
    }
  }

  /**
   Every interleaving of reads, commits and crashes leaves the table a sequential run would: the committed
   calls, in commit order, each run whole and each accepted.
   */
  lemma {:induction false} InterleavingsAreSequential(acts: seq<Action>)
    requires ValidActions(acts)
    ensures Consistent(Exec(acts))
    ensures ValidRun(History(acts))
    ensures Exec(acts).store == State(History(acts))
    ensures forall k :: 0 <= k < |History(acts)| ==> AcceptedAt(History(acts), k)
  {
    if acts != [] {
      var before, a := acts[..|acts| - 1], acts[|acts| - 1];
      InterleavingsAreSequential(before);
      var c, h := Exec(before), History(before);
      ActRefines(c, a);
      if Commits(c, a) {
        var e := Serialized(c.pending[a.tx]);
        CommitIsAtomic(c.store, c.pending[a.tx]);
        assert History(acts) == h + [e];
        AcceptedRunGrows(h, e);
      } else {
        assert History(acts) == h;
      }
    }
  }

  /** A committed call is the call that was made, an export perhaps naming just the rows it found approved. */
  predicate Stands(committed: Event, call: Event) {
    if call.MarkExported? then committed.MarkExported? && committed.ids <= call.ids else committed == call
  }

  lemma OneMoreCall(acts: seq<Action>, e: Event) returns (more: seq<Action>)
    requires ValidActions(acts) && Exec(acts).pending == map[] && CallerShape(e) && Accepted(Exec(acts).store, e)
    ensures ValidActions(more) && Exec(more) == System(Apply(Exec(acts).store, e), map[])
    ensures |History(more)| == |History(acts)| + 1 && History(more)[..|History(acts)|] == History(acts)
    ensures Stands(History(more)[|History(acts)|], e)
  {
    var begun := acts + [Begin(0, e)];
    more := begun + [Commit(0)];
    assert begun[..|acts|] == acts && more[..|begun|] == begun;
    InterleavingsAreSequential(acts);
    UncontendedCallTakesEffect(Exec(acts), 0, e);
    assert History(begun) == History(acts);
    assert Exec(begun).pending[0] == Load(Exec(acts).store, e);
  }

  /**
   And nothing the sequential system does is lost: every run of accepted calls is the history of an interleaving
   that leaves the same table.
   */
  lemma {:induction false} EveryRunIsAnInterleaving(es: seq<Event>) returns (acts: seq<Action>)
    requires ValidRun(es) && forall k :: 0 <= k < |es| ==> AcceptedAt(es, k)
    ensures ValidActions(acts) && Exec(acts) == System(State(es), map[])
    ensures |History(acts)| == |es| && forall k :: 0 <= k < |es| ==> Stands(History(acts)[k], es[k])
  {
    if es == [] {
      acts := [];
    } else {
      var before, e := es[..|es| - 1], es[|es| - 1];
      forall k | 0 <= k < |before| ensures AcceptedAt(before, k) {
        assert before[..k] == es[..k] && AcceptedAt(es, k);
      }
      var earlier := EveryRunIsAnInterleaving(before);
      assert AcceptedAt(es, |before|);
      acts := OneMoreCall(earlier, e);
      forall k | 0 <= k < |es| ensures Stands(History(acts)[k], es[k]) {
        if k < |before| {
          assert History(acts)[..|before|][k] == History(acts)[k];
        }
      }
    }
  }

  /** So the sign-off invariant holds of every row of every interleaving. */
  lemma ConcurrentSignOff(acts: seq<Action>, id: RowId) returns (k: nat)
    requires ValidActions(acts) && id in Exec(acts).store.rows && SignedOff(Exec(acts).store.rows[id])
    ensures var h := History(acts);
      StandingApproval(h, k, id) && id in State(h[..k]).rows
        && Vouched(Exec(acts).store.rows[id], State(h[..k]).rows[id], h[k])
  {
    InterleavingsAreSequential(acts);
    k := SignOff(History(acts), id);
  }

  /** Of two sessions regenerating one requirement the second aborts, although no version was bumped. */
  lemma FirstRegenerationWins(c: System, a: TxId, b: TxId)
    requires Consistent(c) && a in c.pending && b in c.pending && a != b && Commits(c, Commit(a))
    requires var e, f := c.pending[a].call, c.pending[b].call;
      e.Generate? && f.Generate? && e.workspace == f.workspace && e.ref == f.ref
    ensures !Commits(Act(c, Commit(a)), Commit(b))
    ensures Act(Act(c, Commit(a)), Commit(b)).store == Act(c, Commit(a)).store
  {
    var q, t := c.pending[b], Act(c, Commit(a)).store;
    assert IsCurrentFor(t, c.store.nextId, q.call.workspace, q.call.ref);
    assert c.store.nextId !in q.loaded;
    assert !IndexFree(t, q);
  }

  /** One session's commit spoils the other's: it wrote a row the other holds, or both regenerate one requirement. */
  ghost predicate Conflicts(first: Pending, second: Pending) {
    if first.call.Generate? then
      second.call.Generate? && second.call.workspace == first.call.workspace && second.call.ref == first.call.ref
    else exists id :: id in first.loaded && id in second.loaded
  }

  lemma WrittenRowIsStale(s: Store, p: Pending, q: Pending, id: RowId)
    requires Inv(s) && Tracks(s, p) && CanCommit(s, p) && !p.call.Generate?
    requires id in p.loaded && id in q.loaded && VersionsMatch(s, q)
    ensures !VersionsMatch(Write(s, p), q)
  {
    CommitIsAtomic(s, p);
    RowAfter(s, Serialized(p), id);
    assert SamePayload(p.loaded[id], s.rows[id]);
  }

  lemma OtherRowsStayFresh(s: Store, p: Pending, q: Pending)
    requires Inv(s) && Tracks(s, p) && CanCommit(s, p) && CanCommit(s, q) && !Conflicts(p, q)
    ensures CanCommit(Write(s, p), q)
  {
    CommitIsAtomic(s, p);
    var t, e := Write(s, p), Serialized(p);
    Footprint(s, e);
    forall id | id in q.loaded ensures id in t.rows && t.rows[id].version == q.loaded[id].version {
      RowAfter(s, e, id);
      assert !p.call.Generate? && Concerns(s, e, id) ==> id in p.loaded;
    }
    if q.call.Generate? {
      forall id | IsCurrentFor(t, id, q.call.workspace, q.call.ref) ensures id in q.loaded {
        if id in s.rows {
          RowAfter(s, e, id);
          assert IsCurrentFor(s, id, q.call.workspace, q.call.ref);
        }
      }
    }
  }

  /**
   Who may still commit. Of two sessions both able to commit, the second one, once the first has, commits if and
   only if they do not conflict; otherwise its commit changes nothing. In particular a decision on a row survives
   a regeneration that supersedes the row, since superseding bumps no version.
   */
  lemma FirstCommitWins(c: System, a: TxId, b: TxId)
    requires Consistent(c) && a != b && Commits(c, Commit(a)) && Commits(c, Commit(b))
    ensures Commits(Act(c, Commit(a)), Commit(b)) <==> !Conflicts(c.pending[a], c.pending[b])
    ensures Conflicts(c.pending[a], c.pending[b]) ==>
      Act(Act(c, Commit(a)), Commit(b)).store == Act(c, Commit(a)).store
  {
    var p, q := c.pending[a], c.pending[b];
    if !Conflicts(p, q) {
      OtherRowsStayFresh(c.store, p, q);
    } else if p.call.Generate? {
      FirstRegenerationWins(c, a, b);
    } else {
      var id :| id in p.loaded && id in q.loaded;
      WrittenRowIsStale(c.store, p, q, id);
    }
  }
}
