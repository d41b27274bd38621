/**
 Registering extracted requirements as unanswered proposals, and what that does to the export gate's counts.
 */
module Registration {
  import opened PyText
  import opened Proposals
  import opened Lifecycle
  import opened ExportGate
  import opened Extraction
  import I = Interleaving

  /** The row a requirement starts as: a draft with no text and no citations. */
  function Placeholder(q: Requirement): Generation {
    Generation(q.text, q.sectionPath, q.isMandatory, None, [], None, None, None, Draft)
  }

  function Insertion(ws: WorkspaceId, q: Requirement): Event {
    Generate(ws, q.ref, Placeholder(q))
  }

  datatype Tally = Tally(store: Store, created: nat, skipped: nat)

  /** The registration loop of `extract_and_register`. */
  ghost function Register(s: Store, ws: WorkspaceId, reqs: seq<Requirement>, overwrite: bool): Tally {
    if reqs == [] then Tally(s, 0, 0)
    else
      var t, q := Register(s, ws, reqs[..|reqs| - 1], overwrite), reqs[|reqs| - 1];
      if HasCurrent(t.store, ws, q.ref) && !overwrite then t.(skipped := t.skipped + 1)
      else t.(store := Apply(t.store, Insertion(ws, q)), created := t.created + 1)
  }

  /** The inserts the loop makes, in order. */
  ghost function Inserts(s: Store, ws: WorkspaceId, reqs: seq<Requirement>, overwrite: bool): seq<Event> {
    if reqs == [] then []
    else
      var front, q := reqs[..|reqs| - 1], reqs[|reqs| - 1];
      Inserts(s, ws, front, overwrite)
      + if HasCurrent(Register(s, ws, front, overwrite).store, ws, q.ref) && !overwrite then [] else [Insertion(ws, q)]
  }

  /** Registration is a run like any other, so everything proved of runs holds across it. */
  lemma {:induction false} RegistrationIsARun(es: seq<Event>, ws: WorkspaceId, reqs: seq<Requirement>, overwrite: bool)
    requires ValidRun(es)
    ensures ValidRun(es + Inserts(State(es), ws, reqs, overwrite))
    ensures State(es + Inserts(State(es), ws, reqs, overwrite)) == Register(State(es), ws, reqs, overwrite).store
    ensures Register(State(es), ws, reqs, overwrite).created == |Inserts(State(es), ws, reqs, overwrite)|
  {
    var s := State(es);
    if reqs == [] {
      assert es + [] == es;
    } else {
      var front, q := reqs[..|reqs| - 1], reqs[|reqs| - 1];
      RegistrationIsARun(es, ws, front, overwrite);
      var before := es + Inserts(s, ws, front, overwrite);
      if !HasCurrent(State(before), ws, q.ref) || overwrite {
        var after := before + [Insertion(ws, q)];
        assert es + Inserts(s, ws, reqs, overwrite) == after;
        assert after[..|after| - 1] == before;
      } else {
        assert es + Inserts(s, ws, reqs, overwrite) == before;
      }
    }
  }

  lemma {:induction false} RegistrationKeepsInv(s: Store, ws: WorkspaceId, reqs: seq<Requirement>, overwrite: bool)
    requires Inv(s)
    ensures Inv(Register(s, ws, reqs, overwrite).store)
    ensures Register(s, ws, reqs, overwrite).created + Register(s, ws, reqs, overwrite).skipped == |reqs|
    ensures overwrite ==> Register(s, ws, reqs, overwrite).skipped == 0
  {
    if reqs != [] {
      var front := reqs[..|reqs| - 1];
      RegistrationKeepsInv(s, ws, front, overwrite);
      StepKeepsInv(Register(s, ws, front, overwrite).store, Insertion(ws, reqs[|reqs| - 1]));
    }
  }

  predicate Mentions(reqs: seq<Requirement>, ref: string) {
    exists i :: 0 <= i < |reqs| && reqs[i].ref == ref
  }

  /** What inserting a first version does to the table. */
  lemma FirstVersion(s: Store, ws: WorkspaceId, q: Requirement)
    requires Inv(s) && !HasCurrent(s, ws, q.ref)
    ensures Accepted(s, Insertion(ws, q))
    ensures Apply(s, Insertion(ws, q)).rows == s.rows[s.nextId := NewRow(ws, q.ref, Placeholder(q), None, 1)]
  {
  }

  /**
   With overwrite off every earlier row is left exactly as it was, and afterwards a requirement of the workspace
   has a current row precisely when it had one or was in the list.
   */
  lemma {:induction false} RegistrationOnlyAdds(s: Store, ws: WorkspaceId, reqs: seq<Requirement>)
    requires Inv(s)
    ensures var t := Register(s, ws, reqs, false).store;
      && (forall id :: id in s.rows ==> id in t.rows && t.rows[id] == s.rows[id])
      && (forall ref :: HasCurrent(t, ws, ref) <==> HasCurrent(s, ws, ref) || Mentions(reqs, ref))
  {
    if reqs != [] {
      var front, q := reqs[..|reqs| - 1], reqs[|reqs| - 1];
      var t, u := Register(s, ws, front, false).store, Register(s, ws, reqs, false).store;
      RegistrationOnlyAdds(s, ws, front);
      RegistrationKeepsInv(s, ws, front, false);
      if !HasCurrent(t, ws, q.ref) { FirstVersion(t, ws, q); }
      assert forall ref :: Mentions(reqs, ref) <==> Mentions(front, ref) || q.ref == ref by {
        assert forall i :: 0 <= i < |front| ==> reqs[i] == front[i];
      }
      forall ref ensures HasCurrent(u, ws, ref) <==> HasCurrent(t, ws, ref) || ref == q.ref {
        CurrentAfterInsert(t, u, ws, q, ref);
      }
    }
  }

  lemma CurrentAfterInsert(t: Store, u: Store, ws: WorkspaceId, q: Requirement, ref: string)
    requires (forall id :: id in t.rows ==> id < t.nextId)
    requires if HasCurrent(t, ws, q.ref) then u == t
             else u.rows == t.rows[t.nextId := NewRow(ws, q.ref, Placeholder(q), None, 1)]
    ensures HasCurrent(u, ws, ref) <==> HasCurrent(t, ws, ref) || ref == q.ref
  {
    if !HasCurrent(t, ws, q.ref) {
      assert IsCurrentFor(u, t.nextId, ws, q.ref);
      if HasCurrent(t, ws, ref) {
        var id :| id in t.rows && IsCurrentFor(t, id, ws, ref);
        assert IsCurrentFor(u, id, ws, ref);
      }
      if HasCurrent(u, ws, ref) && ref != q.ref {
        var id :| id in u.rows && IsCurrentFor(u, id, ws, ref);
        assert IsCurrentFor(t, id, ws, ref);
      }
    }
  }

  /** The first requirement of the list with this reference. */
  function First(reqs: seq<Requirement>, ref: string): Requirement
    requires Mentions(reqs, ref)
  {
    if reqs[0].ref == ref then reqs[0]
    else
      assert Mentions(reqs[1..], ref) by {
        var i :| 0 <= i < |reqs| && reqs[i].ref == ref;
        assert reqs[1..][i - 1].ref == ref;
      }
      First(reqs[1..], ref)
  }

  lemma {:induction false} FirstOfLonger(reqs: seq<Requirement>, q: Requirement, ref: string)
    requires Mentions(reqs + [q], ref)
    ensures First(reqs + [q], ref) == if Mentions(reqs, ref) then First(reqs, ref) else q
  {
    if reqs != [] {
      if reqs[0].ref != ref {
        assert (reqs + [q])[1..] == reqs[1..] + [q];
        var i :| 0 <= i < |reqs + [q]| && (reqs + [q])[i].ref == ref;
        assert (reqs[1..] + [q])[i - 1].ref == ref;
        FirstOfLonger(reqs[1..], q, ref);
        assert Mentions(reqs, ref) ==> Mentions(reqs[1..], ref) by {
          if Mentions(reqs, ref) {
            var j :| 0 <= j < |reqs| && reqs[j].ref == ref;
            assert reqs[1..][j - 1].ref == ref;
          }
        }
        assert Mentions(reqs[1..], ref) ==> Mentions(reqs, ref);
      }
    }
  }

  /** The references the list adds as mandatory: new to the workspace, and mandatory where first listed. */
  ghost predicate AddsMandatory(s: Store, ws: WorkspaceId, reqs: seq<Requirement>, ref: string) {
    !HasCurrent(s, ws, ref) && Mentions(reqs, ref) && First(reqs, ref).isMandatory
  }

  ghost function NewMandatory(s: Store, ws: WorkspaceId, reqs: seq<Requirement>): set<string> {
    set i | 0 <= i < |reqs| && AddsMandatory(s, ws, reqs, reqs[i].ref) :: reqs[i].ref
  }

  lemma NewMandatoryStep(s: Store, ws: WorkspaceId, front: seq<Requirement>, q: Requirement)
    ensures NewMandatory(s, ws, front + [q]) ==
      NewMandatory(s, ws, front)
      + if !HasCurrent(s, ws, q.ref) && !Mentions(front, q.ref) && q.isMandatory then {q.ref} else {}
    ensures !Mentions(front, q.ref) ==> q.ref !in NewMandatory(s, ws, front)
  {
    var reqs := front + [q];
    forall ref ensures AddsMandatory(s, ws, reqs, ref) <==>
      || AddsMandatory(s, ws, front, ref)
      || (ref == q.ref && !HasCurrent(s, ws, ref) && !Mentions(front, ref) && q.isMandatory)
    {
      assert Mentions(reqs, ref) <==> Mentions(front, ref) || ref == q.ref by {
        assert reqs[|front|].ref == q.ref;
        assert forall i :: 0 <= i < |front| ==> reqs[i].ref == front[i].ref;
      }
      if Mentions(reqs, ref) { FirstOfLonger(front, q, ref); }
    }
    forall ref ensures ref in NewMandatory(s, ws, reqs) <==> AddsMandatory(s, ws, reqs, ref) {
    }
    forall ref ensures ref in NewMandatory(s, ws, front) <==> AddsMandatory(s, ws, front, ref) {
    }
  }

  lemma NewMandatorySize(s: Store, ws: WorkspaceId, front: seq<Requirement>, q: Requirement)
    ensures |NewMandatory(s, ws, front + [q])| == |NewMandatory(s, ws, front)|
      + if !HasCurrent(s, ws, q.ref) && !Mentions(front, q.ref) && q.isMandatory then 1 else 0
  {
    NewMandatoryStep(s, ws, front, q);
  }

  lemma MandatoryAfterFirstVersion(s: Store, ws: WorkspaceId, q: Requirement)
    requires Inv(s) && !HasCurrent(s, ws, q.ref)
    ensures var t := Apply(s, Insertion(ws, q));
      && MandatoryIds(t, ws) == MandatoryIds(s, ws) + (if q.isMandatory then {s.nextId} else {})
      && SignedMandatoryIds(t, ws) == SignedMandatoryIds(s, ws)
      && s.nextId !in MandatoryIds(s, ws)
  {
    FirstVersion(s, ws, q);
  }

  lemma CountsAfterFirstVersion(s: Store, ws: WorkspaceId, q: Requirement)
    requires Inv(s) && !HasCurrent(s, ws, q.ref)
    ensures var (approved, total) := CountApproved(s, ws);
      CountApproved(Apply(s, Insertion(ws, q)), ws) == (approved, total + if q.isMandatory then 1 else 0)
  {
    MandatoryAfterFirstVersion(s, ws, q);
  }

  lemma HasCurrentAfter(s: Store, ws: WorkspaceId, reqs: seq<Requirement>, ref: string)
    requires Inv(s)
    ensures HasCurrent(Register(s, ws, reqs, false).store, ws, ref) <==> HasCurrent(s, ws, ref) || Mentions(reqs, ref)
  {
    RegistrationOnlyAdds(s, ws, reqs);
  }

  /** One round of the loop, with overwrite off. */
  lemma CountsAfterOne(s: Store, ws: WorkspaceId, q: Requirement)
    requires Inv(s)
    ensures var (approved, total) := CountApproved(s, ws);
      CountApproved(if HasCurrent(s, ws, q.ref) then s else Apply(s, Insertion(ws, q)), ws)
      == (approved, total + if !HasCurrent(s, ws, q.ref) && q.isMandatory then 1 else 0)
  {
    if !HasCurrent(s, ws, q.ref) { CountsAfterFirstVersion(s, ws, q); }
  }

  /** The approved count stands, and the total rises by the references newly added as mandatory. */
  lemma {:induction false} RegistrationCounts(s: Store, ws: WorkspaceId, reqs: seq<Requirement>)
    requires Inv(s)
    ensures var (approved, total) := CountApproved(s, ws);
      CountApproved(Register(s, ws, reqs, false).store, ws) == (approved, total + |NewMandatory(s, ws, reqs)|)
  {
    if reqs == [] {
      assert NewMandatory(s, ws, reqs) == {};
    } else {
      var front, q := reqs[..|reqs| - 1], reqs[|reqs| - 1];
      var t := Register(s, ws, front, false).store;
      assert reqs == front + [q];
      RegistrationCounts(s, ws, front);
      HasCurrentAfter(s, ws, front, q.ref);
      RegistrationKeepsInv(s, ws, front, false);
      NewMandatorySize(s, ws, front, q);
      CountsAfterOne(t, ws, q);
    }
  }

  /**
   The registration property. Created and skipped account for the list; each listed reference ends with exactly
   one current row; earlier rows, and so every drafted or approved answer, are untouched.
   */
  lemma RegistrationAccounting(s: Store, ws: WorkspaceId, reqs: seq<Requirement>, i: nat)
    requires Inv(s) && i < |reqs|
    ensures var t := Register(s, ws, reqs, false);
      && t.created + t.skipped == |reqs|
      && (exists id :: IsCurrentFor(t.store, id, ws, reqs[i].ref))
      && (forall a, b ::
            IsCurrentFor(t.store, a, ws, reqs[i].ref) && IsCurrentFor(t.store, b, ws, reqs[i].ref) ==> a == b)
      && (forall id :: id in s.rows ==> id in t.store.rows && t.store.rows[id] == s.rows[id])
  {
    RegistrationKeepsInv(s, ws, reqs, false);
    RegistrationOnlyAdds(s, ws, reqs);
    assert Mentions(reqs, reqs[i].ref);
    assert HasCurrent(Register(s, ws, reqs, false).store, ws, reqs[i].ref);
  }

  /** So a new mandatory requirement closes the export gate until somebody signs it off. */
  lemma NewRequirementClosesTheGate(s: Store, ws: WorkspaceId, reqs: seq<Requirement>)
    requires Inv(s) && NewMandatory(s, ws, reqs) != {}
    ensures !Collect(Register(s, ws, reqs, false).store, ws, true).Open?
  {
    RegistrationCounts(s, ws, reqs);
    SubsetOfSameSize(SignedMandatoryIds(s, ws), MandatoryIds(s, ws));
  }

  // ------------------------------------------------------------ registration in a concurrent run

  /** A requirement that has a current row never loses it. */
  lemma CurrentNeverVanishes(es: seq<Event>, k: nat, ws: WorkspaceId, ref: string)
    requires k <= |es| && HasCurrent(State(es[..k]), ws, ref)
    ensures HasCurrent(State(es), ws, ref)
  {
    var id: RowId :| id in State(es[..k]).rows && IsCurrentFor(State(es[..k]), id, ws, ref);
    RowAdvances(es, k, id);
    var cur := VersionChain(es, id);
    assert IsCurrentFor(State(es), cur, ws, ref);
  }

  /** A registration under way in one transaction: its tallies, the references it inserted, and the inserts. */
  datatype Late = Late(tally: Tally, inserted: set<string>, inserts: seq<Event>)

  /**
   The two SELECTs of an iteration, as the numbers of calls of the run that each one saw committed: the one that asks
   whether to skip, and the one by which `save_generation` finds the version to supersede.
   */
  datatype Lookup = Lookup(asked: nat, found: nat)

  predicate InRun(k: Lookup, es: seq<Event>) {
    k.asked <= k.found <= |es|
  }

  /** What a SELECT sees: its own transaction's inserts, else what was committed at its moment. */
  ghost function Seen(es: seq<Event>, l: Late, moment: nat, ref: string): Store
    requires moment <= |es|
  {
    if ref in l.inserted then l.tally.store else State(es[..moment])
  }

  /** When both SELECTs meet one row the session keeps the copy it read first, and else what the second found. */
  ghost function HeldSince(es: seq<Event>, ws: WorkspaceId, ref: string, k: Lookup, l: Late): (moment: nat)
    requires InRun(k, es)
    ensures moment <= |es|
    ensures CurrentOf(Seen(es, l, moment, ref), ws, ref) == CurrentOf(Seen(es, l, k.found, ref), ws, ref)
  {
    if CurrentOf(Seen(es, l, k.asked, ref), ws, ref) == CurrentOf(Seen(es, l, k.found, ref), ws, ref) then k.asked
    else k.found
  }

  /**
   The registration loop among other sessions; at the end of the run all writes go in, if the version guards and the
   unique index let them.
   */
  ghost function LateRegister(es: seq<Event>, ws: WorkspaceId, reqs: seq<Requirement>, lookups: seq<Lookup>,
                              overwrite: bool)
    : Option<Late>
    requires |lookups| == |reqs| && forall i :: 0 <= i < |lookups| ==> InRun(lookups[i], es)
    decreases |reqs|
  {
    if reqs == [] then Some(Late(Tally(State(es), 0, 0), {}, []))
    else
      var n := |reqs| - 1;
      match LateRegister(es, ws, reqs[..n], lookups[..n], overwrite)
      case None => None
      case Some(l) => LateStep(es, ws, reqs[n], lookups[n], overwrite, l)
  }

  ghost predicate Skips(es: seq<Event>, ws: WorkspaceId, q: Requirement, k: Lookup, overwrite: bool, l: Late)
    requires InRun(k, es)
  {
    HasCurrent(Seen(es, l, k.asked, q.ref), ws, q.ref) && !overwrite
  }

  /** What the insert of an iteration works from. */
  ghost function Holds(es: seq<Event>, ws: WorkspaceId, q: Requirement, k: Lookup, l: Late): I.Pending
    requires InRun(k, es)
  {
    I.Load(Seen(es, l, HeldSince(es, ws, q.ref, k, l), q.ref), Insertion(ws, q))
  }

  ghost function LateStep(es: seq<Event>, ws: WorkspaceId, q: Requirement, k: Lookup, overwrite: bool, l: Late)
    : Option<Late>
    requires InRun(k, es)
  {
    var p := Holds(es, ws, q, k, l);
    if Skips(es, ws, q, k, overwrite, l) then Some(l.(tally := l.tally.(skipped := l.tally.skipped + 1)))
    else if I.LoadedFor(p) && I.CanCommit(l.tally.store, p) then
      Some(Late(Tally(I.Write(l.tally.store, p), l.tally.created + 1, l.tally.skipped), l.inserted + {q.ref},
                l.inserts + [Insertion(ws, q)]))
    else None
  }

  /** The requirement turns up between the two SELECTs of an iteration. */
  ghost predicate RacedAt(es: seq<Event>, ws: WorkspaceId, q: Requirement, k: Lookup, l: Late)
    requires InRun(k, es)
  {
    !HasCurrent(Seen(es, l, k.asked, q.ref), ws, q.ref) && HasCurrent(Seen(es, l, k.found, q.ref), ws, q.ref)
  }

  ghost predicate Raced(es: seq<Event>, ws: WorkspaceId, reqs: seq<Requirement>, lookups: seq<Lookup>)
    requires |lookups| == |reqs| && forall i :: 0 <= i < |lookups| ==> InRun(lookups[i], es)
    decreases |reqs|
  {
    reqs != [] &&
    var n := |reqs| - 1;
    var l := LateRegister(es, ws, reqs[..n], lookups[..n], false);
    Raced(es, ws, reqs[..n], lookups[..n]) || (l.Some? && RacedAt(es, ws, reqs[n], lookups[n], l.value))
  }

  /** The transaction so far is a run of whole, accepted inserts behind everything committed. */
  ghost predicate IsARun(es: seq<Event>, ws: WorkspaceId, l: Late) {
    && ValidRun(es + l.inserts) && l.tally.store == State(es + l.inserts) && l.tally.created == |l.inserts|
    && forall ref :: ref in l.inserted ==> HasCurrent(l.tally.store, ws, ref)
  }

  lemma LateLookupAgrees(es: seq<Event>, ws: WorkspaceId, l: Late, moment: nat, q: Requirement)
    requires moment <= |es| && IsARun(es, ws, l)
    ensures I.Tracks(l.tally.store, I.Load(Seen(es, l, moment, q.ref), Insertion(ws, q)))
    ensures HasCurrent(Seen(es, l, moment, q.ref), ws, q.ref) ==> HasCurrent(l.tally.store, ws, q.ref)
  {
    var run := es + l.inserts;
    Reachable(run);
    if q.ref in l.inserted {
      I.LoadTracks(State(run), Insertion(ws, q));
    } else {
      assert run[..moment] == es[..moment];
      I.LoadedEarlierTracks(run, moment, Insertion(ws, q));
      if HasCurrent(State(run[..moment]), ws, q.ref) { CurrentNeverVanishes(run, moment, ws, q.ref); }
    }
  }

  /**
   An iteration gets through exactly when it skips, or the version it found is still the current one and as the
   session holds it, or there was none and still is none.
   */
  lemma LateStepCommitsIff(es: seq<Event>, ws: WorkspaceId, q: Requirement, k: Lookup, overwrite: bool, l: Late)
    requires InRun(k, es) && IsARun(es, ws, l)
    ensures var held, now := Seen(es, l, HeldSince(es, ws, q.ref, k, l), q.ref), l.tally.store;
      var found := CurrentOf(Seen(es, l, k.found, q.ref), ws, q.ref);
      LateStep(es, ws, q, k, overwrite, l).Some? <==>
        || Skips(es, ws, q, k, overwrite, l)
        || (CurrentOf(now, ws, q.ref) == found
            && (found.Some? ==> now.rows[found.value].version == held.rows[found.value].version))
  {
    LateLookupAgrees(es, ws, l, HeldSince(es, ws, q.ref, k, l), q);
    Reachable(es + l.inserts);
    I.RegenerationCommitsIffUndisturbed(l.tally.store, Holds(es, ws, q, k, l));
  }

  /** An insert that gets through is the insert made whole at the end of the run, over the version it found. */
  lemma LateInsertIsAtomic(es: seq<Event>, ws: WorkspaceId, q: Requirement, k: Lookup, l: Late)
    requires InRun(k, es) && IsARun(es, ws, l)
    requires I.LoadedFor(Holds(es, ws, q, k, l)) && I.CanCommit(l.tally.store, Holds(es, ws, q, k, l))
    ensures I.Write(l.tally.store, Holds(es, ws, q, k, l)) == Apply(l.tally.store, Insertion(ws, q))
    ensures HasCurrent(l.tally.store, ws, q.ref) <==> HasCurrent(Seen(es, l, k.found, q.ref), ws, q.ref)
  {
    LateLookupAgrees(es, ws, l, HeldSince(es, ws, q.ref, k, l), q);
    Reachable(es + l.inserts);
    I.GenerateCommit(l.tally.store, Holds(es, ws, q, k, l));
  }

  /** A requirement keeps its current row through an insert, and the inserted one has its own. */
  lemma InsertKeepsCurrent(run: seq<Event>, ws: WorkspaceId, q: Requirement, ref: string)
    requires HasCurrent(State(run), ws, ref) || ref == q.ref
    ensures HasCurrent(Apply(State(run), Insertion(ws, q)), ws, ref)
  {
    StateSnoc(run, Insertion(ws, q));
    var more := run + [Insertion(ws, q)];
    assert more[..|run|] == run;
    if ref == q.ref {
      assert IsCurrentFor(State(more), State(run).nextId, ws, ref);
    } else {
      CurrentNeverVanishes(more, |run|, ws, ref);
    }
  }

  lemma LateStepIsARun(es: seq<Event>, ws: WorkspaceId, q: Requirement, k: Lookup, overwrite: bool, l: Late)
    requires InRun(k, es) && IsARun(es, ws, l) && LateStep(es, ws, q, k, overwrite, l).Some?
    ensures IsARun(es, ws, LateStep(es, ws, q, k, overwrite, l).value)
  {
    if !Skips(es, ws, q, k, overwrite, l) {
      var run, next := es + l.inserts, LateStep(es, ws, q, k, overwrite, l).value;
      LateInsertIsAtomic(es, ws, q, k, l);
      StateSnoc(run, Insertion(ws, q));
      Associate(es, l.inserts, [Insertion(ws, q)]);
      forall ref | ref in next.inserted ensures HasCurrent(next.tally.store, ws, ref) {
        InsertKeepsCurrent(run, ws, q, ref);
      }
    }
  }

  /**
   Whatever its SELECTs saw, with overwrite on or off, a registration either aborts whole or leaves the table as a
   run of accepted inserts does, and its tallies account for the list.
   */
  lemma {:induction false} LateRegistrationIsARun(es: seq<Event>, ws: WorkspaceId, reqs: seq<Requirement>,
                                                  lookups: seq<Lookup>, overwrite: bool)
    requires ValidRun(es) && |lookups| == |reqs| && forall i :: 0 <= i < |lookups| ==> InRun(lookups[i], es)
    ensures var l := LateRegister(es, ws, reqs, lookups, overwrite);
      l.Some? ==>
        && IsARun(es, ws, l.value) && l.value.tally.created + l.value.tally.skipped == |reqs|
        && forall ref :: ref in l.value.inserted ==> Mentions(reqs, ref)
    decreases |reqs|
  {
    if reqs == [] {
      assert es + [] == es;
    } else {
      var n := |reqs| - 1;
      LateRegistrationIsARun(es, ws, reqs[..n], lookups[..n], overwrite);
      var l := LateRegister(es, ws, reqs[..n], lookups[..n], overwrite);
      if l.Some? && LateRegister(es, ws, reqs, lookups, overwrite).Some? {
        LateStepIsARun(es, ws, reqs[n], lookups[n], overwrite, l.value);
        MentionsMore(reqs);
      }
    }
  }

  lemma MentionsMore(reqs: seq<Requirement>)
    requires reqs != []
    ensures forall ref ::
      Mentions(reqs, ref) <==> Mentions(reqs[..|reqs| - 1], ref) || ref == reqs[|reqs| - 1].ref
  {
    var front := reqs[..|reqs| - 1];
    assert forall i :: 0 <= i < |front| ==> front[i] == reqs[i];
  }

  /** With overwrite on it is the registration of the list at the moment it commits. */
  lemma {:induction false} LateOverwriteIsAtomic(es: seq<Event>, ws: WorkspaceId, reqs: seq<Requirement>,
                                                 lookups: seq<Lookup>)
    requires ValidRun(es) && |lookups| == |reqs| && forall i :: 0 <= i < |lookups| ==> InRun(lookups[i], es)
    ensures var l := LateRegister(es, ws, reqs, lookups, true);
      l.Some? ==> l.value.tally == Register(State(es), ws, reqs, true)
    decreases |reqs|
  {
    if reqs != [] {
      var n := |reqs| - 1;
      LateOverwriteIsAtomic(es, ws, reqs[..n], lookups[..n]);
      LateRegistrationIsARun(es, ws, reqs[..n], lookups[..n], true);
      var l := LateRegister(es, ws, reqs[..n], lookups[..n], true);
      if l.Some? && LateRegister(es, ws, reqs, lookups, true).Some? {
        LateInsertIsAtomic(es, ws, reqs[n], lookups[n], l.value);
      }
    }
  }

  /** Where a late registration stands against one of its list at the end of the run: the same, or ahead by inserts. */
  ghost predicate Compares(l: Late, now: Tally, raced: bool) {
    if raced then l.tally.created > now.created else l.tally == now
  }

  /** What the late loop skips, a registration at the end of the run skips too. */
  lemma LateSkipAgrees(es: seq<Event>, ws: WorkspaceId, front: seq<Requirement>, q: Requirement, k: Lookup, l: Late)
    requires InRun(k, es) && Skips(es, ws, q, k, false, l)
    requires forall ref :: ref in l.inserted ==> Mentions(front, ref)
    ensures HasCurrent(Register(State(es), ws, front, false).store, ws, q.ref)
  {
    Reachable(es);
    HasCurrentAfter(State(es), ws, front, q.ref);
    if q.ref !in l.inserted { CurrentNeverVanishes(es, k.asked, ws, q.ref); }
  }

  lemma LateStepCompares(es: seq<Event>, ws: WorkspaceId, front: seq<Requirement>, q: Requirement, k: Lookup, l: Late,
                         raced: bool)
    requires InRun(k, es) && IsARun(es, ws, l) && LateStep(es, ws, q, k, false, l).Some?
    requires forall ref :: ref in l.inserted ==> Mentions(front, ref)
    requires Compares(l, Register(State(es), ws, front, false), raced)
    ensures Compares(LateStep(es, ws, q, k, false, l).value, Register(State(es), ws, front + [q], false),
                     raced || RacedAt(es, ws, q, k, l))
  {
    assert (front + [q])[..|front|] == front;
    if Skips(es, ws, q, k, false, l) {
      LateSkipAgrees(es, ws, front, q, k, l);
    } else {
      LateInsertIsAtomic(es, ws, q, k, l);
    }
  }

  lemma {:induction false} LateCompares(es: seq<Event>, ws: WorkspaceId, reqs: seq<Requirement>, lookups: seq<Lookup>)
    requires ValidRun(es) && |lookups| == |reqs| && forall i :: 0 <= i < |lookups| ==> InRun(lookups[i], es)
    ensures var l := LateRegister(es, ws, reqs, lookups, false);
      l.Some? ==> Compares(l.value, Register(State(es), ws, reqs, false), Raced(es, ws, reqs, lookups))
    decreases |reqs|
  {
    if reqs != [] {
      var n := |reqs| - 1;
      LateCompares(es, ws, reqs[..n], lookups[..n]);
      LateRegistrationIsARun(es, ws, reqs[..n], lookups[..n], false);
      var l := LateRegister(es, ws, reqs[..n], lookups[..n], false);
      if l.Some? && LateRegister(es, ws, reqs, lookups, false).Some? {
        LateStepCompares(es, ws, reqs[..n], reqs[n], lookups[n], l.value, Raced(es, ws, reqs[..n], lookups[..n]));
        SplitLast(reqs);
      }
    }
  }

  /**
   A registration that gets through while other sessions commit has the effect and the tallies of registering at the
   moment it commits, if and only if overwrite is on or no requirement turned up between the two SELECTs of its
   iteration. In the other case it made an insert, over a version that overwrite off promises to keep.
   */
  lemma LateRegistrationIsAtomic(es: seq<Event>, ws: WorkspaceId, reqs: seq<Requirement>, lookups: seq<Lookup>,
                                 overwrite: bool)
    requires ValidRun(es) && |lookups| == |reqs| && forall i :: 0 <= i < |lookups| ==> InRun(lookups[i], es)
    requires LateRegister(es, ws, reqs, lookups, overwrite).Some?
    ensures LateRegister(es, ws, reqs, lookups, overwrite).value.tally == Register(State(es), ws, reqs, overwrite)
      <==> overwrite || !Raced(es, ws, reqs, lookups)
  {
    if overwrite {
      LateOverwriteIsAtomic(es, ws, reqs, lookups);
    } else {
      LateCompares(es, ws, reqs, lookups);
    }
  }

  /** What the transaction has inserted so far leaves the current row of any other reference as it was committed. */
  ghost predicate AsCommitted(es: seq<Event>, ws: WorkspaceId, l: Late, ref: string) {
    var was := CurrentOf(State(es), ws, ref);
    && CurrentOf(l.tally.store, ws, ref) == was
    && (was.Some? ==> l.tally.store.rows[was.value].version == State(es).rows[was.value].version)
  }

  ghost predicate Alone(es: seq<Event>, ws: WorkspaceId, l: Late) {
    forall ref :: ref !in l.inserted ==> AsCommitted(es, ws, l, ref)
  }

  lemma InsertLeavesOthers(run: seq<Event>, ws: WorkspaceId, q: Requirement, ref: string)
    requires ValidRun(run) && ref != q.ref
    ensures var s := State(run); var t := Apply(s, Insertion(ws, q));
      && CurrentOf(t, ws, ref) == CurrentOf(s, ws, ref)
      && (forall id :: IsCurrentFor(s, id, ws, ref) ==> id in t.rows && t.rows[id] == s.rows[id])
  {
    var s, e := State(run), Insertion(ws, q);
    var more := run + [e];
    StateSnoc(run, e);
    Reachable(run);
    Reachable(more);
    var t := State(more);
    forall id | IsCurrentFor(s, id, ws, ref) ensures IsCurrentFor(t, id, ws, ref) && t.rows[id] == s.rows[id] {
      RowAfter(s, e, id);
    }
    forall id | IsCurrentFor(t, id, ws, ref) ensures IsCurrentFor(s, id, ws, ref) {
      if id in s.rows { RowAfter(s, e, id); }
    }
  }

  lemma QuietStep(es: seq<Event>, ws: WorkspaceId, q: Requirement, overwrite: bool, l: Late)
    requires ValidRun(es) && IsARun(es, ws, l) && Alone(es, ws, l)
    ensures var next := LateStep(es, ws, q, Lookup(|es|, |es|), overwrite, l);
      && next.Some? && Alone(es, ws, next.value)
      && next.value.tally ==
           if HasCurrent(l.tally.store, ws, q.ref) && !overwrite then l.tally.(skipped := l.tally.skipped + 1)
           else l.tally.(store := Apply(l.tally.store, Insertion(ws, q)), created := l.tally.created + 1)
  {
    var k := Lookup(|es|, |es|);
    assert es[..|es|] == es;
    assert q.ref in l.inserted || AsCommitted(es, ws, l, q.ref);
    LateStepCommitsIff(es, ws, q, k, overwrite, l);
    if !Skips(es, ws, q, k, overwrite, l) {
      LateInsertIsAtomic(es, ws, q, k, l);
      var next := LateStep(es, ws, q, k, overwrite, l).value;
      forall ref | ref !in next.inserted ensures AsCommitted(es, ws, next, ref) {
        assert AsCommitted(es, ws, l, ref);
        InsertLeavesOthers(es + l.inserts, ws, q, ref);
      }
    }
  }

  /** A registration during which nobody else commits gets through, repeated references and all, as `Register` says. */
  lemma {:induction false} QuietRegistrationCommits(es: seq<Event>, ws: WorkspaceId, reqs: seq<Requirement>,
                                                    overwrite: bool)
    requires ValidRun(es)
    ensures var l := LateRegister(es, ws, reqs, seq(|reqs|, _ => Lookup(|es|, |es|)), overwrite);
      l.Some? && Alone(es, ws, l.value) && l.value.tally == Register(State(es), ws, reqs, overwrite)
    decreases |reqs|
  {
    if reqs != [] {
      var n, k := |reqs| - 1, Lookup(|es|, |es|);
      QuietRegistrationCommits(es, ws, reqs[..n], overwrite);
      assert seq(|reqs|, _ => k)[..n] == seq(n, _ => k);
      LateRegistrationIsARun(es, ws, reqs[..n], seq(n, _ => k), overwrite);
      QuietStep(es, ws, reqs[n], overwrite, LateRegister(es, ws, reqs[..n], seq(n, _ => k), overwrite).value);
    }
  }

  /** The race: a draft committed between the two SELECTs is superseded by an empty placeholder, with overwrite off. */
  lemma RegistrationRace(ws: WorkspaceId, q: Requirement, g: Generation)
    requires g.status == Draft && ChecksHold(NewRow(ws, q.ref, g, None, 1))
    ensures var es := [Generate(ws, q.ref, g)];
      var l := LateRegister(es, ws, [q], [Lookup(0, 1)], false);
      && l.Some? && RegisteredAs(l.value.tally.store, ws, q, 1) && 0 in l.value.tally.store.rows
      && l.value.tally.store.rows[0].born == g && !l.value.tally.store.rows[0].isCurrent
      && Register(State(es), ws, [q], false) == Tally(State(es), 0, 1)
  {
    var e := Generate(ws, q.ref, g);
    var es, k, l := [e], Lookup(0, 1), Late(Tally(State([e]), 0, 0), {}, []);
    RegeneratedTwice(ws, q.ref, g);
    assert es[..0] == [] && es[..1] == es && es + [] == es;
    StateSnoc([], e);
    assert [] + [e] == es;
    assert [q][..0] == [] && [k][..0] == [];
    var one := State(es);
    assert one.rows == map[0 := NewRow(ws, q.ref, g, None, 1)] && one.nextId == 1;
    assert IsCurrentFor(one, 0, ws, q.ref) && CurrentOf(one, ws, q.ref) == Some(0);
    assert CurrentOf(EMPTY, ws, q.ref) == None;
    assert HeldSince(es, ws, q.ref, k, l) == 1;
    assert IsARun(es, ws, l);
    LateInsertIsAtomic(es, ws, q, k, l);
    assert LateRegister(es, ws, [], [], false) == Some(l);
    assert LateRegister(es, ws, [q], [k], false) == LateStep(es, ws, q, k, false, l);
  }

  // ------------------------------------------------------------ what the gate counts of a document

  /** The export gate counts a requirement with this reference. */
  ghost predicate Counted(s: Store, ws: WorkspaceId, ref: string) {
    exists id :: id in MandatoryIds(s, ws) && s.rows[id].ref == ref
  }

  ghost predicate RegisteredAs(t: Store, ws: WorkspaceId, q: Requirement, id: RowId) {
    IsCurrentFor(t, id, ws, q.ref) && t.rows[id].born == Placeholder(q)
  }

  /** The requirement listed first under a new reference is the one that stands. */
  lemma {:induction false} FirstListedStands(s: Store, ws: WorkspaceId, reqs: seq<Requirement>, ref: string)
    returns (id: RowId)
    requires Inv(s) && !HasCurrent(s, ws, ref) && Mentions(reqs, ref)
    ensures RegisteredAs(Register(s, ws, reqs, false).store, ws, First(reqs, ref), id) && First(reqs, ref).ref == ref
    decreases |reqs|
  {
    var front, q := reqs[..|reqs| - 1], reqs[|reqs| - 1];
    var t := Register(s, ws, front, false).store;
    SplitLast(reqs);
    FirstOfLonger(front, q, ref);
    RegistrationKeepsInv(s, ws, front, false);
    HasCurrentAfter(s, ws, front, q.ref);
    if !HasCurrent(t, ws, q.ref) { FirstVersion(t, ws, q); }
    if Mentions(front, ref) {
      id := FirstListedStands(s, ws, front, ref);
    } else {
      assert q.ref == ref by {
        var i :| 0 <= i < |reqs| && reqs[i].ref == ref;
        assert i < |front| ==> front[i] == reqs[i];
      }
      id := t.nextId;
    }
  }

  /** A row registered for a requirement carries its wording and standing, and neither answer, evidence nor review. */
  lemma RegisteredRowIsUnanswered(t: Store, ws: WorkspaceId, q: Requirement, id: RowId)
    requires RegisteredAs(t, ws, q, id)
    ensures var r := t.rows[id];
      && r.isCurrent && r.workspace == ws && r.ref == q.ref
      && r.born.requirementText == q.text && r.born.sectionPath == q.sectionPath && r.born.isMandatory == q.isMandatory
      && r.born.answerText == None && r.born.citations == [] && r.born.status == Draft
      && r.born.coverage == None && r.born.confidence == None && r.born.abstentionReason == None
  {
  }

  /** So a new reference starts as an unanswered draft of the requirement listed first under it. */
  lemma NewReferenceStartsUnanswered(s: Store, ws: WorkspaceId, reqs: seq<Requirement>, ref: string) returns (id: RowId)
    requires Inv(s) && !HasCurrent(s, ws, ref) && Mentions(reqs, ref)
    ensures var t, q := Register(s, ws, reqs, false).store, First(reqs, ref);
      && IsCurrentFor(t, id, ws, ref) && t.rows[id].born.requirementText == q.text
      && FinalText(t.rows[id]) == None && t.rows[id].born.citations == []
      && t.rows[id].status == Draft && t.rows[id].version == 1 && t.rows[id].previousVersion == None
    decreases |reqs|
  {
    var front, q := reqs[..|reqs| - 1], reqs[|reqs| - 1];
    var t := Register(s, ws, front, false).store;
    SplitLast(reqs);
    FirstOfLonger(front, q, ref);
    RegistrationKeepsInv(s, ws, front, false);
    HasCurrentAfter(s, ws, front, q.ref);
    if !HasCurrent(t, ws, q.ref) { FirstVersion(t, ws, q); }
    if Mentions(front, ref) {
      id := NewReferenceStartsUnanswered(s, ws, front, ref);
    } else {
      MentionsMore(reqs);
      id := t.nextId;
    }
  }

  /** A new reference is counted exactly when the requirement listed first under it is mandatory. */
  lemma CountedIffFirstIsMandatory(s: Store, ws: WorkspaceId, reqs: seq<Requirement>, ref: string)
    requires Inv(s) && !HasCurrent(s, ws, ref) && Mentions(reqs, ref)
    ensures Counted(Register(s, ws, reqs, false).store, ws, ref) <==> First(reqs, ref).isMandatory
  {
    var t := Register(s, ws, reqs, false).store;
    var id := FirstListedStands(s, ws, reqs, ref);
    RegistrationKeepsInv(s, ws, reqs, false);
    forall other | other in MandatoryIds(t, ws) && t.rows[other].ref == ref ensures other == id {
      assert IsCurrentFor(t, other, ws, ref);
    }
  }

  /** A requirement the workspace already had is counted as it was. */
  lemma CountedAsBefore(s: Store, ws: WorkspaceId, reqs: seq<Requirement>, ref: string)
    requires Inv(s) && HasCurrent(s, ws, ref)
    ensures Counted(Register(s, ws, reqs, false).store, ws, ref) <==> Counted(s, ws, ref)
  {
    var t := Register(s, ws, reqs, false).store;
    RegistrationOnlyAdds(s, ws, reqs);
    RegistrationKeepsInv(s, ws, reqs, false);
    var id: RowId :| id in s.rows && IsCurrentFor(s, id, ws, ref);
    assert IsCurrentFor(t, id, ws, ref);
    forall other | other in MandatoryIds(t, ws) && t.rows[other].ref == ref ensures other == id {
      assert IsCurrentFor(t, other, ws, ref);
    }
    forall other | other in MandatoryIds(s, ws) && s.rows[other].ref == ref ensures other == id {
      assert IsCurrentFor(s, other, ws, ref);
    }
  }

  /** What makes the gate count a listed reference: its earlier current row, else the requirement listed first. */
  ghost predicate CountsFor(s: Store, ws: WorkspaceId, reqs: seq<Requirement>, ref: string)
    requires Mentions(reqs, ref)
  {
    if HasCurrent(s, ws, ref) then Counted(s, ws, ref) else First(reqs, ref).isMandatory
  }

  /**
   No mandatory item drops out of the gate, exactly when each one's reference was counted before or, being new, is
   listed as mandatory first: what the gate counts of a document read into any workspace.
   */
  lemma NoMandatoryItemDropsOutIff(s: Store, ws: WorkspaceId, reqs: seq<Requirement>)
    requires Inv(s)
    ensures (forall i :: 0 <= i < |reqs| && reqs[i].isMandatory ==>
               Counted(Register(s, ws, reqs, false).store, ws, reqs[i].ref))
      <==> (forall i :: 0 <= i < |reqs| && reqs[i].isMandatory ==>
              Mentions(reqs, reqs[i].ref) && CountsFor(s, ws, reqs, reqs[i].ref))
  {
    forall i | 0 <= i < |reqs|
      ensures Mentions(reqs, reqs[i].ref)
      ensures Counted(Register(s, ws, reqs, false).store, ws, reqs[i].ref) <==> CountsFor(s, ws, reqs, reqs[i].ref)
    {
      assert Mentions(reqs, reqs[i].ref);
      if HasCurrent(s, ws, reqs[i].ref) {
        CountedAsBefore(s, ws, reqs, reqs[i].ref);
      } else {
        CountedIffFirstIsMandatory(s, ws, reqs, reqs[i].ref);
      }
    }
  }

  /** An optional item listed first under a reference hides a mandatory one: the gate then counts nothing at all. */
  lemma OptionalHidesMandatory(ws: WorkspaceId, optional: Requirement, mandatory: Requirement)
    requires optional.ref == mandatory.ref && !optional.isMandatory && mandatory.isMandatory
    ensures !Counted(Register(EMPTY, ws, [optional, mandatory], false).store, ws, mandatory.ref)
  {
    var reqs := [optional, mandatory];
    Reachable([]);
    assert reqs[1].ref == mandatory.ref;
    assert First(reqs, mandatory.ref) == optional;
    CountedIffFirstIsMandatory(EMPTY, ws, reqs, mandatory.ref);
  }
}
