/**
 Replacing a document in the vector index. One attempt deletes the document's points and upserts its own in
 batches; attempts are retried, so any number of them, crashing anywhere, may interleave on one index.
 */
module Indexing {
  import opened PyText
  import opened Sorting
  import opened Extraction

  type DocumentId = nat
  type AttemptId = nat

  /** What a point carries of its chunk: the original text, the normalised one, and where it stood. */
  datatype Payload = Payload(rawText: string, text: string, chunkIndex: int, pageNumber: Option<int>,
    sectionPath: Option<string>)

  /** `uuid5(document_id, str(chunk_index))`, taken to be injective. */
  datatype PointId = PointId(document: DocumentId, chunkIndex: int)

  datatype Point = Point(document: DocumentId, chunk: Payload, indexedAt: int)

  type Index = map<PointId, Point>

  const BATCH_SIZE := 128

  /** One ingestion of a document: the chunks its bytes parse to, and when it was stamped. */
  datatype Attempt = Attempt(document: DocumentId, chunks: seq<Payload>, indexedAt: int)

  type Jobs = map<AttemptId, Attempt>

  function PointOf(a: Attempt, i: nat): (PointId, Point)
    requires i < |a.chunks|
  {
    (PointId(a.document, a.chunks[i].chunkIndex), Point(a.document, a.chunks[i], a.indexedAt))
  }

  /** `_build_points` */
  function PointsOf(a: Attempt): seq<(PointId, Point)> {
    seq(|a.chunks|, i requires 0 <= i < |a.chunks| => PointOf(a, i))
  }

  /** `upsert`: insert by id, overwriting what was there. */
  function Put(index: Index, points: seq<(PointId, Point)>): Index {
    if points == [] then index
    else Put(index, points[..|points| - 1])[points[|points| - 1].0 := points[|points| - 1].1]
  }

  /** `delete_document_data`: the filter is on the payload's document. */
  function Without(index: Index, document: DocumentId): Index {
    map id | id in index && index[id].document != document :: index[id]
  }

  function Min(a: nat, b: nat): nat {
    if a <= b then a else b
  }

  // ------------------------------------------------------------ one attempt on its own

  lemma {:induction false} PutAppend(index: Index, a: seq<(PointId, Point)>, b: seq<(PointId, Point)>)
    ensures Put(index, a + b) == Put(Put(index, a), b)
  {
    if b == [] {
      assert a + b == a;
    } else {
      assert (a + b)[..|a + b| - 1] == a + b[..|b| - 1];
      PutAppend(index, a, b[..|b| - 1]);
    }
  }

  lemma PutRest(index: Index, points: seq<(PointId, Point)>, i: nat, j: nat)
    requires i <= j <= |points|
    ensures Put(Put(index, points[i..j]), points[j..]) == Put(index, points[i..])
  {
    PutAppend(index, points[i..j], points[j..]);
    assert points[i..j] + points[j..] == points[i..];
  }

  /** The vector store, as far as one collection of points goes. */
  class VectorIndex {
    var points: Index

    method Delete(document: DocumentId)
      modifies this
      ensures points == Without(old(points), document)
    {
      points := Without(points, document);
    }

    method UpsertBatch(batch: seq<(PointId, Point)>)
      modifies this
      ensures points == Put(old(points), batch)
    {
      points := Put(points, batch);
    }

    /** `_upsert`: batches of `batchSize`, one request each. */
    method Upsert(all: seq<(PointId, Point)>, batchSize: nat)
      requires batchSize > 0
      modifies this
      ensures points == Put(old(points), all)
    {
      ghost var before := points;
      var start := 0;
      while start < |all|
        invariant start <= |all| && points == Put(before, all[..start])
      {
        var next := Min(start + batchSize, |all|);
        PutAppend(before, all[..start], all[start..next]);
        assert all[..start] + all[start..next] == all[..next];
        UpsertBatch(all[start..next]);
        start := next;
      }
      assert all[..|all|] == all;
    }

    /** The upsert half of `_run`: delete what is there, then index the new generation. */
    method Replace(a: Attempt)
      modifies this
      ensures points == Put(Without(old(points), a.document), PointsOf(a))
    {
      Delete(a.document);
      var batch: seq<(PointId, Point)> := [];
      for i := 0 to |a.chunks|
        invariant batch == PointsOf(a)[..i]
      {
        batch := batch + [PointOf(a, i)];
      }
      assert batch == PointsOf(a);
      Upsert(batch, BATCH_SIZE);
    }
  }

  // ------------------------------------------------------------ attempts that interleave

  datatype Phase = Parsing | Upserting(done: nat) | Ready | Crashed

  /** `landed` is how much of the batch in flight had been applied when the worker died. */
  datatype Step = DeleteOld(attempt: AttemptId) | UpsertNext(attempt: AttemptId) | Finish(attempt: AttemptId)
                | Crash(attempt: AttemptId, landed: nat)

  datatype System = System(index: Index, phase: map<AttemptId, Phase>)

  function PhaseOf(c: System, a: AttemptId): Phase {
    if a in c.phase then c.phase[a] else Parsing
  }

  /** Step `s` really deletes the document's points; an attempt that parsed to nothing raises before that. */
  predicate Clears(jobs: Jobs, c: System, s: Step, document: DocumentId) {
    s.DeleteOld? && s.attempt in jobs && jobs[s.attempt].document == document
    && PhaseOf(c, s.attempt).Parsing? && jobs[s.attempt].chunks != []
  }

  datatype Slice = Slice(lo: nat, hi: nat)

  /** Which of its points the step upserts: the next batch, or as much of it as landed before a crash. */
  function Written(job: Attempt, p: Phase, s: Step): (w: Slice)
    ensures w.lo <= w.hi <= |job.chunks|
  {
    var n := |job.chunks|;
    match (s, p)
    case (UpsertNext(_), Upserting(done)) => Slice(Min(done, n), Min(done + BATCH_SIZE, n))
    case (Crash(_, landed), Upserting(done)) => Slice(Min(done, n), Min(done + Min(landed, BATCH_SIZE), n))
    case _ => Slice(0, 0)
  }

  function PhaseAfter(job: Attempt, p: Phase, s: Step): Phase {
    match (s, p)
    case (DeleteOld(_), Parsing) => if job.chunks == [] then Crashed else Upserting(0)
    case (UpsertNext(_), Upserting(done)) => Upserting(Min(done + BATCH_SIZE, |job.chunks|))
    case (Finish(_), Upserting(done)) => if done >= |job.chunks| then Ready else p
    case (Crash(_, _), Upserting(_)) => Crashed
    case (Crash(_, _), Parsing) => Crashed
    case _ => p
  }

  function IndexAfter(jobs: Jobs, c: System, s: Step): Index
    requires s.attempt in jobs
  {
    var job := jobs[s.attempt];
    var w := Written(job, PhaseOf(c, s.attempt), s);
    if Clears(jobs, c, s, job.document) then Without(c.index, job.document) else Put(c.index, PointsOf(job)[w.lo..w.hi])
  }

  function Act(jobs: Jobs, c: System, s: Step): System {
    if s.attempt !in jobs then c
    else System(IndexAfter(jobs, c, s), c.phase[s.attempt := PhaseAfter(jobs[s.attempt], PhaseOf(c, s.attempt), s)])
  }

  function Exec(jobs: Jobs, start: Index, steps: seq<Step>): System {
    if steps == [] then System(start, map[]) else Act(jobs, Exec(jobs, start, steps[..|steps| - 1]), steps[|steps| - 1])
  }

  /** The attempt that made the last delete of a document. */
  function LastDeleter(jobs: Jobs, start: Index, steps: seq<Step>, document: DocumentId): Option<AttemptId> {
    if steps == [] then None
    else
      var before, s := steps[..|steps| - 1], steps[|steps| - 1];
      if Clears(jobs, Exec(jobs, start, before), s, document) then Some(s.attempt)
      else LastDeleter(jobs, start, before, document)
  }

  /** Every stored point is filed under the id of its own document and chunk. */
  predicate WellKeyed(index: Index) {
    forall id :: id in index ==> index[id].document == id.document && index[id].chunk.chunkIndex == id.chunkIndex
  }

  /** The chunker numbers chunks by position. */
  predicate Numbered(chunks: seq<Payload>) {
    forall i :: 0 <= i < |chunks| ==> chunks[i].chunkIndex == i
  }

  /** Step `s` puts points of the document into the index. */
  predicate Uploads(jobs: Jobs, c: System, s: Step, document: DocumentId) {
    s.attempt in jobs && jobs[s.attempt].document == document
    && var w := Written(jobs[s.attempt], PhaseOf(c, s.attempt), s); w.lo < w.hi
  }

  /** The last delete, and every upload since, worked from these chunks. */
  predicate SameBytesSince(jobs: Jobs, start: Index, steps: seq<Step>, document: DocumentId, chunks: seq<Payload>) {
    steps != [] &&
    var before, s := steps[..|steps| - 1], steps[|steps| - 1];
    var c := Exec(jobs, start, before);
    if Clears(jobs, c, s, document) then jobs[s.attempt].chunks == chunks
    else
      && (Uploads(jobs, c, s, document) ==> jobs[s.attempt].chunks == chunks)
      && SameBytesSince(jobs, start, before, document, chunks)
  }

  /** Retries of one upload are the usual case: all attempts on the document parse the same bytes. */
  lemma {:induction false} RetriesShareBytes(jobs: Jobs, start: Index, steps: seq<Step>, document: DocumentId,
                                             chunks: seq<Payload>)
    requires forall a :: a in jobs && jobs[a].document == document ==> jobs[a].chunks == chunks
    requires LastDeleter(jobs, start, steps, document).Some?
    ensures SameBytesSince(jobs, start, steps, document, chunks)
  {
    var before, s := steps[..|steps| - 1], steps[|steps| - 1];
    if !Clears(jobs, Exec(jobs, start, before), s, document) {
      RetriesShareBytes(jobs, start, before, document, chunks);
    }
  }

  /** The point an id names when the document is indexed from these chunks. */
  predicate Genuine(index: Index, id: PointId, chunks: seq<Payload>) {
    id in index && 0 <= id.chunkIndex < |chunks| && index[id].chunk == chunks[id.chunkIndex]
  }

  function Progress(p: Phase, total: nat): nat {
    match p
    case Upserting(done) => Min(done, total)
    case Ready => total
    case _ => 0
  }

  /** The document's points are exactly those of its chunks, one per chunk index. */
  ghost predicate Indexed(index: Index, document: DocumentId, chunks: seq<Payload>) {
    forall id: PointId :: id.document == document ==>
      (id in index <==> 0 <= id.chunkIndex < |chunks|) && (id in index ==> Genuine(index, id, chunks))
  }

  /** No point of the document is stale, and the first `done` chunks are all there. */
  ghost predicate Converging(index: Index, document: DocumentId, chunks: seq<Payload>, done: nat) {
    && (forall id :: id in index && id.document == document ==> Genuine(index, id, chunks))
    && (forall i :: 0 <= i < done <= |chunks| ==> PointId(document, i) in index)
  }

  lemma {:induction false} PutSlice(index: Index, a: Attempt, lo: nat, hi: nat)
    requires lo <= hi <= |a.chunks| && Numbered(a.chunks)
    ensures var t := Put(index, PointsOf(a)[lo..hi]);
      forall id :: (id in t <==> id in index || (id.document == a.document && lo <= id.chunkIndex < hi))
        && (id in t ==> t[id] == if id.document == a.document && lo <= id.chunkIndex < hi
                                 then Point(a.document, a.chunks[id.chunkIndex], a.indexedAt) else index[id])
  {
    if lo < hi {
      var points := PointsOf(a)[lo..hi];
      assert points[..|points| - 1] == PointsOf(a)[lo..hi - 1];
      assert points[|points| - 1] == PointOf(a, hi - 1);
      PutSlice(index, a, lo, hi - 1);
    }
  }

  lemma UpsertConverges(index: Index, a: Attempt, lo: nat, hi: nat, done: nat)
    requires lo <= hi <= |a.chunks| && Numbered(a.chunks) && Converging(index, a.document, a.chunks, done)
    ensures var t := Put(index, PointsOf(a)[lo..hi]);
      && Converging(t, a.document, a.chunks, done)
      && (lo <= done ==> Converging(t, a.document, a.chunks, if hi > done then hi else done))
  {
    PutSlice(index, a, lo, hi);
  }

  ghost predicate AllNumbered(jobs: Jobs) {
    forall a :: a in jobs ==> Numbered(jobs[a].chunks)
  }

  /** An attempt on one document never touches a point of another. */
  lemma OthersUntouched(jobs: Jobs, c: System, s: Step, id: PointId)
    requires WellKeyed(c.index) && AllNumbered(jobs) && (s.attempt in jobs ==> jobs[s.attempt].document != id.document)
    ensures id in Act(jobs, c, s).index <==> id in c.index
    ensures id in c.index ==> Act(jobs, c, s).index[id] == c.index[id]
  {
    if s.attempt in jobs {
      var w := Written(jobs[s.attempt], PhaseOf(c, s.attempt), s);
      PutSlice(c.index, jobs[s.attempt], w.lo, w.hi);
    }
  }

  lemma {:induction false} PutStaysWellKeyed(index: Index, a: Attempt, lo: nat, hi: nat)
    requires WellKeyed(index) && lo <= hi <= |a.chunks|
    ensures WellKeyed(Put(index, PointsOf(a)[lo..hi]))
    decreases hi
  {
    if lo < hi {
      PutStaysWellKeyed(index, a, lo, hi - 1);
      assert PointsOf(a)[lo..hi][..hi - lo - 1] == PointsOf(a)[lo..hi - 1];
      assert PointsOf(a)[lo..hi][hi - lo - 1] == PointOf(a, hi - 1);
    }
  }

  /** In every run, however chunks are numbered, the id of a point names its document and its chunk index. */
  lemma {:induction false} RunsStayWellKeyed(jobs: Jobs, start: Index, steps: seq<Step>)
    requires WellKeyed(start)
    ensures WellKeyed(Exec(jobs, start, steps).index)
    decreases |steps|
  {
    if steps != [] {
      var before, s := steps[..|steps| - 1], steps[|steps| - 1];
      RunsStayWellKeyed(jobs, start, before);
      if s.attempt in jobs {
        var c := Exec(jobs, start, before);
        var w := Written(jobs[s.attempt], PhaseOf(c, s.attempt), s);
        PutStaysWellKeyed(c.index, jobs[s.attempt], w.lo, w.hi);
      }
    }
  }

  /** One step of a run whose last delete of the document was made by `owner`. */
  lemma StepConverges(jobs: Jobs, c: System, s: Step, document: DocumentId, chunks: seq<Payload>, owner: AttemptId)
    requires WellKeyed(c.index) && AllNumbered(jobs) && Numbered(chunks)
    requires Uploads(jobs, c, s, document) ==> jobs[s.attempt].chunks == chunks
    requires owner in jobs && jobs[owner].document == document && jobs[owner].chunks == chunks
      && !Clears(jobs, c, s, document)
    requires !PhaseOf(c, owner).Parsing? && Converging(c.index, document, chunks, Progress(PhaseOf(c, owner), |chunks|))
    ensures var d := Act(jobs, c, s);
      !PhaseOf(d, owner).Parsing? && Converging(d.index, document, chunks, Progress(PhaseOf(d, owner), |chunks|))
  {
    if s.attempt in jobs {
      if jobs[s.attempt].document == document {
        var w := Written(jobs[s.attempt], PhaseOf(c, s.attempt), s);
        if w.lo < w.hi {
          UpsertConverges(c.index, jobs[s.attempt], w.lo, w.hi, Progress(PhaseOf(c, owner), |chunks|));
        } else {
          assert PointsOf(jobs[s.attempt])[w.lo..w.hi] == [];
        }
      } else {
        forall id: PointId | id.document == document
          ensures id in Act(jobs, c, s).index <==> id in c.index
          ensures id in c.index ==> Act(jobs, c, s).index[id] == c.index[id]
        {
          OthersUntouched(jobs, c, s, id);
        }
      }
    }
  }

  lemma {:induction false} RunConverges(jobs: Jobs, start: Index, steps: seq<Step>, document: DocumentId,
                                        chunks: seq<Payload>)
    requires WellKeyed(start) && AllNumbered(jobs) && SameBytesSince(jobs, start, steps, document, chunks)
    ensures LastDeleter(jobs, start, steps, document).Some? && Numbered(chunks)
    ensures var o, c := LastDeleter(jobs, start, steps, document).value, Exec(jobs, start, steps);
      && o in jobs && jobs[o].document == document && jobs[o].chunks == chunks && !PhaseOf(c, o).Parsing?
      && Converging(c.index, document, chunks, Progress(PhaseOf(c, o), |chunks|))
  {
    var before, s := steps[..|steps| - 1], steps[|steps| - 1];
    var c := Exec(jobs, start, before);
    RunsStayWellKeyed(jobs, start, before);
    if !Clears(jobs, c, s, document) {
      RunConverges(jobs, start, before, document, chunks);
      StepConverges(jobs, c, s, document, chunks, LastDeleter(jobs, start, before, document).value);
    }
  }

  /**
   Whatever attempts ran, however they interleaved and wherever they crashed: if the one that deleted last
   completed, and what was uploaded since came from the same bytes, the document's points are exactly those of
   its chunks, one for each index from 0 to n - 1.
   */
  lemma IndexConverges(jobs: Jobs, start: Index, steps: seq<Step>, document: DocumentId, chunks: seq<Payload>)
    requires WellKeyed(start) && AllNumbered(jobs) && SameBytesSince(jobs, start, steps, document, chunks)
    requires var o := LastDeleter(jobs, start, steps, document);
      o.Some? && PhaseOf(Exec(jobs, start, steps), o.value) == Ready
    ensures Indexed(Exec(jobs, start, steps).index, document, chunks)
  {
    RunConverges(jobs, start, steps, document, chunks);
    var index := Exec(jobs, start, steps).index;
    forall id: PointId | id.document == document && 0 <= id.chunkIndex < |chunks| ensures id in index {
      assert id == PointId(document, id.chunkIndex);
    }
  }

  /** Even when the last deleter crashed, nothing stale is left to be cited. */
  lemma NoStalePoints(jobs: Jobs, start: Index, steps: seq<Step>, document: DocumentId, chunks: seq<Payload>)
    requires WellKeyed(start) && AllNumbered(jobs) && SameBytesSince(jobs, start, steps, document, chunks)
    ensures var index := Exec(jobs, start, steps).index;
      forall id :: id in index && id.document == document ==> Genuine(index, id, chunks)
  {
    RunConverges(jobs, start, steps, document, chunks);
  }

  /** A run in which no attempt works on a document leaves its points alone. */
  lemma {:induction false} UnrelatedRunsTouchNothing(jobs: Jobs, start: Index, steps: seq<Step>, id: PointId)
    requires WellKeyed(start) && AllNumbered(jobs) && forall a :: a in jobs ==> jobs[a].document != id.document
    ensures var index := Exec(jobs, start, steps).index;
      (id in index <==> id in start) && (id in start ==> index[id] == start[id])
  {
    if steps != [] {
      var before, s := steps[..|steps| - 1], steps[|steps| - 1];
      RunsStayWellKeyed(jobs, start, before);
      UnrelatedRunsTouchNothing(jobs, start, before, id);
      OthersUntouched(jobs, Exec(jobs, start, before), s, id);
    }
  }

  lemma ExecSnoc(jobs: Jobs, start: Index, steps: seq<Step>, s: Step)
    ensures Exec(jobs, start, steps + [s]) == Act(jobs, Exec(jobs, start, steps), s)
  {
    assert (steps + [s])[..|steps|] == steps;
  }

  lemma LastDeleterSnoc(jobs: Jobs, start: Index, steps: seq<Step>, s: Step, document: DocumentId)
    ensures LastDeleter(jobs, start, steps + [s], document) ==
      if Clears(jobs, Exec(jobs, start, steps), s, document) then Some(s.attempt)
      else LastDeleter(jobs, start, steps, document)
  {
    assert (steps + [s])[..|steps|] == steps;
  }

  /** The state and the last deleter after one more step. */
  lemma Then(jobs: Jobs, start: Index, steps: seq<Step>, s: Step, document: DocumentId)
    returns (longer: seq<Step>, c: System)
    ensures longer == steps + [s] && c == Exec(jobs, start, longer) == Act(jobs, Exec(jobs, start, steps), s)
    ensures LastDeleter(jobs, start, longer, document) ==
      if Clears(jobs, Exec(jobs, start, steps), s, document) then Some(s.attempt)
      else LastDeleter(jobs, start, steps, document)
  {
    longer := steps + [s];
    c := Exec(jobs, start, longer);
    ExecSnoc(jobs, start, steps, s);
    LastDeleterSnoc(jobs, start, steps, s, document);
  }

  /** Upserting on, batch by batch, until all of the attempt's points are in. */
  lemma UpsertTheRest(jobs: Jobs, start: Index, steps: seq<Step>, a: AttemptId, document: DocumentId)
    returns (longer: seq<Step>)
    requires a in jobs && PhaseOf(Exec(jobs, start, steps), a).Upserting?
    requires PhaseOf(Exec(jobs, start, steps), a).done <= |jobs[a].chunks|
    ensures var c, d := Exec(jobs, start, steps), Exec(jobs, start, longer);
      && PhaseOf(d, a) == Upserting(|jobs[a].chunks|) && (forall b :: b != a ==> PhaseOf(d, b) == PhaseOf(c, b))
      && d.index == Put(c.index, PointsOf(jobs[a])[PhaseOf(c, a).done..])
    ensures LastDeleter(jobs, start, longer, document) == LastDeleter(jobs, start, steps, document)
    decreases |jobs[a].chunks| - PhaseOf(Exec(jobs, start, steps), a).done
  {
    var c, n := Exec(jobs, start, steps), |jobs[a].chunks|;
    var done, points := PhaseOf(c, a).done, PointsOf(jobs[a]);
    if done == n {
      longer := steps;
      assert points[n..] == [];
    } else {
      var next := Min(done + BATCH_SIZE, n);
      var more, d := Then(jobs, start, steps, UpsertNext(a), document);
      assert PhaseOf(d, a) == Upserting(next);
      longer := UpsertTheRest(jobs, start, more, a, document);
      PutRest(c.index, points, done, next);
    }
  }

  /** The attempt that deleted the document's points last ran to its end. */
  ghost predicate Finished(jobs: Jobs, start: Index, steps: seq<Step>, document: DocumentId) {
    var o := LastDeleter(jobs, start, steps, document);
    o.Some? && o.value in jobs && PhaseOf(Exec(jobs, start, steps), o.value) == Ready
  }

  /** Whatever the index held and however the attempts interleave and crash, a finished run indexes its document. */
  ghost predicate AlwaysConverges(jobs: Jobs, document: DocumentId) {
    forall start, steps :: WellKeyed(start) && Finished(jobs, start, steps, document) ==>
      Indexed(Exec(jobs, start, steps).index, document, jobs[LastDeleter(jobs, start, steps, document).value].chunks)
  }

  /** Every attempt on the document parsed the same chunks. */
  predicate BytesAgree(jobs: Jobs, document: DocumentId) {
    forall a, b :: a in jobs && b in jobs && jobs[a].document == document && jobs[b].document == document ==>
      jobs[a].chunks == jobs[b].chunks
  }

  /** A worker may die with any part of its batch applied, and what was applied stays. */
  lemma CrashLeavesAnyPrefix(jobs: Jobs, c: System, a: AttemptId, landed: nat)
    requires a in jobs && PhaseOf(c, a).Upserting? && landed <= 128 && PhaseOf(c, a).done + landed <= |jobs[a].chunks|
    ensures var d := Act(jobs, c, Crash(a, landed));
      && PhaseOf(d, a) == Crashed
      && d.index == Put(c.index, PointsOf(jobs[a])[PhaseOf(c, a).done..PhaseOf(c, a).done + landed])
  {
  }

  /** A batch is at most 128 points. */
  lemma BatchIsNext(jobs: Jobs, c: System, a: AttemptId)
    requires a in jobs && PhaseOf(c, a).Upserting? && PhaseOf(c, a).done <= |jobs[a].chunks|
    ensures var done, n := PhaseOf(c, a).done, |jobs[a].chunks|;
      var next := if done + 128 <= n then done + 128 else n;
      var d := Act(jobs, c, UpsertNext(a));
      PhaseOf(d, a) == Upserting(next) && d.index == Put(c.index, PointsOf(jobs[a])[done..next])
  {
  }

  /** Left alone, an attempt does what `Replace` does: it deletes, upserts all of its points and becomes ready. */
  lemma AttemptAloneCompletes(jobs: Jobs, start: Index, a: AttemptId) returns (steps: seq<Step>)
    requires a in jobs && jobs[a].chunks != []
    ensures var c := Exec(jobs, start, steps);
      && PhaseOf(c, a) == Ready && LastDeleter(jobs, start, steps, jobs[a].document) == Some(a)
      && c.index == Put(Without(start, jobs[a].document), PointsOf(jobs[a]))
  {
    var document, c := jobs[a].document, Exec(jobs, start, []);
    steps, c := Then(jobs, start, [], DeleteOld(a), document);
    assert PhaseOf(c, a) == Upserting(0) && c.index == Without(start, document);
    steps := UpsertTheRest(jobs, start, steps, a, document);
    assert PointsOf(jobs[a])[0..] == PointsOf(jobs[a]);
    steps, c := Then(jobs, start, steps, Finish(a), document);
    assert PointsOf(jobs[a])[0..0] == [];
  }

  /** A crash ends an attempt wherever it was, and an attempt that has ended does nothing more. */
  lemma EndedAttemptsAreOver(jobs: Jobs, c: System, a: AttemptId, landed: nat, s: Step)
    requires a in jobs && s.attempt == a
    ensures PhaseOf(c, a) != Ready ==> PhaseOf(Act(jobs, c, Crash(a, landed)), a) == Crashed
    ensures PhaseOf(c, a) == Ready || PhaseOf(c, a) == Crashed ==>
      Act(jobs, c, s).index == c.index && PhaseOf(Act(jobs, c, s), a) == PhaseOf(c, a)
  {
  }

  /** An attempt whose parse gave no chunks fails before it touches the index. */
  lemma EmptyParseDeletesNothing(jobs: Jobs, c: System, a: AttemptId)
    requires a in jobs && jobs[a].chunks == [] && PhaseOf(c, a).Parsing?
    ensures Act(jobs, c, DeleteOld(a)).index == c.index && PhaseOf(Act(jobs, c, DeleteOld(a)), a) == Crashed
  {
    assert PointsOf(jobs[a])[0..0] == [];
  }

  lemma {:induction false} LastDeleterIsOnDocument(jobs: Jobs, start: Index, steps: seq<Step>, document: DocumentId)
    requires LastDeleter(jobs, start, steps, document).Some?
    ensures var o := LastDeleter(jobs, start, steps, document).value; o in jobs && jobs[o].document == document
  {
    var before, s := steps[..|steps| - 1], steps[|steps| - 1];
    if !Clears(jobs, Exec(jobs, start, before), s, document) {
      LastDeleterIsOnDocument(jobs, start, before, document);
    }
  }

  /** `early` and `late` delete, `late` completes, and then `early` goes on to upsert all of its points. */
  lemma LateUpsertsSurvive(jobs: Jobs, document: DocumentId, early: AttemptId, late: AttemptId)
    returns (steps: seq<Step>)
    requires early in jobs && late in jobs && early != late && AllNumbered(jobs)
    requires jobs[early].document == jobs[late].document == document && jobs[early].chunks != []
      && jobs[late].chunks != []
    ensures LastDeleter(jobs, map[], steps, document) == Some(late) && Finished(jobs, map[], steps, document)
    ensures var index := Exec(jobs, map[], steps).index;
      forall i :: 0 <= i < |jobs[early].chunks| ==> Genuine(index, PointId(document, i), jobs[early].chunks)
  {
    steps := BothDelete(jobs, document, early, late);
    var c: System;
    steps := UpsertTheRest(jobs, map[], steps, late, document);
    steps, c := Then(jobs, map[], steps, Finish(late), document);
    assert PhaseOf(c, late) == Ready && PhaseOf(c, early) == Upserting(0);
    var n := |jobs[early].chunks|;
    PutSlice(c.index, jobs[early], 0, n);
    assert PointsOf(jobs[early])[0..] == PointsOf(jobs[early])[0..n];
    steps := UpsertTheRest(jobs, map[], steps, early, document);
  }

  lemma BothDelete(jobs: Jobs, document: DocumentId, early: AttemptId, late: AttemptId)
    returns (steps: seq<Step>)
    requires early in jobs && late in jobs && early != late
    requires jobs[early].document == jobs[late].document == document && jobs[early].chunks != []
      && jobs[late].chunks != []
    ensures LastDeleter(jobs, map[], steps, document) == Some(late)
    ensures var c := Exec(jobs, map[], steps); PhaseOf(c, early) == Upserting(0) && PhaseOf(c, late) == Upserting(0)
  {
    var c: System;
    steps, c := Then(jobs, map[], [], DeleteOld(early), document);
    assert PhaseOf(c, early) == Upserting(0) && PhaseOf(c, late) == Parsing;
    steps, c := Then(jobs, map[], steps, DeleteOld(late), document);
  }

  /** For one: an older attempt that is still upserting outlives a newer, shorter generation that completed. */
  lemma DifferentBytesLeaveStalePoints(document: DocumentId, first: Payload, second: Payload, only: Payload)
    returns (jobs: Jobs, steps: seq<Step>)
    requires first.chunkIndex == 0 && second.chunkIndex == 1 && only.chunkIndex == 0
    ensures jobs == map[0 := Attempt(document, [first, second], 1), 1 := Attempt(document, [only], 2)]
    ensures var c := Exec(jobs, map[], steps);
      && LastDeleter(jobs, map[], steps, document) == Some(1) && PhaseOf(c, 1) == Ready
      && PointId(document, 1) in c.index && c.index[PointId(document, 1)].chunk == second
  {
    jobs := map[0 := Attempt(document, [first, second], 1), 1 := Attempt(document, [only], 2)];
    steps := LateUpsertsSurvive(jobs, document, 0, 1);
    assert Genuine(Exec(jobs, map[], steps).index, PointId(document, 1), jobs[0].chunks);
  }

  lemma DisagreementIsSeen(jobs: Jobs, document: DocumentId, early: AttemptId, late: AttemptId)
    requires early in jobs && late in jobs && AllNumbered(jobs)
    requires jobs[early].document == jobs[late].document == document && jobs[early].chunks != []
      && jobs[late].chunks != []
    requires !(jobs[early].chunks <= jobs[late].chunks)
    ensures !AlwaysConverges(jobs, document)
  {
    var steps := LateUpsertsSurvive(jobs, document, early, late);
    var index, mine, theirs := Exec(jobs, map[], steps).index, jobs[early].chunks, jobs[late].chunks;
    var i: nat :| i < |mine| && (i >= |theirs| || mine[i] != theirs[i]);
    assert Genuine(index, PointId(document, i), mine);
    assert !Indexed(index, document, theirs);
  }

  /**
   The exact condition for ingestion to be idempotent: runs of the attempts on a document, from any index and in any
   interleaving with crashes anywhere, always leave the document as the attempt that deleted last parsed it if and
   only if all of its attempts parsed the same chunks.
   */
  lemma ConvergesIffBytesAgree(jobs: Jobs, document: DocumentId)
    requires AllNumbered(jobs) && forall a :: a in jobs && jobs[a].document == document ==> jobs[a].chunks != []
    ensures AlwaysConverges(jobs, document) <==> BytesAgree(jobs, document)
  {
    if BytesAgree(jobs, document) {
      forall start, steps | WellKeyed(start) && Finished(jobs, start, steps, document)
        ensures Indexed(Exec(jobs, start, steps).index, document,
          jobs[LastDeleter(jobs, start, steps, document).value].chunks)
      {
        var chunks := jobs[LastDeleter(jobs, start, steps, document).value].chunks;
        LastDeleterIsOnDocument(jobs, start, steps, document);
        RetriesShareBytes(jobs, start, steps, document, chunks);
        IndexConverges(jobs, start, steps, document, chunks);
      }
    } else {
      var a, b :| a in jobs && b in jobs && jobs[a].document == document && jobs[b].document == document
                  && jobs[a].chunks != jobs[b].chunks;
      if jobs[a].chunks <= jobs[b].chunks {
        DisagreementIsSeen(jobs, document, b, a);
      } else {
        DisagreementIsSeen(jobs, document, a, b);
      }
    }
  }

  // ------------------------------------------------------------ documents do not disturb each other

  predicate IsOn(jobs: Jobs, s: Step, document: DocumentId) {
    s.attempt in jobs && jobs[s.attempt].document == document
  }

  /** The steps of the document's own attempts. */
  function Own(jobs: Jobs, steps: seq<Step>, document: DocumentId): seq<Step> {
    if steps == [] then []
    else
      Own(jobs, steps[..|steps| - 1], document)
      + if IsOn(jobs, steps[|steps| - 1], document) then [steps[|steps| - 1]] else []
  }

  /** The two systems look the same to the document: its points, and how far its attempts have come. */
  ghost predicate AgreeOn(jobs: Jobs, c: System, d: System, document: DocumentId) {
    && (forall id: PointId :: id.document == document ==>
          (id in c.index <==> id in d.index) && (id in c.index ==> c.index[id] == d.index[id]))
    && (forall a :: a in jobs && jobs[a].document == document ==> PhaseOf(c, a) == PhaseOf(d, a))
  }

  lemma OwnStepAgrees(jobs: Jobs, c: System, d: System, s: Step, document: DocumentId)
    requires WellKeyed(c.index) && WellKeyed(d.index) && AllNumbered(jobs)
    requires IsOn(jobs, s, document) && AgreeOn(jobs, c, d, document)
    ensures AgreeOn(jobs, Act(jobs, c, s), Act(jobs, d, s), document)
  {
    var job := jobs[s.attempt];
    var w := Written(job, PhaseOf(c, s.attempt), s);
    PutSlice(c.index, job, w.lo, w.hi);
    PutSlice(d.index, job, w.lo, w.hi);
  }

  lemma ForeignStepAgrees(jobs: Jobs, c: System, d: System, s: Step, document: DocumentId)
    requires WellKeyed(c.index) && AllNumbered(jobs)
    requires !IsOn(jobs, s, document) && AgreeOn(jobs, c, d, document)
    ensures AgreeOn(jobs, Act(jobs, c, s), d, document)
  {
    forall id: PointId | id.document == document
      ensures id in Act(jobs, c, s).index <==> id in c.index
      ensures id in c.index ==> Act(jobs, c, s).index[id] == c.index[id]
    {
      OthersUntouched(jobs, c, s, id);
    }
  }

  /** Ingestion is isolated: in any run a document fares as it would in the run of its own attempts' steps alone. */
  lemma {:induction false} RunsAreIsolated(jobs: Jobs, start: Index, steps: seq<Step>, document: DocumentId)
    requires WellKeyed(start) && AllNumbered(jobs)
    ensures AgreeOn(jobs, Exec(jobs, start, steps), Exec(jobs, start, Own(jobs, steps, document)), document)
  {
    if steps != [] {
      var before, s := steps[..|steps| - 1], steps[|steps| - 1];
      var own := Own(jobs, before, document);
      RunsAreIsolated(jobs, start, before, document);
      RunsStayWellKeyed(jobs, start, before);
      RunsStayWellKeyed(jobs, start, own);
      if IsOn(jobs, s, document) {
        OwnStepAgrees(jobs, Exec(jobs, start, before), Exec(jobs, start, own), s, document);
        ExecSnoc(jobs, start, own, s);
      } else {
        ForeignStepAgrees(jobs, Exec(jobs, start, before), Exec(jobs, start, own), s, document);
        assert Own(jobs, steps, document) == own;
      }
    }
  }

  // ------------------------------------------------------------ reading the chunks back

  const MAX_CHUNKS := 4_000

  predicate ByIndex(a: SourceChunk, b: SourceChunk) {
    a.chunkIndex <= b.chunkIndex
  }

  /** A point without original text is read by its normalised text, and one without either is skipped. */
  function Read(q: Payload): Option<SourceChunk> {
    var raw := if q.rawText != "" then q.rawText else q.text;
    if raw == "" then None else Some(SourceChunk(raw, q.chunkIndex, q.pageNumber, q.sectionPath))
  }

  /** What can be read of a document. */
  function ReadAll(chunks: seq<Payload>): seq<SourceChunk> {
    if chunks == [] then []
    else
      var c := Read(chunks[|chunks| - 1]);
      ReadAll(chunks[..|chunks| - 1]) + if c.Some? then [c.value] else []
  }

  /** A point is read by its original text, one without by its normalised text, and one without either not at all. */
  lemma ReadSays(q: Payload)
    ensures q.rawText != "" ==> Read(q) == Some(SourceChunk(q.rawText, q.chunkIndex, q.pageNumber, q.sectionPath))
    ensures q.rawText == "" && q.text != "" ==>
      Read(q) == Some(SourceChunk(q.text, q.chunkIndex, q.pageNumber, q.sectionPath))
    ensures q.rawText == "" && q.text == "" ==> Read(q) == None
  {
  }

  /** The original text of a chunk, where it stood. */
  function Original(q: Payload): SourceChunk {
    SourceChunk(q.rawText, q.chunkIndex, q.pageNumber, q.sectionPath)
  }

  /** Of chunks that all have original text, each is read in its place: its text, index, page and section. */
  lemma {:induction false} ReadInPlace(chunks: seq<Payload>)
    requires forall i :: 0 <= i < |chunks| ==> chunks[i].rawText != ""
    ensures |ReadAll(chunks)| == |chunks|
    ensures forall i :: 0 <= i < |chunks| ==> ReadAll(chunks)[i] == Original(chunks[i])
    decreases |chunks|
  {
    if chunks != [] {
      ReadInPlace(chunks[..|chunks| - 1]);
      ReadSays(chunks[|chunks| - 1]);
    }
  }

  /** The payloads of a scroll page. */
  function Payloads(index: Index, page: seq<PointId>): seq<Payload>
    requires forall id :: id in page ==> id in index
  {
    seq(|page|, i requires 0 <= i < |page| && page[i] in index => index[page[i]].chunk)
  }

  predicate PagesExist(index: Index, pages: seq<seq<PointId>>) {
    forall i :: 0 <= i < |pages| ==> forall id :: id in pages[i] ==> id in index
  }

  /** What the scroll loop has collected when it stops: it reads page by page until the ceiling is reached. */
  function Gathered(index: Index, pages: seq<seq<PointId>>, collected: seq<SourceChunk>): seq<SourceChunk>
    requires PagesExist(index, pages)
  {
    if pages == [] then collected
    else
      var more := collected + ReadAll(Payloads(index, pages[0]));
      if |more| >= MAX_CHUNKS then more else Gathered(index, pages[1..], more)
  }

  function Loaded(index: Index, pages: seq<seq<PointId>>): seq<SourceChunk>
    requires PagesExist(index, pages)
  {
    var sorted := Sorted(ByIndex, Gathered(index, pages, []));
    if |sorted| <= MAX_CHUNKS then sorted else sorted[..MAX_CHUNKS]
  }

  /** `_load_chunks`; `pages` is what the scroll returns, in whatever order the store keeps its points. */
  method LoadChunks(index: Index, pages: seq<seq<PointId>>) returns (chunks: seq<SourceChunk>)
    requires PagesExist(index, pages)
    ensures chunks == Loaded(index, pages)
  {
    var collected: seq<SourceChunk>, next := [], 0;
    while next < |pages| && |collected| < MAX_CHUNKS
      invariant next <= |pages|
      invariant Gathered(index, pages, []) ==
        if |collected| < MAX_CHUNKS then Gathered(index, pages[next..], collected) else collected
    {
      collected := ReadPage(index, pages[next], collected);
      next := next + 1;
    }
    chunks := Sorted(ByIndex, collected);
    if |chunks| > MAX_CHUNKS {
      chunks := chunks[..MAX_CHUNKS];
    }
  }

  /** The inner loop: the points of one page. */
  method ReadPage(index: Index, page: seq<PointId>, earlier: seq<SourceChunk>) returns (collected: seq<SourceChunk>)
    requires forall id :: id in page ==> id in index
    ensures collected == earlier + ReadAll(Payloads(index, page))
  {
    collected := earlier;
    ghost var all := Payloads(index, page);
    for i := 0 to |page|
      invariant collected == earlier + ReadAll(all[..i])
    {
      assert all[..i + 1][..i] == all[..i];
      var c := Read(index[page[i]].chunk);
      if c.Some? {
        Associate(earlier, ReadAll(all[..i]), [c.value]);
        collected := collected + [c.value];
      } else {
        assert ReadAll(all[..i]) + [] == ReadAll(all[..i]);
      }
    }
    assert all[..|page|] == all;
  }

  function Flat(pages: seq<seq<PointId>>): seq<PointId> {
    if pages == [] then [] else pages[0] + Flat(pages[1..])
  }

  lemma {:induction false} ReadAppend(a: seq<Payload>, b: seq<Payload>)
    ensures ReadAll(a + b) == ReadAll(a) + ReadAll(b)
    decreases |b|
  {
    if b == [] {
      assert a + b == a;
    } else {
      assert (a + b)[..|a + b| - 1] == a + b[..|b| - 1];
      ReadAppend(a, b[..|b| - 1]);
    }
  }

  lemma {:induction false} FlatExists(index: Index, pages: seq<seq<PointId>>, id: PointId)
    requires PagesExist(index, pages) && id in Flat(pages)
    ensures id in index
  {
    if id !in pages[0] { FlatExists(index, pages[1..], id); }
  }

  lemma ReadPagesAppend(index: Index, a: seq<PointId>, b: seq<PointId>)
    requires forall id :: id in a + b ==> id in index
    ensures ReadAll(Payloads(index, a + b)) == ReadAll(Payloads(index, a)) + ReadAll(Payloads(index, b))
  {
    assert forall id :: id in a || id in b ==> id in a + b;
    assert Payloads(index, a + b) == Payloads(index, a) + Payloads(index, b);
    ReadAppend(Payloads(index, a), Payloads(index, b));
  }

  /** The loop stops early only once the ceiling is reached, and then with a prefix of what there is. */
  lemma {:induction false} GatherPrefix(index: Index, pages: seq<seq<PointId>>, collected: seq<SourceChunk>)
    requires PagesExist(index, pages) && forall id :: id in Flat(pages) ==> id in index
    ensures var all, g := collected + ReadAll(Payloads(index, Flat(pages))), Gathered(index, pages, collected);
      g <= all && (|g| < MAX_CHUNKS ==> g == all)
    decreases |pages|
  {
    if pages != [] {
      var here, rest := ReadAll(Payloads(index, pages[0])), Flat(pages[1..]);
      ReadPagesAppend(index, pages[0], rest);
      Associate(collected, here, ReadAll(Payloads(index, rest)));
      if |collected + here| < MAX_CHUNKS {
        GatherPrefix(index, pages[1..], collected + here);
      }
    }
  }

  predicate Distinct<T(==)>(xs: seq<T>) {
    forall i, j :: 0 <= i < j < |xs| ==> xs[i] != xs[j]
  }

  lemma {:induction false} DistinctCounts<T>(xs: seq<T>, x: T)
    requires Distinct(xs)
    ensures multiset(xs)[x] <= 1
  {
    if xs != [] {
      var front, last := xs[..|xs| - 1], xs[|xs| - 1];
      assert xs == front + [last];
      DistinctCounts(front, x);
      assert last !in front;
    }
  }

  /** A permutation of distinct elements has distinct elements. */
  lemma {:induction false} PermutationStaysDistinct<T>(xs: seq<T>, ys: seq<T>)
    requires Distinct(xs) && multiset(ys) == multiset(xs)
    ensures Distinct(ys)
  {
    forall i, j | 0 <= i < j < |ys| ensures ys[i] != ys[j] {
      if ys[i] == ys[j] {
        assert ys == ys[..j] + ys[j..];
        assert ys[i] in ys[..j];
        assert ys[j..][0] == ys[j];
        assert multiset(ys)[ys[i]] == multiset(ys[..j])[ys[i]] + multiset(ys[j..])[ys[i]];
        DistinctCounts(xs, ys[i]);
      }
    }
  }

  lemma {:induction false} ReadMembers(chunks: seq<Payload>, x: SourceChunk)
    ensures x in ReadAll(chunks) <==> exists i :: 0 <= i < |chunks| && Read(chunks[i]) == Some(x)
    decreases |chunks|
  {
    if chunks != [] {
      var front, last := chunks[..|chunks| - 1], chunks[|chunks| - 1];
      ReadMembers(front, x);
      assert forall i :: 0 <= i < |front| ==> front[i] == chunks[i];
    }
  }

  predicate DistinctIndexes(chunks: seq<Payload>) {
    forall i, j :: 0 <= i < j < |chunks| ==> chunks[i].chunkIndex != chunks[j].chunkIndex
  }

  lemma {:induction false} ReadDistinct(chunks: seq<Payload>)
    requires DistinctIndexes(chunks)
    ensures Distinct(ReadAll(chunks))
    decreases |chunks|
  {
    if chunks != [] {
      var front, last := chunks[..|chunks| - 1], chunks[|chunks| - 1];
      ReadDistinct(front);
      if Read(last).Some? {
        ReadMembers(front, Read(last).value);
        assert Read(last).value !in ReadAll(front);
      }
    }
  }

  /** In document order, no index twice. */
  predicate Ascending(xs: seq<SourceChunk>) {
    forall i, j :: 0 <= i < j < |xs| ==> xs[i].chunkIndex < xs[j].chunkIndex
  }

  lemma {:induction false} ReadAscending(chunks: seq<Payload>)
    requires Numbered(chunks)
    ensures Ascending(ReadAll(chunks)) && forall x :: x in ReadAll(chunks) ==> x.chunkIndex < |chunks|
    decreases |chunks|
  {
    if chunks != [] {
      ReadAscending(chunks[..|chunks| - 1]);
    }
  }

  lemma Memberless<T>(xs: seq<T>)
    requires forall x :: x !in xs
    ensures xs == []
  {
    assert forall x :: x in multiset(xs) ==> x in xs;
    assert multiset(xs) == multiset{};
    assert |multiset(xs)| == |xs|;
  }

  lemma LastByMembers(xs: seq<SourceChunk>, ys: seq<SourceChunk>)
    requires xs != [] && ys != [] && Ascending(xs) && Ascending(ys) && forall x :: x in xs <==> x in ys
    ensures xs[|xs| - 1] == ys[|ys| - 1]
  {
    var x, y := xs[|xs| - 1], ys[|ys| - 1];
    assert x in xs && y in ys;
    var i :| 0 <= i < |ys| && ys[i] == x;
    var j :| 0 <= j < |xs| && xs[j] == y;
    assert x.chunkIndex <= y.chunkIndex <= x.chunkIndex;
  }

  lemma WithoutLast(xs: seq<SourceChunk>, z: SourceChunk)
    requires xs != [] && Ascending(xs)
    ensures z in xs[..|xs| - 1] <==> z in xs && z != xs[|xs| - 1]
  {
    SplitLast(xs);
  }

  lemma {:induction false} AscendingByMembers(xs: seq<SourceChunk>, ys: seq<SourceChunk>)
    requires Ascending(xs) && Ascending(ys) && forall x :: x in xs <==> x in ys
    ensures xs == ys
    decreases |xs|
  {
    if xs == [] {
      Memberless(ys);
    } else {
      assert xs[0] in ys;
      LastByMembers(xs, ys);
      var fx, fy := xs[..|xs| - 1], ys[..|ys| - 1];
      forall z ensures z in fx <==> z in fy {
        WithoutLast(xs, z);
        WithoutLast(ys, z);
      }
      AscendingByMembers(fx, fy);
      SplitLast(xs);
      SplitLast(ys);
    }
  }

  /** Read in any order and sorted by index, distinct chunks of a numbered document are what can be read of it. */
  lemma SortedIsTheDocument(xs: seq<SourceChunk>, chunks: seq<Payload>)
    requires Numbered(chunks) && Distinct(xs) && forall x :: x in xs <==> x in ReadAll(chunks)
    ensures Sorted(ByIndex, xs) == ReadAll(chunks)
  {
    var ys := Sorted(ByIndex, xs);
    SortedIsOrderedPermutation(ByIndex, xs);
    PermutationStaysDistinct(xs, ys);
    assert forall y :: y in ys <==> y in multiset(ys);
    ReadAscending(chunks);
    forall i, j | 0 <= i < j < |ys| ensures ys[i].chunkIndex < ys[j].chunkIndex {
      assert ys[i] in ys && ys[j] in ys && ByIndex(ys[i], ys[j]);
      SameIndexSameChunk(chunks, ys[i], ys[j]);
    }
    AscendingByMembers(ys, ReadAll(chunks));
  }

  lemma SameIndexSameChunk(chunks: seq<Payload>, x: SourceChunk, y: SourceChunk)
    requires Numbered(chunks) && x in ReadAll(chunks) && y in ReadAll(chunks)
    ensures x.chunkIndex == y.chunkIndex ==> x == y
  {
    ReadMembers(chunks, x);
    ReadMembers(chunks, y);
  }

  /** A scroll meets every point of the document exactly once. */
  ghost predicate Scrolls(index: Index, document: DocumentId, ids: seq<PointId>) {
    (forall id :: id in ids <==> id in index && id.document == document) && Distinct(ids)
  }

  lemma ScrolledPayloads(index: Index, document: DocumentId, chunks: seq<Payload>, ids: seq<PointId>)
    requires Indexed(index, document, chunks) && Numbered(chunks) && Scrolls(index, document, ids)
    ensures forall i :: 0 <= i < |ids| ==>
      && 0 <= ids[i].chunkIndex < |chunks| && Payloads(index, ids)[i] == chunks[ids[i].chunkIndex]
      && ids[i] == PointId(document, ids[i].chunkIndex)
  {
    forall i | 0 <= i < |ids|
      ensures 0 <= ids[i].chunkIndex < |chunks| && Payloads(index, ids)[i] == chunks[ids[i].chunkIndex]
      ensures ids[i] == PointId(document, ids[i].chunkIndex)
    {
      assert ids[i] in ids;
      assert Genuine(index, ids[i], chunks);
    }
  }

  /** The chunks a full scroll reads, in whatever order, are those of the document, each once. */
  lemma ScrolledChunks(index: Index, document: DocumentId, chunks: seq<Payload>, ids: seq<PointId>)
    requires Indexed(index, document, chunks) && Numbered(chunks) && Scrolls(index, document, ids)
    ensures Distinct(ReadAll(Payloads(index, ids)))
    ensures forall x :: x in ReadAll(Payloads(index, ids)) <==> x in ReadAll(chunks)
  {
    var all := Payloads(index, ids);
    ScrolledPayloads(index, document, chunks, ids);
    forall i, j | 0 <= i < j < |all| ensures all[i].chunkIndex != all[j].chunkIndex {
      assert ids[i] != ids[j];
    }
    ReadDistinct(all);
    forall x ensures x in ReadAll(all) <==> x in ReadAll(chunks) {
      ReadMembers(all, x);
      ReadMembers(chunks, x);
      if i :| 0 <= i < |chunks| && Read(chunks[i]) == Some(x) {
        assert PointId(document, i) in ids;
        var n :| 0 <= n < |ids| && ids[n] == PointId(document, i);
        assert all[n] == chunks[i];
      }
    }
  }

  lemma SortedSize(xs: seq<SourceChunk>)
    ensures |Sorted(ByIndex, xs)| == |xs| && forall x :: x in Sorted(ByIndex, xs) <==> x in xs
  {
    SortedIsOrderedPermutation(ByIndex, xs);
    assert |multiset(xs)| == |xs| && |multiset(Sorted(ByIndex, xs))| == |Sorted(ByIndex, xs)|;
    assert forall x :: x in xs <==> x in multiset(xs);
    assert forall x :: x in Sorted(ByIndex, xs) <==> x in multiset(Sorted(ByIndex, xs));
  }

  lemma GatherFromNothing(index: Index, pages: seq<seq<PointId>>)
    requires PagesExist(index, pages) && forall id :: id in Flat(pages) ==> id in index
    ensures var all, g := ReadAll(Payloads(index, Flat(pages))), Gathered(index, pages, []);
      && (forall x :: x in g ==> x in all) && (if |all| <= MAX_CHUNKS then g == all else |g| >= MAX_CHUNKS)
  {
    GatherPrefix(index, pages, []);
    assert [] + ReadAll(Payloads(index, Flat(pages))) == ReadAll(Payloads(index, Flat(pages)));
  }

  /**
   Reading an indexed document back gives what can be read of the chunks that ingestion cut, in document order,
   whatever order the store pages them out in, if and only if they number at most 4,000. Beyond that it gives
   exactly 4,000 of them.
   */
  lemma ReadBackIsTheDocument(index: Index, document: DocumentId, chunks: seq<Payload>, pages: seq<seq<PointId>>)
    requires Indexed(index, document, chunks) && Numbered(chunks)
    requires PagesExist(index, pages) && Scrolls(index, document, Flat(pages))
    ensures Loaded(index, pages) == ReadAll(chunks) <==> |ReadAll(chunks)| <= 4_000
    ensures |Loaded(index, pages)| == Min(|ReadAll(chunks)|, 4_000)
    ensures forall x :: x in Loaded(index, pages) ==> x in ReadAll(chunks)
  {
    var all, g := ReadAll(Payloads(index, Flat(pages))), Gathered(index, pages, []);
    ScrolledChunks(index, document, chunks, Flat(pages));
    SortedIsTheDocument(all, chunks);
    SortedSize(all);
    GatherFromNothing(index, pages);
    SortedSize(g);
  }
}
