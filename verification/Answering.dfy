/**
 The grounded-answer chain: the gates that can stop it, the shape of what it may save, and what that shape means
 for an answer that is finally exported.
 */
module Answering {
  import opened PyText
  import opened Proposals
  import opened Lifecycle
  import opened ExportGate
  import G = Grounding
  import Registration
  import Extraction

  /** One call of `AnswerChain.run`, with what retrieval, the reranker and the model returned. */
  datatype Request = Request(
    requirementText: string, sectionPath: Option<string>, isMandatory: bool,
    anyCandidates: bool, chunks: seq<G.RetrievedChunk>, minRetrieval: real,
    blocks: seq<G.Block>, claims: string -> seq<string>, minCoverage: real)

  const NOTHING_FOUND := "no matching content in the knowledge base"
  const WEAK_EVIDENCE := "best match scored below the evidence threshold"
  const HALF_COMPLIED := "not-found sentinel returned alongside other text"
  const UNSUPPORTED := "the sources did not support an answer"

  function Abstention(q: Request, reason: string): Generation {
    Generation(q.requirementText, q.sectionPath, q.isMandatory, None, [], None, Some(0.0), Some(reason), Abstained)
  }

  function TopScore(q: Request): real {
    if q.chunks == [] then 0.0 else q.chunks[0].score
  }

  /** The tail of `AnswerChain.run`: what is handed over once the answer has been mapped and verified. */
  function HandOver(q: Request, mapped: G.MappedAnswer, report: G.Report): Generation {
    if report.isAbstention then
      Abstention(q, if report.protocolViolation then HALF_COMPLIED else UNSUPPORTED)
    else Generation(q.requirementText, q.sectionPath, q.isMandatory, Some(mapped.text), mapped.citations,
                    Some(report.coverage), Some(G.Confidence(report, TopScore(q))), None, Draft)
  }

  function MappedFor(q: Request): G.MappedAnswer {
    G.Mapped(q.blocks, q.chunks)
  }

  function ReportFor(q: Request): G.Report {
    G.Verify(MappedFor(q), q.claims, q.minCoverage)
  }

  /** `AnswerChain.run` */
  function Answer(q: Request): Generation {
    if !q.anyCandidates then Abstention(q, NOTHING_FOUND)
    else if TopScore(q) < q.minRetrieval then Abstention(q, WEAK_EVIDENCE)
    else HandOver(q, MappedFor(q), ReportFor(q))
  }

  /** Each stored citation quotes a chunk that was supplied, in words the API returned for it. */
  ghost predicate CitesOnlySupplied(g: Generation, q: Request) {
    forall c :: c in g.citations ==> G.Evidenced(c, G.RawsOf(q.blocks), q.chunks)
  }

  predicate Declines(g: Generation) {
    g.status == Abstained && g.answerText == None && g.citations == [] && g.abstentionReason.Some?
  }

  lemma AbstentionDeclines(q: Request, reason: string)
    ensures Declines(Abstention(q, reason))
  {
  }

  /** A draft: its evidence passed the retrieval gate and each citation quotes the supplied chunk it names. */
  ghost predicate Drafts(g: Generation, q: Request) {
    && g.status == Draft && g.answerText.Some? && CitesOnlySupplied(g, q)
    && q.anyCandidates && TopScore(q) >= q.minRetrieval
  }

  lemma DraftShape(q: Request)
    requires q.anyCandidates && TopScore(q) >= q.minRetrieval && !ReportFor(q).isAbstention
    ensures Drafts(Answer(q), q) && Answer(q).answerText == Some(MappedFor(q).text)
  {
    G.KeptAreEvidenced(G.RawsOf(q.blocks), q.chunks);
  }

  lemma DeclineShape(q: Request)
    requires !q.anyCandidates || TopScore(q) < q.minRetrieval || ReportFor(q).isAbstention
    ensures Declines(Answer(q))
  {
    if !q.anyCandidates {
      AbstentionDeclines(q, NOTHING_FOUND);
    } else if TopScore(q) < q.minRetrieval {
      AbstentionDeclines(q, WEAK_EVIDENCE);
    } else {
      AbstentionDeclines(q, if ReportFor(q).protocolViolation then HALF_COMPLIED else UNSUPPORTED);
    }
  }

  /**
   What the chain hands over: it declines, with a reason and neither text nor citations, exactly when nothing was
   found, the best chunk scored below the threshold, or the model declared a gap and no citation was rejected;
   anything else is a draft. Rejections are looked at before the declared gap.
   */
  lemma AnswerShape(q: Request)
    ensures var gap := MappedFor(q).rejected == 0 && Contains(Strip(MappedFor(q).text), G.NOT_FOUND);
      if !q.anyCandidates || TopScore(q) < q.minRetrieval || gap then Declines(Answer(q))
      else Drafts(Answer(q), q) && Answer(q).answerText == Some(MappedFor(q).text)
  {
    G.ReportIsWellFormed(MappedFor(q), q.claims, q.minCoverage);
    if !q.anyCandidates || TopScore(q) < q.minRetrieval || ReportFor(q).isAbstention {
      DeclineShape(q);
    } else {
      DraftShape(q);
    }
  }

  /** Every result is filed under the requirement it was asked for, with the metrics of its own report. */
  lemma AnswerSays(q: Request)
    ensures var g := Answer(q);
      && g.requirementText == q.requirementText && g.sectionPath == q.sectionPath && g.isMandatory == q.isMandatory
      && (Declines(g) ==> g.coverage == None && g.confidence == Some(0.0))
      && (g.status == Draft ==>
            && g.abstentionReason == None && g.citations == MappedFor(q).citations
            && g.coverage == Some(ReportFor(q).coverage)
            && g.confidence == Some(G.Confidence(ReportFor(q), if q.chunks == [] then 0.0 else q.chunks[0].score)))
  {
    if !q.anyCandidates {
      AbstentionDeclines(q, NOTHING_FOUND);
    } else if TopScore(q) < q.minRetrieval {
      AbstentionDeclines(q, WEAK_EVIDENCE);
    }
  }

  /** The reason names the gate that stopped the chain. */
  lemma ReasonNamesTheGate(q: Request)
    requires Declines(Answer(q))
    ensures var weak := q.anyCandidates && TopScore(q) < q.minRetrieval;
      Answer(q).abstentionReason == Some(
        if !q.anyCandidates then NOTHING_FOUND
        else if weak then WEAK_EVIDENCE
        else if Strip(MappedFor(q).text) == G.NOT_FOUND then UNSUPPORTED
        else HALF_COMPLIED)
  {
    G.ReportIsWellFormed(MappedFor(q), q.claims, q.minCoverage);
    if q.anyCandidates && TopScore(q) >= q.minRetrieval {
      G.UnscoredReports(MappedFor(q), q.claims, q.minCoverage);
    }
  }

  /** What every CHECK constraint asks of a generation, and what its callers promise about its status. */
  predicate Storable(g: Generation) {
    && UnitInterval(g.coverage) && UnitInterval(g.confidence)
    && (g.status == Draft || (g.status == Abstained && g.abstentionReason.Some? && g.answerText.None?))
  }

  lemma HandOverIsStorable(q: Request, mapped: G.MappedAnswer, report: G.Report)
    requires 0.0 <= report.coverage <= 1.0
    ensures Storable(HandOver(q, mapped, report))
  {
    G.ConfidenceInUnit(report, TopScore(q));
  }

  lemma AbstentionIsStorable(q: Request, reason: string)
    ensures Storable(Abstention(q, reason))
  {
  }

  lemma AnswerIsStorable(q: Request)
    ensures Storable(Answer(q))
  {
    G.ReportIsWellFormed(MappedFor(q), q.claims, q.minCoverage);
    HandOverIsStorable(q, MappedFor(q), ReportFor(q));
    if !q.anyCandidates {
      AbstentionIsStorable(q, NOTHING_FOUND);
    } else if TopScore(q) < q.minRetrieval {
      AbstentionIsStorable(q, WEAK_EVIDENCE);
    }
  }

  lemma StorableIsAccepted(s: Store, ws: WorkspaceId, ref: string, g: Generation)
    requires Storable(g)
    ensures CallerShape(Generate(ws, ref, g)) && Accepted(s, Generate(ws, ref, g))
  {
  }

  /** No result of the chain is ever refused by a CHECK constraint. */
  lemma AnswersAreAlwaysStored(s: Store, ws: WorkspaceId, ref: string, q: Request)
    ensures CallerShape(Generate(ws, ref, Answer(q))) && Accepted(s, Generate(ws, ref, Answer(q)))
  {
    AnswerIsStorable(q);
    StorableIsAccepted(s, ws, ref, Answer(q));
  }

  /** Where a generation came from: a request the chain answered, or a requirement extracted from the tender. */
  datatype Origin = FromChain(request: Request) | FromExtraction(requirement: Extraction.Requirement)

  function Output(o: Origin): Generation {
    match o
    case FromChain(q) => Answer(q)
    case FromExtraction(r) => Registration.Placeholder(r)
  }

  /** `log` records what each generation of the run came from; the chain is run with one evidence threshold. */
  ghost predicate Recorded(es: seq<Event>, log: map<nat, Origin>, threshold: real) {
    forall i: nat :: i < |es| && es[i].Generate? ==>
      && i in log && es[i].generation == Output(log[i])
      && (log[i].FromChain? ==> log[i].request.minRetrieval == threshold)
  }

  lemma RecordedRunsAreValid(es: seq<Event>, log: map<nat, Origin>, threshold: real)
    requires Recorded(es, log, threshold)
    ensures ValidRun(es)
  {
    forall i | 0 <= i < |es| && es[i].Generate? ensures CallerShape(es[i]) {
      if log[i].FromChain? {
        AnswersAreAlwaysStored(EMPTY, es[i].workspace, es[i].ref, log[i].request);
      }
    }
  }

  /** A row that exists at a moment was inserted before it. */
  lemma InsertedBefore(es: seq<Event>, i: nat, k: nat, id: RowId)
    requires i <= |es| && k <= |es| && State(es[..i]).nextId == id && id in State(es[..k]).rows
    ensures i < k
  {
    if k <= i {
      assert es[..i][..k] == es[..k];
      RowAdvances(es[..i], k, id);
      Reachable(es[..i]);
    }
  }

  /** The citations of a drafted answer all quote chunks its own request supplied, above the threshold. */
  ghost predicate Grounded(g: Generation, o: Origin, threshold: real) {
    o.FromChain? && g == Answer(o.request) && CitesOnlySupplied(g, o.request) && TopScore(o.request) >= threshold
  }

  lemma CitedIsGrounded(o: Origin, threshold: real)
    requires o.FromChain? ==> o.request.minRetrieval == threshold
    requires Output(o).citations != []
    ensures Grounded(Output(o), o, threshold)
  {
    if o.FromChain? { AnswerShape(o.request); }
  }

  /**
   The product's one rule, end to end, of any bundle built from the table. Every answer in its response document was
   approved by a named owner or bid manager on its exact text, after it was inserted at position `i` of the run.
   Either that insertion's own request passed the evidence threshold and every citation quotes, as the API named it,
   a chunk that request supplied to the model; or the answer carries no citation and the approver vouched for it in
   writing.
   */
  lemma NothingShipsWithoutEvidenceOrAName(es: seq<Event>, log: map<nat, Origin>, threshold: real,
                                           ws: WorkspaceId, row: ExportRow)
    returns (id: RowId, k: nat, i: nat)
    requires Recorded(es, log, threshold)
    requires row in AnsweredRows(Bundle(State(es), ws).rows)
    ensures id in State(es).rows && row == ToRow(State(es).rows[id]) && StandingApproval(es, k, id)
    ensures es[k].role == Owner || es[k].role == BidManager
    ensures id in State(es[..k]).rows && row.answerText == FinalText(State(es[..k]).rows[id])
    ensures i < k && es[i].Generate? && State(es[..i]).nextId == id && State(es).rows[id].born == es[i].generation
    ensures if es[i].generation.citations == [] then es[k].acknowledged && NonBlank(es[k].notes)
            else Grounded(es[i].generation, log[i], threshold)
  {
    RecordedRunsAreValid(es, log, threshold);
    id, k := ShippedTextWasApproved(es, ws, row);
    ApprovalIsVouched(es, k, id);
    i := BornOfAGeneration(es, id);
    InsertedBefore(es, i, k, id);
    if es[i].generation.citations != [] {
      CitedIsGrounded(log[i], threshold);
    }
  }
}
