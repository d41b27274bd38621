/**
 Grounding: resolving the citations the API returned against the chunks that were supplied, scoring how much of
 the answer they cover, and the advisory confidence. Scores are reals; sentence splitting is an input.
 */
module Grounding {
  import opened PyText
  import opened Proposals

  datatype RetrievedChunk = RetrievedChunk(chunkId: string, documentId: string, documentName: string,
                                           pageNumber: Option<int>, sectionPath: Option<string>, score: real)

  /** One citation as the API returned it. */
  datatype RawCitation = RawCitation(source: Option<string>, index: Option<int>, citedText: string)

  datatype Block = Text(text: string, citations: seq<RawCitation>) | Other

  datatype MappedAnswer = MappedAnswer(text: string, citations: seq<Citation>, uncited: seq<string>, rejected: nat)

  function SourceOf(c: RetrievedChunk): string {
    "qdrant://" + c.chunkId
  }

  /** `by_source`: a later chunk with the same source replaces an earlier one. */
  function BySource(chunks: seq<RetrievedChunk>, source: string): Option<RetrievedChunk> {
    if chunks == [] then None
    else if SourceOf(chunks[|chunks| - 1]) == source then Some(chunks[|chunks| - 1])
    else BySource(chunks[..|chunks| - 1], source)
  }

  predicate NamesSource(raw: RawCitation) {
    raw.source.Some? && raw.source.value != ""
  }

  /** `_resolve` */
  function Resolve(raw: RawCitation, chunks: seq<RetrievedChunk>): Option<RetrievedChunk> {
    if Strip(raw.citedText) == "" then None
    else if NamesSource(raw) && BySource(chunks, raw.source.value).Some? then BySource(chunks, raw.source.value)
    else if raw.index.Some? && 0 <= raw.index.value < |chunks| && !NamesSource(raw) then Some(chunks[raw.index.value])
    else None
  }

  function ValidPage(page: Option<int>): Option<int> {
    if page.Some? && page.value < 1 then None else page
  }

  function Clamp(x: real): real {
    if x < 0.0 then 0.0 else if x > 1.0 then 1.0 else x
  }

  function Cite(c: RetrievedChunk, quoted: string): Citation {
    Citation(c.chunkId, c.documentId, c.documentName, ValidPage(c.pageNumber), quoted, c.sectionPath, Clamp(c.score))
  }

  /** The constraints the `Citation` schema puts on these fields. */
  predicate SchemaAccepts(c: Citation) {
    (c.pageNumber.Some? ==> c.pageNumber.value >= 1) && 0.0 <= c.relevance <= 1.0
  }

  type Key = (string, string)

  function KeyOf(chunkId: string, quoted: string): Key {
    (chunkId, if |quoted| <= 120 then quoted else quoted[..120])
  }

  datatype Fate = Kept(citation: Citation) | Repeated(key: Key) | Rejected

  datatype Tally = Tally(citations: seq<Citation>, seen: set<Key>, rejected: nat)

  /** What becomes of one returned citation, given the keys already seen. */
  function Judge(raw: RawCitation, chunks: seq<RetrievedChunk>, seen: set<Key>): Fate {
    match Resolve(raw, chunks)
    case None => Fate.Rejected
    case Some(c) =>
      var quoted := Strip(raw.citedText);
      if KeyOf(c.chunkId, quoted) in seen then Repeated(KeyOf(c.chunkId, quoted))
      else if SchemaAccepts(Cite(c, quoted)) then Kept(Cite(c, quoted))
      else Fate.Rejected
  }

  function Count(t: Tally, raw: RawCitation, chunks: seq<RetrievedChunk>): Tally {
    match Judge(raw, chunks, t.seen)
    case Kept(c) => t.(citations := t.citations + [c], seen := t.seen + {KeyOf(c.chunkId, c.quotedText)})
    case Repeated(_) => t
    case Rejected => t.(rejected := t.rejected + 1)
  }

  function Counted(raws: seq<RawCitation>, chunks: seq<RetrievedChunk>): Tally {
    if raws == [] then Tally([], {}, 0) else Count(Counted(raws[..|raws| - 1], chunks), raws[|raws| - 1], chunks)
  }

  function FateOf(raws: seq<RawCitation>, chunks: seq<RetrievedChunk>, k: nat): Fate
    requires k < |raws|
  {
    Judge(raws[k], chunks, Counted(raws[..k], chunks).seen)
  }

  function RepeatCount(raws: seq<RawCitation>, chunks: seq<RetrievedChunk>): nat {
    if raws == [] then 0
    else RepeatCount(raws[..|raws| - 1], chunks) + if FateOf(raws, chunks, |raws| - 1).Repeated? then 1 else 0
  }

  // ------------------------------------------------------------ the answer as a whole

  function TextsOf(blocks: seq<Block>): seq<string> {
    if blocks == [] then []
    else TextsOf(blocks[..|blocks| - 1]) + if blocks[|blocks| - 1].Text? then [blocks[|blocks| - 1].text] else []
  }

  function RawsOf(blocks: seq<Block>): seq<RawCitation> {
    if blocks == [] then []
    else RawsOf(blocks[..|blocks| - 1]) + if blocks[|blocks| - 1].Text? then blocks[|blocks| - 1].citations else []
  }

  function UncitedOf(blocks: seq<Block>): seq<string> {
    if blocks == [] then []
    else
      var b := blocks[|blocks| - 1];
      UncitedOf(blocks[..|blocks| - 1]) + if b.Text? && b.citations == [] && !Blank(b.text) then [b.text] else []
  }

  function Mapped(blocks: seq<Block>, chunks: seq<RetrievedChunk>): MappedAnswer {
    var t := Counted(RawsOf(blocks), chunks);
    MappedAnswer(Strip(Concat(TextsOf(blocks))), t.citations, UncitedOf(blocks), t.rejected)
  }

  /** `map_citations` */
  method MapCitations(blocks: seq<Block>, chunks: seq<RetrievedChunk>) returns (answer: MappedAnswer)
    ensures answer == Mapped(blocks, chunks)
  {
    var parts: seq<string>, uncited: seq<string>, t := [], [], Tally([], {}, 0);
    for i := 0 to |blocks|
      invariant parts == TextsOf(blocks[..i]) && uncited == UncitedOf(blocks[..i])
      invariant t == Counted(RawsOf(blocks[..i]), chunks)
    {
      assert blocks[..i + 1][..i] == blocks[..i];
      if blocks[i].Text? {
        parts := parts + [blocks[i].text];
        if blocks[i].citations == [] {
          assert RawsOf(blocks[..i]) + [] == RawsOf(blocks[..i]);
          if !Blank(blocks[i].text) {
            uncited := uncited + [blocks[i].text];
          }
        } else {
          t := CountBlock(t, blocks[i].citations, chunks, RawsOf(blocks[..i]));
        }
      } else {
        assert RawsOf(blocks[..i + 1]) == RawsOf(blocks[..i]);
      }
    }
    assert blocks[..|blocks|] == blocks;
    answer := MappedAnswer(Strip(Concat(parts)), t.citations, uncited, t.rejected);
  }

  lemma CountedSnoc(raws: seq<RawCitation>, raw: RawCitation, chunks: seq<RetrievedChunk>)
    ensures Counted(raws + [raw], chunks) == Count(Counted(raws, chunks), raw, chunks)
  {
    assert (raws + [raw])[..|raws|] == raws;
  }

  /** The inner loop: the citations of one block. */
  method CountBlock(start: Tally, raws: seq<RawCitation>, chunks: seq<RetrievedChunk>, ghost earlier: seq<RawCitation>)
    returns (t: Tally)
    requires start == Counted(earlier, chunks)
    ensures t == Counted(earlier + raws, chunks)
  {
    t := start;
    assert earlier + raws[..0] == earlier;
    for i := 0 to |raws|
      invariant t == Counted(earlier + raws[..i], chunks)
    {
      OneMore(earlier, raws, i);
      CountedSnoc(earlier + raws[..i], raws[i], chunks);
      t := Count(t, raws[i], chunks);
    }
    assert raws[..|raws|] == raws;
  }

  // ------------------------------------------------------------ laws of the mapping

  lemma {:induction false} BySourceFinds(chunks: seq<RetrievedChunk>, source: string)
    ensures BySource(chunks, source).Some? <==> exists i :: 0 <= i < |chunks| && SourceOf(chunks[i]) == source
    ensures BySource(chunks, source).Some? ==>
      BySource(chunks, source).value in chunks && SourceOf(BySource(chunks, source).value) == source
  {
    if chunks != [] {
      var front := chunks[..|chunks| - 1];
      BySourceFinds(front, source);
      assert SourceOf(chunks[|chunks| - 1]) == source || BySource(chunks, source) == BySource(front, source);
    }
  }

  /** A citation resolves only to a supplied chunk: one of the source it names, else the one at its index. */
  lemma ResolvesOnlyToSupplied(raw: RawCitation, chunks: seq<RetrievedChunk>)
    ensures Resolve(raw, chunks).Some? ==>
      && Resolve(raw, chunks).value in chunks
      && (NamesSource(raw) ==> SourceOf(Resolve(raw, chunks).value) == raw.source.value)
      && (!NamesSource(raw) ==>
            && raw.index.Some? && 0 <= raw.index.value < |chunks|
            && Resolve(raw, chunks).value == chunks[raw.index.value])
    ensures Resolve(raw, chunks).Some? <==>
      Strip(raw.citedText) != ""
      && if NamesSource(raw) then exists i :: 0 <= i < |chunks| && SourceOf(chunks[i]) == raw.source.value
         else raw.index.Some? && 0 <= raw.index.value < |chunks|
  {
    if NamesSource(raw) { BySourceFinds(chunks, raw.source.value); }
  }

  /** The validation backstop is never reached: every citation built here satisfies the schema. */
  lemma RejectedIffUnresolved(raw: RawCitation, chunks: seq<RetrievedChunk>, seen: set<Key>)
    ensures Judge(raw, chunks, seen).Rejected? <==> Resolve(raw, chunks).None?
    ensures Judge(raw, chunks, seen).Kept? ==> SchemaAccepts(Judge(raw, chunks, seen).citation)
  {
  }

  /** Each returned citation is kept, a repeat or rejected, and the three tallies account for all of them. */
  lemma {:induction false} EveryCitationAccountedFor(raws: seq<RawCitation>, chunks: seq<RetrievedChunk>)
    ensures var t := Counted(raws, chunks); |t.citations| + RepeatCount(raws, chunks) + t.rejected == |raws|
  {
    if raws != [] {
      EveryCitationAccountedFor(raws[..|raws| - 1], chunks);
    }
  }

  /** A kept citation quotes a supplied chunk, in words the API returned for that very chunk. */
  ghost predicate Evidenced(c: Citation, raws: seq<RawCitation>, chunks: seq<RetrievedChunk>) {
    && c.quotedText != "" && SchemaAccepts(c)
    && exists i, j :: 0 <= i < |raws| && 0 <= j < |chunks| && Backs(raws[i], chunks, j, c)
  }

  /** The API's citation names chunk `j`, by its source or else by its index, and `c` quotes it as that chunk. */
  predicate Backs(raw: RawCitation, chunks: seq<RetrievedChunk>, j: nat, c: Citation)
    requires j < |chunks|
  {
    && c == Cite(chunks[j], Strip(raw.citedText))
    && if NamesSource(raw) then raw.source.value == SourceOf(chunks[j]) else raw.index == Some(j)
  }

  lemma ResolvedBacks(raw: RawCitation, chunks: seq<RetrievedChunk>) returns (j: nat)
    requires Resolve(raw, chunks).Some?
    ensures j < |chunks| && chunks[j] == Resolve(raw, chunks).value
    ensures Backs(raw, chunks, j, Cite(chunks[j], Strip(raw.citedText)))
  {
    ResolvesOnlyToSupplied(raw, chunks);
    if NamesSource(raw) {
      j :| 0 <= j < |chunks| && chunks[j] == Resolve(raw, chunks).value;
    } else {
      j := raw.index.value;
    }
  }

  lemma {:induction false} KeptAreEvidenced(raws: seq<RawCitation>, chunks: seq<RetrievedChunk>)
    ensures forall c :: c in Counted(raws, chunks).citations ==> Evidenced(c, raws, chunks)
  {
    if raws != [] {
      var front, last := raws[..|raws| - 1], raws[|raws| - 1];
      KeptAreEvidenced(front, chunks);
      forall c | c in Counted(raws, chunks).citations ensures Evidenced(c, raws, chunks) {
        if c in Counted(front, chunks).citations {
          var i, j :| 0 <= i < |front| && 0 <= j < |chunks| && Backs(front[i], chunks, j, c);
          assert Backs(raws[i], chunks, j, c);
        } else {
          var j := ResolvedBacks(last, chunks);
          assert Backs(raws[|raws| - 1], chunks, j, c);
        }
      }
    }
  }

  /** A source is looked up at the last chunk that bears it. */
  lemma {:induction false} BySourceIsLast(chunks: seq<RetrievedChunk>, source: string) returns (j: nat)
    requires BySource(chunks, source).Some?
    ensures j < |chunks| && chunks[j] == BySource(chunks, source).value && SourceOf(chunks[j]) == source
    ensures forall k :: j < k < |chunks| ==> SourceOf(chunks[k]) != source
    decreases |chunks|
  {
    if SourceOf(chunks[|chunks| - 1]) == source {
      j := |chunks| - 1;
    } else {
      j := BySourceIsLast(chunks[..|chunks| - 1], source);
    }
  }

  /** The API's citation means chunk `j`: the last one of the source it names, or, naming none, the one at its index. */
  predicate Means(raw: RawCitation, chunks: seq<RetrievedChunk>, j: nat) {
    && j < |chunks|
    && if raw.source.Some? && raw.source.value != "" then
         && raw.source.value == "qdrant://" + chunks[j].chunkId
         && forall k :: j < k < |chunks| ==> raw.source.value != "qdrant://" + chunks[k].chunkId
       else raw.index == Some(j)
  }

  /** What a citation says, column by column, of the chunk it is for and the words the API quoted. */
  predicate Says(c: Citation, chunk: RetrievedChunk, raw: RawCitation) {
    && c.chunkId == chunk.chunkId && c.documentId == chunk.documentId && c.documentName == chunk.documentName
    && c.sectionPath == chunk.sectionPath && c.quotedText == Strip(raw.citedText) && c.quotedText != ""
    && (chunk.pageNumber.None? || chunk.pageNumber.value < 1 ==> c.pageNumber == None)
    && (chunk.pageNumber.Some? && chunk.pageNumber.value >= 1 ==> c.pageNumber == chunk.pageNumber)
    && (chunk.score <= 0.0 ==> c.relevance == 0.0) && (chunk.score >= 1.0 ==> c.relevance == 1.0)
    && (0.0 <= chunk.score <= 1.0 ==> c.relevance == chunk.score)
  }

  lemma ResolvedMeans(raw: RawCitation, chunks: seq<RetrievedChunk>) returns (j: nat)
    requires Resolve(raw, chunks).Some?
    ensures Means(raw, chunks, j) && Says(Cite(Resolve(raw, chunks).value, Strip(raw.citedText)), chunks[j], raw)
  {
    ResolvesOnlyToSupplied(raw, chunks);
    if NamesSource(raw) {
      j := BySourceIsLast(chunks, raw.source.value);
    } else {
      j := raw.index.value;
    }
  }

  /** Every kept citation says, in every column, what the chunk its API citation means says, and quotes its words. */
  lemma {:induction false} KeptCitationsSay(raws: seq<RawCitation>, chunks: seq<RetrievedChunk>, c: Citation)
    returns (i: nat, j: nat)
    requires c in Counted(raws, chunks).citations
    ensures i < |raws| && Means(raws[i], chunks, j) && Says(c, chunks[j], raws[i])
    decreases |raws|
  {
    var front, last := raws[..|raws| - 1], raws[|raws| - 1];
    if c in Counted(front, chunks).citations {
      i, j := KeptCitationsSay(front, chunks, c);
    } else {
      i := |raws| - 1;
      j := ResolvedMeans(last, chunks);
    }
  }

  /** The words by which a passage is told from another: the first 120 characters. */
  function OpeningOf(quoted: string): string {
    if |quoted| <= 120 then quoted else quoted[..120]
  }

  /** The two citations resolve to one chunk and their quotes open alike. */
  predicate SamePassage(a: RawCitation, b: RawCitation, chunks: seq<RetrievedChunk>) {
    && Resolve(a, chunks).Some? && Resolve(b, chunks).Some?
    && Resolve(a, chunks).value.chunkId == Resolve(b, chunks).value.chunkId
    && OpeningOf(Strip(a.citedText)) == OpeningOf(Strip(b.citedText))
  }

  lemma {:induction false} SeenIff(raws: seq<RawCitation>, chunks: seq<RetrievedChunk>, raw: RawCitation)
    requires Resolve(raw, chunks).Some?
    ensures KeyOf(Resolve(raw, chunks).value.chunkId, Strip(raw.citedText)) in Counted(raws, chunks).seen
      <==> exists i :: 0 <= i < |raws| && SamePassage(raws[i], raw, chunks)
    decreases |raws|
  {
    if raws != [] {
      var front, last := raws[..|raws| - 1], raws[|raws| - 1];
      SeenIff(front, chunks, raw);
      RejectedIffUnresolved(last, chunks, Counted(front, chunks).seen);
      assert forall i :: 0 <= i < |front| ==> raws[i] == front[i];
      assert raws[|front|] == last;
    }
  }

  /** The first citation of a passage is kept, a later one is a repeat, and one that resolves to nothing is rejected. */
  lemma KeptIffFirstOfItsPassage(raws: seq<RawCitation>, chunks: seq<RetrievedChunk>, k: nat)
    requires k < |raws|
    ensures var resolved := Resolve(raws[k], chunks).Some?;
      var repeated := exists i :: 0 <= i < k && SamePassage(raws[i], raws[k], chunks);
      && (FateOf(raws, chunks, k).Kept? <==> resolved && !repeated)
      && (FateOf(raws, chunks, k).Repeated? <==> resolved && repeated)
      && (FateOf(raws, chunks, k).Rejected? <==> !resolved)
  {
    RejectedIffUnresolved(raws[k], chunks, Counted(raws[..k], chunks).seen);
    if Resolve(raws[k], chunks).Some? {
      SeenIff(raws[..k], chunks, raws[k]);
      assert forall i :: 0 <= i < k ==> raws[..k][i] == raws[i];
    }
  }

  /** Citations are kept in the order the answer cites them. */
  lemma {:induction false} KeptInCitedOrder(raws: seq<RawCitation>, chunks: seq<RetrievedChunk>, k: nat)
    requires k < |raws|
    ensures Counted(raws[..k + 1], chunks).citations == Counted(raws[..k], chunks).citations
      + if FateOf(raws, chunks, k).Kept? then [FateOf(raws, chunks, k).citation] else []
    ensures Counted(raws[..k + 1], chunks).citations <= Counted(raws, chunks).citations
    decreases |raws|
  {
    assert raws[..k + 1][..k] == raws[..k];
    if k + 1 == |raws| {
      assert raws[..k + 1] == raws;
    } else {
      var front := raws[..|raws| - 1];
      assert front[..k + 1] == raws[..k + 1] && front[..k] == raws[..k];
      KeptInCitedOrder(front, chunks, k);
    }
  }

  function KeyFor(c: Citation): Key {
    KeyOf(c.chunkId, c.quotedText)
  }

  /** One chip per passage: no two kept citations share a key. */
  lemma {:induction false} KeptAreDistinct(raws: seq<RawCitation>, chunks: seq<RetrievedChunk>)
    ensures var t := Counted(raws, chunks);
      && (forall c :: c in t.citations ==> KeyFor(c) in t.seen)
      && (forall i, j :: 0 <= i < j < |t.citations| ==> KeyFor(t.citations[i]) != KeyFor(t.citations[j]))
  {
    if raws != [] {
      var front, last := raws[..|raws| - 1], raws[|raws| - 1];
      var t := Counted(front, chunks);
      KeptAreDistinct(front, chunks);
      if Judge(last, chunks, t.seen).Kept? {
        assert KeyFor(Judge(last, chunks, t.seen).citation) !in t.seen;
        assert forall i :: 0 <= i < |t.citations| ==> t.citations[i] in t.citations;
      }
    }
  }

  /** A repeat repeats a passage that is already kept. */
  lemma {:induction false} SeenMeansKept(raws: seq<RawCitation>, chunks: seq<RetrievedChunk>, key: Key)
    requires key in Counted(raws, chunks).seen
    ensures exists c :: c in Counted(raws, chunks).citations && KeyFor(c) == key
  {
    var front, last := raws[..|raws| - 1], raws[|raws| - 1];
    var t := Counted(front, chunks);
    if key in t.seen {
      SeenMeansKept(front, chunks, key);
      var c :| c in t.citations && KeyFor(c) == key;
      assert c in Counted(raws, chunks).citations;
    } else {
      var c := Judge(last, chunks, t.seen).citation;
      assert c in Counted(raws, chunks).citations;
    }
  }

  // ------------------------------------------------------------ the verifier

  datatype Verdict = Verified | Partial | Unverified | NotApplicable

  datatype Report = Report(verdict: Verdict, coverage: real, total: nat, supported: nat, unsupported: seq<string>,
                           citationCount: nat, isAbstention: bool, protocolViolation: bool)

  const NOT_FOUND := "Information not found in the knowledge base."

  /** `_is_unsupported` */
  predicate IsUnsupported(sentence: string, uncited: seq<string>) {
    exists i :: 0 <= i < |uncited| && Contains(uncited[i], sentence)
  }

  function Unsupported(claims: seq<string>, uncited: seq<string>): seq<string> {
    if claims == [] then []
    else
      Unsupported(claims[..|claims| - 1], uncited)
      + if IsUnsupported(claims[|claims| - 1], uncited) then [claims[|claims| - 1]] else []
  }

  function Coverage(supported: int, total: nat): real {
    if total == 0 then 0.0 else supported as real / total as real
  }

  /** `verify`; `claims` splits a text into its claim sentences. */
  function Verify(answer: MappedAnswer, claims: string -> seq<string>, minCoverage: real): Report {
    var text := Strip(answer.text);
    if answer.rejected != 0 then Report(Unverified, 0.0, 0, 0, [], |answer.citations|, false, true)
    else if text == NOT_FOUND then Report(NotApplicable, 1.0, 0, 0, [], 0, true, false)
    else if Contains(text, NOT_FOUND) then Report(Unverified, 0.0, 0, 0, [], |answer.citations|, true, true)
    else if text == "" then Report(Unverified, 0.0, 0, 0, [], 0, false, true)
    else
      var sentences := claims(text);
      var unsupported := Unsupported(sentences, answer.uncited);
      UnsupportedShorter(sentences, answer.uncited);
      var supported := |sentences| - |unsupported|;
      var coverage := Coverage(supported, |sentences|);
      var verdict :=
        if answer.citations == [] then Unverified
        else if coverage >= minCoverage then Verified
        else if coverage > 0.0 then Partial
        else Unverified;
      Report(verdict, coverage, |sentences|, supported, unsupported, |answer.citations|, false, false)
  }

  lemma {:induction false} UnsupportedShorter(claims: seq<string>, uncited: seq<string>)
    ensures |Unsupported(claims, uncited)| <= |claims|
    ensures forall s :: s in Unsupported(claims, uncited) <==> s in claims && IsUnsupported(s, uncited)
  {
    if claims != [] {
      var front, last := claims[..|claims| - 1], claims[|claims| - 1];
      UnsupportedShorter(front, uncited);
      assert forall s :: s in claims <==> s in front || s == last;
    }
  }

  lemma CoverageInUnit(supported: nat, total: nat)
    requires supported <= total
    ensures 0.0 <= Coverage(supported, total) <= 1.0
  {
    if total > 0 {
      ShareReached(supported as real, total as real, 0.0);
      ShareReached(supported as real, total as real, 1.0);
    }
  }

  /** Coverage is a share, and the report's tallies agree with it. */
  lemma ReportIsWellFormed(answer: MappedAnswer, claims: string -> seq<string>, minCoverage: real)
    ensures var r := Verify(answer, claims, minCoverage);
      && 0.0 <= r.coverage <= 1.0 && r.supported + |r.unsupported| == r.total
      && (r.isAbstention <==> answer.rejected == 0 && Contains(Strip(answer.text), NOT_FOUND))
  {
    var text := Strip(answer.text);
    if text == NOT_FOUND { assert OccursAt(text, NOT_FOUND, 0); }
    if answer.rejected == 0 && !Contains(text, NOT_FOUND) && text != "" {
      UnsupportedShorter(claims(text), answer.uncited);
      CoverageInUnit(|claims(text)| - |Unsupported(claims(text), answer.uncited)|, |claims(text)|);
    }
  }

  /**
   VERIFIED means: nothing rejected, something cited, no declared gap, and at least the required share supported.
   An answer without a single claim has share 0, so it passes only a threshold of 0.
   */
  lemma VerifiedMeansCovered(answer: MappedAnswer, claims: string -> seq<string>, minCoverage: real)
    ensures var r := Verify(answer, claims, minCoverage);
      r.verdict == Verified <==>
        && answer.rejected == 0 && answer.citations != []
        && Strip(answer.text) != "" && !Contains(Strip(answer.text), NOT_FOUND)
        && if r.total > 0 then r.supported as real >= minCoverage * r.total as real else minCoverage <= 0.0
  {
    var text, r := Strip(answer.text), Verify(answer, claims, minCoverage);
    if text == NOT_FOUND { assert OccursAt(text, NOT_FOUND, 0); }
    if answer.rejected == 0 && !Contains(text, NOT_FOUND) && text != "" && r.total > 0 {
      ShareReached(r.supported as real, r.total as real, minCoverage);
    }
  }

  lemma CoverageIsShare(supported: nat, total: nat)
    ensures Coverage(supported, total) * total as real == if total == 0 then 0.0 else supported as real
  {
    if total > 0 { assert supported as real / total as real * total as real == supported as real; }
  }

  /**
   Of the answers that get as far as their claims, a cited one that has some support, but less than the required
   share, is PARTIAL.
   */
  lemma PartialIff(answer: MappedAnswer, claims: string -> seq<string>, minCoverage: real)
    requires answer.rejected == 0 && Strip(answer.text) != "" && !Contains(Strip(answer.text), NOT_FOUND)
    ensures var r := Verify(answer, claims, minCoverage);
      && r.total == |claims(Strip(answer.text))| && !r.isAbstention && !r.protocolViolation
      && r.citationCount == |answer.citations|
      && (r.verdict == Partial <==>
            && answer.citations != [] && r.supported > 0 && r.total > 0
            && (r.supported as real) < minCoverage * r.total as real)
      && (r.verdict == Verified || r.verdict == Partial || r.verdict == Unverified)
  {
    var r := Verify(answer, claims, minCoverage);
    ScoredReport(answer, claims, minCoverage);
    PartialShare(r.supported, r.total, minCoverage);
  }

  lemma PartialShare(supported: nat, total: nat, share: real)
    ensures Coverage(supported, total) < share && Coverage(supported, total) > 0.0
      <==> supported > 0 && total > 0 && (supported as real) < share * total as real
  {
    SharesCompared(supported, total, share);
  }

  /** The reported coverage is the share of its claims that is supported. */
  lemma ReportedCoverageIsShare(answer: MappedAnswer, claims: string -> seq<string>, minCoverage: real)
    requires answer.rejected == 0 && Strip(answer.text) != "" && !Contains(Strip(answer.text), NOT_FOUND)
    ensures var r := Verify(answer, claims, minCoverage);
      r.coverage * r.total as real == if r.total == 0 then 0.0 else r.supported as real
  {
    ScoredReport(answer, claims, minCoverage);
    CoverageIsShare(Verify(answer, claims, minCoverage).supported, Verify(answer, claims, minCoverage).total);
  }

  /** The verdict of such an answer, by its coverage. */
  lemma ScoredReport(answer: MappedAnswer, claims: string -> seq<string>, minCoverage: real)
    requires answer.rejected == 0 && Strip(answer.text) != "" && !Contains(Strip(answer.text), NOT_FOUND)
    ensures var r := Verify(answer, claims, minCoverage);
      && r.total == |claims(Strip(answer.text))| && !r.isAbstention && !r.protocolViolation
      && r.citationCount == |answer.citations| && r.coverage == Coverage(r.supported, r.total)
      && r.verdict == if answer.citations == [] then Unverified
                      else if r.coverage >= minCoverage then Verified
                      else if r.coverage > 0.0 then Partial else Unverified
  {
    var text := Strip(answer.text);
    if text == NOT_FOUND { assert OccursAt(text, NOT_FOUND, 0); }
    UnsupportedShorter(claims(text), answer.uncited);
  }

  lemma SharesCompared(supported: nat, total: nat, share: real)
    ensures total == 0 ==> Coverage(supported, total) == 0.0
    ensures total > 0 ==> (Coverage(supported, total) >= share <==> supported as real >= share * total as real)
    ensures total > 0 ==> (Coverage(supported, total) > 0.0 <==> supported > 0)
  {
    if total > 0 {
      ShareReached(supported as real, total as real, share);
      SomeShare(supported, total);
    }
  }

  lemma SomeShare(supported: nat, total: nat)
    requires total > 0
    ensures supported as real / total as real > 0.0 <==> supported > 0
  {
    assert supported as real / total as real * total as real == supported as real;
  }

  /** An answer that does not get that far: nothing is scored, and the report says why. */
  lemma UnscoredReports(answer: MappedAnswer, claims: string -> seq<string>, minCoverage: real)
    requires answer.rejected > 0 || Strip(answer.text) == "" || Contains(Strip(answer.text), NOT_FOUND)
    ensures var r := Verify(answer, claims, minCoverage);
      && r.total == 0 && r.supported == 0 && r.unsupported == []
      && (r.verdict == NotApplicable <==> answer.rejected == 0 && Strip(answer.text) == NOT_FOUND)
      && (r.verdict != NotApplicable ==> r.verdict == Unverified && r.coverage == 0.0)
      && (r.verdict == NotApplicable ==> r.coverage == 1.0 && r.isAbstention)
      && (r.protocolViolation <==> r.verdict != NotApplicable)
  {
    var text := Strip(answer.text);
    if text == NOT_FOUND { assert OccursAt(text, NOT_FOUND, 0); }
  }

  /** The sentence that declares a gap, to the letter. */
  lemma SentinelDeclaresAGap(answer: MappedAnswer, claims: string -> seq<string>, minCoverage: real)
    requires answer.rejected == 0 && Strip(answer.text) == "Information not found in the knowledge base."
    ensures Verify(answer, claims, minCoverage).verdict == NotApplicable
  {
  }

  lemma ShareReached(a: real, b: real, share: real)
    requires b > 0.0
    ensures a / b >= share <==> a >= share * b
    ensures a / b <= share <==> a <= share * b
  {
    assert a / b * b == a;
    if a / b > share { assert a / b * b > share * b; }
    if a / b < share { assert a / b * b < share * b; }
  }

  // ------------------------------------------------------------ claims in uncited text

  /** A claim counts against the answer only if one single uncited block holds it, so a spanning one does not. */
  lemma SpanningSentencePasses(u: string, v: string)
    requires u != "" && v != ""
    ensures !IsUnsupported(u + v, [u, v])
  {
  }

  /** Two uncited blocks and a cited one, as the API may return them. */
  function SpanningBlocks(u: string, v: string, w: string, raw: RawCitation): seq<Block> {
    [Text(u, []), Text(v, []), Text(w, [raw])]
  }

  /** One more text block. */
  lemma BlocksSnoc(blocks: seq<Block>, text: string, raws: seq<RawCitation>)
    ensures var more := blocks + [Text(text, raws)];
      && TextsOf(more) == TextsOf(blocks) + [text] && RawsOf(more) == RawsOf(blocks) + raws
      && UncitedOf(more) == UncitedOf(blocks) + (if raws == [] && !Blank(text) then [text] else [])
      && CitedPattern(more) == CitedPattern(blocks) + [raws != []]
  {
    assert (blocks + [Text(text, raws)])[..|blocks|] == blocks;
  }

  lemma SpanningBlocksHold(u: string, v: string, w: string, raw: RawCitation)
    requires !Blank(u) && !Blank(v)
    ensures var blocks := SpanningBlocks(u, v, w, raw);
      && TextsOf(blocks) == [u, v, w] && RawsOf(blocks) == [raw] && UncitedOf(blocks) == [u, v]
      && CitedPattern(blocks) == [false, false, true]
  {
    BlocksSnoc([], u, []);
    BlocksSnoc([] + [Text(u, [])], v, []);
    BlocksSnoc([] + [Text(u, [])] + [Text(v, [])], w, [raw]);
    assert SpanningBlocks(u, v, w, raw) == [] + [Text(u, [])] + [Text(v, [])] + [Text(w, [raw])];
  }

  lemma ConcatOfTwo(u: string, v: string)
    ensures Concat([u, v]) == u + v
  {
    assert [u, v][1..] == [v] && [v][1..] == [];
    assert Concat([v]) == v + Concat([]);
  }

  lemma SpanningBlocksMapped(u: string, v: string, w: string, raw: RawCitation, chunks: seq<RetrievedChunk>)
    requires !Blank(u) && !Blank(v) && Resolve(raw, chunks).Some?
    ensures var m := Mapped(SpanningBlocks(u, v, w, raw), chunks);
      m.text == Strip(u + v + w) && m.uncited == [u, v] && m.rejected == 0 && |m.citations| == 1
  {
    SpanningBlocksHold(u, v, w, raw);
    CountedSnoc([], raw, chunks);
    assert [] + [raw] == [raw];
    RejectedIffUnresolved(raw, chunks, {});
    ConcatAppend([u, v], [w]);
    ConcatOfTwo(u, v);
    assert [u, v] + [w] == [u, v, w];
    assert Concat([w]) == w by { assert [w][1..] == []; }
  }

  /**
   An answer can be VERIFIED although all it claims lies in uncited text: one sentence over two uncited blocks,
   with a citation on a remark that is no claim.
   */
  lemma SpanningClaimIsVerified(u: string, v: string, w: string, raw: RawCitation, chunks: seq<RetrievedChunk>,
                                claims: string -> seq<string>, minCoverage: real)
    requires !Blank(u) && !Blank(v) && Resolve(raw, chunks).Some? && minCoverage <= 1.0
    requires claims(Strip(u + v + w)) == [u + v] && !Contains(Strip(u + v + w), NOT_FOUND)
    ensures var r := Verify(Mapped(SpanningBlocks(u, v, w, raw), chunks), claims, minCoverage);
      r.verdict == Verified && r.coverage == 1.0 && r.total == 1
    ensures LiesUncited(SpanningBlocks(u, v, w, raw), u + v)
  {
    SpanningBlocksMapped(u, v, w, raw, chunks);
    SpanningTextIsUncited(u, v, w, raw);
    ContentStays(u, v, w);
    StripTwice(u + v + w);
    SpanningSentencePasses(u, v);
    OneSupportedClaim(Mapped(SpanningBlocks(u, v, w, raw), chunks), u + v, claims, minCoverage);
  }

  lemma ContentStays(u: string, v: string, w: string)
    requires !Blank(u) && !Blank(v)
    ensures u != "" && v != "" && Strip(u + v + w) != ""
  {
    BlankIffNoContent(u);
    BlankIffNoContent(v);
    BlankIffNoContent(u + v + w);
    NonSpaceConcat(u + v, w);
    NonSpaceConcat(u, v);
  }

  lemma OneSupportedClaim(answer: MappedAnswer, claim: string, claims: string -> seq<string>, minCoverage: real)
    requires answer.rejected == 0 && answer.citations != [] && minCoverage <= 1.0
    requires Strip(answer.text) != "" && !Contains(Strip(answer.text), NOT_FOUND)
    requires claims(Strip(answer.text)) == [claim] && !IsUnsupported(claim, answer.uncited)
    ensures var r := Verify(answer, claims, minCoverage); r.verdict == Verified && r.coverage == 1.0 && r.total == 1
  {
    if Strip(answer.text) == NOT_FOUND { assert OccursAt(Strip(answer.text), NOT_FOUND, 0); }
    assert [claim][..0] == [];
    assert Unsupported([claim], answer.uncited) == [];
  }

  lemma SpanningTextIsUncited(u: string, v: string, w: string, raw: RawCitation)
    requires !Blank(u) && !Blank(v)
    ensures LiesUncited(SpanningBlocks(u, v, w, raw), u + v)
  {
    var blocks := SpanningBlocks(u, v, w, raw);
    SpanningBlocksHold(u, v, w, raw);
    assert TextsOf(blocks)[0..2] == [u, v];
    ConcatOfTwo(u, v);
    assert OccursAt(u + v, u + v, 0);
    assert LiesIn(blocks, u + v, 0, 2);
  }

  /** Which of the text blocks carry citations. */
  function CitedPattern(blocks: seq<Block>): seq<bool> {
    if blocks == [] then []
    else
      CitedPattern(blocks[..|blocks| - 1])
      + if blocks[|blocks| - 1].Text? then [blocks[|blocks| - 1].citations != []] else []
  }

  /** `s` occurs in the text blocks from `i` up to `j`, none of which is cited. */
  predicate LiesIn(blocks: seq<Block>, s: string, i: nat, j: nat) {
    && i < j <= |CitedPattern(blocks)| && |TextsOf(blocks)| == |CitedPattern(blocks)|
    && (forall k :: i <= k < j ==> !CitedPattern(blocks)[k])
    && Contains(Concat(TextsOf(blocks)[i..j]), s)
  }

  ghost predicate LiesUncited(blocks: seq<Block>, s: string) {
    exists i, j :: LiesIn(blocks, s, i, j)
  }

  const MIN_CLAIM_CHARS := 25

  /** Long enough to be a claim, and not blank. */
  predicate Claimable(s: string) {
    |s| >= MIN_CLAIM_CHARS && !Blank(s)
  }

  /** Whatever could be claimed in uncited text alone is held against the answer. */
  ghost predicate FlagsUncitedText(blocks: seq<Block>) {
    forall s :: Claimable(s) && LiesUncited(blocks, s) ==> IsUnsupported(s, UncitedOf(blocks))
  }

  predicate UncitedNeighbours(cited: seq<bool>, k: nat) {
    k + 1 < |cited| && !cited[k] && !cited[k + 1]
  }

  lemma {:induction false} UncitedTextsAreSegments(blocks: seq<Block>, k: nat)
    ensures |TextsOf(blocks)| == |CitedPattern(blocks)|
    ensures k < |CitedPattern(blocks)| && !CitedPattern(blocks)[k] && !Blank(TextsOf(blocks)[k]) ==>
      TextsOf(blocks)[k] in UncitedOf(blocks)
  {
    if blocks != [] {
      UncitedTextsAreSegments(blocks[..|blocks| - 1], k);
    }
  }

  lemma BlankHoldsNoContent(hay: string, s: string)
    requires Contains(hay, s) && Blank(hay)
    ensures Blank(s)
  {
    var i :| 0 <= i <= |hay| && OccursAt(hay, s, i);
    BlankIffNoContent(hay);
    BlankIffNoContent(s);
    assert hay == hay[..i] + s + hay[i + |s|..];
    NonSpaceConcat(hay[..i] + s, hay[i + |s|..]);
    NonSpaceConcat(hay[..i], s);
  }

  lemma ApartIsFlagged(blocks: seq<Block>, s: string)
    requires !Blank(s) && LiesUncited(blocks, s) && forall k :: !UncitedNeighbours(CitedPattern(blocks), k)
    ensures IsUnsupported(s, UncitedOf(blocks))
  {
    var i: nat, j: nat :| LiesIn(blocks, s, i, j);
    assert !UncitedNeighbours(CitedPattern(blocks), i);
    var t := TextsOf(blocks)[i];
    assert TextsOf(blocks)[i..j] == [t];
    assert Concat([t]) == t by { assert [t][1..] == []; }
    if Blank(t) { BlankHoldsNoContent(t, s); }
    UncitedTextsAreSegments(blocks, i);
    var n :| 0 <= n < |UncitedOf(blocks)| && UncitedOf(blocks)[n] == t;
    assert Contains(UncitedOf(blocks)[n], s);
  }

  /** An answer with a given pattern of citations whose blocks all say the same word. */
  function Saying(word: string, cited: seq<bool>): seq<Block> {
    seq(|cited|, k requires 0 <= k < |cited| =>
      Text(word, if cited[k] then [RawCitation(None, None, word)] else []))
  }

  lemma {:induction false} SayingPattern(word: string, cited: seq<bool>)
    ensures var blocks := Saying(word, cited);
      && CitedPattern(blocks) == cited && |TextsOf(blocks)| == |cited|
      && (forall k :: 0 <= k < |cited| ==> TextsOf(blocks)[k] == word)
      && (forall n :: 0 <= n < |UncitedOf(blocks)| ==> UncitedOf(blocks)[n] == word)
    decreases |cited|
  {
    if cited != [] {
      SayingPattern(word, cited[..|cited| - 1]);
      assert Saying(word, cited)[..|cited| - 1] == Saying(word, cited[..|cited| - 1]);
      SplitLast(cited);
    }
  }

  /** Whatever the blocks say, as long as it could be a claim, saying it twice in a row goes unflagged. */
  lemma NeighboursHideAClaim(word: string, cited: seq<bool>, k: nat)
    requires UncitedNeighbours(cited, k) && Claimable(word)
    ensures CitedPattern(Saying(word, cited)) == cited && !FlagsUncitedText(Saying(word, cited))
  {
    var blocks := Saying(word, cited);
    SayingPattern(word, cited);
    assert TextsOf(blocks)[k..k + 2] == [word, word];
    ConcatOfTwo(word, word);
    assert OccursAt(word + word, word + word, 0);
    assert Contains(word + word, word + word);
    assert LiesIn(blocks, word + word, k, k + 2);
    BlankIffNoContent(word);
    BlankIffNoContent(word + word);
    NonSpaceConcat(word, word);
    assert !IsUnsupported(word + word, UncitedOf(blocks));
  }

  lemma SomethingIsClaimable() returns (word: string)
    ensures Claimable(word)
  {
    word := seq(MIN_CLAIM_CHARS, _ => 'a');
    BlankIffNoContent(word);
    assert NonSpace(word) == [word[0]] + NonSpace(word[1..]);
  }

  /**
   Exactly when uncited text cannot hide a claim. For a pattern of cited and uncited text blocks, blank ones
   included: every answer of that pattern has every claim made in uncited text alone held against it if and only if
   no two neighbouring text blocks are both uncited.
   */
  lemma UncitedClaimsAreFlaggedIffApart(cited: seq<bool>)
    ensures (forall blocks :: CitedPattern(blocks) == cited ==> FlagsUncitedText(blocks))
      <==> (forall k :: !UncitedNeighbours(cited, k))
  {
    if k: nat :| UncitedNeighbours(cited, k) {
      var word := SomethingIsClaimable();
      NeighboursHideAClaim(word, cited, k);
    } else {
      forall blocks, s | CitedPattern(blocks) == cited && Claimable(s) && LiesUncited(blocks, s)
        ensures IsUnsupported(s, UncitedOf(blocks))
      {
        ApartIsFlagged(blocks, s);
      }
    }
  }

  lemma ContainsPart(before: string, t: string, after: string, s: string)
    requires Contains(t, s)
    ensures Contains(before + t + after, s)
  {
    var i :| 0 <= i <= |t| && OccursAt(t, s, i);
    var whole := before + t + after;
    assert whole[|before| + i..|before| + i + |s|] == t[i..i + |s|];
    assert OccursAt(whole, s, |before| + i);
  }

  function AccidentBlocks(u: string, v: string, w: string, raw: RawCitation): seq<Block> {
    SpanningBlocks(u, v, w, raw) + [Text(u + v, [])]
  }

  lemma AccidentHolds(u: string, v: string, w: string, raw: RawCitation)
    requires !Blank(u) && !Blank(v)
    ensures var blocks := AccidentBlocks(u, v, w, raw);
      && TextsOf(blocks) == [u, v, w, u + v] && CitedPattern(blocks) == [false, false, true, false]
      && UncitedOf(blocks) == [u, v, u + v]
  {
    SpanningBlocksHold(u, v, w, raw);
    BlocksSnoc(SpanningBlocks(u, v, w, raw), u + v, []);
    BlankIffNoContent(u);
    BlankIffNoContent(u + v);
    NonSpaceConcat(u, v);
  }

  /** What lies uncited in such an answer occurs in its last block. */
  lemma AccidentLies(u: string, v: string, w: string, raw: RawCitation, s: string, i: nat, j: nat)
    requires !Blank(u) && !Blank(v) && LiesIn(AccidentBlocks(u, v, w, raw), s, i, j)
    ensures Contains(u + v, s)
  {
    AccidentHolds(u, v, w, raw);
    var texts := [u, v, w, u + v];
    assert CitedPattern(AccidentBlocks(u, v, w, raw))[2];
    assert i == 3 || j <= 2;
    if i == 3 {
      assert texts[3..4] == [u + v];
      assert Concat([u + v]) == u + v by { assert [u + v][1..] == []; }
    } else if j == 2 && i == 0 {
      assert texts[0..2] == [u, v];
      ConcatOfTwo(u, v);
    } else {
      var t := texts[i];
      assert texts[i..j] == [t];
      assert Concat([t]) == t by { assert [t][1..] == []; }
      ContainsPart(if i == 0 then "" else u, t, if i == 0 then v else "", s);
      assert "" + u + v == u + v && u + v + "" == u + v;
    }
  }

  /**
   The condition is one on patterns: for a single list of texts uncited neighbours can be harmless by accident, when
   what they say together is said again in a third uncited block.
   */
  lemma NeighboursCanBeHarmless(u: string, v: string, w: string, raw: RawCitation)
    requires !Blank(u) && !Blank(v)
    ensures var blocks := AccidentBlocks(u, v, w, raw);
      FlagsUncitedText(blocks) && UncitedNeighbours(CitedPattern(blocks), 0)
  {
    var blocks := AccidentBlocks(u, v, w, raw);
    AccidentHolds(u, v, w, raw);
    forall s | Claimable(s) && LiesUncited(blocks, s) ensures IsUnsupported(s, UncitedOf(blocks)) {
      var i: nat, j: nat :| LiesIn(blocks, s, i, j);
      AccidentLies(u, v, w, raw, s, i, j);
      assert UncitedOf(blocks)[2] == u + v;
    }
  }

  // ------------------------------------------------------------ confidence

  /** `compute_confidence`, without the final rounding. */
  function Confidence(r: Report, topScore: real): real {
    if r.isAbstention then 0.0
    else if r.verdict == Unverified then 0.25 * r.coverage
    else
      var score := 0.55 * Clamp(topScore) + 0.45 * r.coverage;
      Clamp(if r.verdict == Partial then 0.7 * score else score)
  }

  lemma ConfidenceInUnit(r: Report, topScore: real)
    requires 0.0 <= r.coverage <= 1.0
    ensures 0.0 <= Confidence(r, topScore) <= 1.0
  {
  }

  /** For a fixed verdict, better coverage or better retrieval never lowers the confidence. */
  lemma ConfidenceIsMonotone(r: Report, better: Report, top: real, betterTop: real)
    requires better.verdict == r.verdict && better.isAbstention == r.isAbstention
    requires r.coverage <= better.coverage && top <= betterTop
    ensures Confidence(r, top) <= Confidence(better, betterTop)
  {
    assert Clamp(top) <= Clamp(betterTop);
  }

  /**
   How the score is weighed. Of a verified answer retrieval makes up 55 parts in a hundred and coverage 45; a partial
   one is worth seven tenths of that, an unverified one a quarter of its coverage, an abstention nothing.
   */
  lemma ConfidenceIsWeighed(r: Report, top: real, more: real, covered: real)
    requires !r.isAbstention && 0.0 <= top <= more <= 1.0 && 0.0 <= r.coverage <= covered <= 1.0
    ensures var v := r.(verdict := Verified);
      && Confidence(v, more) - Confidence(v, top) == 0.55 * (more - top)
      && Confidence(v.(coverage := covered), top) - Confidence(v, top) == 0.45 * (covered - r.coverage)
      && Confidence(v.(coverage := 0.0), 0.0) == 0.0
      && Confidence(r.(verdict := Partial), top) == 0.7 * Confidence(v, top)
    ensures 4.0 * Confidence(r.(verdict := Unverified), top) == r.coverage
    ensures Confidence(r.(isAbstention := true), top) == 0.0
  {
  }

  /** Scores beyond the unit interval count as its ends. */
  lemma ScoresAreClamped(r: Report, top: real)
    ensures top <= 0.0 ==> Confidence(r, top) == Confidence(r, 0.0)
    ensures top >= 1.0 ==> Confidence(r, top) == Confidence(r, 1.0)
  {
  }

  /** A weaker verdict never scores higher on the same evidence. */
  lemma WeakerVerdictScoresLower(r: Report, topScore: real)
    requires 0.0 <= r.coverage <= 1.0 && !r.isAbstention
    ensures Confidence(r.(verdict := Unverified), topScore) <= Confidence(r.(verdict := Partial), topScore)
    ensures Confidence(r.(verdict := Partial), topScore) <= Confidence(r.(verdict := Verified), topScore)
  {
  }
}
