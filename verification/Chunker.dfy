/**
 Structure-aware chunking: elements are gathered into narrative runs and tables, each is turned into chunks, and
 undersized chunks are folded into the next. Normalisation and the clause, row and tag patterns are inputs.
 */
module Chunker {
  import opened PyText
  import opened TextSplit
  import Extraction
  import Indexing

  const MIN_CHUNK_SIZE := 120
  const MAX_CHUNK_SIZE := 8_000

  datatype Kind = Title | Narrative | Table | ListItem | FormField | HeaderFooter | ImageCaption

  datatype Element = Element(text: string, kind: Kind, page: Option<int>, html: Option<string>, section: Option<string>)

  datatype Chunk = Chunk(
    text: string, raw: string, kind: Kind, index: int, page: Option<int>, section: Option<string>, startsClause: bool)

  /** `normalise_for_retrieval`, the clause opener, the row pattern's matches and the removal of tags. */
  datatype Lexicon = Lexicon(
    normalise: string -> string, opensClause: string -> bool, rows: string -> seq<string>, untag: string -> string)

  // ------------------------------------------------------------ runs and tables

  datatype Segment = Run(elements: seq<Element>) | Grid(table: Element)

  /** Segments finished so far, and the run being buffered. */
  datatype Scan = Scan(done: seq<Segment>, buffer: seq<Element>) {
    function Flushed(): Scan {
      if buffer == [] then this else Scan(done + [Run(buffer)], [])
    }
  }

  function Total(es: seq<Element>): nat {
    if es == [] then 0 else Total(es[..|es| - 1]) + |es[|es| - 1].text|
  }

  /** A paragraph: it joins the run in hand, or opens one if it is a numbered clause; a full run is flushed. */
  function Append(s: Scan, e: Element, lx: Lexicon, size: nat): Scan {
    var t := if s.buffer != [] && lx.opensClause(e.text) then s.Flushed() else s;
    var u := Scan(t.done, t.buffer + [e]);
    if Total(u.buffer) >= size then u.Flushed() else u
  }

  /** One round of the loop over the elements. */
  function Take(s: Scan, e: Element, lx: Lexicon, size: nat): Scan {
    if e.kind.HeaderFooter? then s
    else if e.kind.Table? then Scan(s.Flushed().done + [Grid(e)], [])
    else if e.kind.Title? then Scan(s.Flushed().done, [e])
    else Append(s, e, lx, size)
  }

  function ScanOf(es: seq<Element>, lx: Lexicon, size: nat): Scan {
    if es == [] then Scan([], []) else Take(ScanOf(es[..|es| - 1], lx, size), es[|es| - 1], lx, size)
  }

  function Segments(es: seq<Element>, lx: Lexicon, size: nat): seq<Segment> {
    ScanOf(es, lx, size).Flushed().done
  }

  /** The elements that are not page chrome. */
  function Content(es: seq<Element>): seq<Element> {
    if es == [] then []
    else Content(es[..|es| - 1]) + if es[|es| - 1].kind.HeaderFooter? then [] else [es[|es| - 1]]
  }

  function ElementsOf(s: Segment): seq<Element> {
    match s case Run(es) => es case Grid(e) => [e]
  }

  function Elements(segments: seq<Segment>): seq<Element> {
    if segments == [] then []
    else Elements(segments[..|segments| - 1]) + ElementsOf(segments[|segments| - 1])
  }

  lemma ElementsSnoc(segments: seq<Segment>, s: Segment)
    ensures Elements(segments + [s]) == Elements(segments) + ElementsOf(s)
  {
    assert (segments + [s])[..|segments|] == segments;
  }

  /** The elements taken so far. */
  function Taken(s: Scan): seq<Element> {
    Elements(s.done) + s.buffer
  }

  lemma FlushKeepsElements(s: Scan)
    ensures Taken(s.Flushed()) == Taken(s) && Elements(s.Flushed().done) == Taken(s)
  {
    ElementsSnoc(s.done, Run(s.buffer));
  }

  lemma GrowBuffer(s: Scan, e: Element)
    ensures Taken(Scan(s.done, s.buffer + [e])) == Taken(s) + [e]
  {
  }

  lemma AppendKeepsElements(s: Scan, e: Element, lx: Lexicon, size: nat)
    ensures Taken(Append(s, e, lx, size)) == Taken(s) + [e]
  {
    FlushKeepsElements(s);
    var t := if s.buffer != [] && lx.opensClause(e.text) then s.Flushed() else s;
    GrowBuffer(t, e);
    FlushKeepsElements(Scan(t.done, t.buffer + [e]));
  }

  lemma TakeKeepsElements(s: Scan, e: Element, lx: Lexicon, size: nat)
    ensures Taken(Take(s, e, lx, size)) == if e.kind.HeaderFooter? then Taken(s) else Taken(s) + [e]
  {
    if e.kind.Table? {
      FlushKeepsElements(s);
      ElementsSnoc(s.Flushed().done, Grid(e));
    } else if e.kind.Title? {
      FlushKeepsElements(s);
    } else if !e.kind.HeaderFooter? {
      AppendKeepsElements(s, e, lx, size);
    }
  }

  lemma {:induction false} ScanKeepsElements(es: seq<Element>, lx: Lexicon, size: nat)
    ensures Taken(ScanOf(es, lx, size)) == Content(es)
  {
    if es != [] {
      ScanKeepsElements(es[..|es| - 1], lx, size);
      TakeKeepsElements(ScanOf(es[..|es| - 1], lx, size), es[|es| - 1], lx, size);
    }
  }

  /** Runs and tables, end to end, are the input minus headers and footers. */
  lemma SegmentsPartitionTheContent(es: seq<Element>, lx: Lexicon, size: nat)
    ensures Elements(Segments(es, lx, size)) == Content(es)
  {
    ScanKeepsElements(es, lx, size);
    FlushKeepsElements(ScanOf(es, lx, size));
  }

  /** The element opens a run: a heading or a numbered clause. */
  predicate Opens(e: Element, lx: Lexicon) {
    e.kind.Title? || lx.opensClause(e.text)
  }

  /** What may be buffered together: only the first element may be a heading or a clause opener. */
  predicate Flows(es: seq<Element>, lx: Lexicon) {
    && (forall i :: 0 <= i < |es| ==> !es[i].kind.Table? && !es[i].kind.HeaderFooter?)
    && (forall i :: 1 <= i < |es| ==> !Opens(es[i], lx))
  }

  /** Still short of the target size; a heading on its own is not measured. */
  predicate Short(es: seq<Element>, size: nat) {
    es == [] || Total(es) < size || (|es| == 1 && es[0].kind.Title?)
  }

  predicate WellFormed(s: Segment, lx: Lexicon, size: nat) {
    match s
    case Run(es) => es != [] && Flows(es, lx) && Short(es[..|es| - 1], size)
    case Grid(e) => e.kind.Table?
  }

  /** What follows a run directly: a run that had to be opened, or one the full run left to open. */
  predicate Forced(segments: seq<Segment>, next: seq<Element>, lx: Lexicon, size: nat) {
    segments != [] && segments[|segments| - 1].Run? ==>
      Total(segments[|segments| - 1].elements) >= size || (next != [] && Opens(next[0], lx))
  }

  predicate ForcedAt(segments: seq<Segment>, k: nat, lx: Lexicon, size: nat)
    requires k < |segments|
  {
    segments[k].Run? ==> Forced(segments[..k], segments[k].elements, lx, size)
  }

  predicate WellCut(segments: seq<Segment>, lx: Lexicon, size: nat) {
    && (forall k {:trigger segments[k]} :: 0 <= k < |segments| ==> WellFormed(segments[k], lx, size))
    && (forall k {:trigger ForcedAt(segments, k, lx, size)} :: 0 <= k < |segments| ==> ForcedAt(segments, k, lx, size))
  }

  lemma WellCutSnoc(segments: seq<Segment>, s: Segment, lx: Lexicon, size: nat)
    requires WellCut(segments, lx, size) && WellFormed(s, lx, size)
      && (s.Run? ==> Forced(segments, s.elements, lx, size))
    ensures WellCut(segments + [s], lx, size)
  {
    var all := segments + [s];
    forall k | 0 <= k < |all| ensures ForcedAt(all, k, lx, size) {
      assert all[..k] == segments[..k];
      if k < |segments| { assert ForcedAt(segments, k, lx, size); } else { assert all[..k] == segments; }
    }
  }

  /** The invariant of the loop over the elements. */
  ghost predicate Sound(s: Scan, lx: Lexicon, size: nat) {
    WellCut(s.done, lx, size) && Flows(s.buffer, lx) && Short(s.buffer, size) && Forced(s.done, s.buffer, lx, size)
  }

  lemma FlushIsWellCut(s: Scan, lx: Lexicon, size: nat)
    requires WellCut(s.done, lx, size) && Flows(s.buffer, lx) && Forced(s.done, s.buffer, lx, size)
    requires s.buffer != [] ==> Short(s.buffer[..|s.buffer| - 1], size)
    ensures WellCut(s.Flushed().done, lx, size)
  {
    if s.buffer != [] { WellCutSnoc(s.done, Run(s.buffer), lx, size); }
  }

  lemma ShortPrefix(es: seq<Element>, size: nat)
    requires Short(es, size) && es != []
    ensures Short(es[..|es| - 1], size)
  {
  }

  lemma FlushLeavesRoom(s: Scan, lx: Lexicon, size: nat)
    requires Sound(s, lx, size)
    ensures WellCut(s.Flushed().done, lx, size)
  {
    if s.buffer != [] { ShortPrefix(s.buffer, size); }
    FlushIsWellCut(s, lx, size);
  }

  lemma ExtendIsSound(t: Scan, e: Element, lx: Lexicon, size: nat)
    requires WellCut(t.done, lx, size) && Flows(t.buffer, lx) && Short(t.buffer, size)
      && Forced(t.done, t.buffer + [e], lx, size)
    requires !e.kind.Table? && !e.kind.HeaderFooter? && (t.buffer != [] ==> !Opens(e, lx))
    ensures var u := Scan(t.done, t.buffer + [e]); Sound(if Total(u.buffer) >= size then u.Flushed() else u, lx, size)
  {
    var u := Scan(t.done, t.buffer + [e]);
    assert u.buffer[..|u.buffer| - 1] == t.buffer;
    FlushIsWellCut(u, lx, size);
  }

  lemma AppendIsSound(s: Scan, e: Element, lx: Lexicon, size: nat)
    requires Sound(s, lx, size) && !e.kind.Table? && !e.kind.HeaderFooter? && !e.kind.Title?
    ensures Sound(Append(s, e, lx, size), lx, size)
  {
    FlushLeavesRoom(s, lx, size);
    if s.buffer != [] && lx.opensClause(e.text) {
      ExtendIsSound(s.Flushed(), e, lx, size);
    } else {
      ExtendIsSound(s, e, lx, size);
    }
  }

  lemma TakeIsSound(s: Scan, e: Element, lx: Lexicon, size: nat)
    requires Sound(s, lx, size)
    ensures Sound(Take(s, e, lx, size), lx, size)
  {
    FlushLeavesRoom(s, lx, size);
    if e.kind.Table? {
      WellCutSnoc(s.Flushed().done, Grid(e), lx, size);
    } else if !e.kind.HeaderFooter? && !e.kind.Title? {
      AppendIsSound(s, e, lx, size);
    }
  }

  lemma {:induction false} ScanIsSound(es: seq<Element>, lx: Lexicon, size: nat)
    ensures Sound(ScanOf(es, lx, size), lx, size)
  {
    if es != [] {
      ScanIsSound(es[..|es| - 1], lx, size);
      TakeIsSound(ScanOf(es[..|es| - 1], lx, size), es[|es| - 1], lx, size);
    }
  }

  /**
   Only the first element of a run may be a heading or a clause opener; a run is short of the target size until
   its last element; and one run directly follows another only when the first is full or the second is opened by a
   heading or a clause.
   */
  lemma SegmentsAreWellCut(es: seq<Element>, lx: Lexicon, size: nat)
    ensures WellCut(Segments(es, lx, size), lx, size)
  {
    ScanIsSound(es, lx, size);
    var s := ScanOf(es, lx, size);
    if s.buffer != [] { ShortPrefix(s.buffer, size); }
    FlushIsWellCut(s, lx, size);
  }

  /** The size of a run is the number of characters of its elements. */
  lemma {:induction false} TotalCounts(es: seq<Element>)
    ensures Total(es) == |Concat(seq(|es|, i requires 0 <= i < |es| => es[i].text))|
    decreases |es|
  {
    if es != [] {
      var front, last := es[..|es| - 1], es[|es| - 1];
      TotalCounts(front);
      ConcatSnoc(seq(|front|, i requires 0 <= i < |front| => front[i].text), last.text);
      assert seq(|es|, i requires 0 <= i < |es| => es[i].text)
        == seq(|front|, i requires 0 <= i < |front| => front[i].text) + [last.text];
    }
  }

  // ------------------------------------------------------------ narrative chunks

  /** `[e.text for e in elements if e.text]` */
  function Texts(es: seq<Element>): seq<string> {
    if es == [] then [] else Texts(es[..|es| - 1]) + if es[|es| - 1].text == "" then [] else [es[|es| - 1].text]
  }

  function RunText(run: seq<Element>): string {
    Strip(Join(Texts(run), "\n\n"))
  }

  /** Worth citing a page of: the element has one, and more than twenty characters. */
  predicate Citable(e: Element) {
    e.page.Some? && |e.text| > 20
  }

  function PageOf(run: seq<Element>, fallback: Option<int>): Option<int> {
    if run == [] then fallback else if Citable(run[0]) then run[0].page else PageOf(run[1..], fallback)
  }

  /**
   The page is that of the first element with a page and more than 20 characters, so a heading stranded on the page
   before does not decide it.
   */
  lemma {:induction false} PageIsTheFirstCitable(run: seq<Element>, fallback: Option<int>, k: nat)
    requires k <= |run| && (forall i :: 0 <= i < k ==> run[i].page == None || |run[i].text| <= 20)
    requires k < |run| ==> run[k].page != None && |run[k].text| > 20
    ensures PageOf(run, fallback) == if k < |run| then run[k].page else fallback
    decreases |run|
  {
    if k > 0 {
      assert forall i :: 0 <= i < k - 1 ==> run[1..][i] == run[i + 1];
      PageIsTheFirstCitable(run[1..], fallback, k - 1);
    }
  }

  /** `_emit_narrative` */
  function EmitNarrative(run: seq<Element>, lx: Lexicon, size: nat, overlap: nat, start: nat): seq<Chunk>
    requires StepOf(size, overlap) != 0
  {
    var text := RunText(run);
    if run == [] || text == "" then []
    else
      var first, page, parts := run[0], PageOf(run, run[0].page), Parts(text, size, overlap);
      var kind := if first.kind.Title? then Narrative else first.kind;
      seq(|parts|, i requires 0 <= i < |parts| =>
        Chunk(lx.normalise(parts[i]), parts[i], kind, start + i, page, first.section, lx.opensClause(text) && i == 0))
  }

  /** A run of one element is that element's text, stripped. */
  lemma RunTextOfOne(e: Element)
    ensures RunText([e]) == Strip(e.text)
  {
    assert [e][..0] == [];
    assert Texts([e]) == if e.text == "" then [] else [e.text];
  }

  /** One more element stands behind a blank line, or, when it has no text, not at all. */
  lemma RunTextOfMore(run: seq<Element>, e: Element)
    requires Texts(run) != []
    ensures Join(Texts(run + [e]), "\n\n")
      == Join(Texts(run), "\n\n") + if e.text == "" then "" else "\n\n" + e.text
  {
    assert (run + [e])[..|run|] == run;
    if e.text != "" {
      JoinAppend(Texts(run), e.text, "\n\n");
      Associate(Join(Texts(run), "\n\n"), "\n\n", e.text);
    } else {
      assert Texts(run) + [] == Texts(run);
    }
  }

  /**
   What the chunks of a run carry: the parts of its text in order, each with its normalisation to be embedded; the
   kind of the first element, a heading counting as narrative; the page found for the run; the first element's
   section; and on the first part alone whether the run opens a clause.
   */
  lemma RunChunksSay(run: seq<Element>, lx: Lexicon, size: nat, overlap: nat, start: nat, i: nat)
    requires StepOf(size, overlap) != 0 && run != [] && RunText(run) != ""
    ensures var chunks, parts := EmitNarrative(run, lx, size, overlap, start), Parts(RunText(run), size, overlap);
      && |chunks| == |parts|
      && (i < |chunks| ==>
            var c := chunks[i];
            && c.raw == parts[i] && c.text == lx.normalise(c.raw) && c.index == start + i
            && c.kind == (if run[0].kind == Title then Narrative else run[0].kind)
            && c.page == PageOf(run, run[0].page) && c.section == run[0].section
            && (c.startsClause <==> i == 0 && lx.opensClause(RunText(run))))
  {
  }

  // ------------------------------------------------------------ tables

  /** `element.html or element.text` */
  function Body(e: Element): string {
    if e.html.Some? && e.html.value != "" then e.html.value else e.text
  }

  /** Row groups closed so far, the rows in hand, and their size with the header. */
  datatype Grouping = Grouping(groups: seq<seq<string>>, current: seq<string>, size: nat)

  function AddRow(g: Grouping, row: string, header: string): Grouping {
    if g.size + |row| > MAX_CHUNK_SIZE && g.current != [] then
      Grouping(g.groups + [g.current], [row], |header| + |row|)
    else Grouping(g.groups, g.current + [row], g.size + |row|)
  }

  function GroupRows(header: string, rows: seq<string>): Grouping {
    if rows == [] then Grouping([], [], |header|)
    else AddRow(GroupRows(header, rows[..|rows| - 1]), rows[|rows| - 1], header)
  }

  function Closed(g: Grouping): seq<seq<string>> {
    if g.current == [] then g.groups else g.groups + [g.current]
  }

  function RowGroups(header: string, rows: seq<string>): seq<seq<string>> {
    Closed(GroupRows(header, rows))
  }

  function Markup(header: string, rows: seq<string>): string {
    "<table>" + header + Concat(rows) + "</table>"
  }

  function TablePart(e: Element, lx: Lexicon, header: string, group: seq<string>, index: nat): Chunk {
    var markup := Markup(header, group);
    Chunk(lx.normalise(lx.untag(markup)), markup, Table, index, e.page, e.section, false)
  }

  function TableParts(e: Element, lx: Lexicon, header: string, groups: seq<seq<string>>, start: nat): seq<Chunk> {
    seq(|groups|, i requires 0 <= i < |groups| => TablePart(e, lx, header, groups[i], start + i))
  }

  function Markupless(e: Element): string {
    if e.html.Some? then e.html.value else ""
  }

  /** `_split_table_by_rows` */
  function SplitTable(e: Element, lx: Lexicon, start: nat): seq<Chunk> {
    var rows := lx.rows(Markupless(e));
    if rows == [] then
      var parts := Parts(e.text, MAX_CHUNK_SIZE, 0);
      seq(|parts|, i requires 0 <= i < |parts| =>
        Chunk(lx.normalise(parts[i]), parts[i], Table, start + i, e.page, e.section, false))
    else TableParts(e, lx, rows[0], RowGroups(rows[0], rows[1..]), start)
  }

  /** `_emit_table` */
  function EmitTable(e: Element, lx: Lexicon, start: nat): seq<Chunk> {
    if |Body(e)| <= MAX_CHUNK_SIZE then [Chunk(lx.normalise(e.text), Body(e), Table, start, e.page, e.section, false)]
    else SplitTable(e, lx, start)
  }

  method SplitTableByRows(e: Element, lx: Lexicon, start: nat) returns (chunks: seq<Chunk>)
    ensures chunks == SplitTable(e, lx, start)
  {
    var rows := lx.rows(Markupless(e));
    if rows == [] {
      var parts := RecursiveSplit(e.text, MAX_CHUNK_SIZE, 0);
      return seq(|parts|, i requires 0 <= i < |parts| =>
        Chunk(lx.normalise(parts[i]), parts[i], Table, start + i, e.page, e.section, false));
    }
    var header, dataRows := rows[0], rows[1..];
    chunks := [];
    var current: seq<string>, size := [], |header|;
    ghost var g := Grouping([], [], |header|);
    for n := 0 to |dataRows|
      invariant g == GroupRows(header, dataRows[..n]) && current == g.current && size == g.size
      invariant chunks == TableParts(e, lx, header, g.groups, start)
    {
      assert dataRows[..n + 1][..n] == dataRows[..n];
      g := AddRow(g, dataRows[n], header);
      if size + |dataRows[n]| > MAX_CHUNK_SIZE && current != [] {
        chunks := chunks + [TablePart(e, lx, header, current, start + |chunks|)];
        current, size := [], |header|;
      }
      current := current + [dataRows[n]];
      size := size + |dataRows[n]|;
    }
    assert dataRows[..|dataRows|] == dataRows;
    if current != [] {
      chunks := chunks + [TablePart(e, lx, header, current, start + |chunks|)];
    }
  }

  function Flat(groups: seq<seq<string>>): seq<string> {
    if groups == [] then [] else Flat(groups[..|groups| - 1]) + groups[|groups| - 1]
  }

  /** A group of rows that fits, or a single row that cannot be helped. */
  predicate Fits(header: string, group: seq<string>) {
    group != [] && (|group| >= 2 ==> |header| + |Concat(group)| <= MAX_CHUNK_SIZE)
  }

  /** The group could not have taken the first row of the next. */
  predicate Full(header: string, group: seq<string>, next: seq<string>) {
    next != [] && |header| + |Concat(group)| + |next[0]| > MAX_CHUNK_SIZE
  }

  ghost predicate WellGrouped(header: string, groups: seq<seq<string>>) {
    && (forall k {:trigger Fits(header, groups[k])} :: 0 <= k < |groups| ==> Fits(header, groups[k]))
    && (forall k {:trigger Full(header, groups[k], groups[k + 1])} :: 0 <= k < |groups| - 1 ==>
      Full(header, groups[k], groups[k + 1]))
  }

  lemma ConcatSnoc(rows: seq<string>, row: string)
    ensures Concat(rows + [row]) == Concat(rows) + row
  {
    ConcatAppend(rows, [row]);
    assert Concat([row]) == row;
  }

  lemma GrowLast(header: string, groups: seq<seq<string>>, group: seq<string>, row: string)
    requires group != [] && |header| + |Concat(group + [row])| <= MAX_CHUNK_SIZE
      && WellGrouped(header, groups + [group])
    ensures WellGrouped(header, groups + [group + [row]])
  {
    var a, b := groups + [group], groups + [group + [row]];
    forall k | 0 <= k < |b| ensures Fits(header, b[k]) {
      assert Fits(header, a[k]);
    }
    forall k | 0 <= k < |b| - 1 ensures Full(header, b[k], b[k + 1]) {
      assert Full(header, a[k], a[k + 1]);
    }
  }

  lemma OpenGroup(header: string, groups: seq<seq<string>>, row: string)
    requires WellGrouped(header, groups) && (groups != [] ==> Full(header, groups[|groups| - 1], [row]))
    ensures WellGrouped(header, groups + [[row]])
  {
    var b := groups + [[row]];
    forall k | 0 <= k < |b| ensures Fits(header, b[k]) {
      assert k < |groups| ==> Fits(header, groups[k]);
    }
    forall k | 0 <= k < |b| - 1 ensures Full(header, b[k], b[k + 1]) {
      assert k < |groups| - 1 ==> Full(header, groups[k], groups[k + 1]);
    }
  }

  lemma FlatSnoc(groups: seq<seq<string>>, group: seq<string>)
    ensures Flat(groups + [group]) == Flat(groups) + group
  {
    assert (groups + [group])[..|groups|] == groups;
  }

  lemma AddRowKeepsRows(g: Grouping, row: string, header: string)
    ensures Flat(Closed(AddRow(g, row, header))) == Flat(Closed(g)) + [row]
  {
    FlatSnoc(g.groups, g.current);
    FlatSnoc(g.groups, g.current + [row]);
    FlatSnoc(g.groups + [g.current], [row]);
  }

  lemma AddRowGroups(g: Grouping, row: string, header: string)
    requires Measured(g, header)
    ensures Measured(AddRow(g, row, header), header) && AddRow(g, row, header).current != []
  {
    ConcatSnoc(g.current, row);
    ConcatSnoc([], row);
    assert [] + [row] == [row];
    if g.current != [] && g.size + |row| <= MAX_CHUNK_SIZE {
      GrowLast(header, g.groups, g.current, row);
    } else {
      OpenGroup(header, Closed(g), row);
    }
  }

  lemma {:induction false} GroupingKeepsRows(header: string, rows: seq<string>)
    ensures Flat(Closed(GroupRows(header, rows))) == rows
    decreases |rows|
  {
    if rows != [] {
      var front, last := rows[..|rows| - 1], rows[|rows| - 1];
      GroupingKeepsRows(header, front);
      AddRowKeepsRows(GroupRows(header, front), last, header);
      assert GroupRows(header, rows) == AddRow(GroupRows(header, front), last, header);
      SplitLast(rows);
    }
  }

  /** The invariant of the loop over the rows. */
  ghost predicate Measured(g: Grouping, header: string) {
    && g.size == |header| + |Concat(g.current)| && (g.current == [] ==> g.groups == [])
    && WellGrouped(header, Closed(g))
  }

  lemma {:induction false} GroupingIsSound(header: string, rows: seq<string>)
    ensures Measured(GroupRows(header, rows), header) && (GroupRows(header, rows).current == [] <==> rows == [])
    decreases |rows|
  {
    if rows != [] {
      GroupingIsSound(header, rows[..|rows| - 1]);
      AddRowGroups(GroupRows(header, rows[..|rows| - 1]), rows[|rows| - 1], header);
    }
  }

  /**
   The parts of an oversized table carry every data row exactly once and in order, each behind a copy of the
   header; none is empty; two rows or more stay within the ceiling; and no part could have taken the next row.
   */
  lemma TablePartsCarryEveryRow(e: Element, lx: Lexicon, start: nat)
    requires lx.rows(Markupless(e)) != []
    ensures var rows := lx.rows(Markupless(e));
      var header, groups, chunks := rows[0], RowGroups(rows[0], rows[1..]), SplitTable(e, lx, start);
      && Flat(groups) == rows[1..] && WellGrouped(header, groups) && |chunks| == |groups|
      && (forall k :: 0 <= k < |chunks| ==> chunks[k].raw == Markup(header, groups[k]) && chunks[k].index == start + k)
  {
    var rows := lx.rows(Markupless(e));
    GroupingIsSound(rows[0], rows[1..]);
    GroupingKeepsRows(rows[0], rows[1..]);
    assert SplitTable(e, lx, start) == TableParts(e, lx, rows[0], RowGroups(rows[0], rows[1..]), start);
  }

  /** An oversized table disappears if and only if its header is its only row. */
  lemma TableVanishesIffHeaderOnly(e: Element, lx: Lexicon, start: nat)
    requires |Body(e)| > MAX_CHUNK_SIZE && lx.rows(Markupless(e)) != []
    ensures EmitTable(e, lx, start) == [] <==> |lx.rows(Markupless(e))| == 1
  {
    GroupingIsSound(lx.rows(Markupless(e))[0], lx.rows(Markupless(e))[1..]);
  }

  /** A table within the ceiling is one chunk: its markup, or lacking that its text, embedded as its normalised text. */
  lemma WholeTableSays(e: Element, lx: Lexicon, start: nat)
    ensures var body := if e.html.Some? && e.html.value != "" then e.html.value else e.text;
      |body| <= 8_000 ==>
        EmitTable(e, lx, start) == [Chunk(lx.normalise(e.text), body, Table, start, e.page, e.section, false)]
  {
  }

  /** A part of a split table is embedded as its markup without the tags, normalised; it keeps page and section. */
  lemma TablePartsSay(e: Element, lx: Lexicon, start: nat, i: nat)
    requires |Body(e)| > 8_000 && i < |EmitTable(e, lx, start)|
    ensures var c, html := EmitTable(e, lx, start)[i], if e.html.Some? then e.html.value else "";
      && c.kind == Table && c.page == e.page && c.section == e.section && !c.startsClause && c.index == start + i
      && (lx.rows(html) != [] ==> c.text == lx.normalise(lx.untag(c.raw)))
      && (lx.rows(html) == [] ==> c.text == lx.normalise(c.raw) && c.raw == Parts(e.text, 8_000, 0)[i])
  {
  }

  lemma {:induction false} RowInGroup(groups: seq<seq<string>>, row: string)
    ensures row in Flat(groups) <==> exists k :: 0 <= k < |groups| && row in groups[k]
  {
    if groups != [] {
      RowInGroup(groups[..|groups| - 1], row);
      var front := groups[..|groups| - 1];
      assert forall k :: 0 <= k < |front| ==> front[k] == groups[k];
    }
  }

  lemma {:induction false} RowWithinGroup(rows: seq<string>, row: string)
    requires row in rows
    ensures |row| <= |Concat(rows)| && (|rows| == 1 ==> Concat(rows) == row)
  {
    if rows[0] != row { RowWithinGroup(rows[1..], row); }
    if |rows| == 1 { assert rows[1..] == []; }
  }

  lemma RowIsCarried(header: string, rows: seq<string>, row: string) returns (g: seq<string>)
    requires row in rows
    ensures g in RowGroups(header, rows) && |row| <= |Concat(g)|
  {
    GroupingKeepsRows(header, rows);
    var groups := RowGroups(header, rows);
    RowInGroup(groups, row);
    var k :| 0 <= k < |groups| && row in groups[k];
    g := groups[k];
    RowWithinGroup(g, row);
  }

  lemma OversizedPartIsOneRow(header: string, rows: seq<string>, g: seq<string>)
    requires g in RowGroups(header, rows) && |header| + |Concat(g)| > MAX_CHUNK_SIZE
    ensures |g| == 1 && g[0] in rows && Concat(g) == g[0]
  {
    GroupingIsSound(header, rows);
    GroupingKeepsRows(header, rows);
    var groups := RowGroups(header, rows);
    var k :| 0 <= k < |groups| && groups[k] == g;
    assert Fits(header, groups[k]);
    RowWithinGroup(g, g[0]);
    RowInGroup(groups, g[0]);
  }

  /** Every part is within the ceiling, tags aside, if and only if every row fits beside the header. */
  lemma PartsFitIffRowsFit(header: string, rows: seq<string>)
    ensures (forall g :: g in RowGroups(header, rows) ==> |header| + |Concat(g)| <= 8_000)
      <==> (forall row :: row in rows ==> |header| + |row| <= 8_000)
  {
    if row :| row in rows && |header| + |row| > MAX_CHUNK_SIZE {
      var g := RowIsCarried(header, rows, row);
    }
    if g :| g in RowGroups(header, rows) && |header| + |Concat(g)| > MAX_CHUNK_SIZE {
      OversizedPartIsOneRow(header, rows, g);
    }
  }

  // ------------------------------------------------------------ merging what is undersized

  predicate Mergeable(previous: Chunk, c: Chunk) {
    && !c.kind.Table? && !previous.kind.Table? && !c.startsClause
    && |previous.raw| < MIN_CHUNK_SIZE && previous.page == c.page
  }

  function Joined(previous: Chunk, c: Chunk): Chunk {
    Chunk(Strip(previous.text + "\n\n" + c.text), Strip(previous.raw + "\n\n" + c.raw), c.kind, previous.index,
          previous.page, if previous.section.Some? && previous.section.value != "" then previous.section else c.section,
          previous.startsClause)
  }

  function MergeNext(merged: seq<Chunk>, c: Chunk): seq<Chunk> {
    if merged != [] && Mergeable(merged[|merged| - 1], c)
    then merged[..|merged| - 1] + [Joined(merged[|merged| - 1], c)] else merged + [c]
  }

  function Merged(chunks: seq<Chunk>): seq<Chunk> {
    if chunks == [] then [] else MergeNext(Merged(chunks[..|chunks| - 1]), chunks[|chunks| - 1])
  }

  /** `_merge_undersized` */
  method MergeUndersized(chunks: seq<Chunk>) returns (merged: seq<Chunk>)
    ensures merged == Merged(chunks)
  {
    merged := [];
    for n := 0 to |chunks|
      invariant merged == Merged(chunks[..n])
    {
      assert chunks[..n + 1][..n] == chunks[..n];
      var chunk := chunks[n];
      if merged != [] && Mergeable(merged[|merged| - 1], chunk) {
        var previous := merged[|merged| - 1];
        merged := merged[..|merged| - 1];
        chunk := Joined(previous, chunk);
      }
      merged := merged + [chunk];
    }
    assert chunks[..|chunks|] == chunks;
  }

  /** No adjacent pair could still be merged. */
  predicate Settled(chunks: seq<Chunk>) {
    forall k :: 0 <= k < |chunks| - 1 ==> !Mergeable(chunks[k], chunks[k + 1])
  }

  lemma {:induction false} OnePassSettles(chunks: seq<Chunk>)
    ensures Settled(Merged(chunks))
  {
    if chunks != [] {
      var before, c := Merged(chunks[..|chunks| - 1]), chunks[|chunks| - 1];
      OnePassSettles(chunks[..|chunks| - 1]);
      var after := MergeNext(before, c);
      forall k | 0 <= k < |after| - 1 ensures !Mergeable(after[k], after[k + 1]) {
        assert after[k] == before[k];
        assert k + 1 < |before| ==> !Mergeable(before[k], before[k + 1]);
      }
    }
  }

  lemma {:induction false} SettledIsUnchanged(chunks: seq<Chunk>)
    requires Settled(chunks)
    ensures Merged(chunks) == chunks
  {
    if chunks != [] {
      SettledIsUnchanged(chunks[..|chunks| - 1]);
      if |chunks| > 1 { assert !Mergeable(chunks[|chunks| - 2], chunks[|chunks| - 2 + 1]); }
    }
  }

  /** One pass is enough: it changes nothing exactly when no adjacent pair is mergeable, and its result is such. */
  lemma MergeIsAFixpoint(chunks: seq<Chunk>)
    ensures Merged(Merged(chunks)) == Merged(chunks)
    ensures Merged(chunks) == chunks <==> Settled(chunks)
  {
    OnePassSettles(chunks);
    SettledIsUnchanged(Merged(chunks));
    if Settled(chunks) { SettledIsUnchanged(chunks); }
  }

  /**
   After merging, two neighbours stand apart for a reason: the first has reached the minimum of 120 characters, or one
   is a table, or the second opens a clause, or a page lies between them.
   */
  lemma NeighboursStandApart(chunks: seq<Chunk>, k: nat)
    requires k + 1 < |Merged(chunks)|
    ensures var a, b := Merged(chunks)[k], Merged(chunks)[k + 1];
      |a.raw| >= 120 || a.kind == Table || b.kind == Table || b.startsClause || a.page != b.page
  {
    OnePassSettles(chunks);
    assert !Mergeable(Merged(chunks)[k], Merged(chunks)[k + 1]);
  }

  /** The chunks that end up in one. */
  function Collapse(cluster: seq<Chunk>): Chunk
    requires cluster != []
  {
    if |cluster| == 1 then cluster[0] else Joined(Collapse(cluster[..|cluster| - 1]), cluster[|cluster| - 1])
  }

  function ClusterNext(clusters: seq<seq<Chunk>>, c: Chunk): (r: seq<seq<Chunk>>)
    requires [] !in clusters
    ensures [] !in r
  {
    if clusters != [] && Mergeable(Collapse(clusters[|clusters| - 1]), c)
    then clusters[..|clusters| - 1] + [clusters[|clusters| - 1] + [c]] else clusters + [[c]]
  }

  function Clusters(chunks: seq<Chunk>): (clusters: seq<seq<Chunk>>)
    ensures [] !in clusters
  {
    if chunks == [] then [] else ClusterNext(Clusters(chunks[..|chunks| - 1]), chunks[|chunks| - 1])
  }

  function Unclustered(clusters: seq<seq<Chunk>>): seq<Chunk> {
    if clusters == [] then [] else Unclustered(clusters[..|clusters| - 1]) + clusters[|clusters| - 1]
  }

  /** Why a cluster of two or more could form. */
  predicate Coherent(cluster: seq<Chunk>) {
    && cluster != []
    && (forall i :: 1 <= i < |cluster| ==> !cluster[i].startsClause && cluster[i].page == cluster[0].page)
    && (|cluster| > 1 ==> (forall i :: 0 <= i < |cluster| ==> !cluster[i].kind.Table?))
    && (|cluster| > 1 ==> |Collapse(cluster[..|cluster| - 1]).raw| < 120)
  }

  lemma {:induction false} CollapseFirst(cluster: seq<Chunk>)
    requires cluster != []
    ensures var c := Collapse(cluster);
      c.page == cluster[0].page && c.startsClause == cluster[0].startsClause && c.index == cluster[0].index
      && c.kind == cluster[|cluster| - 1].kind
  {
    if |cluster| > 1 { CollapseFirst(cluster[..|cluster| - 1]); }
  }

  ghost predicate Collapses(clusters: seq<seq<Chunk>>, merged: seq<Chunk>) {
    |merged| == |clusters| && forall k :: 0 <= k < |clusters| ==>
      clusters[k] != [] && merged[k] == Collapse(clusters[k])
  }

  predicate HasSection(c: Chunk) {
    c.section.Some? && c.section.value != ""
  }

  /** A cluster is filed under the first section one of its chunks names. */
  lemma {:induction false} CollapseSection(cluster: seq<Chunk>, k: nat)
    requires k < |cluster| && HasSection(cluster[k]) && forall i :: 0 <= i < k ==> !HasSection(cluster[i])
    ensures Collapse(cluster).section == cluster[k].section
    decreases |cluster|
  {
    if k < |cluster| - 1 {
      CollapseSection(cluster[..|cluster| - 1], k);
    } else if |cluster| > 1 {
      NoSection(cluster[..|cluster| - 1]);
    }
  }

  lemma {:induction false} NoSection(cluster: seq<Chunk>)
    requires cluster != [] && forall i :: 0 <= i < |cluster| ==> !HasSection(cluster[i])
    ensures !HasSection(Collapse(cluster))
    decreases |cluster|
  {
    if |cluster| > 1 { NoSection(cluster[..|cluster| - 1]); }
  }

  lemma ClusterNextCollapses(clusters: seq<seq<Chunk>>, merged: seq<Chunk>, c: Chunk)
    requires [] !in clusters && Collapses(clusters, merged)
    ensures Collapses(ClusterNext(clusters, c), MergeNext(merged, c))
  {
    if clusters != [] {
      var last := clusters[|clusters| - 1];
      assert (last + [c])[..|last|] == last;
      assert Collapse(last + [c]) == Joined(Collapse(last), c);
    }
  }

  lemma UnclusteredSnoc(clusters: seq<seq<Chunk>>, cluster: seq<Chunk>)
    ensures Unclustered(clusters + [cluster]) == Unclustered(clusters) + cluster
  {
    assert (clusters + [cluster])[..|clusters|] == clusters;
  }

  lemma ClusterNextIsContiguous(clusters: seq<seq<Chunk>>, c: Chunk)
    requires [] !in clusters
    ensures Unclustered(ClusterNext(clusters, c)) == Unclustered(clusters) + [c]
  {
    if clusters != [] && Mergeable(Collapse(clusters[|clusters| - 1]), c) {
      var front, last := clusters[..|clusters| - 1], clusters[|clusters| - 1];
      UnclusteredSnoc(front, last);
      assert clusters == front + [last];
      UnclusteredSnoc(front, last + [c]);
    } else {
      UnclusteredSnoc(clusters, [c]);
    }
  }

  /** Merging cuts the chunks into contiguous clusters and joins each. */
  lemma {:induction false} ClustersAreContiguous(chunks: seq<Chunk>)
    ensures Unclustered(Clusters(chunks)) == chunks
  {
    if chunks != [] {
      var front, c := chunks[..|chunks| - 1], chunks[|chunks| - 1];
      ClustersAreContiguous(front);
      OneMoreClustered(Clusters(front), front, c);
      assert chunks == front + [c];
    }
  }

  lemma OneMoreClustered(clusters: seq<seq<Chunk>>, front: seq<Chunk>, c: Chunk)
    requires [] !in clusters && Unclustered(clusters) == front
    ensures Unclustered(ClusterNext(clusters, c)) == front + [c]
  {
    ClusterNextIsContiguous(clusters, c);
  }

  lemma {:induction false} MergeJoinsClusters(chunks: seq<Chunk>)
    ensures Collapses(Clusters(chunks), Merged(chunks))
  {
    if chunks != [] {
      MergeJoinsClusters(chunks[..|chunks| - 1]);
      ClusterNextCollapses(Clusters(chunks[..|chunks| - 1]), Merged(chunks[..|chunks| - 1]), chunks[|chunks| - 1]);
    }
  }

  lemma GrownIsCoherent(cluster: seq<Chunk>, c: Chunk)
    requires Coherent(cluster) && Mergeable(Collapse(cluster), c)
    ensures Coherent(cluster + [c])
  {
    CollapseFirst(cluster);
    var grown := cluster + [c];
    assert grown[..|cluster|] == cluster;
    forall i | 1 <= i < |grown| ensures !grown[i].startsClause && grown[i].page == grown[0].page {
      assert i < |cluster| ==> grown[i] == cluster[i];
    }
    forall i | 0 <= i < |grown| ensures !grown[i].kind.Table? {
      assert i < |cluster| ==> grown[i] == cluster[i];
    }
  }

  /**
   Nothing is joined across a table or a page, nor a clause opener to an earlier chunk, nor once the minimum is
   met.
   */
  lemma {:induction false} ClustersAreCoherent(chunks: seq<Chunk>, k: nat)
    requires k < |Clusters(chunks)|
    ensures Coherent(Clusters(chunks)[k])
    decreases |chunks|
  {
    var before, c := Clusters(chunks[..|chunks| - 1]), chunks[|chunks| - 1];
    if k < |before| {
      ClustersAreCoherent(chunks[..|chunks| - 1], k);
      if k == |before| - 1 && Mergeable(Collapse(before[k]), c) {
        GrownIsCoherent(before[k], c);
      }
    }
  }

  lemma {:induction false} InSomeCluster(clusters: seq<seq<Chunk>>, c: Chunk) returns (k: nat, i: nat)
    requires c in Unclustered(clusters)
    ensures k < |clusters| && i < |clusters[k]| && clusters[k][i] == c
    decreases |clusters|
  {
    var front, last := clusters[..|clusters| - 1], clusters[|clusters| - 1];
    if c in Unclustered(front) {
      k, i := InSomeCluster(front, c);
    } else {
      k := |clusters| - 1;
      i :| 0 <= i < |last| && last[i] == c;
    }
  }

  lemma CoherentOpening(cluster: seq<Chunk>, i: nat)
    requires Coherent(cluster) && i < |cluster| && cluster[i].startsClause
    ensures i == 0 && Collapse(cluster).startsClause
  {
    CollapseFirst(cluster);
  }

  /** A chunk that opens a clause opens one of the merged chunks, which then opens a clause as well. */
  lemma ClauseOpensAChunk(chunks: seq<Chunk>, c: Chunk) returns (k: nat)
    requires c in chunks && c.startsClause
    ensures k < |Merged(chunks)| && k < |Clusters(chunks)| && Clusters(chunks)[k] != [] && Clusters(chunks)[k][0] == c
    ensures Merged(chunks)[k] == Collapse(Clusters(chunks)[k]) && Merged(chunks)[k].startsClause
  {
    ClustersAreContiguous(chunks);
    MergeJoinsClusters(chunks);
    var i: nat;
    k, i := InSomeCluster(Clusters(chunks), c);
    ClustersAreCoherent(chunks, k);
    CoherentOpening(Clusters(chunks)[k], i);
  }

  // ------------------------------------------------------------ from elements to chunks

  function Emit(s: Segment, lx: Lexicon, size: nat, overlap: nat, start: nat): seq<Chunk>
    requires StepOf(size, overlap) != 0
  {
    match s
    case Run(es) => EmitNarrative(es, lx, size, overlap, start)
    case Grid(e) => EmitTable(e, lx, start)
  }

  function EmitAll(segments: seq<Segment>, lx: Lexicon, size: nat, overlap: nat): seq<Chunk>
    requires StepOf(size, overlap) != 0
  {
    if segments == [] then []
    else
      var before := EmitAll(segments[..|segments| - 1], lx, size, overlap);
      before + Emit(segments[|segments| - 1], lx, size, overlap, |before|)
  }

  function Renumbered(chunks: seq<Chunk>): seq<Chunk> {
    seq(|chunks|, i requires 0 <= i < |chunks| => chunks[i].(index := i))
  }

  /** What `chunk_elements` returns. */
  function Chunks(es: seq<Element>, lx: Lexicon, size: nat, overlap: nat): seq<Chunk>
    requires StepOf(size, overlap) != 0
  {
    Renumbered(Merged(EmitAll(Segments(es, lx, size), lx, size, overlap)))
  }

  lemma EmitAllSnoc(segments: seq<Segment>, s: Segment, lx: Lexicon, size: nat, overlap: nat)
    requires StepOf(size, overlap) != 0
    ensures var before := EmitAll(segments, lx, size, overlap);
      EmitAll(segments + [s], lx, size, overlap) == before + Emit(s, lx, size, overlap, |before|)
  {
    assert (segments + [s])[..|segments|] == segments;
  }

  /** What a flush adds to chunks that are already `before` long. */
  function Flushes(buffer: seq<Element>, lx: Lexicon, size: nat, overlap: nat, before: nat): seq<Chunk>
    requires StepOf(size, overlap) != 0
  {
    if buffer == [] then [] else EmitNarrative(buffer, lx, size, overlap, before)
  }

  lemma FlushEmits(s: Scan, lx: Lexicon, size: nat, overlap: nat)
    requires StepOf(size, overlap) != 0
    ensures var before := EmitAll(s.done, lx, size, overlap);
      EmitAll(s.Flushed().done, lx, size, overlap) == before + Flushes(s.buffer, lx, size, overlap, |before|)
  {
    EmitAllSnoc(s.done, Run(s.buffer), lx, size, overlap);
  }

  /** `flush` */
  method Flush(buffer: seq<Element>, chunks: seq<Chunk>, lx: Lexicon, size: nat, overlap: nat)
    returns (flushed: seq<Chunk>)
    requires StepOf(size, overlap) != 0
    ensures flushed == chunks + Flushes(buffer, lx, size, overlap, |chunks|)
  {
    flushed := chunks;
    if buffer != [] {
      var text := RunText(buffer);
      if text != "" {
        var first, page, parts := buffer[0], PageOf(buffer, buffer[0].page), [text];
        if |text| > size {
          parts := RecursiveSplit(text, size, overlap);
        }
        var kind := if first.kind.Title? then Narrative else first.kind;
        flushed := chunks + seq(|parts|, i requires 0 <= i < |parts| => Chunk(
          lx.normalise(parts[i]), parts[i], kind, |chunks| + i, page, first.section, lx.opensClause(text) && i == 0));
      }
    }
  }

  /** `_emit_table` */
  method MakeTable(e: Element, lx: Lexicon, start: nat) returns (chunks: seq<Chunk>)
    ensures chunks == EmitTable(e, lx, start)
  {
    if |Body(e)| <= MAX_CHUNK_SIZE {
      chunks := [Chunk(lx.normalise(e.text), Body(e), Table, start, e.page, e.section, false)];
    } else {
      chunks := SplitTableByRows(e, lx, start);
    }
  }

  /** The end of the loop body: a paragraph, behind a flush if it opens a clause, and a flush if the run is full. */
  method AddParagraph(ghost s: Scan, e: Element, buffer: seq<Element>, chunks: seq<Chunk>, lx: Lexicon, size: nat,
                      overlap: nat)
    returns (kept: seq<Element>, extended: seq<Chunk>)
    requires StepOf(size, overlap) != 0 && buffer == s.buffer && chunks == EmitAll(s.done, lx, size, overlap)
    ensures kept == Append(s, e, lx, size).buffer
    ensures extended == EmitAll(Append(s, e, lx, size).done, lx, size, overlap)
  {
    kept, extended := buffer, chunks;
    ghost var t := s;
    if buffer != [] && lx.opensClause(e.text) {
      FlushEmits(s, lx, size, overlap);
      extended := Flush(buffer, chunks, lx, size, overlap);
      kept := [];
      t := s.Flushed();
    }
    kept := kept + [e];
    if Total(kept) >= size {
      FlushEmits(Scan(t.done, kept), lx, size, overlap);
      extended := Flush(kept, extended, lx, size, overlap);
      kept := [];
    }
  }

  /** `chunk_elements` */
  method ChunkElements(elements: seq<Element>, lx: Lexicon, size: nat, overlap: nat) returns (merged: seq<Chunk>)
    requires StepOf(size, overlap) != 0
    ensures merged == Chunks(elements, lx, size, overlap)
  {
    var chunks: seq<Chunk>, buffer: seq<Element> := [], [];
    ghost var s := Scan([], []);
    for n := 0 to |elements|
      invariant s == ScanOf(elements[..n], lx, size) && buffer == s.buffer
      invariant chunks == EmitAll(s.done, lx, size, overlap)
    {
      var element := elements[n];
      assert elements[..n + 1][..n] == elements[..n];
      FlushEmits(s, lx, size, overlap);
      if element.kind.Table? {
        chunks := Flush(buffer, chunks, lx, size, overlap);
        buffer := [];
        var table := MakeTable(element, lx, |chunks|);
        EmitAllSnoc(s.Flushed().done, Grid(element), lx, size, overlap);
        chunks := chunks + table;
      } else if element.kind.Title? {
        chunks := Flush(buffer, chunks, lx, size, overlap);
        buffer := [element];
      } else if !element.kind.HeaderFooter? {
        buffer, chunks := AddParagraph(s, element, buffer, chunks, lx, size, overlap);
      }
      s := Take(s, element, lx, size);
    }
    assert elements[..|elements|] == elements;
    FlushEmits(s, lx, size, overlap);
    chunks := Flush(buffer, chunks, lx, size, overlap);
    merged := MergeUndersized(chunks);
    ghost var kept := merged;
    for i := 0 to |merged|
      invariant |merged| == |kept| && forall k :: 0 <= k < |kept| ==>
        merged[k] == if k < i then kept[k].(index := k) else kept[k]
    {
      merged := merged[i := merged[i].(index := i)];
    }
    assert merged == Renumbered(kept);
  }

  // ------------------------------------------------------------ what happens to the text

  function RawText(chunks: seq<Chunk>): string {
    if chunks == [] then "" else RawText(chunks[..|chunks| - 1]) + chunks[|chunks| - 1].raw
  }

  lemma {:induction false} RawTextAppend(a: seq<Chunk>, b: seq<Chunk>)
    ensures RawText(a + b) == RawText(a) + RawText(b)
  {
    if b == [] {
      assert a + b == a;
    } else {
      assert (a + b)[..|a + b| - 1] == a + b[..|b| - 1];
      RawTextAppend(a, b[..|b| - 1]);
      Associate(RawText(a), RawText(b[..|b| - 1]), b[|b| - 1].raw);
    }
  }

  lemma RawTextSnoc(chunks: seq<Chunk>, c: Chunk)
    ensures RawText(chunks + [c]) == RawText(chunks) + c.raw
  {
    assert (chunks + [c])[..|chunks|] == chunks;
  }

  lemma BlankLine()
    ensures NonSpace("\n\n") == ""
  {
    assert "\n\n"[1..] == "\n" && "\n"[1..] == "";
  }

  lemma JoinedContent(previous: Chunk, c: Chunk)
    ensures NonSpace(Joined(previous, c).raw) == NonSpace(previous.raw) + NonSpace(c.raw)
  {
    NonSpaceStrip(previous.raw + "\n\n" + c.raw);
    SpacedContent(previous.raw, "\n\n", c.raw);
    BlankLine();
  }

  lemma MergeNextKeepsContent(merged: seq<Chunk>, c: Chunk)
    ensures NonSpace(RawText(MergeNext(merged, c))) == NonSpace(RawText(merged)) + NonSpace(c.raw)
  {
    if merged != [] && Mergeable(merged[|merged| - 1], c) {
      var front, last := merged[..|merged| - 1], merged[|merged| - 1];
      RawTextSnoc(front, Joined(last, c));
      NonSpaceConcat(RawText(front), Joined(last, c).raw);
      JoinedContent(last, c);
      NonSpaceConcat(RawText(front), last.raw);
      Associate(NonSpace(RawText(front)), NonSpace(last.raw), NonSpace(c.raw));
    } else {
      RawTextSnoc(merged, c);
      NonSpaceConcat(RawText(merged), c.raw);
    }
  }

  /** Merging keeps all text in order, whitespace at the seams aside. */
  lemma {:induction false} MergeKeepsContent(chunks: seq<Chunk>)
    ensures NonSpace(RawText(Merged(chunks))) == NonSpace(RawText(chunks))
  {
    if chunks != [] {
      var front, c := chunks[..|chunks| - 1], chunks[|chunks| - 1];
      MergeKeepsContent(front);
      MergeNextKeepsContent(Merged(front), c);
      NonSpaceConcat(RawText(front), c.raw);
    }
  }

  function Raws(chunks: seq<Chunk>): seq<string> {
    seq(|chunks|, i requires 0 <= i < |chunks| => chunks[i].raw)
  }

  lemma TrimIsStripped(s: string)
    requires Trim(s)
    ensures Strip(s) == s
  {
  }

  lemma SeamIsTrim(a: string, b: string)
    requires Trim(a) && Trim(b)
    ensures Trim(a + "\n\n" + b) && Strip(a + "\n\n" + b) == a + "\n\n" + b
  {
    TrimIsStripped(a + "\n\n" + b);
  }

  /** Chunks that begin and end on content are joined to the character, with a blank line at each seam. */
  lemma {:induction false} ClusterTextIsTheJoin(cluster: seq<Chunk>)
    requires cluster != [] && forall i :: 0 <= i < |cluster| ==> Trim(cluster[i].raw)
    ensures Collapse(cluster).raw == Join(Raws(cluster), "\n\n") && Trim(Collapse(cluster).raw)
  {
    if |cluster| > 1 {
      var front, last := cluster[..|cluster| - 1], cluster[|cluster| - 1];
      ClusterTextIsTheJoin(front);
      SeamIsTrim(Collapse(front).raw, last.raw);
      JoinAppend(Raws(front), last.raw, "\n\n");
      assert Raws(cluster) == Raws(front) + [last.raw];
    }
  }

  // ------------------------------------------------------------ what happens to the embedded text

  function TextOf(chunks: seq<Chunk>): string {
    if chunks == [] then "" else TextOf(chunks[..|chunks| - 1]) + chunks[|chunks| - 1].text
  }

  lemma TextOfSnoc(chunks: seq<Chunk>, c: Chunk)
    ensures TextOf(chunks + [c]) == TextOf(chunks) + c.text
  {
    assert (chunks + [c])[..|chunks|] == chunks;
  }

  lemma JoinedText(previous: Chunk, c: Chunk)
    ensures NonSpace(Joined(previous, c).text) == NonSpace(previous.text) + NonSpace(c.text)
  {
    NonSpaceStrip(previous.text + "\n\n" + c.text);
    SpacedContent(previous.text, "\n\n", c.text);
    BlankLine();
  }

  lemma MergeNextKeepsText(merged: seq<Chunk>, c: Chunk)
    ensures NonSpace(TextOf(MergeNext(merged, c))) == NonSpace(TextOf(merged)) + NonSpace(c.text)
  {
    if merged != [] && Mergeable(merged[|merged| - 1], c) {
      var front, last := merged[..|merged| - 1], merged[|merged| - 1];
      TextOfSnoc(front, Joined(last, c));
      NonSpaceConcat(TextOf(front), Joined(last, c).text);
      JoinedText(last, c);
      NonSpaceConcat(TextOf(front), last.text);
      Associate(NonSpace(TextOf(front)), NonSpace(last.text), NonSpace(c.text));
    } else {
      TextOfSnoc(merged, c);
      NonSpaceConcat(TextOf(merged), c.text);
    }
  }

  /** Merging keeps all text that is embedded, in order, whitespace at the seams aside: a heading stays findable. */
  lemma {:induction false} MergeKeepsEmbeddedText(chunks: seq<Chunk>)
    ensures NonSpace(TextOf(Merged(chunks))) == NonSpace(TextOf(chunks))
    decreases |chunks|
  {
    if chunks != [] {
      var front, c := chunks[..|chunks| - 1], chunks[|chunks| - 1];
      MergeKeepsEmbeddedText(front);
      MergeNextKeepsText(Merged(front), c);
      NonSpaceConcat(TextOf(front), c.text);
    }
  }

  function EmbeddedTexts(chunks: seq<Chunk>): seq<string> {
    seq(|chunks|, i requires 0 <= i < |chunks| => chunks[i].text)
  }

  /** Embedded texts that begin and end on content are joined to the character, with a blank line at each seam. */
  lemma {:induction false} ClusterEmbedsTheJoin(cluster: seq<Chunk>)
    requires cluster != [] && forall i :: 0 <= i < |cluster| ==> Trim(cluster[i].text)
    ensures Collapse(cluster).text == Join(EmbeddedTexts(cluster), "\n\n") && Trim(Collapse(cluster).text)
    decreases |cluster|
  {
    if |cluster| > 1 {
      var front, last := cluster[..|cluster| - 1], cluster[|cluster| - 1];
      ClusterEmbedsTheJoin(front);
      SeamIsTrim(Collapse(front).text, last.text);
      JoinAppend(EmbeddedTexts(front), last.text, "\n\n");
      assert EmbeddedTexts(cluster) == EmbeddedTexts(front) + [last.text];
    }
  }

  // ------------------------------------------------------------ tables stay whole

  function TableRaws(chunks: seq<Chunk>): seq<string> {
    if chunks == [] then []
    else TableRaws(chunks[..|chunks| - 1]) + if chunks[|chunks| - 1].kind.Table? then [chunks[|chunks| - 1].raw] else []
  }

  lemma {:induction false} TableRawsAppend(a: seq<Chunk>, b: seq<Chunk>)
    ensures TableRaws(a + b) == TableRaws(a) + TableRaws(b)
  {
    if b == [] {
      assert a + b == a;
    } else {
      assert (a + b)[..|a + b| - 1] == a + b[..|b| - 1];
      TableRawsAppend(a, b[..|b| - 1]);
    }
  }

  lemma MergeNextKeepsTables(merged: seq<Chunk>, c: Chunk)
    ensures TableRaws(MergeNext(merged, c)) == TableRaws(merged) + if c.kind.Table? then [c.raw] else []
  {
    if merged != [] && Mergeable(merged[|merged| - 1], c) {
      var front, last := merged[..|merged| - 1], merged[|merged| - 1];
      TableRawsAppend(front, [Joined(last, c)]);
      assert [Joined(last, c)][..0] == [];
    } else {
      TableRawsAppend(merged, [c]);
      assert [c][..0] == [];
    }
  }

  lemma {:induction false} MergeKeepsTables(chunks: seq<Chunk>)
    ensures TableRaws(Merged(chunks)) == TableRaws(chunks)
  {
    if chunks != [] {
      MergeKeepsTables(chunks[..|chunks| - 1]);
      MergeNextKeepsTables(Merged(chunks[..|chunks| - 1]), chunks[|chunks| - 1]);
    }
  }

  lemma {:induction false} AllTables(chunks: seq<Chunk>)
    requires forall i :: 0 <= i < |chunks| ==> chunks[i].kind.Table?
    ensures TableRaws(chunks) == Raws(chunks)
  {
    if chunks != [] {
      AllTables(chunks[..|chunks| - 1]);
      assert Raws(chunks) == Raws(chunks[..|chunks| - 1]) + [chunks[|chunks| - 1].raw];
    }
  }

  lemma {:induction false} NoTables(chunks: seq<Chunk>)
    requires forall i :: 0 <= i < |chunks| ==> !chunks[i].kind.Table?
    ensures TableRaws(chunks) == []
  {
    if chunks != [] { NoTables(chunks[..|chunks| - 1]); }
  }

  lemma {:induction false} Renumbering(chunks: seq<Chunk>)
    ensures TableRaws(Renumbered(chunks)) == TableRaws(chunks) && RawText(Renumbered(chunks)) == RawText(chunks)
  {
    if chunks != [] {
      assert Renumbered(chunks)[..|chunks| - 1] == Renumbered(chunks[..|chunks| - 1]);
      Renumbering(chunks[..|chunks| - 1]);
    }
  }

  /** What each table of the input becomes, in order. */
  function TableTexts(es: seq<Element>, lx: Lexicon): seq<string> {
    if es == [] then []
    else
      var last := es[|es| - 1];
      TableTexts(es[..|es| - 1], lx) + if last.kind.Table? then Raws(EmitTable(last, lx, 0)) else []
  }

  lemma {:induction false} TableTextsAppend(a: seq<Element>, b: seq<Element>, lx: Lexicon)
    ensures TableTexts(a + b, lx) == TableTexts(a, lx) + TableTexts(b, lx)
  {
    if b == [] {
      assert a + b == a;
    } else {
      assert (a + b)[..|a + b| - 1] == a + b[..|b| - 1];
      TableTextsAppend(a, b[..|b| - 1], lx);
    }
  }

  lemma {:induction false} RunHasNoTables(run: seq<Element>, lx: Lexicon)
    requires forall i :: 0 <= i < |run| ==> !run[i].kind.Table?
    ensures TableTexts(run, lx) == []
  {
    if run != [] { RunHasNoTables(run[..|run| - 1], lx); }
  }

  lemma {:induction false} ContentKeepsTables(es: seq<Element>, lx: Lexicon)
    ensures TableTexts(Content(es), lx) == TableTexts(es, lx)
  {
    if es != [] {
      var front, last := es[..|es| - 1], es[|es| - 1];
      ContentKeepsTables(front, lx);
      TableTextsAppend(Content(front), [last], lx);
      assert [last][..0] == [];
      assert Content(front) + [] == Content(front);
    }
  }

  lemma TableRawsOfTable(e: Element, lx: Lexicon, start: nat)
    ensures TableRaws(EmitTable(e, lx, start)) == Raws(EmitTable(e, lx, 0))
  {
    AllTables(EmitTable(e, lx, start));
    assert Raws(EmitTable(e, lx, start)) == Raws(EmitTable(e, lx, 0));
  }

  lemma SegmentTables(s: Segment, lx: Lexicon, size: nat, overlap: nat, start: nat)
    requires StepOf(size, overlap) != 0 && WellFormed(s, lx, size)
    ensures TableRaws(Emit(s, lx, size, overlap, start)) == TableTexts(ElementsOf(s), lx)
  {
    match s
    case Run(es) =>
      NoTables(EmitNarrative(es, lx, size, overlap, start));
      RunHasNoTables(es, lx);
    case Grid(e) =>
      TableRawsOfTable(e, lx, start);
      assert [e][..0] == [];
  }

  lemma {:induction false} EmittedTables(segments: seq<Segment>, lx: Lexicon, size: nat, overlap: nat)
    requires StepOf(size, overlap) != 0 && forall k :: 0 <= k < |segments| ==> WellFormed(segments[k], lx, size)
    ensures TableRaws(EmitAll(segments, lx, size, overlap)) == TableTexts(Elements(segments), lx)
  {
    if segments != [] {
      var front, s := segments[..|segments| - 1], segments[|segments| - 1];
      var before := EmitAll(front, lx, size, overlap);
      EmittedTables(front, lx, size, overlap);
      SegmentTables(s, lx, size, overlap, |before|);
      TableRawsAppend(before, Emit(s, lx, size, overlap, |before|));
      TableTextsAppend(Elements(front), ElementsOf(s), lx);
    }
  }

  /**
   The table chunks of the result are those of the input's tables, in order: no table is merged with anything,
   lost, repeated or reordered, and one within the ceiling is a single chunk holding its whole body.
   */
  lemma TablesAreAtomic(es: seq<Element>, lx: Lexicon, size: nat, overlap: nat)
    requires StepOf(size, overlap) != 0
    ensures TableRaws(Chunks(es, lx, size, overlap)) == TableTexts(es, lx)
    ensures forall e: Element :: |Body(e)| <= MAX_CHUNK_SIZE ==> Raws(EmitTable(e, lx, 0)) == [Body(e)]
  {
    var segments := Segments(es, lx, size);
    SegmentsAreWellCut(es, lx, size);
    SegmentsPartitionTheContent(es, lx, size);
    EmittedTables(segments, lx, size, overlap);
    MergeKeepsTables(EmitAll(segments, lx, size, overlap));
    Renumbering(Merged(EmitAll(segments, lx, size, overlap)));
    ContentKeepsTables(es, lx);
  }

  // ------------------------------------------------------------ nothing is lost

  function SourceText(es: seq<Element>): string {
    if es == [] then ""
    else SourceText(es[..|es| - 1]) + if es[|es| - 1].kind.Table? then Body(es[|es| - 1]) else es[|es| - 1].text
  }

  lemma {:induction false} SourceTextAppend(a: seq<Element>, b: seq<Element>)
    ensures SourceText(a + b) == SourceText(a) + SourceText(b)
  {
    if b == [] {
      assert a + b == a;
    } else {
      var front, last := b[..|b| - 1], b[|b| - 1];
      assert (a + b)[..|a + b| - 1] == a + front;
      SourceTextAppend(a, front);
      Associate(SourceText(a), SourceText(front), if last.kind.Table? then Body(last) else last.text);
    }
  }

  /** Nothing in the segment is over its limit. */
  predicate Whole(s: Segment, size: nat) {
    match s case Run(es) => |RunText(es)| <= size case Grid(e) => |Body(e)| <= MAX_CHUNK_SIZE
  }

  lemma {:induction false} RunContent(run: seq<Element>)
    requires forall i :: 0 <= i < |run| ==> !run[i].kind.Table?
    ensures NonSpace(Concat(Texts(run))) == NonSpace(SourceText(run))
  {
    if run != [] {
      var front, last := run[..|run| - 1], run[|run| - 1];
      RunContent(front);
      assert Texts(front) + [] == Texts(front);
      ConcatSnoc(Texts(front), last.text);
      NonSpaceConcat(Concat(Texts(front)), last.text);
      NonSpaceConcat(SourceText(front), last.text);
    }
  }

  lemma RunTextContent(run: seq<Element>)
    requires forall i :: 0 <= i < |run| ==> !run[i].kind.Table?
    ensures NonSpace(RunText(run)) == NonSpace(SourceText(run))
  {
    NonSpaceStrip(Join(Texts(run), "\n\n"));
    BlankLine();
    JoinContent(Texts(run), "\n\n");
    RunContent(run);
  }

  lemma SingleRaw(c: Chunk)
    ensures RawText([c]) == c.raw
  {
    assert [c][..0] == [];
  }

  lemma SegmentContent(s: Segment, lx: Lexicon, size: nat, overlap: nat, start: nat)
    requires StepOf(size, overlap) != 0 && WellFormed(s, lx, size) && Whole(s, size)
    ensures NonSpace(RawText(Emit(s, lx, size, overlap, start))) == NonSpace(SourceText(ElementsOf(s)))
  {
    var chunks := Emit(s, lx, size, overlap, start);
    match s
    case Run(es) =>
      RunTextContent(es);
      if RunText(es) != "" {
        assert chunks == [chunks[0]] && chunks[0].raw == RunText(es);
        SingleRaw(chunks[0]);
      }
    case Grid(e) =>
      SingleRaw(chunks[0]);
      assert [e][..0] == [];
  }

  /** What of a segment is sure to be in its chunks. */
  function Survives(s: Segment, lx: Lexicon, size: nat, overlap: nat): string {
    match s
    case Run(es) => Salvage(RunText(es), size, overlap)
    case Grid(e) =>
      var rows := lx.rows(Markupless(e));
      if |Body(e)| <= MAX_CHUNK_SIZE then Body(e)
      else if rows == [] then Salvage(e.text, MAX_CHUNK_SIZE, 0)
      else if |rows| == 1 then "" else Markup(rows[0], rows[1..])
  }

  lemma {:induction false} RawTextIsConcat(chunks: seq<Chunk>)
    ensures RawText(chunks) == Concat(Raws(chunks))
    decreases |chunks|
  {
    if chunks != [] {
      var front, last := chunks[..|chunks| - 1], chunks[|chunks| - 1];
      RawTextIsConcat(front);
      ConcatSnoc(Raws(front), last.raw);
      assert Raws(chunks) == Raws(front) + [last.raw];
    }
  }

  /** The markup of a table part up to its closing tag. */
  function Opening(header: string, rows: seq<string>): string {
    "<table>" + header + Concat(rows)
  }

  lemma PartHolds(header: string, rows: seq<string>)
    ensures Within(Opening(header, rows), Markup(header, rows)) && Within(Concat(rows), Markup(header, rows))
    ensures Within(Concat(rows) + "</table>", Markup(header, rows))
  {
    var tail := Concat(rows) + "</table>";
    WithinSelf(Opening(header, rows));
    WithinAhead(Opening(header, rows), Opening(header, rows), "</table>");
    WithinSelf(tail);
    WithinBehind(tail, "<table>" + header, tail);
    Associate("<table>" + header, Concat(rows), "</table>");
    WithinSelf(Concat(rows));
    WithinAhead(Concat(rows), Concat(rows), "</table>");
    WithinTransitive(Concat(rows), tail, Markup(header, rows));
  }

  lemma MarkupSplits(header: string, front: seq<string>, last: seq<string>)
    ensures Opening(header, front + last) == Opening(header, front) + Concat(last)
    ensures Markup(header, front + last) == Opening(header, front) + (Concat(last) + "</table>")
  {
    ConcatAppend(front, last);
    Associate("<table>" + header, Concat(front), Concat(last));
    Associate(Opening(header, front), Concat(last), "</table>");
  }

  lemma PartsSplit(e: Element, lx: Lexicon, header: string, groups: seq<seq<string>>, start: nat)
    requires groups != []
    ensures var n := |groups| - 1;
      RawText(TableParts(e, lx, header, groups, start))
      == RawText(TableParts(e, lx, header, groups[..n], start)) + Markup(header, groups[n])
  {
    var n := |groups| - 1;
    assert TableParts(e, lx, header, groups, start)[..n] == TableParts(e, lx, header, groups[..n], start);
  }

  lemma {:induction false} PartsHoldOpening(e: Element, lx: Lexicon, header: string, groups: seq<seq<string>>,
                                            start: nat)
    requires groups != []
    ensures Within(Opening(header, Flat(groups)), RawText(TableParts(e, lx, header, groups, start)))
    decreases |groups|
  {
    var n := |groups| - 1;
    PartHolds(header, groups[n]);
    PartsSplit(e, lx, header, groups, start);
    if n == 0 {
      assert groups[..0] == [] && Flat(groups) == [] + groups[0] == groups[0];
      WithinBehind(Opening(header, groups[0]), "", Markup(header, groups[0]));
    } else {
      var before := RawText(TableParts(e, lx, header, groups[..n], start));
      PartsHoldOpening(e, lx, header, groups[..n], start);
      MarkupSplits(header, Flat(groups[..n]), groups[n]);
      WithinConcat(Opening(header, Flat(groups[..n])), before, Concat(groups[n]), Markup(header, groups[n]));
    }
  }

  /** The parts of a table hold the markup of the whole: its tags, its header and every row, in order. */
  lemma TablePartsHold(e: Element, lx: Lexicon, header: string, groups: seq<seq<string>>, start: nat)
    requires groups != []
    ensures Within(Markup(header, Flat(groups)), RawText(TableParts(e, lx, header, groups, start)))
  {
    var n := |groups| - 1;
    PartHolds(header, groups[n]);
    PartsSplit(e, lx, header, groups, start);
    if n == 0 {
      assert groups[..0] == [] && Flat(groups) == [] + groups[0] == groups[0];
      WithinSelf(Markup(header, groups[0]));
      WithinBehind(Markup(header, groups[0]), "", Markup(header, groups[0]));
    } else {
      var before := RawText(TableParts(e, lx, header, groups[..n], start));
      var end := Concat(groups[n]) + "</table>";
      PartsHoldOpening(e, lx, header, groups[..n], start);
      MarkupSplits(header, Flat(groups[..n]), groups[n]);
      WithinConcat(Opening(header, Flat(groups[..n])), before, end, Markup(header, groups[n]));
    }
  }

  lemma TableSurvives(e: Element, lx: Lexicon, start: nat)
    ensures Within(NonSpace(Survives(Grid(e), lx, 0, 0)), NonSpace(RawText(EmitTable(e, lx, start))))
  {
    var chunks, rows := EmitTable(e, lx, start), lx.rows(Markupless(e));
    if |Body(e)| <= MAX_CHUNK_SIZE {
      SingleRaw(chunks[0]);
      WithinSelf(NonSpace(Body(e)));
    } else if rows == [] {
      RawTextIsConcat(chunks);
      assert Raws(chunks) == Parts(e.text, MAX_CHUNK_SIZE, 0);
      SalvageSurvives(e.text, MAX_CHUNK_SIZE, 0);
    } else if |rows| > 1 {
      GroupingKeepsRows(rows[0], rows[1..]);
      TablePartsHold(e, lx, rows[0], RowGroups(rows[0], rows[1..]), start);
      WithinNonSpace(Markup(rows[0], rows[1..]), RawText(chunks));
    }
  }

  lemma RunSurvives(es: seq<Element>, lx: Lexicon, size: nat, overlap: nat, start: nat)
    requires StepOf(size, overlap) != 0 && es != []
    ensures Within(NonSpace(Salvage(RunText(es), size, overlap)),
      NonSpace(RawText(EmitNarrative(es, lx, size, overlap, start))))
  {
    var chunks := EmitNarrative(es, lx, size, overlap, start);
    if RunText(es) != "" {
      RawTextIsConcat(chunks);
      assert Raws(chunks) == Parts(RunText(es), size, overlap);
      SalvageSurvives(RunText(es), size, overlap);
    }
  }

  lemma SegmentSurvives(s: Segment, lx: Lexicon, size: nat, overlap: nat, start: nat)
    requires StepOf(size, overlap) != 0 && WellFormed(s, lx, size)
    ensures Within(NonSpace(Survives(s, lx, size, overlap)), NonSpace(RawText(Emit(s, lx, size, overlap, start))))
  {
    match s
    case Run(es) => RunSurvives(es, lx, size, overlap, start);
    case Grid(e) => TableSurvives(e, lx, start);
  }

  function AllSurvives(segments: seq<Segment>, lx: Lexicon, size: nat, overlap: nat): string {
    if segments == [] then ""
    else
      AllSurvives(segments[..|segments| - 1], lx, size, overlap)
      + Survives(segments[|segments| - 1], lx, size, overlap)
  }

  lemma {:induction false} EmittedSurvives(segments: seq<Segment>, lx: Lexicon, size: nat, overlap: nat)
    requires StepOf(size, overlap) != 0 && forall k :: 0 <= k < |segments| ==> WellFormed(segments[k], lx, size)
    ensures Within(NonSpace(AllSurvives(segments, lx, size, overlap)),
      NonSpace(RawText(EmitAll(segments, lx, size, overlap))))
    decreases |segments|
  {
    if segments != [] {
      var front, s := segments[..|segments| - 1], segments[|segments| - 1];
      var before := EmitAll(front, lx, size, overlap);
      var last := Emit(s, lx, size, overlap, |before|);
      var kept, more := AllSurvives(front, lx, size, overlap), Survives(s, lx, size, overlap);
      EmittedSurvives(front, lx, size, overlap);
      SegmentSurvives(s, lx, size, overlap, |before|);
      RawTextAppend(before, last);
      NonSpaceConcat(RawText(before), RawText(last));
      NonSpaceConcat(kept, more);
      WithinConcat(NonSpace(kept), NonSpace(RawText(before)), NonSpace(more), NonSpace(RawText(last)));
    }
  }

  /** For every document: the chunks hold, in order, the content of everything that survives in its segments. */
  lemma ChunksHoldWhatSurvives(es: seq<Element>, lx: Lexicon, size: nat, overlap: nat)
    requires StepOf(size, overlap) != 0
    ensures Within(NonSpace(AllSurvives(Segments(es, lx, size), lx, size, overlap)),
                   NonSpace(RawText(Chunks(es, lx, size, overlap))))
  {
    var segments := Segments(es, lx, size);
    SegmentsAreWellCut(es, lx, size);
    EmittedSurvives(segments, lx, size, overlap);
    ChunksContent(es, lx, size, overlap);
  }

  /** The segment's chunks hold all of its text, in order. */
  predicate Kept(s: Segment, lx: Lexicon, size: nat, overlap: nat)
    requires StepOf(size, overlap) != 0
  {
    Within(NonSpace(SourceText(ElementsOf(s))), NonSpace(RawText(Emit(s, lx, size, overlap, 0))))
  }

  /** The segment's chunks hold its text and nothing else, each piece of it once. */
  predicate Exact(s: Segment, lx: Lexicon, size: nat, overlap: nat)
    requires StepOf(size, overlap) != 0
  {
    NonSpace(RawText(Emit(s, lx, size, overlap, 0))) == NonSpace(SourceText(ElementsOf(s)))
  }

  lemma RunRawsAreStable(es: seq<Element>, lx: Lexicon, size: nat, overlap: nat, start: nat)
    requires StepOf(size, overlap) != 0
    ensures Raws(EmitNarrative(es, lx, size, overlap, start)) == Raws(EmitNarrative(es, lx, size, overlap, 0))
  {
  }

  lemma TableRawsAreStable(e: Element, lx: Lexicon, start: nat)
    ensures Raws(EmitTable(e, lx, start)) == Raws(EmitTable(e, lx, 0))
  {
  }

  lemma EmittedTextIsStable(s: Segment, lx: Lexicon, size: nat, overlap: nat, start: nat)
    requires StepOf(size, overlap) != 0
    ensures RawText(Emit(s, lx, size, overlap, start)) == RawText(Emit(s, lx, size, overlap, 0))
  {
    RawTextIsConcat(Emit(s, lx, size, overlap, start));
    RawTextIsConcat(Emit(s, lx, size, overlap, 0));
    match s
    case Run(es) => RunRawsAreStable(es, lx, size, overlap, start);
    case Grid(e) => TableRawsAreStable(e, lx, start);
  }

  /** The content of all segments and of all their chunks, one segment at a time. */
  lemma EmittedContent(front: seq<Segment>, s: Segment, lx: Lexicon, size: nat, overlap: nat)
    requires StepOf(size, overlap) != 0
    ensures NonSpace(SourceText(Elements(front + [s])))
      == NonSpace(SourceText(Elements(front))) + NonSpace(SourceText(ElementsOf(s)))
    ensures NonSpace(RawText(EmitAll(front + [s], lx, size, overlap)))
      == NonSpace(RawText(EmitAll(front, lx, size, overlap))) + NonSpace(RawText(Emit(s, lx, size, overlap, 0)))
  {
    var before := EmitAll(front, lx, size, overlap);
    EmitAllSnoc(front, s, lx, size, overlap);
    EmittedTextIsStable(s, lx, size, overlap, |before|);
    RawTextAppend(before, Emit(s, lx, size, overlap, |before|));
    NonSpaceConcat(RawText(before), RawText(Emit(s, lx, size, overlap, 0)));
    ElementsSnoc(front, s);
    SourceTextAppend(Elements(front), ElementsOf(s));
    NonSpaceConcat(SourceText(Elements(front)), SourceText(ElementsOf(s)));
  }

  predicate AllKept(segments: seq<Segment>, lx: Lexicon, size: nat, overlap: nat)
    requires StepOf(size, overlap) != 0
  {
    forall k :: 0 <= k < |segments| ==> Kept(segments[k], lx, size, overlap)
  }

  predicate AllExact(segments: seq<Segment>, lx: Lexicon, size: nat, overlap: nat)
    requires StepOf(size, overlap) != 0
  {
    forall k :: 0 <= k < |segments| ==> Exact(segments[k], lx, size, overlap)
  }

  lemma {:induction false} KeptSegments(segments: seq<Segment>, lx: Lexicon, size: nat, overlap: nat)
    requires StepOf(size, overlap) != 0 && AllKept(segments, lx, size, overlap)
    ensures Within(NonSpace(SourceText(Elements(segments))), NonSpace(RawText(EmitAll(segments, lx, size, overlap))))
    decreases |segments|
  {
    if segments != [] {
      var front, s := segments[..|segments| - 1], segments[|segments| - 1];
      KeptSegments(front, lx, size, overlap);
      SplitLast(segments);
      EmittedContent(front, s, lx, size, overlap);
      WithinConcat(NonSpace(SourceText(Elements(front))), NonSpace(RawText(EmitAll(front, lx, size, overlap))),
                   NonSpace(SourceText(ElementsOf(s))), NonSpace(RawText(Emit(s, lx, size, overlap, 0))));
    }
  }

  lemma SameTotal(a: string, b: string, c: string, d: string)
    requires Within(a, b) && Within(c, d)
    ensures a + c == b + d <==> a == b && c == d
  {
    WithinIsShorter(a, b);
    WithinIsShorter(c, d);
    if a + c == b + d {
      assert |a| + |c| == |b| + |d|;
    }
  }

  /** The emitted chunks of the segments hold the text exactly if and only if each segment's do. */
  predicate ExactByParts(segments: seq<Segment>, lx: Lexicon, size: nat, overlap: nat)
    requires StepOf(size, overlap) != 0
  {
    NonSpace(SourceText(Elements(segments))) == NonSpace(RawText(EmitAll(segments, lx, size, overlap)))
    <==> AllExact(segments, lx, size, overlap)
  }

  lemma ExactSnoc(front: seq<Segment>, s: Segment, lx: Lexicon, size: nat, overlap: nat)
    requires StepOf(size, overlap) != 0 && AllKept(front, lx, size, overlap) && Kept(s, lx, size, overlap)
    requires ExactByParts(front, lx, size, overlap)
    ensures ExactByParts(front + [s], lx, size, overlap)
  {
    KeptSegments(front, lx, size, overlap);
    EmittedContent(front, s, lx, size, overlap);
    SameTotal(NonSpace(SourceText(Elements(front))), NonSpace(RawText(EmitAll(front, lx, size, overlap))),
              NonSpace(SourceText(ElementsOf(s))), NonSpace(RawText(Emit(s, lx, size, overlap, 0))));
    AllExactSnoc(front, s, lx, size, overlap);
  }

  lemma AllExactSnoc(front: seq<Segment>, s: Segment, lx: Lexicon, size: nat, overlap: nat)
    requires StepOf(size, overlap) != 0
    ensures AllExact(front + [s], lx, size, overlap)
      <==> AllExact(front, lx, size, overlap) && Exact(s, lx, size, overlap)
  {
    var all := front + [s];
    assert all[|front|] == s;
    assert forall k :: 0 <= k < |front| ==> all[k] == front[k];
  }

  lemma {:induction false} ExactSegments(segments: seq<Segment>, lx: Lexicon, size: nat, overlap: nat)
    requires StepOf(size, overlap) != 0 && AllKept(segments, lx, size, overlap)
    ensures ExactByParts(segments, lx, size, overlap)
    decreases |segments|
  {
    if segments != [] {
      ExactSegments(segments[..|segments| - 1], lx, size, overlap);
      ExactSnoc(segments[..|segments| - 1], segments[|segments| - 1], lx, size, overlap);
      SplitLast(segments);
    }
  }

  /** Merging and renumbering leave the content of the emitted chunks as it is. */
  lemma ChunksContent(es: seq<Element>, lx: Lexicon, size: nat, overlap: nat)
    requires StepOf(size, overlap) != 0
    ensures NonSpace(RawText(Chunks(es, lx, size, overlap)))
      == NonSpace(RawText(EmitAll(Segments(es, lx, size), lx, size, overlap)))
  {
    MergeKeepsContent(EmitAll(Segments(es, lx, size), lx, size, overlap));
    Renumbering(Merged(EmitAll(Segments(es, lx, size), lx, size, overlap)));
  }

  /**
   A document whose segments are all kept by their own chunks, oversized or not, is in the final chunks completely
   and in order, through merging and across all segments.
   */
  lemma NothingIsLost(es: seq<Element>, lx: Lexicon, size: nat, overlap: nat)
    requires StepOf(size, overlap) != 0 && AllKept(Segments(es, lx, size), lx, size, overlap)
    ensures Within(NonSpace(SourceText(Content(es))), NonSpace(RawText(Chunks(es, lx, size, overlap))))
  {
    KeptSegments(Segments(es, lx, size), lx, size, overlap);
    SegmentsPartitionTheContent(es, lx, size);
    ChunksContent(es, lx, size, overlap);
  }

  /** And the chunks hold it exactly, all of it and each piece once, if and only if each segment's chunks do. */
  lemma ChunksKeepTheText(es: seq<Element>, lx: Lexicon, size: nat, overlap: nat)
    requires StepOf(size, overlap) != 0 && AllKept(Segments(es, lx, size), lx, size, overlap)
    ensures NonSpace(RawText(Chunks(es, lx, size, overlap))) == NonSpace(SourceText(Content(es)))
      <==> AllExact(Segments(es, lx, size), lx, size, overlap)
  {
    ExactSegments(Segments(es, lx, size), lx, size, overlap);
    SegmentsPartitionTheContent(es, lx, size);
    ChunksContent(es, lx, size, overlap);
  }

  /** Nothing within its limit is repeated or lost. */
  lemma WholeIsExact(s: Segment, lx: Lexicon, size: nat, overlap: nat)
    requires StepOf(size, overlap) != 0 && WellFormed(s, lx, size) && Whole(s, size)
    ensures Exact(s, lx, size, overlap) && Kept(s, lx, size, overlap)
  {
    SegmentContent(s, lx, size, overlap, 0);
    WithinSelf(NonSpace(SourceText(ElementsOf(s))));
  }

  /** What is sure to survive of a run is all of it, exactly when it is not split on the separator it opens with. */
  lemma RunSurvivesIff(run: seq<Element>, lx: Lexicon, size: nat, overlap: nat)
    requires 0 < overlap <= size && WellFormed(Run(run), lx, size)
    ensures var p := PathOf(RunText(run), size, overlap);
      NonSpace(Survives(Run(run), lx, size, overlap)) == NonSpace(SourceText(run))
      <==> !(p.On? && StartsWith(RunText(run), p.sep))
  {
    StripEndsOnContent(Join(Texts(run), "\n\n"));
    SalvagedWholeIff(RunText(run), size, overlap);
    RunTextContent(run);
  }

  /** A run that is not split on the separator it opens with is kept by its chunks. */
  lemma RunIsKept(run: seq<Element>, lx: Lexicon, size: nat, overlap: nat)
    requires 0 < overlap <= size && StepOf(size, overlap) != 0 && WellFormed(Run(run), lx, size)
    requires !(PathOf(RunText(run), size, overlap).On?
               && StartsWith(RunText(run), PathOf(RunText(run), size, overlap).sep))
    ensures Kept(Run(run), lx, size, overlap)
  {
    RunSurvivesIff(run, lx, size, overlap);
    RunSurvives(run, lx, size, overlap, 0);
  }

  /** Nothing but whitespace stands outside the table's tags and rows. */
  predicate Ordinary(e: Element, lx: Lexicon) {
    var rows := lx.rows(Markupless(e));
    e.kind.Table? && rows != [] && NonSpace(Body(e)) == NonSpace(Markup(rows[0], rows[1..]))
  }

  lemma MarkupHasContent(header: string, rows: seq<string>)
    ensures NonSpace(Markup(header, rows)) != ""
  {
    assert Markup(header, rows)[0] == '<';
  }

  /** An ordinary table is kept by its chunks exactly when it is within the ceiling or has a row to its header. */
  lemma TableIsKeptIff(e: Element, lx: Lexicon, size: nat, overlap: nat)
    requires StepOf(size, overlap) != 0 && Ordinary(e, lx)
    ensures Kept(Grid(e), lx, size, overlap) <==> |Body(e)| <= MAX_CHUNK_SIZE || |lx.rows(Markupless(e))| >= 2
  {
    var rows := lx.rows(Markupless(e));
    assert [e][..0] == [];
    assert SourceText([e]) == "" + Body(e) == Body(e);
    if |Body(e)| <= MAX_CHUNK_SIZE || |rows| >= 2 {
      TableSurvives(e, lx, 0);
    } else {
      TableVanishesIffHeaderOnly(e, lx, 0);
      MarkupHasContent(rows[0], rows[1..]);
    }
  }

  /** An oversized table without rows is in its chunks, all of it, if and only if its text is split on whitespace. */
  lemma RowlessTableIsKeptIff(e: Element, lx: Lexicon, size: nat, overlap: nat)
    requires StepOf(size, overlap) != 0 && e.kind.Table? && |Body(e)| > MAX_CHUNK_SIZE
    requires lx.rows(Markupless(e)) == [] && Body(e) == e.text
    ensures Kept(Grid(e), lx, size, overlap) <==> SplitsOnSpace(e.text)
  {
    var chunks := EmitTable(e, lx, 0);
    assert [e][..0] == [];
    assert SourceText([e]) == "" + Body(e) == Body(e);
    RawTextIsConcat(chunks);
    assert Raws(chunks) == Parts(e.text, MAX_CHUNK_SIZE, 0);
    PlainSplitKeepsContent(e.text, MAX_CHUNK_SIZE);
    PlainSplitRepeatsNothing(e.text, MAX_CHUNK_SIZE);
    WithinSelf(NonSpace(e.text));
    if Kept(Grid(e), lx, size, overlap) { WithinIsShorter(NonSpace(e.text), NonSpace(RawText(chunks))); }
  }

  /** The separator an oversized table text is split on, if any, is whitespace. */
  predicate SplitsOnSpace(text: string) {
    var p := PathOf(text, MAX_CHUNK_SIZE, 0);
    !(p.On? && NonSpace(p.sep) != "")
  }

  /** Within its limit, or oversized in the ordinary way. */
  predicate Harmless(s: Segment, lx: Lexicon, size: nat, overlap: nat) {
    match s
    case Run(es) =>
      var p := PathOf(RunText(es), size, overlap);
      !(p.On? && StartsWith(RunText(es), p.sep))
    case Grid(e) =>
      || |Body(e)| <= MAX_CHUNK_SIZE
      || (Ordinary(e, lx) && |lx.rows(Markupless(e))| >= 2)
      || (lx.rows(Markupless(e)) == [] && Body(e) == e.text && SplitsOnSpace(e.text))
  }

  lemma HarmlessIsKept(s: Segment, lx: Lexicon, size: nat, overlap: nat)
    requires 0 < overlap <= size && StepOf(size, overlap) != 0 && WellFormed(s, lx, size)
    requires Harmless(s, lx, size, overlap)
    ensures Kept(s, lx, size, overlap)
  {
    match s
    case Run(es) => RunIsKept(es, lx, size, overlap);
    case Grid(e) =>
      if |Body(e)| <= MAX_CHUNK_SIZE {
        WholeIsExact(s, lx, size, overlap);
      } else if lx.rows(Markupless(e)) == [] {
        RowlessTableIsKeptIff(e, lx, size, overlap);
      } else {
        TableIsKeptIff(e, lx, size, overlap);
      }
  }

  /**
   So an ordinary document, with runs and tables of any size, loses nothing: no run opens with the separator it is
   split on, and every oversized table has nothing outside its rows and a row beside its header, or no rows and a
   text that splits on whitespace.
   */
  lemma OrdinaryDocumentsLoseNothing(es: seq<Element>, lx: Lexicon, size: nat, overlap: nat)
    requires 0 < overlap <= size && StepOf(size, overlap) != 0
    requires forall s :: s in Segments(es, lx, size) ==> Harmless(s, lx, size, overlap)
    ensures Within(NonSpace(SourceText(Content(es))), NonSpace(RawText(Chunks(es, lx, size, overlap))))
  {
    var segments := Segments(es, lx, size);
    SegmentsAreWellCut(es, lx, size);
    forall k | 0 <= k < |segments| ensures Kept(segments[k], lx, size, overlap) {
      HarmlessIsKept(segments[k], lx, size, overlap);
    }
    NothingIsLost(es, lx, size, overlap);
  }

  /** A run over its limit comes back whole from its parts, unless it opens with the separator it was split on. */
  lemma RunReconstructs(run: seq<Element>, size: nat, overlap: nat)
    requires 0 < overlap < size
    ensures var text := RunText(run); var p := PathOf(text, size, overlap);
      && (Rebuild(RawParts(text, size, overlap), overlap) == text <==> !(p.On? && StartsWith(text, p.sep)))
      && (p.On? && IsSpace(p.sep[0]) ==> Rebuild(RawParts(text, size, overlap), overlap) == text)
  {
    SplitReconstructs(RunText(run), size, overlap);
    StripEndsOnContent(Join(Texts(run), "\n\n"));
  }

  // ------------------------------------------------------------ from chunks to the index

  function Source(c: Chunk): Indexing.Payload {
    Indexing.Payload(c.raw, c.text, c.index, c.page, c.section)
  }

  function Sources(chunks: seq<Chunk>): seq<Indexing.Payload> {
    seq(|chunks|, i requires 0 <= i < |chunks| => Source(chunks[i]))
  }

  /** Chunks that all have original text are read as that text, their position, their page and their section. */
  lemma OriginalsInPlace(chunks: seq<Chunk>)
    requires forall i :: 0 <= i < |chunks| ==> chunks[i].index == i
    ensures (forall i :: 0 <= i < |chunks| ==> chunks[i].raw != "") ==>
      Indexing.ReadAll(Sources(chunks))
      == seq(|chunks|, i requires 0 <= i < |chunks| =>
               Extraction.SourceChunk(chunks[i].raw, i, chunks[i].page, chunks[i].section))
  {
    if forall i :: 0 <= i < |chunks| ==> chunks[i].raw != "" {
      Indexing.ReadInPlace(Sources(chunks));
      forall i | 0 <= i < |chunks|
        ensures Indexing.Original(Sources(chunks)[i])
          == Extraction.SourceChunk(chunks[i].raw, i, chunks[i].page, chunks[i].section)
      {
      }
    }
  }

  /** What the workers of an ingestion queue put into the index: the chunks of some parse. */
  ghost predicate Chunked(jobs: Indexing.Jobs, lx: Lexicon, size: nat, overlap: nat)
    requires StepOf(size, overlap) != 0
  {
    forall a :: a in jobs ==> exists es: seq<Element> :: jobs[a].chunks == Sources(Chunks(es, lx, size, overlap))
  }

  /**
   Retried ingestion of one upload: every attempt on the document parses the same elements, any of them may crash
   anywhere, and the attempts of other documents interleave freely. If the attempt that deleted last completed, reading
   the document back gives all that can be read of its chunks, in order, whatever order the store returns its points
   in, if and only if they number at most 4,000; beyond that, exactly 4,000 of them.
   */
  lemma IngestionReadsBack(jobs: Indexing.Jobs, start: Indexing.Index,
                           steps: seq<Indexing.Step>, document: Indexing.DocumentId,
                           pages: seq<seq<Indexing.PointId>>, es: seq<Element>, lx: Lexicon, size: nat, overlap: nat)
    requires StepOf(size, overlap) != 0 && Chunked(jobs, lx, size, overlap) && Indexing.WellKeyed(start)
    requires forall a :: a in jobs && jobs[a].document == document ==>
      jobs[a].chunks == Sources(Chunks(es, lx, size, overlap))
    requires Indexing.Finished(jobs, start, steps, document)
    requires var index := Indexing.Exec(jobs, start, steps).index;
      Indexing.PagesExist(index, pages) && Indexing.Scrolls(index, document, Indexing.Flat(pages))
    ensures var loaded := Indexing.Loaded(Indexing.Exec(jobs, start, steps).index, pages);
      var readable := Indexing.ReadAll(Sources(Chunks(es, lx, size, overlap)));
      && (loaded == readable <==> |readable| <= Indexing.MAX_CHUNKS)
      && |loaded| == Indexing.Min(|readable|, Indexing.MAX_CHUNKS) && forall x :: x in loaded ==> x in readable
    ensures var chunks := Chunks(es, lx, size, overlap);
      (forall i :: 0 <= i < |chunks| ==> chunks[i].raw != "") && |chunks| <= 4_000 ==>
        Indexing.Loaded(Indexing.Exec(jobs, start, steps).index, pages)
        == seq(|chunks|, i requires 0 <= i < |chunks| =>
                 Extraction.SourceChunk(chunks[i].raw, i, chunks[i].page, chunks[i].section))
  {
    var chunks := Sources(Chunks(es, lx, size, overlap));
    Indexing.RetriesShareBytes(jobs, start, steps, document, chunks);
    Indexing.IndexConverges(jobs, start, steps, document, chunks);
    Indexing.ReadBackIsTheDocument(Indexing.Exec(jobs, start, steps).index, document, chunks, pages);
    OriginalsInPlace(Chunks(es, lx, size, overlap));
  }
}
