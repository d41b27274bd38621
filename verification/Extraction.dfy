/**
 Requirement extraction: overlapping windows of whole chunks, and the fold that files, drops or ignores each item
 the model proposes. The model's answers and the text normalisation are arbitrary inputs.
 */
module Extraction {
  import opened PyText
  import opened Sorting

  datatype SourceChunk = SourceChunk(rawText: string, chunkIndex: int, pageNumber: Option<int>,
    sectionPath: Option<string>)

  // ------------------------------------------------------------ windows

  function Chars(chunks: seq<SourceChunk>): nat {
    if chunks == [] then 0 else Chars(chunks[..|chunks| - 1]) + |chunks[|chunks| - 1].rawText|
  }

  /** A window, as the positions of the chunks it holds. */
  datatype Span = Span(lo: nat, hi: nat)

  /** The windows still to come when chunks[lo..hi] are in hand and chunks[hi] is next. */
  function Spans(chunks: seq<SourceChunk>, lo: nat, hi: nat, limit: int): seq<Span>
    requires lo <= hi <= |chunks|
    decreases |chunks| - hi
  {
    if hi == |chunks| then if lo < hi then [Span(lo, hi)] else []
    else if lo < hi && Chars(chunks[lo..hi]) + |chunks[hi].rawText| > limit
    then [Span(lo, hi)] + Spans(chunks, hi - 1, hi + 1, limit)
    else Spans(chunks, lo, hi + 1, limit)
  }

  predicate InRange(chunks: seq<SourceChunk>, s: Span) {
    s.lo < s.hi <= |chunks|
  }

  predicate AllInRange(chunks: seq<SourceChunk>, spans: seq<Span>) {
    forall k :: 0 <= k < |spans| ==> InRange(chunks, spans[k])
  }

  function Slices(chunks: seq<SourceChunk>, spans: seq<Span>): seq<seq<SourceChunk>>
    requires AllInRange(chunks, spans)
  {
    seq(|spans|, k requires 0 <= k < |spans| && InRange(chunks, spans[k]) => chunks[spans[k].lo..spans[k].hi])
  }

  lemma SliceChars(chunks: seq<SourceChunk>, lo: nat, hi: nat)
    requires lo <= hi < |chunks|
    ensures Chars(chunks[lo..hi + 1]) == Chars(chunks[lo..hi]) + |chunks[hi].rawText|
    ensures chunks[lo..hi + 1] == chunks[lo..hi] + [chunks[hi]]
  {
    assert chunks[lo..hi + 1][..hi - lo] == chunks[lo..hi];
  }

  /** Characters in a window. */
  function Size(chunks: seq<SourceChunk>, s: Span): nat
    requires InRange(chunks, s)
  {
    Chars(chunks[s.lo..s.hi])
  }

  /** What holds of one window and the one after it. */
  ghost predicate WellCut(chunks: seq<SourceChunk>, spans: seq<Span>, k: nat, limit: int)
    requires k < |spans|
  {
    && InRange(chunks, spans[k])
    && (spans[k].hi - spans[k].lo >= 3 ==> Size(chunks, spans[k]) <= limit)
    && (k + 1 < |spans| ==>
          && spans[k + 1].lo == spans[k].hi - 1 && spans[k + 1].hi > spans[k].hi
          && spans[k].hi < |chunks|
          && Size(chunks, spans[k]) + |chunks[spans[k].hi].rawText| > limit)
  }

  lemma WellCutBehind(chunks: seq<SourceChunk>, first: Span, rest: seq<Span>, k: nat, limit: int)
    requires k < |rest| && WellCut(chunks, rest, k, limit)
    ensures WellCut(chunks, [first] + rest, k + 1, limit)
  {
  }

  lemma ClosedIsWellCut(chunks: seq<SourceChunk>, lo: nat, hi: nat, rest: seq<Span>, limit: int)
    requires lo < hi < |chunks| && (hi - lo <= 2 || Chars(chunks[lo..hi]) <= limit)
    requires Chars(chunks[lo..hi]) + |chunks[hi].rawText| > limit
    requires rest != [] && rest[0].lo == hi - 1 && rest[0].hi >= hi + 1
    ensures WellCut(chunks, [Span(lo, hi)] + rest, 0, limit)
  {
  }

  predicate AreSpans(spans: seq<Span>, chunks: seq<SourceChunk>, lo: nat, hi: nat, limit: int)
    requires lo <= hi <= |chunks|
  {
    spans == Spans(chunks, lo, hi, limit)
  }

  predicate Overflows(chunks: seq<SourceChunk>, lo: nat, hi: nat, limit: int)
    requires lo <= hi < |chunks|
  {
    lo < hi && Chars(chunks[lo..hi]) + |chunks[hi].rawText| > limit
  }

  lemma SpanCases(spans: seq<Span>, chunks: seq<SourceChunk>, lo: nat, hi: nat, limit: int)
    requires lo <= hi <= |chunks| && AreSpans(spans, chunks, lo, hi, limit)
    ensures hi == |chunks| ==> spans == if lo < hi then [Span(lo, hi)] else []
    ensures hi < |chunks| && Overflows(chunks, lo, hi, limit) ==>
      spans != [] && spans == [Span(lo, hi)] + spans[1..] && AreSpans(spans[1..], chunks, hi - 1, hi + 1, limit)
    ensures hi < |chunks| && !Overflows(chunks, lo, hi, limit) ==> AreSpans(spans, chunks, lo, hi + 1, limit)
  {
  }

  lemma NextSpan(spans: seq<Span>, chunks: seq<SourceChunk>, lo: nat, hi: nat, limit: int)
    requires lo < hi <= |chunks| && AreSpans(spans, chunks, lo, hi, limit)
    ensures spans != [] && spans[0].lo == lo && spans[0].hi >= hi
  {
    SpansEnds(chunks, lo, hi, limit);
  }

  predicate StillFits(chunks: seq<SourceChunk>, lo: nat, hi: nat, limit: int)
    requires lo <= hi <= |chunks|
  {
    hi - lo <= 2 || Chars(chunks[lo..hi]) <= limit
  }

  lemma FitsOn(chunks: seq<SourceChunk>, lo: nat, hi: nat, limit: int)
    requires lo <= hi < |chunks| && !Overflows(chunks, lo, hi, limit)
    ensures StillFits(chunks, lo, hi + 1, limit)
  {
    SliceChars(chunks, lo, hi);
  }

  lemma {:induction false} SpansWellCut(chunks: seq<SourceChunk>, spans: seq<Span>, lo: nat, hi: nat, limit: int,
                                        k: nat)
    requires lo <= hi <= |chunks| && AreSpans(spans, chunks, lo, hi, limit) && k < |spans|
    requires StillFits(chunks, lo, hi, limit)
    ensures WellCut(chunks, spans, k, limit)
    decreases |chunks| - hi
  {
    SpanCases(spans, chunks, lo, hi, limit);
    if hi < |chunks| && !Overflows(chunks, lo, hi, limit) {
      FitsOn(chunks, lo, hi, limit);
      SpansWellCut(chunks, spans, lo, hi + 1, limit, k);
    } else if hi < |chunks| && k > 0 {
      SpansWellCut(chunks, spans[1..], hi - 1, hi + 1, limit, k - 1);
      WellCutBehind(chunks, Span(lo, hi), spans[1..], k - 1, limit);
    } else if hi < |chunks| {
      NextSpan(spans[1..], chunks, hi - 1, hi + 1, limit);
      ClosedIsWellCut(chunks, lo, hi, spans[1..], limit);
    }
  }

  lemma {:induction false} SpansEnds(chunks: seq<SourceChunk>, lo: nat, hi: nat, limit: int)
    requires lo <= hi <= |chunks|
    ensures var spans := Spans(chunks, lo, hi, limit);
      && (spans == [] <==> lo == hi == |chunks|)
      && (spans != [] ==> spans[0].lo == lo && spans[0].hi >= hi && spans[|spans| - 1].hi == |chunks|)
      && AllInRange(chunks, spans)
    decreases |chunks| - hi
  {
    if hi < |chunks| {
      if lo < hi && Chars(chunks[lo..hi]) + |chunks[hi].rawText| > limit {
        SpansEnds(chunks, hi - 1, hi + 1, limit);
      } else {
        SpansEnds(chunks, lo, hi + 1, limit);
      }
    }
  }

  /**
   The windows are contiguous slices in order, from the first chunk to the last; each begins with the last chunk
   of the one before and reaches further; one of three or more chunks stays within the limit; and a window is
   closed only when the next chunk would overflow it.
   */
  lemma WindowsWellCut(chunks: seq<SourceChunk>, limit: int)
    ensures var spans := Spans(chunks, 0, 0, limit);
      && (spans == [] <==> chunks == [])
      && (spans != [] ==> spans[0].lo == 0 && spans[|spans| - 1].hi == |chunks|)
      && forall k :: 0 <= k < |spans| ==> WellCut(chunks, spans, k, limit)
  {
    SpansEnds(chunks, 0, 0, limit);
    forall k | 0 <= k < |Spans(chunks, 0, 0, limit)| ensures WellCut(chunks, Spans(chunks, 0, 0, limit), k, limit) {
      SpansWellCut(chunks, Spans(chunks, 0, 0, limit), 0, 0, limit, k);
    }
  }

  predicate Holds(s: Span, i: nat) {
    s.lo <= i < s.hi
  }

  /** A clause split over two adjacent chunks is seen whole: some window holds both. */
  lemma {:induction false} AdjacentChunksShareAWindow(chunks: seq<SourceChunk>, lo: nat, hi: nat, limit: int, i: nat)
    requires lo <= hi <= |chunks| && lo <= i && i + 1 < |chunks|
    ensures exists s :: s in Spans(chunks, lo, hi, limit) && Holds(s, i) && Holds(s, i + 1)
    decreases |chunks| - hi
  {
    var spans := Spans(chunks, lo, hi, limit);
    if hi == |chunks| {
      assert Span(lo, hi) in spans;
    } else if lo < hi && Chars(chunks[lo..hi]) + |chunks[hi].rawText| > limit {
      var rest := Spans(chunks, hi - 1, hi + 1, limit);
      if i + 1 < hi {
        assert Span(lo, hi) in spans;
      } else {
        AdjacentChunksShareAWindow(chunks, hi - 1, hi + 1, limit, i);
        var s :| s in rest && Holds(s, i) && Holds(s, i + 1);
        assert s in spans;
      }
    } else {
      AdjacentChunksShareAWindow(chunks, lo, hi + 1, limit, i);
    }
  }

  lemma {:induction false} WindowsAdvance(chunks: seq<SourceChunk>, limit: int, a: nat, b: nat)
    requires a < b < |Spans(chunks, 0, 0, limit)|
    ensures Spans(chunks, 0, 0, limit)[a].hi < Spans(chunks, 0, 0, limit)[b].hi
    decreases b
  {
    WindowsWellCut(chunks, limit);
    assert WellCut(chunks, Spans(chunks, 0, 0, limit), b - 1, limit);
    if a < b - 1 { WindowsAdvance(chunks, limit, a, b - 1); }
  }

  /** No chunk is read more than twice. */
  lemma NoChunkInThreeWindows(chunks: seq<SourceChunk>, limit: int, a: nat, b: nat, c: nat, i: nat)
    requires a < b < c < |Spans(chunks, 0, 0, limit)|
    ensures !(Holds(Spans(chunks, 0, 0, limit)[a], i) && Holds(Spans(chunks, 0, 0, limit)[c], i))
  {
    WindowsAdvance(chunks, limit, a, c - 1);
    WindowsWellCut(chunks, limit);
    assert WellCut(chunks, Spans(chunks, 0, 0, limit), c - 1, limit);
  }

  /** The windows still to come, as slices. */
  function WindowsFrom(chunks: seq<SourceChunk>, lo: nat, hi: nat, limit: int): seq<seq<SourceChunk>>
    requires lo <= hi <= |chunks|
  {
    SpansEnds(chunks, lo, hi, limit);
    Slices(chunks, Spans(chunks, lo, hi, limit))
  }

  lemma CloseWindow(chunks: seq<SourceChunk>, lo: nat, hi: nat, limit: int)
    requires lo < hi < |chunks| && Chars(chunks[lo..hi]) + |chunks[hi].rawText| > limit
    ensures WindowsFrom(chunks, lo, hi, limit) == [chunks[lo..hi]] + WindowsFrom(chunks, hi - 1, hi + 1, limit)
  {
  }

  lemma KeepWindow(chunks: seq<SourceChunk>, lo: nat, hi: nat, limit: int)
    requires lo <= hi < |chunks| && !(lo < hi && Chars(chunks[lo..hi]) + |chunks[hi].rawText| > limit)
    ensures WindowsFrom(chunks, lo, hi, limit) == WindowsFrom(chunks, lo, hi + 1, limit)
  {
  }

  lemma LastWindow(chunks: seq<SourceChunk>, lo: nat, limit: int)
    requires lo <= |chunks|
    ensures WindowsFrom(chunks, lo, |chunks|, limit) == if lo < |chunks| then [chunks[lo..|chunks|]] else []
  {
  }

  /** What a new window starts from: the last chunk of the one just closed. */
  lemma CarriedChunk(chunks: seq<SourceChunk>, lo: nat, hi: nat)
    requires lo < hi <= |chunks|
    ensures chunks[lo..hi][hi - lo - 1..] == chunks[hi - 1..hi] && Chars(chunks[hi - 1..hi]) == |chunks[hi - 1].rawText|
  {
    assert chunks[hi - 1..hi] == [chunks[hi - 1]];
    assert [chunks[hi - 1]][..0] == [];
  }

  /** What is closed already, and what is still to come with chunks[lo..hi] in hand. */
  ghost predicate Windowed(all: seq<seq<SourceChunk>>, closed: seq<seq<SourceChunk>>, chunks: seq<SourceChunk>,
                           lo: nat, hi: nat, limit: int)
    requires lo <= hi <= |chunks|
  {
    all == closed + WindowsFrom(chunks, lo, hi, limit)
  }

  lemma CloseOne(all: seq<seq<SourceChunk>>, closed: seq<seq<SourceChunk>>, chunks: seq<SourceChunk>,
                 lo: nat, hi: nat, limit: int)
    requires lo < hi < |chunks| && Windowed(all, closed, chunks, lo, hi, limit)
    requires Chars(chunks[lo..hi]) + |chunks[hi].rawText| > limit
    ensures Windowed(all, closed + [chunks[lo..hi]], chunks, hi - 1, hi + 1, limit)
  {
    CloseWindow(chunks, lo, hi, limit);
    Associate(closed, [chunks[lo..hi]], WindowsFrom(chunks, hi - 1, hi + 1, limit));
  }

  lemma KeepOne(all: seq<seq<SourceChunk>>, closed: seq<seq<SourceChunk>>, chunks: seq<SourceChunk>,
                lo: nat, hi: nat, limit: int)
    requires lo <= hi < |chunks| && Windowed(all, closed, chunks, lo, hi, limit)
    requires !(lo < hi && Chars(chunks[lo..hi]) + |chunks[hi].rawText| > limit)
    ensures Windowed(all, closed, chunks, lo, hi + 1, limit)
  {
    KeepWindow(chunks, lo, hi, limit);
  }

  lemma CloseLast(all: seq<seq<SourceChunk>>, closed: seq<seq<SourceChunk>>, chunks: seq<SourceChunk>, lo: nat,
                  limit: int)
    requires lo <= |chunks| && Windowed(all, closed, chunks, lo, |chunks|, limit)
    ensures all == if lo < |chunks| then closed + [chunks[lo..|chunks|]] else closed
  {
    LastWindow(chunks, lo, limit);
  }

  /** `_build_windows` */
  method BuildWindows(chunks: seq<SourceChunk>, limit: int) returns (windows: seq<seq<SourceChunk>>)
    ensures windows == WindowsFrom(chunks, 0, 0, limit)
  {
    windows := [];
    var current: seq<SourceChunk>, size: int := [], 0;
    ghost var lo: nat := 0;
    ghost var all := WindowsFrom(chunks, 0, 0, limit);
    for i := 0 to |chunks|
      invariant lo <= i && (i > 0 ==> lo < i) && current == chunks[lo..i] && size == Chars(chunks[lo..i])
      invariant Windowed(all, windows, chunks, lo, i, limit)
    {
      var length := |chunks[i].rawText|;
      if current != [] && size + length > limit {
        CloseOne(all, windows, chunks, lo, i, limit);
        windows := windows + [current];
        current := current[|current| - 1..];
        size := |current[0].rawText|;
        CarriedChunk(chunks, lo, i);
        lo := i - 1;
      } else {
        KeepOne(all, windows, chunks, lo, i, limit);
      }
      SliceChars(chunks, lo, i);
      current := current + [chunks[i]];
      size := size + length;
    }
    CloseLast(all, windows, chunks, lo, limit);
    if current != [] {
      windows := windows + [current];
    }
  }

  // ------------------------------------------------------------ one proposed item

  /** Whitespace-collapsed, normalised, case-folded text; the digest behind synthetic references; the modal verbs. */
  datatype Reader = Reader(matchable: string -> string, digest: string -> string, markers: seq<string>)

  /** One item of the tool payload, after `str(... or "")`. */
  datatype Proposed = Proposed(ref: string, text: string, source: string, isMandatory: bool, category: string,
    sectionPath: string)

  datatype Requirement = Requirement(
    ref: string, text: string, source: string, isMandatory: bool, category: string, sectionPath: Option<string>,
    pageNumber: Option<int>, chunkIndex: Option<int>, refIsSynthetic: bool)

  datatype DropReason = NoText | NoSource | NotInDocument

  datatype Dropped = Dropped(ref: string, text: string, reason: DropReason)

  datatype Anchor = Anchor(chunkIndex: Option<int>, pageNumber: Option<int>, sectionPath: Option<string>)

  datatype Item = Item(window: seq<SourceChunk>, proposed: Proposed)

  /** What became of one proposed item. */
  datatype Fate = Filed(key: string, entry: Requirement) | DroppedAs(dropped: Dropped) | Repeat(key: string)

  /** `seen` with the order its keys were inserted in, and the drops. */
  datatype Ledger = Ledger(keys: seq<string>, seen: map<string, Requirement>, dropped: seq<Dropped>)

  function RawTexts(window: seq<SourceChunk>): seq<string> {
    seq(|window|, i requires 0 <= i < |window| => window[i].rawText)
  }

  function Extract(window: seq<SourceChunk>): string {
    Join(RawTexts(window), "\n\n")
  }

  function AnchorAt(c: SourceChunk): Anchor {
    Anchor(Some(c.chunkIndex), c.pageNumber, c.sectionPath)
  }

  function FirstHolding(r: Reader, needle: string, window: seq<SourceChunk>): Option<Anchor> {
    if window == [] then None
    else if Contains(r.matchable(window[0].rawText), needle) then Some(AnchorAt(window[0]))
    else FirstHolding(r, needle, window[1..])
  }

  /** `_locate` */
  function Locate(r: Reader, source: string, window: seq<SourceChunk>): Option<Anchor> {
    var needle := r.matchable(source);
    if needle == "" || !Contains(r.matchable(Extract(window)), needle) then None
    else
      match FirstHolding(r, needle, window)
      case Some(a) => Some(a)
      case None => Some(if window == [] then Anchor(None, None, None) else AnchorAt(window[0]))
  }

  /** `_is_mandatory` */
  predicate IsMandatory(r: Reader, p: Proposed, source: string, text: string) {
    p.isMandatory || exists m :: m in r.markers && Contains(r.matchable(source + " " + text), r.matchable(m))
  }

  function Clip(s: string, n: nat): string {
    if |s| <= n then s else s[..n]
  }

  function DedupeKey(r: Reader, ref: string, text: string): string {
    r.matchable(ref) + "|" + Clip(r.matchable(text), 200)
  }

  function FullRef(r: Reader, p: Proposed): string {
    if Strip(p.ref) == "" then "AUTO-" + r.digest(r.matchable(Strip(p.source))) else Strip(p.ref)
  }

  /** What `_absorb` decides about an item, given the keys already filed. */
  function Judge(r: Reader, seen: map<string, Requirement>, item: Item): Fate {
    var p := item.proposed;
    var ref, text, source := Strip(p.ref), Strip(p.text), Strip(p.source);
    if text == "" then DroppedAs(Dropped(ref, text, NoText))
    else if source == "" then DroppedAs(Dropped(ref, text, NoSource))
    else
      match Locate(r, source, item.window)
      case None => DroppedAs(Dropped(ref, text, NotInDocument))
      case Some(a) =>
        var full := FullRef(r, p);
        var key := DedupeKey(r, full, text);
        if key in seen then Repeat(key)
        else Filed(key, Requirement(
          Clip(full, 128), text, source, IsMandatory(r, p, source, text),
          if p.category == "" then "other" else p.category,
          if Strip(p.sectionPath) != "" then Some(Strip(p.sectionPath)) else a.sectionPath,
          a.pageNumber, a.chunkIndex, ref == ""))
  }

  function Absorb(r: Reader, l: Ledger, item: Item): Ledger {
    match Judge(r, l.seen, item)
    case Filed(key, entry) => Ledger(l.keys + [key], l.seen[key := entry], l.dropped)
    case DroppedAs(d) => l.(dropped := l.dropped + [d])
    case Repeat(_) => l
  }

  // ------------------------------------------------------------ the whole run

  function Process(r: Reader, items: seq<Item>): Ledger {
    if items == [] then Ledger([], map[], []) else Absorb(r, Process(r, items[..|items| - 1]), items[|items| - 1])
  }

  /** The fate of the k-th item of a run. */
  function FateOf(r: Reader, items: seq<Item>, k: nat): Fate
    requires k < |items|
  {
    Judge(r, Process(r, items[..k]).seen, items[k])
  }

  function Repeats(r: Reader, items: seq<Item>): nat {
    if items == [] then 0
    else Repeats(r, items[..|items| - 1]) + if FateOf(r, items, |items| - 1).Repeat? then 1 else 0
  }

  /** Every item is filed, dropped or a repeat, and the three tallies account for all of them. */
  lemma {:induction false} EveryItemAccountedFor(r: Reader, items: seq<Item>)
    ensures var l := Process(r, items);
      && |l.seen| + |l.dropped| + Repeats(r, items) == |items|
      && |l.keys| == |l.seen|
      && (forall key :: key in l.keys <==> key in l.seen)
      && (forall i, j :: 0 <= i < j < |l.keys| ==> l.keys[i] != l.keys[j])
  {
    if items != [] {
      EveryItemAccountedFor(r, items[..|items| - 1]);
    }
  }

  lemma {:induction false} FiledEntriesAreFinal(r: Reader, items: seq<Item>, k: nat, key: string)
    requires k <= |items| && key in Process(r, items[..k]).seen
    ensures key in Process(r, items).seen && Process(r, items).seen[key] == Process(r, items[..k]).seen[key]
    ensures Process(r, items[..k]).keys <= Process(r, items).keys
  {
    if k == |items| {
      assert items[..k] == items;
    } else {
      var before := items[..|items| - 1];
      assert before[..k] == items[..k];
      FiledEntriesAreFinal(r, before, k, key);
    }
  }

  /** Each entry was filed by one item, and the first item with its key is the one that stays. */
  lemma {:induction false} EntryHasAnOrigin(r: Reader, items: seq<Item>, key: string) returns (k: nat)
    requires key in Process(r, items).seen
    ensures k < |items| && FateOf(r, items, k) == Filed(key, Process(r, items).seen[key])
    ensures key !in Process(r, items[..k]).seen
  {
    var before, last := items[..|items| - 1], items[|items| - 1];
    if key in Process(r, before).seen {
      k := EntryHasAnOrigin(r, before, key);
      assert before[..k] == items[..k];
    } else {
      k := |items| - 1;
    }
  }

  /** A repeat only ever repeats something already filed. */
  lemma RepeatsPointBack(r: Reader, items: seq<Item>, k: nat) returns (j: nat)
    requires k < |items| && FateOf(r, items, k).Repeat?
    ensures j < k && FateOf(r, items, j).Filed? && FateOf(r, items, j).key == FateOf(r, items, k).key
  {
    j := EntryHasAnOrigin(r, items[..k], FateOf(r, items, k).key);
    assert items[..k][..j] == items[..j];
  }

  lemma {:induction false} FirstHoldingIsInWindow(r: Reader, needle: string, window: seq<SourceChunk>)
    ensures var a := FirstHolding(r, needle, window);
      a.Some? ==> exists c :: c in window && a.value == AnchorAt(c) && Contains(r.matchable(c.rawText), needle)
  {
    if window != [] && !Contains(r.matchable(window[0].rawText), needle) {
      FirstHoldingIsInWindow(r, needle, window[1..]);
      var a := FirstHolding(r, needle, window);
      if a.Some? {
        var c :| c in window[1..] && a.value == AnchorAt(c) && Contains(r.matchable(c.rawText), needle);
        assert c in window;
      }
    } else if window != [] {
      assert window[0] in window;
    }
  }

  /** The chunk holds the quoted span, as far as the comparison can tell. */
  predicate HoldsSpan(r: Reader, c: SourceChunk, source: string) {
    Contains(r.matchable(c.rawText), r.matchable(source))
  }

  lemma {:induction false} FirstHoldingIsFirst(r: Reader, source: string, window: seq<SourceChunk>, k: nat)
    requires k <= |window| && forall i :: 0 <= i < k ==> !HoldsSpan(r, window[i], source)
    requires k < |window| ==> HoldsSpan(r, window[k], source)
    ensures FirstHolding(r, r.matchable(source), window) == if k < |window| then Some(AnchorAt(window[k])) else None
    decreases |window|
  {
    if k > 0 {
      assert forall i :: 0 <= i < k - 1 ==> window[1..][i] == window[i + 1];
      FirstHoldingIsFirst(r, source, window[1..], k - 1);
    }
  }

  /**
   A span is located exactly when something of it is left to match and the window's text holds it; then at the first
   chunk that holds it by itself, or, when it spans two, at the first chunk of the window.
   */
  lemma LocatedIff(r: Reader, source: string, window: seq<SourceChunk>, k: nat)
    requires window != [] && k <= |window| && forall i :: 0 <= i < k ==> !HoldsSpan(r, window[i], source)
    requires k < |window| ==> HoldsSpan(r, window[k], source)
    ensures var texts := seq(|window|, i requires 0 <= i < |window| => window[i].rawText);
      var c := window[if k < |window| then k else 0];
      Locate(r, source, window) ==
        if r.matchable(source) != "" && Contains(r.matchable(Join(texts, "\n\n")), r.matchable(source))
        then Some(Anchor(Some(c.chunkIndex), c.pageNumber, c.sectionPath))
        else None
  {
    FirstHoldingIsFirst(r, source, window, k);
    assert RawTexts(window) == seq(|window|, i requires 0 <= i < |window| => window[i].rawText);
  }

  /** Some modal marker stands in what the item quotes or says. */
  predicate Obliges(r: Reader, p: Proposed) {
    exists m :: m in r.markers && Contains(r.matchable(Strip(p.source) + " " + Strip(p.text)), r.matchable(m))
  }

  /** What a filed entry says of the item it was filed for, column by column. */
  ghost predicate SaysOf(r: Reader, e: Requirement, p: Proposed, a: Anchor) {
    && e.text == Strip(p.text) && e.source == Strip(p.source)
    && e.category == (if p.category == "" then "other" else p.category)
    && e.pageNumber == a.pageNumber && e.chunkIndex == a.chunkIndex
    && e.sectionPath == (if Strip(p.sectionPath) != "" then Some(Strip(p.sectionPath)) else a.sectionPath)
    && (e.isMandatory <==> p.isMandatory || Obliges(r, p))
    && (e.refIsSynthetic <==> Strip(p.ref) == "")
    && var ref := if Strip(p.ref) != "" then Strip(p.ref) else "AUTO-" + r.digest(r.matchable(e.source));
       e.ref == if |ref| <= 128 then ref else ref[..128]
  }

  /** Every filed entry says what was proposed, at the place its span was located; a marker makes it mandatory. */
  lemma FiledSaysWhatWasProposed(r: Reader, items: seq<Item>, k: nat)
    requires k < |items| && FateOf(r, items, k).Filed?
    ensures var located := Locate(r, Strip(items[k].proposed.source), items[k].window);
      located.Some? && SaysOf(r, FateOf(r, items, k).entry, items[k].proposed, located.value)
  {
  }

  /** What becomes of an item: dropped for the first thing it lacks, else a repeat of a filed key, else filed. */
  lemma FateIs(r: Reader, items: seq<Item>, k: nat)
    requires k < |items|
    ensures var p, fate := items[k].proposed, FateOf(r, items, k);
      var located := Locate(r, Strip(p.source), items[k].window);
      && (fate.DroppedAs? <==> Strip(p.text) == "" || Strip(p.source) == "" || located == None)
      && (fate.DroppedAs? ==>
            && fate.dropped.ref == Strip(p.ref) && fate.dropped.text == Strip(p.text)
            && (fate.dropped.reason == NoText <==> Strip(p.text) == "")
            && (fate.dropped.reason == NoSource <==> Strip(p.text) != "" && Strip(p.source) == ""))
      && (fate.Filed? ==> fate.key !in Process(r, items[..k]).seen)
      && (fate.Repeat? ==> fate.key in Process(r, items[..k]).seen)
      && var ref := if Strip(p.ref) == "" then "AUTO-" + r.digest(r.matchable(Strip(p.source))) else Strip(p.ref);
         (!fate.DroppedAs? ==> fate.key == DedupeKey(r, ref, Strip(p.text)))
  {
  }

  lemma BarFirst(a: string, b: string)
    ensures var x := a + "|" + b;
      && x[0] == (if a == "" then '|' else a[0])
      && x[1..] == if a == "" then b else a[1..] + "|" + b
  {
    if a == "" { assert a + "|" == "|"; }
  }

  lemma {:induction false} BarSplits(a: string, b: string, c: string, d: string)
    requires '|' !in a && '|' !in c && a + "|" + b == c + "|" + d
    ensures a == c && b == d
    decreases |a|
  {
    BarFirst(a, b);
    BarFirst(c, d);
    assert (a == "" || a[0] in a) && (c == "" || c[0] in c);
    if a != "" {
      BarSplits(a[1..], b, c[1..], d);
      assert a == [a[0]] + a[1..] && c == [c[0]] + c[1..];
    }
  }

  /**
   Two items count as one exactly when their references read the same and their texts begin the same for 200
   characters, as long as no reference reads with a bar in it.
   */
  lemma SameKeyIff(r: Reader, ref: string, text: string, other: string, said: string)
    requires '|' !in r.matchable(ref) && '|' !in r.matchable(other)
    ensures DedupeKey(r, ref, text) == DedupeKey(r, other, said) <==>
      && r.matchable(ref) == r.matchable(other)
      && (var a, b := r.matchable(text), r.matchable(said);
          if |a| <= 200 && |b| <= 200 then a == b
          else |a| >= 200 && |b| >= 200 && a[..200] == b[..200])
  {
    var a, b := Clip(r.matchable(text), 200), Clip(r.matchable(said), 200);
    if DedupeKey(r, ref, text) == DedupeKey(r, other, said) {
      BarSplits(r.matchable(ref), a, r.matchable(other), b);
    }
  }

  /** The proof a filed requirement carries: its span is in the window, its anchor is a chunk of the window. */
  ghost predicate Anchored(r: Reader, e: Requirement, item: Item) {
    && e.text != "" && e.source != ""
    && r.matchable(e.source) != "" && Contains(r.matchable(Extract(item.window)), r.matchable(e.source))
    && (exists c :: c in item.window && e.chunkIndex == Some(c.chunkIndex) && e.pageNumber == c.pageNumber)
    && (item.proposed.isMandatory ==> e.isMandatory)
    && |e.ref| <= 128
  }

  /** Every filed requirement is anchored in the very window it was proposed from. */
  lemma FiledIsAnchored(r: Reader, items: seq<Item>, key: string) returns (k: nat)
    requires key in Process(r, items).seen
    requires forall i :: 0 <= i < |items| ==> items[i].window != []
    ensures k < |items| && FateOf(r, items, k).Filed? && Anchored(r, Process(r, items).seen[key], items[k])
  {
    k := EntryHasAnOrigin(r, items, key);
    var e, item := Process(r, items).seen[key], items[k];
    FirstHoldingIsInWindow(r, r.matchable(e.source), item.window);
    if FirstHolding(r, r.matchable(e.source), item.window).None? {
      assert item.window[0] in item.window;
    }
  }

  // ------------------------------------------------------------ document order

  const LAST := 0x4000_0000

  /** `_ordering_key`, compared as the tuple it is: page, chunk, reference. */
  predicate OrderLeq(a: Requirement, b: Requirement) {
    var pa, pb := a.pageNumber.Or(LAST), b.pageNumber.Or(LAST);
    var ca, cb := a.chunkIndex.Or(LAST), b.chunkIndex.Or(LAST);
    pa < pb || (pa == pb && (ca < cb || (ca == cb && LexLeq(a.ref, b.ref))))
  }

  /** The order is total, so `sorted` has a meaning. */
  lemma OrderIsTotalPreorder()
    ensures TotalPreorder(OrderLeq)
  {
    forall a, b ensures OrderLeq(a, b) || OrderLeq(b, a) {
      LexTotal(a.ref, b.ref);
    }
    forall a, b, c | OrderLeq(a, b) && OrderLeq(b, c) ensures OrderLeq(a, c) {
      if LexLeq(a.ref, b.ref) && LexLeq(b.ref, c.ref) { LexTransitive(a.ref, b.ref, c.ref); }
    }
  }

  /** The order is that of a reader: page, then chunk, then reference, what has no page or chunk at the end. */
  lemma OrderReads(a: Requirement, b: Requirement)
    ensures a.pageNumber.Some? && b.pageNumber.Some? && a.pageNumber.value < b.pageNumber.value ==>
      OrderLeq(a, b) && !OrderLeq(b, a)
    ensures a.pageNumber.Some? && b.pageNumber.None? && a.pageNumber.value < 0x4000_0000 ==>
      OrderLeq(a, b) && !OrderLeq(b, a)
    ensures a.pageNumber == b.pageNumber ==>
      && (a.chunkIndex.Some? && b.chunkIndex.Some? && a.chunkIndex.value < b.chunkIndex.value ==>
            OrderLeq(a, b) && !OrderLeq(b, a))
      && (a.chunkIndex.Some? && b.chunkIndex.None? && a.chunkIndex.value < 0x4000_0000 ==>
            OrderLeq(a, b) && !OrderLeq(b, a))
      && (a.chunkIndex == b.chunkIndex ==> (OrderLeq(a, b) <==> LexLeq(a.ref, b.ref)))
  {
  }

  function Entries(l: Ledger): seq<Requirement>
    requires forall i :: 0 <= i < |l.keys| ==> l.keys[i] in l.seen
  {
    seq(|l.keys|, i requires 0 <= i < |l.keys| => l.seen[l.keys[i]])
  }

  // ------------------------------------------------------------ the loops

  function ItemsOf(window: seq<SourceChunk>, payload: seq<Proposed>): seq<Item> {
    seq(|payload|, i requires 0 <= i < |payload| => Item(window, payload[i]))
  }

  /** Every item of every window, in reading order; `payloads[k]` is what the model returned for window k. */
  function AllItems(windows: seq<seq<SourceChunk>>, payloads: seq<seq<Proposed>>): seq<Item>
    requires |payloads| == |windows|
  {
    if windows == [] then []
    else AllItems(windows[..|windows| - 1], payloads[..|payloads| - 1])
         + ItemsOf(windows[|windows| - 1], payloads[|payloads| - 1])
  }

  lemma {:induction false} ItemsComeFromWindows(windows: seq<seq<SourceChunk>>, payloads: seq<seq<Proposed>>, k: nat)
    returns (w: nat)
    requires |payloads| == |windows| && k < |AllItems(windows, payloads)|
    ensures w < |windows| && AllItems(windows, payloads)[k].window == windows[w]
    ensures AllItems(windows, payloads)[k].proposed in payloads[w]
  {
    var earlier := AllItems(windows[..|windows| - 1], payloads[..|payloads| - 1]);
    if k < |earlier| {
      w := ItemsComeFromWindows(windows[..|windows| - 1], payloads[..|payloads| - 1], k);
    } else {
      w := |windows| - 1;
    }
  }

  /**
   Nothing enters the matrix that the document does not say: every filed requirement was proposed for one window,
   its normalised span occurs in that window's text, and its anchor is a chunk of that window of the document.
   */
  lemma EveryRequirementIsInTheDocument(r: Reader, chunks: seq<SourceChunk>, limit: int,
                                        payloads: seq<seq<Proposed>>, key: string)
    returns (span: Span, item: Item)
    requires |payloads| == |Spans(chunks, 0, 0, limit)|
    requires key in Process(r, AllItems(WindowsFrom(chunks, 0, 0, limit), payloads)).seen
    ensures span in Spans(chunks, 0, 0, limit) && InRange(chunks, span) && item.window == chunks[span.lo..span.hi]
    ensures Anchored(r, Process(r, AllItems(WindowsFrom(chunks, 0, 0, limit), payloads)).seen[key], item)
  {
    var spans, windows := Spans(chunks, 0, 0, limit), WindowsFrom(chunks, 0, 0, limit);
    var items := AllItems(windows, payloads);
    SpansEnds(chunks, 0, 0, limit);
    forall i | 0 <= i < |items| ensures items[i].window != [] {
      var w := ItemsComeFromWindows(windows, payloads, i);
      assert InRange(chunks, spans[w]);
    }
    var k := FiledIsAnchored(r, items, key);
    var w := ItemsComeFromWindows(windows, payloads, k);
    span, item := spans[w], items[k];
  }

  lemma ProcessAppend(r: Reader, items: seq<Item>, item: Item)
    ensures Process(r, items + [item]) == Absorb(r, Process(r, items), item)
  {
    assert (items + [item])[..|items|] == items;
  }

  /** The inner loop: one window's payload. */
  method AbsorbPayload(r: Reader, l: Ledger, window: seq<SourceChunk>, payload: seq<Proposed>, ghost earlier: seq<Item>)
    returns (m: Ledger)
    requires l == Process(r, earlier)
    ensures m == Process(r, earlier + ItemsOf(window, payload))
  {
    m := l;
    ghost var mine := ItemsOf(window, payload);
    assert earlier + mine[..0] == earlier;
    for i := 0 to |payload|
      invariant m == Process(r, earlier + mine[..i])
    {
      OneMore(earlier, mine, i);
      ProcessAppend(r, earlier + mine[..i], mine[i]);
      m := Absorb(r, m, Item(window, payload[i]));
    }
    assert mine[..|payload|] == mine;
  }

  lemma EntriesInOrder(r: Reader, items: seq<Item>)
    ensures var l := Process(r, items);
      && (forall i :: 0 <= i < |l.keys| ==> l.keys[i] in l.seen)
      && multiset(Sorted(OrderLeq, Entries(l))) == multiset(Entries(l))
      && InOrder(OrderLeq, Sorted(OrderLeq, Entries(l)))
      && forall e :: SameTies(OrderLeq, Sorted(OrderLeq, Entries(l)), Entries(l), e)
  {
    var l := Process(r, items);
    EveryItemAccountedFor(r, items);
    assert forall i :: 0 <= i < |l.keys| ==> l.keys[i] in l.keys;
    OrderIsTotalPreorder();
    SortedIsOrderedPermutation(OrderLeq, Entries(l));
    forall e ensures SameTies(OrderLeq, Sorted(OrderLeq, Entries(l)), Entries(l), e) {
      SortedIsStable(OrderLeq, Entries(l), e);
    }
  }

  /** `RequirementExtractionChain.run`; `payloads[k]` is what the model returned for window k. */
  method Run(r: Reader, chunks: seq<SourceChunk>, windowChars: int, payloads: seq<seq<Proposed>>)
    returns (requirements: seq<Requirement>, dropped: seq<Dropped>)
    requires |payloads| == |Spans(chunks, 0, 0, windowChars)|
    ensures var l := Process(r, AllItems(WindowsFrom(chunks, 0, 0, windowChars), payloads));
      && (forall i :: 0 <= i < |l.keys| ==> l.keys[i] in l.seen)
      && multiset(requirements) == multiset(Entries(l))
      && dropped == l.dropped
    ensures InOrder(OrderLeq, requirements)
    ensures var l := Process(r, AllItems(WindowsFrom(chunks, 0, 0, windowChars), payloads));
      forall e :: SameTies(OrderLeq, requirements, Entries(l), e)
  {
    var windows := BuildWindows(chunks, windowChars);
    var l := Ledger([], map[], []);
    for k := 0 to |windows|
      invariant l == Process(r, AllItems(windows[..k], payloads[..k]))
    {
      assert windows[..k + 1][..k] == windows[..k] && payloads[..k + 1][..k] == payloads[..k];
      l := AbsorbPayload(r, l, windows[k], payloads[k], AllItems(windows[..k], payloads[..k]));
    }
    assert windows[..|windows|] == windows && payloads[..|payloads|] == payloads;
    EntriesInOrder(r, AllItems(windows, payloads));
    requirements, dropped := Sorted(OrderLeq, Entries(l)), l.dropped;
  }
}
