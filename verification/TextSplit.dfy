/**
 Splitting one oversized text: on the first separator of a hierarchy that yields more than one part, carrying a
 tail of each part into the next, or by hard cuts when no separator helps.
 */
module TextSplit {
  import opened PyText

  /** Paragraph, line, sentence and word separators; the Arabic stop, question mark, semicolon and comma included. */
  const SPLIT_HIERARCHY: seq<string> :=
    ["\n\n", "\n", "\U{06D4} ", ". ", "\U{061F} ", "? ", "! ", "\U{061B} ", "; ", "\U{060C} ", ", ", " "]

  function Max(a: int, b: int): int {
    if a >= b then a else b
  }

  /** `s[-n:]` for a positive `n` */
  function Tail(s: string, n: nat): string {
    if n >= |s| then s else s[|s| - n..]
  }

  /** `s[n:]` */
  function Drop(s: string, n: nat): string {
    if n >= |s| then "" else s[n..]
  }

  // ------------------------------------------------------------ str.split

  /** Where a separator first occurs. */
  function Find(text: string, sep: string): (at: Option<nat>)
    ensures at.Some? ==> OccursAt(text, sep, at.value) && forall j :: 0 <= j < at.value ==> !OccursAt(text, sep, j)
    ensures at.None? ==> !Contains(text, sep)
  {
    if sep <= text then Some(0)
    else if text == "" then None
    else
      var rest := Find(text[1..], sep);
      assert forall j :: 1 <= j <= |text| ==> OccursAt(text, sep, j) == OccursAt(text[1..], sep, j - 1);
      match rest case None => None case Some(i) => Some(i + 1)
  }

  /** `text.split(sep)` */
  function Split(text: string, sep: string): (pieces: seq<string>)
    requires sep != ""
    ensures pieces != []
    decreases |text|
  {
    match Find(text, sep)
    case None => [text]
    case Some(i) => [text[..i]] + Split(text[i + |sep|..], sep)
  }

  lemma {:induction false} SplitJoins(text: string, sep: string)
    requires sep != ""
    ensures Join(Split(text, sep), sep) == text
    decreases |text|
  {
    var at := Find(text, sep);
    if at.Some? {
      var i := at.value;
      SplitJoins(text[i + |sep|..], sep);
      assert Split(text, sep)[1..] == Split(text[i + |sep|..], sep);
      assert text == text[..i] + text[i..i + |sep|] + text[i + |sep|..];
    }
  }

  lemma {:induction false} PiecesHoldNoSeparator(text: string, sep: string, k: nat)
    requires sep != "" && k < |Split(text, sep)|
    ensures !Contains(Split(text, sep)[k], sep)
    decreases |text|
  {
    var at := Find(text, sep);
    if at.Some? {
      var i := at.value;
      if k > 0 {
        PiecesHoldNoSeparator(text[i + |sep|..], sep, k - 1);
      } else {
        assert forall j :: 0 <= j && OccursAt(text[..i], sep, j) ==> OccursAt(text, sep, j);
      }
    }
  }

  // ------------------------------------------------------------ the loop over the pieces

  /** The parts closed so far, not yet stripped, and the one in hand. */
  datatype Cut = Cut(parts: seq<string>, current: string) {
    function All(): seq<string> {
      parts + [current]
    }
  }

  function Absorb(c: Cut, piece: string, sep: string, size: nat, overlap: nat): Cut {
    var candidate := if c.current != "" then c.current + sep + piece else piece;
    if |candidate| > size && c.current != "" then
      Cut(c.parts + [c.current], if overlap != 0 then Tail(c.current, overlap) + sep + piece else piece)
    else Cut(c.parts, candidate)
  }

  function CutPieces(pieces: seq<string>, sep: string, size: nat, overlap: nat): Cut {
    if pieces == [] then Cut([], "")
    else Absorb(CutPieces(pieces[..|pieces| - 1], sep, size, overlap), pieces[|pieces| - 1], sep, size, overlap)
  }

  function CutOn(text: string, sep: string, size: nat, overlap: nat): Cut
    requires sep != ""
  {
    CutPieces(Split(text, sep), sep, size, overlap)
  }

  function Stripped(parts: seq<string>): seq<string> {
    seq(|parts|, i requires 0 <= i < |parts| => Strip(parts[i]))
  }

  /** The list whose length decides whether the separator helped. */
  function Tested(c: Cut): seq<string> {
    Stripped(c.parts) + if Strip(c.current) != "" then [Strip(c.current)] else []
  }

  /** `[p for p in parts if p]` */
  function NonEmpty(parts: seq<string>): seq<string> {
    if parts == [] then []
    else NonEmpty(parts[..|parts| - 1]) + if parts[|parts| - 1] != "" then [parts[|parts| - 1]] else []
  }

  /** One round of the loop over the separators. */
  method SplitOn(text: string, sep: string, size: nat, overlap: nat) returns (parts: seq<string>)
    requires sep != ""
    ensures parts == Tested(CutOn(text, sep, size, overlap))
  {
    var pieces := Split(text, sep);
    var current := "";
    parts := [];
    ghost var c := Cut([], "");
    for n := 0 to |pieces|
      invariant c == CutPieces(pieces[..n], sep, size, overlap) && current == c.current && parts == Stripped(c.parts)
    {
      assert pieces[..n + 1][..n] == pieces[..n];
      c := Absorb(c, pieces[n], sep, size, overlap);
      var candidate := if current != "" then current + sep + pieces[n] else pieces[n];
      if |candidate| > size && current != "" {
        parts := parts + [Strip(current)];
        current := if overlap != 0 then Tail(current, overlap) + sep + pieces[n] else pieces[n];
      } else {
        current := candidate;
      }
    }
    assert pieces[..|pieces|] == pieces;
    if Strip(current) != "" {
      parts := parts + [Strip(current)];
    }
  }

  // ------------------------------------------------------------ hard cuts

  /** `text[start : start + size]` */
  function Slice(text: string, start: nat, size: nat): string
    requires start <= |text|
  {
    if start + size <= |text| then text[start..start + size] else text[start..]
  }

  /** `text[i : i + size] for i in range(start, len(text), step)` */
  function Cuts(text: string, start: nat, step: nat, size: nat): seq<string>
    requires step > 0
    decreases |text| - start
  {
    if start >= |text| then [] else [Slice(text, start, size)] + Cuts(text, start + step, step, size)
  }

  /** `size - overlap or size` */
  function StepOf(size: nat, overlap: nat): int {
    if size != overlap then size - overlap else size
  }

  /** A negative step makes an empty range. */
  function HardCut(text: string, size: nat, overlap: nat): seq<string>
    requires StepOf(size, overlap) != 0
  {
    var step := StepOf(size, overlap);
    if step < 0 then [] else Cuts(text, 0, step, size)
  }

  // ------------------------------------------------------------ choosing the separator

  /** How a text is split: not at all, on a separator, or by hard cuts. */
  datatype Path = Whole | On(sep: string) | Hard

  function Choose(text: string, seps: seq<string>, size: nat, overlap: nat): (p: Path)
    requires "" !in seps
    ensures p.On? ==>
      p.sep in seps && p.sep != "" && Contains(text, p.sep) && |Tested(CutOn(text, p.sep, size, overlap))| > 1
    ensures !p.Whole?
  {
    if seps == [] then Hard
    else if Contains(text, seps[0]) && |Tested(CutOn(text, seps[0], size, overlap))| > 1 then On(seps[0])
    else Choose(text, seps[1..], size, overlap)
  }

  function PathOf(text: string, size: nat, overlap: nat): (p: Path)
    ensures p.On? ==> p.sep != ""
  {
    if |text| <= size then Whole else Choose(text, SPLIT_HIERARCHY, size, overlap)
  }

  /** The parts a path gives, before stripping, those that turn out blank included. */
  function RawAlong(text: string, p: Path, size: nat, overlap: nat): seq<string>
    requires StepOf(size, overlap) != 0 && (p.On? ==> p.sep != "")
  {
    match p
    case Whole => [text]
    case On(sep) => CutOn(text, sep, size, overlap).All()
    case Hard => HardCut(text, size, overlap)
  }

  function PartsAlong(text: string, p: Path, size: nat, overlap: nat): seq<string>
    requires StepOf(size, overlap) != 0 && (p.On? ==> p.sep != "")
  {
    var raw := RawAlong(text, p, size, overlap);
    if p.On? then NonEmpty(Stripped(raw)) else raw
  }

  function RawParts(text: string, size: nat, overlap: nat): seq<string>
    requires StepOf(size, overlap) != 0
  {
    RawAlong(text, PathOf(text, size, overlap), size, overlap)
  }

  function Parts(text: string, size: nat, overlap: nat): seq<string>
    requires StepOf(size, overlap) != 0
  {
    PartsAlong(text, PathOf(text, size, overlap), size, overlap)
  }

  lemma {:induction false} NonEmptyAppend(a: seq<string>, b: seq<string>)
    ensures NonEmpty(a + b) == NonEmpty(a) + NonEmpty(b)
  {
    if b == [] {
      assert a + b == a;
    } else {
      assert (a + b)[..|a + b| - 1] == a + b[..|b| - 1];
      NonEmptyAppend(a, b[..|b| - 1]);
    }
  }

  lemma TestedNonEmpty(c: Cut)
    ensures NonEmpty(Tested(c)) == NonEmpty(Stripped(c.All()))
  {
    assert Stripped(c.All()) == Stripped(c.parts) + [Strip(c.current)];
    NonEmptyAppend(Stripped(c.parts), [Strip(c.current)]);
    if Strip(c.current) == "" { assert Tested(c) == Stripped(c.parts); }
  }

  /** The loop over the separators, and the cut after it. */
  method SplitBy(text: string, seps: seq<string>, size: nat, overlap: nat) returns (parts: seq<string>)
    requires StepOf(size, overlap) != 0 && "" !in seps
    ensures parts == PartsAlong(text, Choose(text, seps, size, overlap), size, overlap)
  {
    var next := 0;
    while next < |seps|
      invariant next <= |seps| && Choose(text, seps[next..], size, overlap) == Choose(text, seps, size, overlap)
    {
      var separator := seps[next];
      assert separator in seps;
      assert seps[next..][0] == separator && seps[next..][1..] == seps[next + 1..];
      if Find(text, separator).Some? {
        parts := SplitOn(text, separator, size, overlap);
        if |parts| > 1 {
          TestedNonEmpty(CutOn(text, separator, size, overlap));
          return NonEmpty(parts);
        }
      }
      next := next + 1;
    }
    parts := HardCut(text, size, overlap);
  }

  /** `_recursive_split`. A zero step is refused by `range`. */
  method RecursiveSplit(text: string, size: nat, overlap: nat) returns (parts: seq<string>)
    requires StepOf(size, overlap) != 0
    ensures parts == Parts(text, size, overlap)
  {
    if |text| <= size {
      return [text];
    }
    parts := SplitBy(text, SPLIT_HIERARCHY, size, overlap);
  }

  // ------------------------------------------------------------ which separator is chosen

  /** How fine a cut a separator makes: paragraph, line, sentence, clause, item of a list, word. */
  function Level(sep: string): nat {
    if sep == "\n\n" then 0
    else if sep == "\n" then 1
    else if sep in {"\U{06D4} ", ". ", "\U{061F} ", "? ", "! "} then 2
    else if sep in {"\U{061B} ", "; "} then 3
    else if sep in {"\U{060C} ", ", "} then 4
    else if sep == " " then 5
    else 6
  }

  /** The separator occurs and leaves more than one part. */
  predicate Helps(text: string, sep: string, size: nat, overlap: nat)
    requires sep != ""
  {
    Contains(text, sep) && |Tested(CutOn(text, sep, size, overlap))| > 1
  }

  lemma HierarchyIsComplete(sep: string)
    ensures sep in SPLIT_HIERARCHY <==> Level(sep) < 6
    ensures forall i, j :: 0 <= i < j < |SPLIT_HIERARCHY| ==> Level(SPLIT_HIERARCHY[i]) <= Level(SPLIT_HIERARCHY[j])
  {
    var h := SPLIT_HIERARCHY;
    assert h[0] == "\n\n" && h[1] == "\n" && h[2] == "\U{06D4} " && h[3] == ". " && h[4] == "\U{061F} " && h[5] == "? ";
    assert h[6] == "! " && h[7] == "\U{061B} " && h[8] == "; " && h[9] == "\U{060C} " && h[10] == ", " && h[11] == " ";
  }

  lemma {:induction false} ChosenIsFirst(text: string, seps: seq<string>, size: nat, overlap: nat) returns (k: nat)
    requires "" !in seps
    ensures k <= |seps| && forall i :: 0 <= i < k ==> !Helps(text, seps[i], size, overlap)
    ensures if k < |seps| then Helps(text, seps[k], size, overlap) && Choose(text, seps, size, overlap) == On(seps[k])
            else Choose(text, seps, size, overlap) == Hard
    decreases |seps|
  {
    if seps == [] {
      k := 0;
    } else {
      assert seps[0] in seps;
      if Helps(text, seps[0], size, overlap) {
        k := 0;
      } else {
        var n := ChosenIsFirst(text, seps[1..], size, overlap);
        k := n + 1;
        assert forall i :: 1 <= i < k ==> seps[1..][i - 1] == seps[i];
      }
    }
  }

  /**
   The most semantic separator that works is the one used: none of a coarser level helps, and a text is cut hard only
   when no separator at all does.
   */
  lemma MostSemanticSeparator(text: string, size: nat, overlap: nat, other: string)
    requires |text| > size && other != "" && Level(other) < 6
    ensures var p := PathOf(text, size, overlap);
      && !p.Whole?
      && (p.On? ==> Level(p.sep) < 6 && Helps(text, p.sep, size, overlap))
      && (p.On? && Level(other) < Level(p.sep) ==> !Helps(text, other, size, overlap))
      && (p.Hard? ==> !Helps(text, other, size, overlap))
  {
    var h := SPLIT_HIERARCHY;
    HierarchyIsComplete(other);
    var k := ChosenIsFirst(text, h, size, overlap);
    var i :| 0 <= i < |h| && h[i] == other;
    if k < |h| {
      assert h[k] in h;
      HierarchyIsComplete(h[k]);
      assert Level(other) < Level(h[k]) ==> i < k;
    }
  }

  /** A text within the size is left alone. */
  lemma ShortTextsAreWhole(text: string, size: nat, overlap: nat)
    ensures PathOf(text, size, overlap).Whole? <==> |text| <= size
  {
  }

  // ------------------------------------------------------------ reconstruction

  /** What the parts after the first add, each without the tail carried into it. */
  function Fresh(raw: seq<string>, overlap: nat): string {
    if |raw| <= 1 then "" else Drop(raw[1], |Tail(raw[0], overlap)|) + Fresh(raw[1..], overlap)
  }

  /** Each part without the tail carried from the one before it, joined up again. */
  function Rebuild(raw: seq<string>, overlap: nat): string {
    if raw == [] then "" else raw[0] + Fresh(raw, overlap)
  }

  lemma FreshStep(first: string, rest: seq<string>, overlap: nat)
    requires rest != []
    ensures Fresh([first] + rest, overlap) == Drop(rest[0], |Tail(first, overlap)|) + Fresh(rest, overlap)
  {
    assert ([first] + rest)[1..] == rest;
  }

  lemma {:induction false} FreshSnoc(first: string, rest: seq<string>, last: string, overlap: nat)
    ensures var raw := [first] + rest;
      Fresh(raw + [last], overlap) == Fresh(raw, overlap) + Drop(last, |Tail(raw[|raw| - 1], overlap)|)
    decreases |rest|
  {
    Associate([first], rest, [last]);
    FreshStep(first, rest + [last], overlap);
    if rest == [] {
      assert rest + [last] == [last];
    } else {
      FreshStep(first, rest, overlap);
      FreshSnoc(rest[0], rest[1..], last, overlap);
      assert [rest[0]] + rest[1..] == rest;
      var end := Drop(last, |Tail(rest[|rest| - 1], overlap)|);
      Associate(Drop(rest[0], |Tail(first, overlap)|), Fresh(rest, overlap), end);
    }
  }

  lemma RebuildSnoc(raw: seq<string>, last: string, overlap: nat)
    requires raw != []
    ensures Rebuild(raw + [last], overlap) == Rebuild(raw, overlap) + Drop(last, |Tail(raw[|raw| - 1], overlap)|)
  {
    assert raw == [raw[0]] + raw[1..];
    FreshSnoc(raw[0], raw[1..], last, overlap);
    Associate(raw[0], Fresh(raw, overlap), Drop(last, |Tail(raw[|raw| - 1], overlap)|));
  }

  predicate CarriesAt(raw: seq<string>, overlap: nat, k: nat)
    requires 1 <= k < |raw|
  {
    Tail(raw[k - 1], overlap) <= raw[k]
  }

  /** Every part but the first opens with the tail of the one before it. */
  predicate Carried(raw: seq<string>, overlap: nat) {
    forall k {:trigger CarriesAt(raw, overlap, k)} :: 1 <= k < |raw| ==> CarriesAt(raw, overlap, k)
  }

  function DropEmpty(pieces: seq<string>): seq<string> {
    if pieces != [] && pieces[0] == "" then DropEmpty(pieces[1..]) else pieces
  }

  lemma {:induction false} DropEmptySnoc(pieces: seq<string>, p: string)
    ensures DropEmpty(pieces + [p]) == if DropEmpty(pieces) == [] && p == "" then [] else DropEmpty(pieces) + [p]
  {
    if pieces != [] {
      assert (pieces + [p])[1..] == pieces[1..] + [p];
      if pieces[0] == "" { DropEmptySnoc(pieces[1..], p); }
    }
  }

  /** A text without the copies of the separator it opens with. */
  function DropLeading(text: string, sep: string): (r: string)
    requires sep != ""
    ensures |r| <= |text| && (r == text <==> !StartsWith(text, sep))
  {
    if sep <= text then DropLeading(text[|sep|..], sep) else text
  }

  lemma {:induction false} LeadingSeparators(text: string, sep: string)
    requires sep != ""
    ensures Join(DropEmpty(Split(text, sep)), sep) == DropLeading(text, sep)
    decreases |text|
  {
    if sep <= text {
      assert OccursAt(text, sep, 0);
      assert Find(text, sep) == Some(0);
      assert Split(text, sep)[1..] == Split(text[|sep|..], sep);
      LeadingSeparators(text[|sep|..], sep);
    } else {
      SplitJoins(text, sep);
    }
  }

  /** Lengthening the part in hand lengthens the text rebuilt from the parts. */
  lemma ExtendLast(parts: seq<string>, current: string, more: string, overlap: nat)
    requires Carried(parts + [current], overlap)
    ensures Rebuild(parts + [current + more], overlap) == Rebuild(parts + [current], overlap) + more
    ensures Carried(parts + [current + more], overlap)
  {
    if parts != [] {
      var k := |Tail(parts[|parts| - 1], overlap)|;
      assert CarriesAt(parts + [current], overlap, |parts|);
      RebuildSnoc(parts, current, overlap);
      RebuildSnoc(parts, current + more, overlap);
      DropExtend(current, more, k);
      Associate(Rebuild(parts, overlap), Drop(current, k), more);
    }
    CarriedExtend(parts, current, more, overlap);
  }

  lemma CarriedExtend(parts: seq<string>, current: string, more: string, overlap: nat)
    requires Carried(parts + [current], overlap)
    ensures Carried(parts + [current + more], overlap)
  {
    forall k | 1 <= k < |parts| + 1 ensures CarriesAt(parts + [current + more], overlap, k) {
      assert CarriesAt(parts + [current], overlap, k);
    }
  }

  lemma DropExtend(s: string, more: string, n: nat)
    requires n <= |s|
    ensures Drop(s + more, n) == Drop(s, n) + more
  {
  }

  lemma OpenNext(parts: seq<string>, current: string, more: string, overlap: nat)
    requires Carried(parts + [current], overlap)
    ensures var next := Tail(current, overlap) + more;
      Rebuild(parts + [current] + [next], overlap) == Rebuild(parts + [current], overlap) + more
      && Carried(parts + [current] + [next], overlap)
  {
    var a, b := parts + [current], parts + [current] + [Tail(current, overlap) + more];
    RebuildSnoc(a, Tail(current, overlap) + more, overlap);
    forall k | 1 <= k < |b| ensures CarriesAt(b, overlap, k) {
      assert k < |a| ==> CarriesAt(a, overlap, k);
    }
  }

  lemma AbsorbCases(c: Cut, p: string, sep: string, size: nat, overlap: nat)
    requires sep != "" && overlap > 0 && c.current != ""
    ensures var d, more := Absorb(c, p, sep, size, overlap), sep + p;
      && d.current != ""
      && (d.All() == c.All() + [Tail(c.current, overlap) + more] || d.All() == c.parts + [c.current + more])
  {
    assert c.current + sep + p == c.current + (sep + p);
    assert Tail(c.current, overlap) + sep + p == Tail(c.current, overlap) + (sep + p);
  }

  /** One more piece adds itself, behind a separator, to the text rebuilt so far. */
  lemma AbsorbRebuilds(c: Cut, p: string, sep: string, size: nat, overlap: nat)
    requires sep != "" && overlap > 0 && c.current != "" && Carried(c.All(), overlap)
    ensures var d := Absorb(c, p, sep, size, overlap);
      d.current != "" && Carried(d.All(), overlap) && Rebuild(d.All(), overlap) == Rebuild(c.All(), overlap) + (sep + p)
  {
    AbsorbCases(c, p, sep, size, overlap);
    OpenNext(c.parts, c.current, sep + p, overlap);
    ExtendLast(c.parts, c.current, sep + p, overlap);
  }

  lemma {:induction false} CutRebuilds(pieces: seq<string>, sep: string, size: nat, overlap: nat)
    requires sep != "" && overlap > 0
    ensures var c := CutPieces(pieces, sep, size, overlap);
      && Rebuild(c.All(), overlap) == Join(DropEmpty(pieces), sep) && Carried(c.All(), overlap)
      && (c.current == "" <==> DropEmpty(pieces) == []) && (c.current == "" ==> c.parts == [])
  {
    if pieces != [] {
      var front, p := pieces[..|pieces| - 1], pieces[|pieces| - 1];
      var c := CutPieces(front, sep, size, overlap);
      CutRebuilds(front, sep, size, overlap);
      assert pieces == front + [p];
      DropEmptySnoc(front, p);
      if c.current != "" {
        AbsorbRebuilds(c, p, sep, size, overlap);
        JoinAppend(DropEmpty(front), p, sep);
        Associate(Join(DropEmpty(front), sep), sep, p);
      }
    }
  }

  /** Cuts a step apart, each longer than the step by the overlap. */
  function Tiles(text: string, start: nat, step: nat, overlap: nat): seq<string>
    requires step > 0
  {
    Cuts(text, start, step, step + overlap)
  }

  lemma TilesStart(text: string, start: nat, step: nat, overlap: nat)
    requires step > 0
    ensures start >= |text| ==> Tiles(text, start, step, overlap) == []
    ensures start < |text| ==>
      && Tiles(text, start, step, overlap) == [Slice(text, start, step + overlap)]
        + Tiles(text, start + step, step, overlap)
      && Tiles(text, start, step, overlap) != []
      && Tiles(text, start, step, overlap)[0] == Slice(text, start, step + overlap)
  {
  }

  /** Without the `n` characters carried into it, the cut at `start` adds what lies beyond the one before. */
  lemma TileAdds(text: string, start: nat, step: nat, overlap: nat, n: nat)
    requires start <= |text| && n == if start + overlap <= |text| then overlap else |text| - start
    ensures Drop(Slice(text, start, step + overlap), n) + Drop(text, start + step + overlap)
      == Drop(text, start + overlap)
  {
    if start + step + overlap <= |text| {
      assert text[start..start + (step + overlap)][overlap..] == text[start + overlap..start + step + overlap];
      assert text[start + overlap..] == text[start + overlap..start + step + overlap] + text[start + step + overlap..];
    } else if start + overlap <= |text| {
      assert text[start..][overlap..] == text[start + overlap..];
    }
  }

  /** How much the cut at `start` carries into the next. */
  lemma TileCarries(text: string, start: nat, step: nat, overlap: nat)
    requires start + step < |text|
    ensures var n := |Tail(Slice(text, start, step + overlap), overlap)|;
      if start + step + overlap <= |text| then n == overlap else n >= |text| - (start + step)
  {
  }

  lemma TileAddsCarried(text: string, start: nat, step: nat, overlap: nat)
    requires step > 0 && start + step < |text|
    ensures Drop(Slice(text, start + step, step + overlap), |Tail(Slice(text, start, step + overlap), overlap)|)
            + Drop(text, start + step + step + overlap) == Drop(text, start + step + overlap)
  {
    var n := |Tail(Slice(text, start, step + overlap), overlap)|;
    TileCarries(text, start, step, overlap);
    if start + step + overlap <= |text| {
      TileAdds(text, start + step, step, overlap, n);
    } else {
      PastTheEnd(text, start + step, step + overlap, n);
    }
  }

  lemma PastTheEnd(text: string, start: nat, size: nat, n: nat)
    requires start <= |text| && n >= |text| - start && start + size > |text|
    ensures Drop(Slice(text, start, size), n) == "" && Drop(text, start + size) == ""
  {
  }

  /** What the cuts after the first add is what lies beyond the first. */
  predicate TilesOn(text: string, start: nat, step: nat, overlap: nat)
    requires step > 0
  {
    Fresh(Tiles(text, start, step, overlap), overlap) == Drop(text, start + step + overlap)
  }

  lemma FreshTile(text: string, start: nat, step: nat, overlap: nat)
    requires step > 0 && start + step < |text|
    requires TilesOn(text, start + step, step, overlap)
    ensures TilesOn(text, start, step, overlap)
  {
    TilesStart(text, start, step, overlap);
    TilesStart(text, start + step, step, overlap);
    FreshStep(Slice(text, start, step + overlap), Tiles(text, start + step, step, overlap), overlap);
    TileAddsCarried(text, start, step, overlap);
  }

  lemma LastTile(text: string, start: nat, step: nat, overlap: nat)
    requires step > 0 && start < |text| <= start + step
    ensures TilesOn(text, start, step, overlap)
  {
    TilesStart(text, start, step, overlap);
    TilesStart(text, start + step, step, overlap);
    assert [Slice(text, start, step + overlap)] + [] == [Slice(text, start, step + overlap)];
  }

  lemma {:induction false} TilesRebuild(text: string, start: nat, step: nat, overlap: nat)
    requires step > 0 && start < |text|
    ensures TilesOn(text, start, step, overlap)
    decreases |text| - start
  {
    if start + step < |text| {
      TilesRebuild(text, start + step, step, overlap);
      FreshTile(text, start, step, overlap);
    } else {
      LastTile(text, start, step, overlap);
    }
  }

  /** Overlap of the hard cuts: when it equals the size the step falls back to the size, and nothing is carried. */
  function HardOverlap(size: nat, overlap: nat): nat {
    if overlap == size then 0 else overlap
  }

  lemma TilesAreTheText(text: string, step: nat, overlap: nat)
    requires step > 0 && text != ""
    ensures Rebuild(Tiles(text, 0, step, overlap), overlap) == text
  {
    TilesRebuild(text, 0, step, overlap);
    TilesStart(text, 0, step, overlap);
    FirstAndRest(text, step + overlap);
  }

  lemma FirstAndRest(text: string, size: nat)
    ensures Slice(text, 0, size) + Drop(text, size) == text
  {
  }

  lemma HardCutTiles(text: string, size: nat, overlap: nat)
    requires StepOf(size, overlap) != 0 && overlap <= size
    ensures StepOf(size, overlap) > 0
    ensures HardCut(text, size, overlap) == Tiles(text, 0, StepOf(size, overlap), HardOverlap(size, overlap))
  {
  }

  /** Hard cuts keep the text if and only if the overlap is no larger than the size. */
  lemma HardCutKeepsTheText(text: string, size: nat, overlap: nat)
    requires StepOf(size, overlap) != 0 && text != ""
    ensures Rebuild(HardCut(text, size, overlap), HardOverlap(size, overlap)) == text <==> overlap <= size
  {
    if overlap <= size {
      HardCutTiles(text, size, overlap);
      TilesAreTheText(text, StepOf(size, overlap), HardOverlap(size, overlap));
    }
  }

  /**
   Dropping from each unstripped part the tail carried into it and concatenating gives back the text, less the
   copies of the chosen separator it opens with. So the text comes back whole if and only if it does not open with
   the separator chosen for it.
   */
  lemma SplitReconstructs(text: string, size: nat, overlap: nat)
    requires 0 < overlap < size
    ensures var p, rebuilt := PathOf(text, size, overlap), Rebuild(RawParts(text, size, overlap), overlap);
      && rebuilt == (if p.On? then DropLeading(text, p.sep) else text)
      && (rebuilt == text <==> !(p.On? && StartsWith(text, p.sep)))
  {
    var p := PathOf(text, size, overlap);
    if p.On? {
      CutRebuilds(Split(text, p.sep), p.sep, size, overlap);
      LeadingSeparators(text, p.sep);
    } else if p.Hard? {
      HardCutKeepsTheText(text, size, overlap);
    }
  }

  /** A statement cut at a boundary can be read from either side: each part opens with the tail of its predecessor. */
  lemma EveryPartOpensWithTheTailBefore(text: string, size: nat, overlap: nat)
    requires 0 < overlap && PathOf(text, size, overlap).On?
    ensures Carried(CutOn(text, PathOf(text, size, overlap).sep, size, overlap).All(), overlap)
  {
    var sep := PathOf(text, size, overlap).sep;
    CutRebuilds(Split(text, sep), sep, size, overlap);
  }

  // ------------------------------------------------------------ how long the parts are

  predicate NoLonger(pieces: seq<string>, longest: nat) {
    forall i :: 0 <= i < |pieces| ==> |pieces[i]| <= longest
  }

  /** Nothing is closed early, and nothing outgrows the larger of the size and one carried piece. */
  lemma {:induction false} CutLengths(pieces: seq<string>, sep: string, size: nat, overlap: nat, longest: nat)
    requires NoLonger(pieces, longest)
    ensures var c := CutPieces(pieces, sep, size, overlap);
      && NoLonger(c.All(), Max(size, overlap + |sep| + longest))
      && forall i :: 0 <= i < |c.parts| ==> |c.parts[i]| + |sep| + longest > size
  {
    if pieces != [] {
      var front, p := pieces[..|pieces| - 1], pieces[|pieces| - 1];
      var c, d := CutPieces(front, sep, size, overlap), CutPieces(pieces, sep, size, overlap);
      CutLengths(front, sep, size, overlap, longest);
      assert |c.current| <= Max(size, overlap + |sep| + longest) by { assert c.All()[|c.parts|] == c.current; }
      assert |p| <= longest;
      forall i | 0 <= i < |c.parts| ensures |c.parts[i]| <= Max(size, overlap + |sep| + longest) {
        assert c.All()[i] == c.parts[i];
      }
      assert |Tail(c.current, overlap)| <= overlap;
    }
  }

  lemma {:induction false} CutsLengths(text: string, start: nat, step: nat, size: nat)
    requires step > 0
    ensures forall i :: 0 <= i < |Cuts(text, start, step, size)| ==> |Cuts(text, start, step, size)[i]| <= size
    decreases |text| - start
  {
    if start < |text| { CutsLengths(text, start + step, step, size); }
  }

  /** Separator parts are within max(size, overlap + separator + longest piece), the rest within the size. */
  lemma PartLengths(text: string, size: nat, overlap: nat, longest: nat)
    requires StepOf(size, overlap) != 0
    requires PathOf(text, size, overlap).On? ==> NoLonger(Split(text, PathOf(text, size, overlap).sep), longest)
    ensures var p := PathOf(text, size, overlap);
      NoLonger(RawParts(text, size, overlap), if p.On? then Max(size, overlap + |p.sep| + longest) else size)
  {
    match PathOf(text, size, overlap)
    case On(sep) => CutLengths(Split(text, sep), sep, size, overlap, longest);
    case Hard => if StepOf(size, overlap) > 0 { CutsLengths(text, 0, StepOf(size, overlap), size); }
    case Whole =>
  }

  // ------------------------------------------------------------ what the caller gets

  /** A text that begins and ends on content. */
  predicate Trim(s: string) {
    s != "" && !IsSpace(s[0]) && !IsSpace(s[|s| - 1])
  }

  lemma {:induction false} NonEmptyMembers(parts: seq<string>, p: string)
    ensures p in NonEmpty(parts) <==> p in parts && p != ""
  {
    if parts != [] {
      assert parts == parts[..|parts| - 1] + [parts[|parts| - 1]];
      NonEmptyMembers(parts[..|parts| - 1], p);
    }
  }

  lemma StrippedMembers(parts: seq<string>, p: string)
    ensures p in Stripped(parts) ==> exists r :: r in parts && p == Strip(r)
  {
  }

  /** A separator leaves parts that begin and end on content, each the strip of a raw part. */
  lemma SeparatedPartsAreTrim(text: string, size: nat, overlap: nat, p: string)
    requires StepOf(size, overlap) != 0 && PathOf(text, size, overlap).On? && p in Parts(text, size, overlap)
    ensures Trim(p) && exists r :: r in RawParts(text, size, overlap) && p == Strip(r)
  {
    var raw := RawParts(text, size, overlap);
    NonEmptyMembers(Stripped(raw), p);
    StrippedMembers(raw, p);
    var r :| r in raw && p == Strip(r);
    StripEndsOnContent(r);
  }

  lemma {:induction false} CutsNonEmpty(text: string, start: nat, step: nat, size: nat)
    requires step > 0 && size > 0
    ensures "" !in Cuts(text, start, step, size)
    decreases |text| - start
  {
    if start < |text| { CutsNonEmpty(text, start + step, step, size); }
  }

  /** No part of a non-empty text is empty. */
  lemma NoPartIsEmpty(text: string, size: nat, overlap: nat)
    requires size > 0 && text != ""
    ensures "" !in Parts(text, size, overlap)
  {
    match PathOf(text, size, overlap)
    case On(sep) => NonEmptyMembers(Stripped(RawParts(text, size, overlap)), "");
    case Hard => if StepOf(size, overlap) > 0 { CutsNonEmpty(text, 0, StepOf(size, overlap), size); }
    case Whole =>
  }

  lemma {:induction false} NonEmptyContent(parts: seq<string>)
    ensures NonSpace(Concat(NonEmpty(Stripped(parts)))) == NonSpace(Concat(parts))
  {
    if parts != [] {
      var front, last := parts[..|parts| - 1], parts[|parts| - 1];
      NonEmptyContent(front);
      assert Stripped(parts)[..|parts| - 1] == Stripped(front);
      assert parts == front + [last];
      var kept := if Strip(last) != "" then [Strip(last)] else [];
      assert NonEmpty(Stripped(parts)) == NonEmpty(Stripped(front)) + kept;
      ConcatAppend(NonEmpty(Stripped(front)), kept);
      ConcatAppend(front, [last]);
      NonSpaceConcat(Concat(NonEmpty(Stripped(front))), Concat(kept));
      NonSpaceConcat(Concat(front), Concat([last]));
      NonSpaceStrip(last);
      assert Concat([last]) == last;
      assert Concat(kept) == Strip(last);
    }
  }

  /** With no overlap and a separator of whitespace, no content is lost or repeated. */
  lemma {:induction false} PlainCutKeepsContent(pieces: seq<string>, sep: string, size: nat)
    requires NonSpace(sep) == ""
    ensures NonSpace(Concat(CutPieces(pieces, sep, size, 0).All())) == NonSpace(Concat(pieces))
  {
    if pieces != [] {
      var front, p := pieces[..|pieces| - 1], pieces[|pieces| - 1];
      PlainCutKeepsContent(front, sep, size);
      PlainAbsorb(CutPieces(front, sep, size, 0), p, sep, size);
      assert pieces == front + [p];
      ConcatAppend(front, [p]);
      assert Concat([p]) == p;
      NonSpaceConcat(Concat(front), p);
    }
  }

  lemma {:induction false} JoinContent(pieces: seq<string>, sep: string)
    requires NonSpace(sep) == ""
    ensures NonSpace(Join(pieces, sep)) == NonSpace(Concat(pieces))
  {
    if |pieces| > 1 {
      JoinContent(pieces[1..], sep);
      NonSpaceConcat(pieces[0] + sep, Join(pieces[1..], sep));
      NonSpaceConcat(pieces[0], sep);
      NonSpaceConcat(pieces[0], Concat(pieces[1..]));
    } else if |pieces| == 1 {
      assert pieces[1..] == [];
      assert Concat(pieces) == pieces[0] + "" == pieces[0];
    }
  }

  /** Without an overlap, closing a part costs the content of one separator. */
  lemma {:induction false} PlainCutLoses(pieces: seq<string>, sep: string, size: nat)
    ensures var c := CutPieces(pieces, sep, size, 0);
      |NonSpace(Concat(c.All()))| + (if c.parts == [] then 0 else |NonSpace(sep)|) <= |NonSpace(Join(pieces, sep))|
  {
    if pieces != [] {
      var front, p := pieces[..|pieces| - 1], pieces[|pieces| - 1];
      PlainCutLoses(front, sep, size);
      assert pieces == front + [p];
      PlainAbsorb(CutPieces(front, sep, size, 0), p, sep, size);
      if front != [] {
        JoinAppend(front, p, sep);
        NonSpaceConcat(Join(front, sep) + sep, p);
        NonSpaceConcat(Join(front, sep), sep);
      }
    }
  }

  /** The content of all parts after one more piece: the piece is added, the separator only if no part is closed. */
  lemma PlainAbsorb(c: Cut, p: string, sep: string, size: nat)
    ensures var d := Absorb(c, p, sep, size, 0);
      var gap := if c.current == "" || d.parts != c.parts then "" else NonSpace(sep);
      NonSpace(Concat(d.All())) == NonSpace(Concat(c.All())) + (gap + NonSpace(p))
  {
    var d := Absorb(c, p, sep, size, 0);
    ContentOfAll(c);
    ContentOfAll(d);
    if d.parts != c.parts {
      assert d == Cut(c.All(), p);
    } else if c.current == "" {
      assert d == Cut(c.parts, p);
    } else {
      SpacedContent(c.current, sep, p);
      Associate(NonSpace(Concat(c.parts)), NonSpace(c.current), NonSpace(sep) + NonSpace(p));
    }
  }

  lemma SpacedContent(a: string, sep: string, b: string)
    ensures NonSpace(a + sep + b) == NonSpace(a) + (NonSpace(sep) + NonSpace(b))
  {
    NonSpaceConcat(a + sep, b);
    NonSpaceConcat(a, sep);
    Associate(NonSpace(a), NonSpace(sep), NonSpace(b));
  }

  lemma ContentOfAll(c: Cut)
    ensures NonSpace(Concat(c.All())) == NonSpace(Concat(c.parts)) + NonSpace(c.current)
  {
    ConcatAppend(c.parts, [c.current]);
    assert Concat([c.current]) == c.current;
    NonSpaceConcat(Concat(c.parts), c.current);
  }

  /**
   Without an overlap the content survives if and only if the chosen separator is whitespace: a sentence or list
   separator is dropped at every boundary. This is the fallback for an oversized table whose rows cannot be parsed.
   */
  lemma PlainSplitKeepsContent(text: string, size: nat)
    requires size > 0
    ensures var p := PathOf(text, size, 0);
      NonSpace(Concat(Parts(text, size, 0))) == NonSpace(text) <==> !(p.On? && NonSpace(p.sep) != "")
  {
    match PathOf(text, size, 0)
    case On(sep) =>
      var pieces := Split(text, sep);
      NonEmptyContent(RawParts(text, size, 0));
      SplitJoins(text, sep);
      if NonSpace(sep) == "" {
        PlainCutKeepsContent(pieces, sep, size);
        JoinContent(pieces, sep);
      } else {
        PlainCutLoses(pieces, sep, size);
      }
    case Hard =>
      PlainRebuild(RawParts(text, size, 0));
      HardCutKeepsTheText(text, size, 0);
    case Whole =>
      assert Concat([text]) == text;
  }

  /** Without an overlap nothing is ever repeated. */
  lemma PlainSplitRepeatsNothing(text: string, size: nat)
    requires size > 0
    ensures |NonSpace(Concat(Parts(text, size, 0)))| <= |NonSpace(text)|
  {
    PlainSplitKeepsContent(text, size);
    match PathOf(text, size, 0)
    case On(sep) =>
      NonEmptyContent(RawParts(text, size, 0));
      SplitJoins(text, sep);
      PlainCutLoses(Split(text, sep), sep, size);
    case _ =>
  }

  lemma {:induction false} PlainRebuild(raw: seq<string>)
    ensures Rebuild(raw, 0) == Concat(raw)
  {
    if |raw| > 1 {
      PlainRebuild(raw[1..]);
      assert Rebuild(raw[1..], 0) == raw[1] + Fresh(raw[1..], 0);
    } else if |raw| == 1 {
      assert raw[1..] == [];
    }
  }

  // ------------------------------------------------------------ what survives a split

  /**
   The part of a text whose content every split keeps: with an overlap all but the separators it opens with, without
   one its pieces, and on the hard path all of it unless the step is negative.
   */
  function Salvage(text: string, size: nat, overlap: nat): string {
    match PathOf(text, size, overlap)
    case Whole => text
    case On(sep) => if overlap > 0 then DropLeading(text, sep) else Concat(Split(text, sep))
    case Hard => if overlap <= size then text else ""
  }

  lemma DropIsWithin(s: string, n: nat)
    ensures Within(Drop(s, n), s)
  {
    if n < |s| {
      WithinSelf(s[n..]);
      WithinBehind(s[n..], s[..n], s[n..]);
      assert s[..n] + s[n..] == s;
    }
  }

  lemma {:induction false} FreshIsWithin(raw: seq<string>, overlap: nat)
    requires raw != []
    ensures Within(Fresh(raw, overlap), Concat(raw[1..]))
    decreases |raw|
  {
    if |raw| > 1 {
      FreshIsWithin(raw[1..], overlap);
      DropIsWithin(raw[1], |Tail(raw[0], overlap)|);
      WithinConcat(Drop(raw[1], |Tail(raw[0], overlap)|), raw[1], Fresh(raw[1..], overlap), Concat(raw[1..][1..]));
    }
  }

  lemma RebuildIsWithin(raw: seq<string>, overlap: nat)
    ensures Within(Rebuild(raw, overlap), Concat(raw))
  {
    if raw != [] {
      FreshIsWithin(raw, overlap);
      WithinSelf(raw[0]);
      WithinConcat(raw[0], raw[0], Fresh(raw, overlap), Concat(raw[1..]));
    }
  }

  lemma {:induction false} PlainPiecesSurvive(pieces: seq<string>, sep: string, size: nat)
    ensures Within(NonSpace(Concat(pieces)), NonSpace(Concat(CutPieces(pieces, sep, size, 0).All())))
    decreases |pieces|
  {
    if pieces != [] {
      var front, p := pieces[..|pieces| - 1], pieces[|pieces| - 1];
      var c := CutPieces(front, sep, size, 0);
      var gap := if c.current == "" || Absorb(c, p, sep, size, 0).parts != c.parts then "" else NonSpace(sep);
      PlainPiecesSurvive(front, sep, size);
      PlainAbsorb(c, p, sep, size);
      WithinSelf(NonSpace(p));
      WithinBehind(NonSpace(p), gap, NonSpace(p));
      WithinConcat(NonSpace(Concat(front)), NonSpace(Concat(c.All())), NonSpace(p), gap + NonSpace(p));
      SplitLast(pieces);
      ConcatAppend(front, [p]);
      assert Concat([p]) == p by { assert [p][1..] == []; }
      NonSpaceConcat(Concat(front), p);
    }
  }

  /** No split loses the content of what can be salvaged; the parts hold it in order. */
  lemma SalvageSurvives(text: string, size: nat, overlap: nat)
    requires StepOf(size, overlap) != 0
    ensures Within(NonSpace(Salvage(text, size, overlap)), NonSpace(Concat(Parts(text, size, overlap))))
  {
    var raw := RawParts(text, size, overlap);
    match PathOf(text, size, overlap)
    case Whole =>
      assert Concat([text]) == text by { assert [text][1..] == []; }
      WithinSelf(NonSpace(text));
    case On(sep) =>
      NonEmptyContent(raw);
      if overlap > 0 {
        CutRebuilds(Split(text, sep), sep, size, overlap);
        LeadingSeparators(text, sep);
        RebuildIsWithin(raw, overlap);
        WithinNonSpace(DropLeading(text, sep), Concat(raw));
      } else {
        PlainPiecesSurvive(Split(text, sep), sep, size);
      }
    case Hard =>
      if overlap <= size {
        HardCutKeepsTheText(text, size, overlap);
        RebuildIsWithin(raw, HardOverlap(size, overlap));
        WithinNonSpace(text, Concat(raw));
      }
  }

  lemma {:induction false} LeadingContent(text: string, sep: string)
    requires sep != ""
    ensures |NonSpace(DropLeading(text, sep))| + (if StartsWith(text, sep) then |NonSpace(sep)| else 0)
      <= |NonSpace(text)|
    decreases |text|
  {
    if sep <= text {
      LeadingContent(text[|sep|..], sep);
      assert text == sep + text[|sep|..];
      NonSpaceConcat(sep, text[|sep|..]);
    }
  }

  lemma OpensOnContent(text: string, sep: string)
    requires StartsWith(text, sep) && Trim(text) && sep != ""
    ensures NonSpace(sep) != ""
  {
    assert sep[0] == text[0];
  }

  /**
   All of a trimmed text is sure to survive, with an overlap no larger than the size, exactly when it does not open
   with its separator. The parts may hold more than what is sure to, where a carried tail repeats a separator.
   */
  lemma SalvagedWholeIff(text: string, size: nat, overlap: nat)
    requires 0 < overlap <= size && (text == "" || Trim(text))
    ensures var p := PathOf(text, size, overlap);
      NonSpace(Salvage(text, size, overlap)) == NonSpace(text) <==> !(p.On? && StartsWith(text, p.sep))
  {
    var p := PathOf(text, size, overlap);
    if p.On? && StartsWith(text, p.sep) {
      LeadingContent(text, p.sep);
      OpensOnContent(text, p.sep);
    }
  }

  /** Pieces of ". a. a. a. a" split on ". " with an overlap of 4 and a size of 5. */
  const STOPS := ["", "a", "a", "a", "a"]

  lemma CutSnoc(pieces: seq<string>, p: string, sep: string, size: nat, overlap: nat)
    ensures CutPieces(pieces + [p], sep, size, overlap)
      == Absorb(CutPieces(pieces, sep, size, overlap), p, sep, size, overlap)
  {
    assert (pieces + [p])[..|pieces|] == pieces;
  }

  lemma CutFirstStops()
    ensures CutPieces(["", "a", "a"], ". ", 5, 4) == Cut([], "a. a")
  {
    CutSnoc([], "", ". ", 5, 4);
    CutSnoc([""], "a", ". ", 5, 4);
    CutSnoc(["", "a"], "a", ". ", 5, 4);
    assert [] + [""] == [""] && [""] + ["a"] == ["", "a"] && ["", "a"] + ["a"] == ["", "a", "a"];
    assert "a" + ". " + "a" == "a. a";
  }

  lemma CutStops()
    ensures CutPieces(STOPS, ". ", 5, 4) == Cut(["a. a", "a. a. a"], "a. a. a")
  {
    CutFirstStops();
    CutSnoc(["", "a", "a"], "a", ". ", 5, 4);
    CutSnoc(["", "a", "a", "a"], "a", ". ", 5, 4);
    assert ["", "a", "a"] + ["a"] == ["", "a", "a", "a"] && ["", "a", "a", "a"] + ["a"] == STOPS;
    assert "a. a" + ". " + "a" == "a. a. a";
    assert Tail("a. a", 4) == "a. a" && Tail("a. a. a", 4) == "a. a";
  }

  lemma StopsJoin()
    ensures Join(STOPS, ". ") == ". a" + (". a. a" + ". a")
  {
    var four, three, two := ["a", "a", "a", "a"], ["a", "a", "a"], ["a", "a"];
    assert STOPS[1..] == four && four[1..] == three && three[1..] == two && two[1..] == ["a"];
    assert Join(["a"], ". ") == "a";
    assert Join(two, ". ") == "a" + ". " + "a" == "a. a";
    assert Join(three, ". ") == "a" + ". " + "a. a" == "a. a. a";
    assert Join(four, ". ") == "a" + ". " + "a. a. a" == "a. a. a. a";
    assert Join(STOPS, ". ") == "" + ". " + "a. a. a. a";
    assert ". a" + (". a. a" + ". a") == ". a. a. a. a";
  }

  lemma StopsAreWithin()
    ensures Within(". a" + (". a. a" + ". a"), "a. a" + ("a. a. a" + "a. a. a"))
  {
    WithinSelf(". a");
    WithinSelf(". a. a");
    WithinBehind(". a", "a", ". a");
    WithinBehind(". a. a", "a", ". a. a");
    WithinBehind(". a", "a. a", ". a");
    assert "a" + ". a" == "a. a" && "a" + ". a. a" == "a. a. a" && "a. a" + ". a" == "a. a. a";
    WithinConcat(". a. a", "a. a. a", ". a", "a. a. a");
    WithinConcat(". a", "a. a", ". a. a" + ". a", "a. a. a" + "a. a. a");
  }

  lemma ConcatOfThree(a: string, b: string, c: string)
    ensures Concat([a, b, c]) == a + (b + c)
  {
    assert [a, b, c][1..] == [b, c] && [b, c][1..] == [c] && [c][1..] == [];
    assert Concat([c]) == c;
  }

  /**
   A text can come back without the separator it opens with when its parts are rebuilt, and still be in the parts
   completely: here a carried tail repeats the stop.
   */
  lemma CarriedTailsCanSupplyTheStop()
    ensures var text, parts := Join(STOPS, ". "), CutPieces(STOPS, ". ", 5, 4).All();
      && StartsWith(text, ". ") && |Rebuild(parts, 4)| < |text| && Within(text, Concat(parts))
  {
    CutStops();
    StopsJoin();
    StopsAreWithin();
    ConcatOfThree("a. a", "a. a. a", "a. a. a");
    assert Cut(["a. a", "a. a. a"], "a. a. a").All() == ["a. a", "a. a. a", "a. a. a"];
    StopsRebuild();
  }

  lemma StopsRebuild()
    ensures |Rebuild(["a. a", "a. a. a", "a. a. a"], 4)| == 10
  {
    FreshStep("a. a. a", ["a. a. a"], 4);
    FreshStep("a. a", ["a. a. a", "a. a. a"], 4);
    assert ["a. a. a"] + ["a. a. a"] == ["a. a. a", "a. a. a"];
    assert ["a. a"] + ["a. a. a", "a. a. a"] == ["a. a", "a. a. a", "a. a. a"];
    assert |Fresh(["a. a. a"], 4)| == 0;
  }
}
