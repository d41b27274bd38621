/** The few Python string operations the modelled code leans on, and the laws used about them. */
module PyText {

  datatype Option<+T> = None | Some(value: T) {
    /** `self if self is not None else default` */
    function Or(default_: T): T {
      if Some? then value else default_
    }
  }

  /** Concatenation is associative; stated because sequence proofs that rebracket are costly. */
  lemma Associate<T>(a: seq<T>, b: seq<T>, c: seq<T>)
    ensures a + b + c == a + (b + c)
  {
  }

  lemma SplitLast<T>(xs: seq<T>)
    requires xs != []
    ensures xs == xs[..|xs| - 1] + [xs[|xs| - 1]]
  {
  }

  /** One more element of `b` after all of `a`. */
  lemma OneMore<T>(a: seq<T>, b: seq<T>, i: nat)
    requires i < |b|
    ensures a + b[..i + 1] == (a + b[..i]) + [b[i]]
  {
    assert b[..i + 1] == b[..i] + [b[i]];
    Associate(a, b[..i], [b[i]]);
  }

  /** The characters `str.isspace` accepts, by code point. */
  predicate IsSpace(c: char) {
    var n := c as int;
    || n == 0x20 || 0x09 <= n <= 0x0D || 0x1C <= n <= 0x1F || n == 0x85 || n == 0xA0 || n == 0x1680
    || 0x2000 <= n <= 0x200A || n == 0x2028 || n == 0x2029 || n == 0x202F || n == 0x205F || n == 0x3000
  }

  /** Below 128 these are the ten characters Python calls whitespace. */
  lemma AsciiSpaces(c: char)
    requires c < 128 as char
    ensures IsSpace(c) <==> c in {' ', '\t', '\n', '\U{0B}', '\U{0C}', '\r', '\U{1C}', '\U{1D}', '\U{1E}', '\U{1F}'}
  {
  }

  function LStrip(s: string): string {
    if s != "" && IsSpace(s[0]) then LStrip(s[1..]) else s
  }

  function RStrip(s: string): string {
    if s != "" && IsSpace(s[|s| - 1]) then RStrip(s[..|s| - 1]) else s
  }

  /** `s.strip()` */
  function Strip(s: string): string {
    RStrip(LStrip(s))
  }

  /** `not s or not s.strip()` */
  predicate Blank(s: string) {
    Strip(s) == ""
  }

  /** `sep.join(parts)` */
  function Join(parts: seq<string>, sep: string): string {
    if |parts| == 0 then "" else if |parts| == 1 then parts[0] else parts[0] + sep + Join(parts[1..], sep)
  }

  /** `"".join(parts)` */
  function Concat(parts: seq<string>): string {
    if |parts| == 0 then "" else parts[0] + Concat(parts[1..])
  }

  predicate OccursAt(hay: string, needle: string, i: nat) {
    i + |needle| <= |hay| && hay[i..i + |needle|] == needle
  }

  /** `needle in hay` */
  predicate Contains(hay: string, needle: string) {
    exists i :: 0 <= i <= |hay| && OccursAt(hay, needle, i)
  }

  /** `s.startswith(prefix)` */
  predicate StartsWith(s: string, prefix: string) {
    prefix <= s
  }

  /** What is left of a text once every whitespace character is dropped. */
  function NonSpace(s: string): string {
    if s == "" then "" else (if IsSpace(s[0]) then "" else [s[0]]) + NonSpace(s[1..])
  }

  lemma {:induction false} NonSpaceConcat(a: string, b: string)
    ensures NonSpace(a + b) == NonSpace(a) + NonSpace(b)
  {
    if a == "" {
      assert a + b == b;
    } else {
      assert (a + b)[1..] == a[1..] + b;
      NonSpaceConcat(a[1..], b);
    }
  }

  lemma {:induction false} NonSpaceLStrip(s: string)
    ensures NonSpace(LStrip(s)) == NonSpace(s)
  {
    if s != "" && IsSpace(s[0]) {
      NonSpaceLStrip(s[1..]);
    }
  }

  lemma {:induction false} NonSpaceRStrip(s: string)
    ensures NonSpace(RStrip(s)) == NonSpace(s)
  {
    if s != "" && IsSpace(s[|s| - 1]) {
      NonSpaceRStrip(s[..|s| - 1]);
      assert s == s[..|s| - 1] + [s[|s| - 1]];
      NonSpaceConcat(s[..|s| - 1], [s[|s| - 1]]);
    }
  }

  lemma NonSpaceStrip(s: string)
    ensures NonSpace(Strip(s)) == NonSpace(s)
  {
    NonSpaceLStrip(s);
    NonSpaceRStrip(LStrip(s));
  }

  /** Stripping drops whitespace only, so a blank text holds nothing else. */
  lemma BlankIffNoContent(s: string)
    ensures Blank(s) <==> NonSpace(s) == ""
  {
    NonSpaceStrip(s);
    StripEndsOnContent(s);
  }

  lemma {:induction false} RStripEnds(s: string)
    ensures RStrip(s) <= s
    ensures RStrip(s) != "" ==> !IsSpace(RStrip(s)[|RStrip(s)| - 1])
  {
    if s != "" && IsSpace(s[|s| - 1]) {
      RStripEnds(s[..|s| - 1]);
    }
  }

  lemma {:induction false} LStripStarts(s: string)
    ensures LStrip(s) != "" ==> !IsSpace(LStrip(s)[0])
  {
    if s != "" && IsSpace(s[0]) {
      LStripStarts(s[1..]);
    }
  }

  lemma StripEndsOnContent(s: string)
    ensures Strip(s) != "" ==> !IsSpace(Strip(s)[0]) && !IsSpace(Strip(s)[|Strip(s)| - 1])
  {
    LStripStarts(s);
    RStripEnds(LStrip(s));
  }

  /** Stripping takes whitespace off the two ends and leaves what is between as it stands. */
  lemma StripLeavesTheMiddle(s: string) returns (before: string, after: string)
    ensures s == before + Strip(s) + after && NonSpace(before) == "" && NonSpace(after) == ""
  {
    before := LStripDrops(s);
    after := RStripDrops(LStrip(s));
    Associate(before, Strip(s), after);
  }

  lemma {:induction false} LStripDrops(s: string) returns (before: string)
    ensures s == before + LStrip(s) && NonSpace(before) == ""
  {
    if s != "" && IsSpace(s[0]) {
      var rest := LStripDrops(s[1..]);
      before := [s[0]] + rest;
      assert before[1..] == rest;
      Associate([s[0]], rest, LStrip(s));
    } else {
      before := "";
    }
  }

  lemma {:induction false} RStripDrops(s: string) returns (after: string)
    ensures s == RStrip(s) + after && NonSpace(after) == ""
  {
    if s != "" && IsSpace(s[|s| - 1]) {
      var rest := RStripDrops(s[..|s| - 1]);
      after := rest + [s[|s| - 1]];
      NonSpaceConcat(rest, [s[|s| - 1]]);
      SplitLast(s);
      Associate(RStrip(s), rest, [s[|s| - 1]]);
    } else {
      after := "";
    }
  }

  lemma StripTwice(s: string)
    ensures Strip(Strip(s)) == Strip(s)
  {
    StripEndsOnContent(s);
  }

  lemma {:induction false} ConcatAppend(a: seq<string>, b: seq<string>)
    ensures Concat(a + b) == Concat(a) + Concat(b)
  {
    if a == [] {
      assert a + b == b;
    } else {
      assert (a + b)[1..] == a[1..] + b;
      ConcatAppend(a[1..], b);
    }
  }

  lemma {:induction false} JoinAppend(parts: seq<string>, last: string, sep: string)
    requires parts != []
    ensures Join(parts + [last], sep) == Join(parts, sep) + sep + last
  {
    if |parts| == 1 {
      assert (parts + [last])[1..] == [last];
    } else {
      assert (parts + [last])[1..] == parts[1..] + [last];
      JoinAppend(parts[1..], last, sep);
    }
  }

  // ------------------------------------------------------------ subsequences

  /** `a` can be had from `b` by leaving characters out. */
  predicate Within(a: string, b: string) {
    a == "" || (b != "" && ((a[0] == b[0] && Within(a[1..], b[1..])) || Within(a, b[1..])))
  }

  lemma {:induction false} WithinSelf(a: string)
    ensures Within(a, a)
  {
    if a != "" { WithinSelf(a[1..]); }
  }

  lemma {:induction false} WithinBehind(a: string, before: string, b: string)
    requires Within(a, b)
    ensures Within(a, before + b)
    decreases |before|
  {
    if before == "" {
      assert before + b == b;
    } else {
      assert (before + b)[1..] == before[1..] + b;
      WithinBehind(a, before[1..], b);
    }
  }

  lemma {:induction false} WithinConcat(a: string, b: string, c: string, d: string)
    requires Within(a, b) && Within(c, d)
    ensures Within(a + c, b + d)
    decreases |b|
  {
    if a == "" {
      assert a + c == c;
      WithinBehind(c, b, d);
    } else {
      assert (a + c)[1..] == a[1..] + c && (b + d)[1..] == b[1..] + d;
      if a[0] == b[0] && Within(a[1..], b[1..]) {
        WithinConcat(a[1..], b[1..], c, d);
      } else {
        WithinConcat(a, b[1..], c, d);
      }
    }
  }

  lemma WithinAhead(a: string, b: string, after: string)
    requires Within(a, b)
    ensures Within(a, b + after)
  {
    WithinConcat(a, b, "", after);
    assert a + "" == a;
  }

  lemma {:induction false} WithinTransitive(a: string, b: string, c: string)
    requires Within(a, b) && Within(b, c)
    ensures Within(a, c)
    decreases |c|
  {
    if a != "" {
      if b[0] == c[0] && Within(b[1..], c[1..]) {
        if a[0] == b[0] && Within(a[1..], b[1..]) {
          WithinTransitive(a[1..], b[1..], c[1..]);
        } else {
          WithinTransitive(a, b[1..], c[1..]);
        }
      } else {
        WithinTransitive(a, b, c[1..]);
      }
    }
  }

  /** A subsequence is no longer than the text, and as long only when it is the text. */
  lemma {:induction false} WithinIsShorter(a: string, b: string)
    requires Within(a, b)
    ensures |a| <= |b| && (|a| == |b| ==> a == b)
    decreases |b|
  {
    if a != "" {
      if a[0] == b[0] && Within(a[1..], b[1..]) {
        WithinIsShorter(a[1..], b[1..]);
        assert a == [a[0]] + a[1..] && b == [b[0]] + b[1..];
      } else {
        WithinIsShorter(a, b[1..]);
      }
    }
  }

  lemma {:induction false} WithinNonSpace(a: string, b: string)
    requires Within(a, b)
    ensures Within(NonSpace(a), NonSpace(b))
    decreases |b|
  {
    if a != "" {
      if a[0] == b[0] && Within(a[1..], b[1..]) {
        WithinNonSpace(a[1..], b[1..]);
        var head := if IsSpace(a[0]) then "" else [a[0]];
        WithinSelf(head);
        WithinConcat(head, head, NonSpace(a[1..]), NonSpace(b[1..]));
      } else {
        WithinNonSpace(a, b[1..]);
        WithinBehind(NonSpace(a), if IsSpace(b[0]) then "" else [b[0]], NonSpace(b[1..]));
      }
    }
  }

  // ------------------------------------------------------------ string order

  /** Code-point order, the order Python compares strings in. */
  predicate LexLeq(a: string, b: string) {
    a == "" || (b != "" && (a[0] < b[0] || (a[0] == b[0] && LexLeq(a[1..], b[1..]))))
  }

  /** The first character that differs decides, and a text comes before its continuations. */
  lemma {:induction false} LexByFirstDifference(p: string, a: string, b: string)
    ensures LexLeq(p, p + a)
    ensures a != "" && b != "" && a[0] < b[0] ==> LexLeq(p + a, p + b) && !LexLeq(p + b, p + a)
    decreases |p|
  {
    if p == "" {
      assert p + a == a && p + b == b;
    } else {
      assert (p + a)[1..] == p[1..] + a && (p + b)[1..] == p[1..] + b;
      LexByFirstDifference(p[1..], a, b);
    }
  }

  lemma {:induction false} LexTotal(a: string, b: string)
    ensures LexLeq(a, b) || LexLeq(b, a)
  {
    if a != "" && b != "" && a[0] == b[0] {
      LexTotal(a[1..], b[1..]);
    }
  }

  lemma {:induction false} LexAntisymmetric(a: string, b: string)
    requires LexLeq(a, b) && LexLeq(b, a)
    ensures a == b
  {
    if a != "" {
      LexAntisymmetric(a[1..], b[1..]);
      assert a == [a[0]] + a[1..] && b == [b[0]] + b[1..];
    }
  }

  lemma {:induction false} LexTransitive(a: string, b: string, c: string)
    requires LexLeq(a, b) && LexLeq(b, c)
    ensures LexLeq(a, c)
  {
    if a != "" && a[0] == b[0] && b[0] == c[0] {
      LexTransitive(a[1..], b[1..], c[1..]);
    }
  }
}
