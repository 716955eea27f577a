/**
 * The structure-aware text chunker of backend/app/utils/text_chunking.py:
 * whitespace-normalised windowing with a sentence/word break heuristic
 * (`chunk_text`), header-delimited sections (`chunk_markdown_content`),
 * frontmatter extraction (`chunk_mdx_content`) and dispatch on the file
 * extension (`create_chunks_from_file`).
 */
module Chunking {
  import opened Wrappers
  import opened Text

  /** Fragments whose stripped length is at most this are dropped. */
  const MinChunkLength := 50

  /** The default header of text that precedes the first header line. */
  const DefaultHeader := "Introduction"

  /** The default `title` of an MDX chunk. */
  const DefaultTitle := "Unknown Chapter"

  // ---------------------------------------------------------------------
  // Whitespace normalisation: re.sub(r'\s+', ' ', text)
  // ---------------------------------------------------------------------

  /** Every maximal run of whitespace becomes one space. */
  function Normalize(s: string): (r: string)
    ensures |r| <= |s|
    ensures r == [] <==> s == []
    ensures s != [] ==> (IsSpace(r[0]) <==> IsSpace(s[0]))
    ensures NoDoubleSpace(r)
    ensures forall i :: 0 <= i < |r| && IsSpace(r[i]) ==> r[i] == ' '
    decreases |s|
  {
    if s == [] then []
    else if IsSpace(s[0]) then
      var n := LeadLen(s, IsSpace);
      [' '] + Normalize(s[n..])
    else [s[0]] + Normalize(s[1..])
  }

  /** The characters of `s` that are not whitespace, in order. */
  function Visible(s: string): string {
    if s == [] then [] else (if IsSpace(s[0]) then [] else [s[0]]) + Visible(s[1..])
  }

  lemma {:induction false} VisibleOfBlank(s: string)
    requires IsBlank(s)
    ensures Visible(s) == []
  {
    if s != [] {
      VisibleOfBlank(s[1..]);
    }
  }

  lemma {:induction false} VisibleAppend(a: string, b: string)
    ensures Visible(a + b) == Visible(a) + Visible(b)
  {
    if a == [] {
      assert a + b == b;
    } else {
      assert (a + b)[1..] == a[1..] + b;
      VisibleAppend(a[1..], b);
    }
  }

  /** Normalisation neither loses, invents nor reorders a visible character. */
  lemma {:induction false} NormalizeKeepsVisible(s: string)
    ensures Visible(Normalize(s)) == Visible(s)
    decreases |s|
  {
    if s != [] {
      if IsSpace(s[0]) {
        var n := LeadLen(s, IsSpace);
        NormalizeKeepsVisible(s[n..]);
        assert s == s[..n] + s[n..];
        VisibleAppend(s[..n], s[n..]);
        VisibleOfBlank(s[..n]);
        VisibleAppend([' '], Normalize(s[n..]));
      } else {
        NormalizeKeepsVisible(s[1..]);
        VisibleAppend([s[0]], Normalize(s[1..]));
        assert s == [s[0]] + s[1..];
        VisibleAppend([s[0]], s[1..]);
      }
    }
  }

  /** Normalisation keeps whether the text ends in whitespace. */
  lemma {:induction false} NormalizeLast(s: string)
    requires s != []
    ensures Normalize(s) != [] && (IsSpace(Normalize(s)[|Normalize(s)| - 1]) <==> IsSpace(s[|s| - 1]))
    decreases |s|
  {
    var r := Normalize(s);
    if IsSpace(s[0]) {
      var n := LeadLen(s, IsSpace);
      var t := s[n..];
      assert r == [' '] + Normalize(t);
      if n < |s| {
        NormalizeLast(t);
        assert r[|r| - 1] == Normalize(t)[|Normalize(t)| - 1];
        assert t[|t| - 1] == s[|s| - 1];
      } else {
        assert IsSpace(s[|s| - 1]);
      }
    } else if 1 < |s| {
      var t := s[1..];
      assert r == [s[0]] + Normalize(t);
      NormalizeLast(t);
      assert r[|r| - 1] == Normalize(t)[|Normalize(t)| - 1];
      assert t[|t| - 1] == s[|s| - 1];
    }
  }

  predicate IsWordChar(c: char) {
    !IsSpace(c)
  }

  /** `str.split()`: the maximal runs of non-whitespace characters, in order. */
  function Words(s: string): seq<string>
    decreases |s|
  {
    if s == [] then []
    else if IsSpace(s[0]) then Words(s[LeadLen(s, IsSpace)..])
    else
      var n := LeadLen(s, IsWordChar);
      [s[..n]] + Words(s[n..])
  }

  /** A visible character in front of `t` starts a word of its own or joins the first one. */
  lemma WordsCons(c: char, t: string)
    requires !IsSpace(c)
    ensures t == [] || IsSpace(t[0]) ==> Words([c] + t) == [[c]] + Words(t)
    ensures t != [] && !IsSpace(t[0]) ==> Words(t) != [] && Words([c] + t) == [[c] + Words(t)[0]] + Words(t)[1..]
  {
    var s := [c] + t;
    assert s[1..] == t;
    var m := LeadLen(t, IsWordChar);
    assert LeadLen(s, IsWordChar) == 1 + m;
    assert s[1 + m..] == t[m..];
    assert s[..1 + m] == [c] + t[..m];
  }

  /** Normalisation neither merges, splits, loses nor invents a word (`s.split()` is unchanged). */
  lemma {:induction false} NormalizeWords(s: string)
    ensures Words(Normalize(s)) == Words(s)
    decreases |s|
  {
    if s != [] {
      if IsSpace(s[0]) {
        var n := LeadLen(s, IsSpace);
        var rest := Normalize(s[n..]);
        NormalizeWords(s[n..]);
        var r := [' '] + rest;
        assert r[1..] == rest;
        assert rest == [] || !IsSpace(rest[0]);
        assert LeadLen(r, IsSpace) == 1;
      } else {
        NormalizeWords(s[1..]);
        WordsCons(s[0], s[1..]);
        WordsCons(s[0], Normalize(s[1..]));
        assert s == [s[0]] + s[1..];
      }
    }
  }

  // ---------------------------------------------------------------------
  // The break rule: str.rfind over a trailing sub-window, then max
  // ---------------------------------------------------------------------

  /**
   * Python's normalisation of a slice bound `i` on a sequence of length `n`:
   * a negative bound counts from the end, and the result is clamped to [0, n].
   */
  function ClampIndex(i: int, n: nat): (k: nat)
    ensures k <= n
    ensures 0 <= i <= n ==> k == i
  {
    if i < 0 then (if i + n < 0 then 0 else i + n) else if i > n then n else i
  }

  /**
   * `k` is the last index in [lo, hi) of `s` holding `c`, or -1 when there
   * is none.
   */
  predicate LastIn(s: string, c: char, lo: nat, hi: nat, k: int) {
    && hi <= |s|
    && (k == -1 || (lo <= k < hi && s[k] == c))
    && forall j :: (if k == -1 then lo else k + 1) <= j < hi ==> s[j] != c
  }

  /** The last index in [lo, hi) holding `c`, or -1. */
  function RFindIn(s: string, c: char, lo: nat, hi: nat): (k: int)
    requires hi <= |s|
    ensures k == -1 || (lo <= k < hi && s[k] == c)
    decreases hi
  {
    if hi <= lo then -1
    else if s[hi - 1] == c then hi - 1
    else RFindIn(s, c, lo, hi - 1)
  }

  lemma {:induction false} RFindInLast(s: string, c: char, lo: nat, hi: nat)
    requires hi <= |s|
    ensures LastIn(s, c, lo, hi, RFindIn(s, c, lo, hi))
    decreases hi
  {
    if hi > lo && s[hi - 1] != c {
      RFindInLast(s, c, lo, hi - 1);
    }
  }

  /** `s.rfind(c, start, end)` for a one-character needle. */
  function RFind(s: string, c: char, start: int, end: int): (k: int)
    ensures k == -1 || (ClampIndex(start, |s|) <= k < ClampIndex(end, |s|) && s[k] == c)
  {
    RFindIn(s, c, ClampIndex(start, |s|), ClampIndex(end, |s|))
  }

  /** `rfind` finds the last occurrence of `c` in the clamped range, and -1 only when there is none. */
  lemma RFindLast(s: string, c: char, start: int, end: int)
    ensures LastIn(s, c, ClampIndex(start, |s|), ClampIndex(end, |s|), RFind(s, c, start, end))
  {
    RFindInLast(s, c, ClampIndex(start, |s|), ClampIndex(end, |s|));
  }

  /** `max([k for k in ks if k != -1], default=-1)`. */
  function LargestFound(ks: seq<int>): (m: int)
    ensures m == -1 || (m in ks && m != -1)
  {
    if ks == [] then -1
    else
      var rest := LargestFound(ks[1..]);
      assert rest in ks[1..] ==> rest in ks;
      if ks[0] != -1 && (rest == -1 || ks[0] > rest) then ks[0] else rest
  }

  /** The result is -1 only when nothing was found, and otherwise no found index exceeds it. */
  lemma {:induction false} LargestFoundIsMax(ks: seq<int>)
    ensures var m := LargestFound(ks);
            && (m == -1 || (m in ks && m != -1))
            && (m == -1 <==> forall k :: k in ks ==> k == -1)
            && (forall k :: k in ks && k != -1 ==> k <= m)
  {
    if ks != [] {
      LargestFoundIsMax(ks[1..]);
      assert forall k :: k in ks <==> k == ks[0] || k in ks[1..];
    }
  }

  predicate IsBreakChar(c: char) {
    c == ' ' || c == '.' || c == '!' || c == '?'
  }

  /**
   * `k` is the last index in [lo, hi) of `s` holding a break character, or
   * -1 when there is none.
   */
  predicate RightmostBreak(s: string, lo: nat, hi: nat, k: int) {
    && hi <= |s|
    && (k == -1 || (lo <= k < hi && IsBreakChar(s[k])))
    && forall j :: (if k == -1 then lo else k + 1) <= j < hi ==> !IsBreakChar(s[j])
  }

  /** There is only one rightmost break. */
  lemma RightmostBreakUnique(s: string, lo: nat, hi: nat, k1: int, k2: int)
    requires RightmostBreak(s, lo, hi, k1) && RightmostBreak(s, lo, hi, k2)
    ensures k1 == k2
  {
    if k1 != -1 {
      assert IsBreakChar(s[k1]);
    }
    if k2 != -1 {
      assert IsBreakChar(s[k2]);
    }
  }

  /** The rightmost break of a slice, in the indices of the whole string. */
  lemma RightmostBreakShift(text: string, start: nat, len: nat, lo: nat, hi: nat, k: int)
    requires start + len <= |text| && hi <= len
    requires RightmostBreak(text[start..start + len], lo, hi, k)
    ensures RightmostBreak(text, start + lo, start + hi, if k == -1 then -1 else start + k)
  {
    var chunk := text[start..start + len];
    forall j | (if k == -1 then start + lo else start + k + 1) <= j < start + hi
      ensures !IsBreakChar(text[j])
    {
      assert text[j] == chunk[j - start];
    }
    if k != -1 {
      assert text[start + k] == chunk[k];
    }
  }

  /** The largest of four last occurrences is the last occurrence of any of the four characters. */
  lemma LargestOfFour(s: string, lo: nat, hi: nat, a: int, b: int, c: int, d: int)
    requires LastIn(s, ' ', lo, hi, a) && LastIn(s, '.', lo, hi, b)
    requires LastIn(s, '!', lo, hi, c) && LastIn(s, '?', lo, hi, d)
    ensures RightmostBreak(s, lo, hi, LargestFound([a, b, c, d]))
  {
    var ks := [a, b, c, d];
    LargestFoundIsMax(ks);
    assert a in ks && b in ks && c in ks && d in ks;
  }

  /** Start and end of the searched sub-window of a chunk of `chunkSize` characters. */
  function SearchLo(chunkSize: nat): nat { ClampIndex(chunkSize - 200, chunkSize) }
  function SearchHi(chunkSize: nat): nat { ClampIndex(chunkSize - 100, chunkSize) }

  /** The candidate break of a full window: the largest of the four `rfind`s. */
  function BreakPoint(chunk: string, chunkSize: int): int {
    LargestFound([RFind(chunk, ' ', chunkSize - 200, chunkSize - 100),
                  RFind(chunk, '.', chunkSize - 200, chunkSize - 100),
                  RFind(chunk, '!', chunkSize - 200, chunkSize - 100),
                  RFind(chunk, '?', chunkSize - 200, chunkSize - 100)])
  }

  /**
   * Taking the largest of four single-character searches is the same as one
   * search for the rightmost break character of the sub-window.
   */
  lemma BreakPointIsRightmost(chunk: string, chunkSize: nat)
    requires |chunk| == chunkSize
    ensures RightmostBreak(chunk, SearchLo(chunkSize), SearchHi(chunkSize), BreakPoint(chunk, chunkSize))
  {
    RFindLast(chunk, ' ', chunkSize - 200, chunkSize - 100);
    RFindLast(chunk, '.', chunkSize - 200, chunkSize - 100);
    RFindLast(chunk, '!', chunkSize - 200, chunkSize - 100);
    RFindLast(chunk, '?', chunkSize - 200, chunkSize - 100);
    LargestOfFour(chunk, SearchLo(chunkSize), SearchHi(chunkSize),
                  RFind(chunk, ' ', chunkSize - 200, chunkSize - 100),
                  RFind(chunk, '.', chunkSize - 200, chunkSize - 100),
                  RFind(chunk, '!', chunkSize - 200, chunkSize - 100),
                  RFind(chunk, '?', chunkSize - 200, chunkSize - 100));
  }

  /** The least sub-window index at which a break is accepted (past the midpoint). */
  function LowestBreak(chunkSize: nat): nat {
    if SearchLo(chunkSize) > chunkSize / 2 + 1 then SearchLo(chunkSize) else chunkSize / 2 + 1
  }

  /**
   * The windowing loop makes progress on every text exactly when the window
   * is non-empty, each hard cut outruns the overlap, and so does every
   * accepted break whenever a break can be accepted at all.
   */
  predicate Progresses(chunkSize: nat, overlap: int) {
    && 0 < chunkSize
    && overlap < chunkSize
    && (LowestBreak(chunkSize) < SearchHi(chunkSize) ==> overlap <= LowestBreak(chunkSize))
  }

  /** The last index in [lo, hi) of `s` holding a break character, or -1. */
  function RFindBreak(s: string, lo: nat, hi: nat): (k: int)
    requires hi <= |s|
    ensures k == -1 || (lo <= k < hi && IsBreakChar(s[k]))
    decreases hi
  {
    if hi <= lo then -1
    else if IsBreakChar(s[hi - 1]) then hi - 1
    else RFindBreak(s, lo, hi - 1)
  }

  lemma {:induction false} RFindBreakLast(s: string, lo: nat, hi: nat)
    requires hi <= |s|
    ensures RightmostBreak(s, lo, hi, RFindBreak(s, lo, hi))
    decreases hi
  {
    if hi > lo && !IsBreakChar(s[hi - 1]) {
      RFindBreakLast(s, lo, hi - 1);
    }
  }

  /**
   * Where the window that starts at `start` ends, when it is not the last
   * one: just after the rightmost break character of the searched
   * sub-window when that lies past the midpoint, and at `chunkSize`
   * otherwise. `CutIsBreakRule` shows this is the code's four `rfind`s.
   */
  function Cut(text: string, start: nat, chunkSize: nat): (c: nat)
    requires 0 < chunkSize && start + chunkSize < |text|
    ensures start < c <= start + chunkSize
  {
    var k := RFindBreak(text, start + SearchLo(chunkSize), start + SearchHi(chunkSize));
    if k != -1 && k - start > chunkSize / 2 then k + 1 else start + chunkSize
  }

  /** The cut, given the rightmost break of the window text. */
  lemma CutFromRightmost(text: string, start: nat, chunkSize: nat, bp: int)
    requires 0 < chunkSize && start + chunkSize < |text|
    requires RightmostBreak(text[start..start + chunkSize], SearchLo(chunkSize), SearchHi(chunkSize), bp)
    ensures Cut(text, start, chunkSize) == if bp != -1 && bp > chunkSize / 2 then start + bp + 1 else start + chunkSize
  {
    var lo, hi := SearchLo(chunkSize), SearchHi(chunkSize);
    RightmostBreakShift(text, start, chunkSize, lo, hi, bp);
    RFindBreakLast(text, start + lo, start + hi);
    RightmostBreakUnique(text, start + lo, start + hi,
                         if bp == -1 then -1 else start + bp, RFindBreak(text, start + lo, start + hi));
  }

  /** `Cut` is what the code computes from `BreakPoint` of the window text. */
  lemma CutIsBreakRule(text: string, start: nat, chunkSize: nat)
    requires 0 < chunkSize && start + chunkSize < |text|
    ensures var bp := BreakPoint(text[start..start + chunkSize], chunkSize);
            Cut(text, start, chunkSize) == if bp != -1 && bp > chunkSize / 2 then start + bp + 1 else start + chunkSize
  {
    BreakPointIsRightmost(text[start..start + chunkSize], chunkSize);
    CutFromRightmost(text, start, chunkSize, BreakPoint(text[start..start + chunkSize], chunkSize));
  }

  /**
   * The cut falls just after the rightmost break character of the
   * sub-window when that lies past the midpoint, and exactly at
   * `chunkSize` otherwise.
   */
  lemma CutRule(text: string, start: nat, chunkSize: nat)
    requires 0 < chunkSize && start + chunkSize < |text|
    ensures var c := Cut(text, start, chunkSize);
            var lo, hi := SearchLo(chunkSize), SearchHi(chunkSize);
            && (c < start + chunkSize ==>
                  && IsBreakChar(text[c - 1])
                  && lo <= c - 1 - start < hi
                  && c - 1 - start > chunkSize / 2
                  && forall j :: c <= j < start + hi ==> !IsBreakChar(text[j]))
            && (c == start + chunkSize ==>
                  forall j :: start + lo <= j < start + hi && j - start > chunkSize / 2 ==> !IsBreakChar(text[j]))
  {
    RFindBreakLast(text, start + SearchLo(chunkSize), start + SearchHi(chunkSize));
  }

  /** Under `Progresses`, the next window starts strictly after this one. */
  lemma CutAdvances(text: string, start: nat, chunkSize: nat, overlap: int)
    requires Progresses(chunkSize, overlap) && start + chunkSize < |text|
    ensures Cut(text, start, chunkSize) - overlap > start
  {
    CutRule(text, start, chunkSize);
  }

  // ---------------------------------------------------------------------
  // The raw windows of chunk_text and the chunks it keeps
  // ---------------------------------------------------------------------

  /** A window text[lo:hi]. */
  datatype Span = Span(lo: nat, hi: nat)

  /**
   * With `chunk_size` 1000 and an overlap of 1000, a window with no break
   * character in its search range restarts at its own start, so the loop
   * of `chunk_text` never ends.
   */
  lemma StalledRestart(text: string, start: nat)
    requires start + 1000 < |text|
    requires forall j :: start + 800 <= j < start + 900 ==> !IsBreakChar(text[j])
    ensures Cut(text, start, 1000) - 1000 == start
    ensures !Progresses(1000, 1000)
  {
    assert SearchLo(1000) == 800 && SearchHi(1000) == 900;
    RFindBreakLast(text, start + 800, start + 900);
  }

  /** The windows the loop of `chunk_text` cuts from `text`, from `start` on. */
  function Windows(text: string, chunkSize: nat, overlap: int, start: nat): (w: seq<Span>)
    requires Progresses(chunkSize, overlap)
    ensures w == [] <==> start >= |text|
    ensures w != [] ==> w[0].lo == start < w[0].hi
    decreases |text| - start
  {
    if start >= |text| then []
    else if start + chunkSize >= |text| then [Span(start, |text|)]
    else
      var c := Cut(text, start, chunkSize);
      CutAdvances(text, start, chunkSize, overlap);
      [Span(start, c)] + Windows(text, chunkSize, overlap, c - overlap)
  }

  /** Every window is a non-empty slice of at most `chunkSize` characters, in increasing start order. */
  lemma {:induction false} WindowsWithin(text: string, chunkSize: nat, overlap: int, start: nat)
    requires Progresses(chunkSize, overlap)
    ensures var w := Windows(text, chunkSize, overlap, start);
            && (forall i :: 0 <= i < |w| ==> start <= w[i].lo < w[i].hi <= |text| && w[i].hi - w[i].lo <= chunkSize)
            && (forall i :: 0 <= i < |w| - 1 ==> w[i].lo < w[i + 1].lo)
            && (|w| > 0 ==> w[0].lo == start)
    decreases |text| - start
  {
    if start < |text| && start + chunkSize < |text| {
      var c := Cut(text, start, chunkSize);
      CutAdvances(text, start, chunkSize, overlap);
      WindowsWithin(text, chunkSize, overlap, c - overlap);
      var rest := Windows(text, chunkSize, overlap, c - overlap);
      var w := Windows(text, chunkSize, overlap, start);
      assert w == [Span(start, c)] + rest;
      assert forall i :: 0 < i < |w| ==> w[i] == rest[i - 1];
    }
  }

  /**
   * With a non-negative overlap the windows tile the text from `start` to
   * the end: each later window starts exactly `overlap` characters before
   * the previous one ends, so consecutive windows share `overlap` characters.
   */
  lemma {:induction false} WindowsOverlap(text: string, chunkSize: nat, overlap: int, start: nat)
    requires Progresses(chunkSize, overlap) && 0 <= overlap && start < |text|
    ensures var w := Windows(text, chunkSize, overlap, start);
            && |w| >= 1
            && w[0].lo == start
            && w[|w| - 1].hi == |text|
            && (forall i :: 0 <= i < |w| - 1 ==> Linked(text, chunkSize, overlap, w[i], w[i + 1]))
    decreases |text| - start
  {
    var w := Windows(text, chunkSize, overlap, start);
    if start + chunkSize < |text| {
      var c := Cut(text, start, chunkSize);
      CutAdvances(text, start, chunkSize, overlap);
      WindowsOverlap(text, chunkSize, overlap, c - overlap);
      var rest := Windows(text, chunkSize, overlap, c - overlap);
      assert w == [Span(start, c)] + rest;
      forall i | 0 <= i < |w| - 1 ensures Linked(text, chunkSize, overlap, w[i], w[i + 1]) {
        if i > 0 {
          assert w[i] == rest[i - 1] && w[i + 1] == rest[i];
        }
      }
    }
  }

  /**
   * Window `b` follows window `a`: `a` was cut by the break rule, outlasts
   * the overlap, and `b` starts `overlap` characters before `a` ends.
   */
  predicate Linked(text: string, chunkSize: nat, overlap: int, a: Span, b: Span) {
    && 0 < chunkSize
    && a.lo + chunkSize < |text|
    && a.hi == Cut(text, a.lo, chunkSize)
    && overlap < a.hi - a.lo
    && b.lo == a.hi - overlap
  }

  /** Two windows, the second starting `overlap` characters before the first ends, share those characters. */
  lemma SpansShare(text: string, overlap: nat, x: Span, y: Span)
    requires x.lo + overlap <= x.hi <= |text| && y.lo + overlap <= y.hi <= |text|
    requires y.lo == x.hi - overlap
    ensures var a, b := Slice(text, x), Slice(text, y);
            overlap <= |a| && overlap <= |b| && a[|a| - overlap..] == b[..overlap]
  {
    var a, b := text[x.lo..x.hi], text[y.lo..y.hi];
    assert a[|a| - overlap..] == text[y.lo..x.hi];
    assert b[..overlap] == text[y.lo..x.hi];
  }

  /** Consecutive raw windows agree on the `overlap` characters they share. */
  lemma WindowsShareOverlap(text: string, chunkSize: nat, overlap: int, i: nat)
    requires Progresses(chunkSize, overlap) && 0 <= overlap && |text| > 0
    requires i + 1 < |Windows(text, chunkSize, overlap, 0)|
    ensures var w := Windows(text, chunkSize, overlap, 0);
            var a, b := Slice(text, w[i]), Slice(text, w[i + 1]);
            overlap <= |a| && overlap <= |b| && a[|a| - overlap..] == b[..overlap]
  {
    var w := Windows(text, chunkSize, overlap, 0);
    WindowsWithin(text, chunkSize, overlap, 0);
    WindowsOverlap(text, chunkSize, overlap, 0);
    var x, y := w[i], w[i + 1];
    assert Linked(text, chunkSize, overlap, x, y);
    assert y.lo == x.hi - overlap;
    assert x.lo + overlap <= x.hi;
    assert x.hi <= |text|;
    if i + 2 < |w| {
      assert Linked(text, chunkSize, overlap, y, w[i + 2]);
      assert y.lo + overlap <= y.hi;
    } else {
      assert i + 1 == |w| - 1;
      assert y.hi == |text|;
    }
    SpansShare(text, overlap, x, y);
  }

  /** text[sp.lo:sp.hi]. */
  function Slice(text: string, sp: Span): string {
    if sp.lo <= sp.hi <= |text| then text[sp.lo..sp.hi] else []
  }

  /** `[c.strip() for c in raw if len(c.strip()) > 50]`. */
  function KeepSubstantial(raw: seq<string>): (r: seq<string>)
    ensures |r| <= |raw|
  {
    if raw == [] then []
    else (if |Strip(raw[0])| > MinChunkLength then [Strip(raw[0])] else []) + KeepSubstantial(raw[1..])
  }

  /** Every kept chunk is stripped and longer than 50 characters. */
  lemma {:induction false} KeepSubstantialStripped(raw: seq<string>)
    ensures forall i :: 0 <= i < |KeepSubstantial(raw)| ==>
              IsStripped(KeepSubstantial(raw)[i]) && |KeepSubstantial(raw)[i]| > MinChunkLength
  {
    if raw != [] {
      KeepSubstantialStripped(raw[1..]);
      var head := if |Strip(raw[0])| > MinChunkLength then [Strip(raw[0])] else [];
      var rest := KeepSubstantial(raw[1..]);
      var r := KeepSubstantial(raw);
      assert r == head + rest;
      forall i | 0 <= i < |r| ensures IsStripped(r[i]) && |r[i]| > MinChunkLength {
        if i < |head| {
          assert r[i] == Strip(raw[0]);
        } else {
          assert r[i] == rest[i - |head|];
        }
      }
    }
  }

  /** The kept chunks are exactly the stripped fragments longer than 50 characters. */
  lemma {:induction false} KeepSubstantialMembers(raw: seq<string>)
    ensures var r := KeepSubstantial(raw);
            forall x :: x in r <==> exists c :: c in raw && Strip(c) == x && |x| > MinChunkLength
  {
    if raw != [] {
      KeepSubstantialMembers(raw[1..]);
      var head := if |Strip(raw[0])| > MinChunkLength then [Strip(raw[0])] else [];
      var rest := KeepSubstantial(raw[1..]);
      var r := KeepSubstantial(raw);
      assert r == head + rest;
      forall x | x in r ensures exists c :: c in raw && Strip(c) == x && |x| > MinChunkLength {
        if x in head {
          assert raw[0] in raw;
        } else {
          assert x in rest;
          var c :| c in raw[1..] && Strip(c) == x && |x| > MinChunkLength;
          assert c in raw;
        }
      }
      forall c | c in raw && |Strip(c)| > MinChunkLength ensures Strip(c) in r {
        if c == raw[0] {
          assert Strip(c) in head;
        } else {
          assert c in raw[1..];
          assert Strip(c) in rest;
        }
      }
    }
  }

  /** Keeping the substantial fragments keeps their bounds and their single spaces. */
  lemma {:induction false} KeepSubstantialBounds(raw: seq<string>, bound: nat)
    requires forall i :: 0 <= i < |raw| ==> |raw[i]| <= bound && NoDoubleSpace(raw[i])
    ensures forall i :: 0 <= i < |KeepSubstantial(raw)| ==>
              |KeepSubstantial(raw)[i]| <= bound && NoDoubleSpace(KeepSubstantial(raw)[i])
  {
    if raw != [] {
      KeepSubstantialBounds(raw[1..], bound);
      StripSingleSpaced(raw[0]);
      var head := if |Strip(raw[0])| > MinChunkLength then [Strip(raw[0])] else [];
      var rest := KeepSubstantial(raw[1..]);
      assert KeepSubstantial(raw) == head + rest;
      assert forall i :: |head| <= i < |head| + |rest| ==> (head + rest)[i] == rest[i - |head|];
    }
  }

  /** Stripping keeps a string without whitespace runs without them. */
  lemma StripSingleSpaced(s: string)
    requires NoDoubleSpace(s)
    ensures NoDoubleSpace(Strip(s))
  {
    NoDoubleSpaceFactor(s, LeadLen(s, IsSpace), LeadLen(s, IsSpace) + |Strip(s)|);
  }

  /** The raw windows of `text` once normalised, before the length filter. */
  function RawWindows(text: string, chunkSize: nat, overlap: int): seq<string>
    requires Progresses(chunkSize, overlap)
  {
    var t := Normalize(text);
    Slices(t, Windows(t, chunkSize, overlap, 0))
  }

  /** The text of each window. */
  function Slices(text: string, w: seq<Span>): (r: seq<string>)
    ensures |r| == |w|
  {
    seq(|w|, i requires 0 <= i < |w| => Slice(text, w[i]))
  }

  /** What `chunk_text(text, chunk_size, overlap)` returns. */
  function Chunks(text: string, chunkSize: nat, overlap: int): (r: seq<string>)
    requires Progresses(chunkSize, overlap)
    ensures IsBlank(text) ==> r == []
    ensures |r| <= |RawWindows(text, chunkSize, overlap)|
  {
    if text == [] || |Strip(text)| == 0 then [] else KeepSubstantial(RawWindows(text, chunkSize, overlap))
  }

  /**
   * Every chunk is stripped, longer than 50 and at most `chunkSize`
   * characters, and holds no two whitespace characters in a row; a blank
   * text has no chunks.
   */
  lemma ChunksShape(text: string, chunkSize: nat, overlap: int)
    requires Progresses(chunkSize, overlap)
    ensures IsBlank(text) ==> Chunks(text, chunkSize, overlap) == []
    ensures forall i :: 0 <= i < |Chunks(text, chunkSize, overlap)| ==>
              var c := Chunks(text, chunkSize, overlap)[i];
              IsStripped(c) && MinChunkLength < |c| <= chunkSize && NoDoubleSpace(c)
  {
    if !(text == [] || |Strip(text)| == 0) {
      var t := Normalize(text);
      var w := Windows(t, chunkSize, overlap, 0);
      WindowsWithin(t, chunkSize, overlap, 0);
      var raw := RawWindows(text, chunkSize, overlap);
      forall i | 0 <= i < |raw| ensures |raw[i]| <= chunkSize && NoDoubleSpace(raw[i]) {
        NoDoubleSpaceFactor(t, w[i].lo, w[i].hi);
      }
      KeepSubstantialBounds(raw, chunkSize);
      KeepSubstantialStripped(raw);
    }
  }

  /**
   * `chunk_text`: normalise whitespace, cut windows greedily and keep the
   * stripped windows longer than 50 characters.
   */
  method ChunkText(text: string, chunkSize: nat, overlap: int) returns (chunks: seq<string>)
    requires Progresses(chunkSize, overlap)
    ensures chunks == Chunks(text, chunkSize, overlap)
    ensures IsBlank(text) ==> chunks == []
    ensures forall i :: 0 <= i < |chunks| ==>
              IsStripped(chunks[i]) && MinChunkLength < |chunks[i]| <= chunkSize && NoDoubleSpace(chunks[i])
  {
    ChunksShape(text, chunkSize, overlap);
    if text == [] || |Strip(text)| == 0 {
      return [];
    }
    var t := Normalize(text);
    var raw := CutWindows(t, chunkSize, overlap);
    chunks := KeepSubstantial(raw);
  }

  /** The windowing loop of `chunk_text` on the normalised text `t`. */
  method CutWindows(t: string, chunkSize: nat, overlap: int) returns (raw: seq<string>)
    requires Progresses(chunkSize, overlap)
    ensures raw == Slices(t, Windows(t, chunkSize, overlap, 0))
  {
    raw := [];
    ghost var spans: seq<Span> := [];
    var start := 0;
    while start < |t|
      invariant Windows(t, chunkSize, overlap, 0) == spans + Windows(t, chunkSize, overlap, start)
      invariant raw == Slices(t, spans)
      decreases |t| - start
    {
      var end := start + chunkSize;
      var actualEnd := |t|;
      if end < |t| {
        actualEnd := WindowEnd(t, start, chunkSize);
      }
      var next := if end >= |t| then |t| else actualEnd - overlap;
      NextWindow(t, chunkSize, overlap, start, spans, actualEnd, next);
      raw := raw + [t[start..actualEnd]];
      spans := spans + [Span(start, actualEnd)];
      start := next;
    }
  }

  /** The break heuristic for a window that does not reach the end of `t`. */
  method WindowEnd(t: string, start: nat, chunkSize: nat) returns (actualEnd: nat)
    requires 0 < chunkSize && start + chunkSize < |t|
    ensures actualEnd == Cut(t, start, chunkSize)
  {
    var end := start + chunkSize;
    var chunk := t[start..end];
    CutIsBreakRule(t, start, chunkSize);
    var breakPoint := BreakPoint(chunk, chunkSize);
    actualEnd := end;
    if breakPoint != -1 && breakPoint > chunkSize / 2 {
      actualEnd := start + breakPoint + 1;
    }
  }

  /**
   * One turn of the windowing loop: the window from `start` ends at `hi`
   * and the next one starts at `next`.
   */
  lemma NextWindow(t: string, chunkSize: nat, overlap: int, start: nat, spans: seq<Span>, hi: nat, next: int)
    requires Progresses(chunkSize, overlap) && start < |t|
    requires start + chunkSize >= |t| ==> hi == |t| && next == |t|
    requires start + chunkSize < |t| ==> hi == Cut(t, start, chunkSize) && next == hi - overlap
    ensures start < next && start < hi <= |t|
    ensures spans + Windows(t, chunkSize, overlap, start) == (spans + [Span(start, hi)]) + Windows(t, chunkSize, overlap, next)
    ensures Slices(t, spans + [Span(start, hi)]) == Slices(t, spans) + [t[start..hi]]
  {
    WindowsUnfold(t, chunkSize, overlap, start, hi, next);
    var rest := Windows(t, chunkSize, overlap, next);
    assert spans + ([Span(start, hi)] + rest) == (spans + [Span(start, hi)]) + rest;
    SlicesSnoc(t, spans, Span(start, hi));
  }

  lemma WindowsUnfold(t: string, chunkSize: nat, overlap: int, start: nat, hi: nat, next: int)
    requires Progresses(chunkSize, overlap) && start < |t|
    requires start + chunkSize >= |t| ==> hi == |t| && next == |t|
    requires start + chunkSize < |t| ==> hi == Cut(t, start, chunkSize) && next == hi - overlap
    ensures start < next && start < hi <= |t|
    ensures Windows(t, chunkSize, overlap, start) == [Span(start, hi)] + Windows(t, chunkSize, overlap, next)
  {
    if start + chunkSize < |t| {
      CutAdvances(t, start, chunkSize, overlap);
      assert Windows(t, chunkSize, overlap, start) == [Span(start, hi)] + Windows(t, chunkSize, overlap, hi - overlap);
    } else {
      assert Windows(t, chunkSize, overlap, start) == [Span(start, |t|)];
      assert Windows(t, chunkSize, overlap, next) == [];
      assert [Span(start, |t|)] + [] == [Span(start, |t|)];
    }
  }

  lemma SlicesSnoc(t: string, spans: seq<Span>, x: Span)
    requires x.lo <= x.hi <= |t|
    ensures Slices(t, spans + [x]) == Slices(t, spans) + [t[x.lo..x.hi]]
  {
    var l, r := Slices(t, spans + [x]), Slices(t, spans) + [t[x.lo..x.hi]];
    forall i | 0 <= i < |l| ensures l[i] == r[i] {
      if i < |spans| {
        assert (spans + [x])[i] == spans[i];
      }
    }
  }

  // ---------------------------------------------------------------------
  // Header-delimited sections
  // ---------------------------------------------------------------------

  /** A run of lines and the label of the header that opened it. */
  datatype Section = Section(header: string, lines: seq<string>)

  /** `'\n'.join(section_lines)`. */
  function Content(sec: Section): string {
    Join(sec.lines, "\n")
  }

  /**
   * `line.strip().startswith('#')`: the first character that is not
   * whitespace is `#` (`IsHeaderLineIsStripHash`).
   */
  predicate IsHeaderLine(line: string)
    decreases |line|
  {
    line != [] && (line[0] == '#' || (IsSpace(line[0]) && IsHeaderLine(line[1..])))
  }

  lemma {:induction false} HeaderLineLead(line: string)
    ensures IsHeaderLine(line) <==> LeadLen(line, IsSpace) < |line| && line[LeadLen(line, IsSpace)] == '#'
    decreases |line|
  {
    if line != [] && IsSpace(line[0]) {
      HeaderLineLead(line[1..]);
    }
  }

  lemma IsHeaderLineIsStripHash(line: string)
    ensures IsHeaderLine(line) <==> StartsWith(Strip(line), "#")
  {
    HeaderLineLead(line);
    var n := LeadLen(line, IsSpace);
    if n < |line| {
      StripStartsAtLead(line);
      StartsWithChar(Strip(line), '#');
    }
  }

  lemma StripStartsAtLead(s: string)
    requires LeadLen(s, IsSpace) < |s|
    ensures Strip(s) != [] && Strip(s)[0] == s[LeadLen(s, IsSpace)]
  {
    assert !IsSpace(s[LeadLen(s, IsSpace)]);
  }

  lemma StartsWithChar(r: string, c: char)
    ensures StartsWith(r, [c]) <==> r != [] && r[0] == c
  {
    if r != [] {
      assert r[..1] == [r[0]];
    }
  }


  predicate IsHashOrSpace(c: char) {
    c == '#' || c == ' '
  }

  /** `line.strip('# ').strip()`, as `strip` written out in `lstrip` and `rstrip` (`HeaderLabelIsStrip`). */
  function HeaderLabel(line: string): string {
    RStrip(LStrip(RStrip(LStrip(line, IsHashOrSpace), IsHashOrSpace), IsSpace), IsSpace)
  }

  lemma HeaderLabelIsStrip(line: string)
    ensures HeaderLabel(line) == Strip(StripBy(line, IsHashOrSpace))
  {
    StripByIsLeftThenRight(line, IsHashOrSpace);
    StripByIsLeftThenRight(StripBy(line, IsHashOrSpace), IsSpace);
  }

  /** The label a section that starts with `line` carries. */
  function HeaderOf(line: string): string {
    if IsHeaderLine(line) then HeaderLabel(line) else DefaultHeader
  }

  /** The state of the line loop: emitted sections, pending header and lines. */
  datatype Scan = Scan(done: seq<Section>, header: string, current: seq<string>)

  /** Emit the pending section unless it is empty. */
  function Flush(done: seq<Section>, header: string, current: seq<string>): seq<Section> {
    if current == [] then done else done + [Section(header, current)]
  }

  /** One iteration of the line loop. */
  function Step(st: Scan, line: string): Scan {
    if IsHeaderLine(line) then Scan(Flush(st.done, st.header, st.current), HeaderLabel(line), [line])
    else Scan(st.done, st.header, st.current + [line])
  }

  /** The state of the line loop after `lines`. */
  function ScanLines(lines: seq<string>): Scan
    decreases |lines|
  {
    if lines == [] then Scan([], DefaultHeader, [])
    else Step(ScanLines(lines[..|lines| - 1]), lines[|lines| - 1])
  }

  /** The sections of `lines`, as the loop and its final flush emit them. */
  function Sections(lines: seq<string>): seq<Section> {
    var st := ScanLines(lines);
    Flush(st.done, st.header, st.current)
  }

  /** The lines of all sections, in order. */
  function Flatten(secs: seq<Section>): seq<string>
    decreases |secs|
  {
    if secs == [] then [] else Flatten(secs[..|secs| - 1]) + secs[|secs| - 1].lines
  }

  lemma FlattenSnoc(secs: seq<Section>, s: Section)
    ensures Flatten(secs + [s]) == Flatten(secs) + s.lines
  {
    assert (secs + [s])[..|secs|] == secs;
  }

  /**
   * A section is non-empty, only its first line may be a header line (and
   * must be, unless it is the first section), and its label is that
   * header's, or "Introduction" when it does not start with one.
   */
  predicate WellFormed(sec: Section, first: bool) {
    && |sec.lines| > 0
    && (first || IsHeaderLine(sec.lines[0]))
    && sec.header == HeaderOf(sec.lines[0])
    && forall j :: 0 < j < |sec.lines| ==> !IsHeaderLine(sec.lines[j])
  }

  /** `secs` cuts `lines` into header-delimited sections. */
  predicate IsSectioning(lines: seq<string>, secs: seq<Section>) {
    && Flatten(secs) == lines
    && forall k :: 0 <= k < |secs| ==> WellFormed(secs[k], k == 0)
  }

  /** What the line loop keeps true of its state. */
  predicate ScanOk(lines: seq<string>, st: Scan) {
    && Flatten(st.done) + st.current == lines
    && (forall k :: 0 <= k < |st.done| ==> WellFormed(st.done[k], k == 0))
    && (st.current == [] <==> lines == [])
    && (st.current == [] ==> st.done == [] && st.header == DefaultHeader)
    && (st.current != [] ==> WellFormed(Section(st.header, st.current), st.done == []))
  }

  /** A header line flushes the pending section and opens a new one. */
  lemma StepHeaderOk(lines: seq<string>, st: Scan, line: string)
    requires ScanOk(lines, st) && IsHeaderLine(line)
    ensures ScanOk(lines + [line], Step(st, line))
  {
    var next := Step(st, line);
    if st.current != [] {
      var sec := Section(st.header, st.current);
      FlattenSnoc(st.done, sec);
      assert next.done == st.done + [sec];
      assert forall k :: 0 <= k < |st.done| ==> next.done[k] == st.done[k];
    }
    assert Flatten(next.done) == lines;
  }

  /** Any other line extends the pending section. */
  lemma StepPlainOk(lines: seq<string>, st: Scan, line: string)
    requires ScanOk(lines, st) && !IsHeaderLine(line)
    ensures ScanOk(lines + [line], Step(st, line))
  {
    var sec := Section(st.header, st.current + [line]);
    assert Flatten(st.done) + sec.lines == lines + [line];
    if st.current == [] {
      assert sec.lines == [line];
    } else {
      var prev := Section(st.header, st.current);
      assert WellFormed(prev, st.done == []);
      assert sec.lines[0] == prev.lines[0];
      forall j | 0 < j < |sec.lines| ensures !IsHeaderLine(sec.lines[j]) {
        if j < |st.current| {
          assert sec.lines[j] == prev.lines[j];
        }
      }
    }
    assert WellFormed(sec, st.done == []);
  }

  lemma {:induction false} ScanLinesOk(lines: seq<string>)
    ensures ScanOk(lines, ScanLines(lines))
    decreases |lines|
  {
    if lines != [] {
      var init, line := lines[..|lines| - 1], lines[|lines| - 1];
      assert lines == init + [line];
      ScanLinesOk(init);
      if IsHeaderLine(line) {
        StepHeaderOk(init, ScanLines(init), line);
      } else {
        StepPlainOk(init, ScanLines(init), line);
      }
    }
  }

  /**
   * The sections partition the lines in order: concatenated they give the
   * lines back, each starts at a header line (or at the first line), no
   * section is empty, and each carries its header's label.
   */
  lemma SectionsPartition(lines: seq<string>)
    ensures IsSectioning(lines, Sections(lines))
    ensures lines != [] ==> |Sections(lines)| > 0
  {
    ScanLinesOk(lines);
    var st := ScanLines(lines);
    if st.current != [] {
      FlattenSnoc(st.done, Section(st.header, st.current));
    }
  }

  /** The line loop of `chunk_markdown_content` and `chunk_mdx_content`. */
  method SplitSections(lines: seq<string>) returns (sections: seq<Section>)
    ensures sections == Sections(lines)
    ensures IsSectioning(lines, sections)
  {
    sections := [];
    var currentSection: seq<string> := [];
    var currentHeader := DefaultHeader;
    for i := 0 to |lines|
      invariant Scan(sections, currentHeader, currentSection) == ScanLines(lines[..i])
    {
      var line := lines[i];
      if IsHeaderLine(line) {
        if currentSection != [] {
          sections := sections + [Section(currentHeader, currentSection)];
        }
        currentHeader := HeaderLabel(line);
        currentSection := [line];
      } else {
        currentSection := currentSection + [line];
      }
      assert lines[..i + 1][..i] == lines[..i];
    }
    if currentSection != [] {
      sections := sections + [Section(currentHeader, currentSection)];
    }
    assert lines[..|lines|] == lines;
    SectionsPartition(lines);
  }

  // ---------------------------------------------------------------------
  // Chunk records and per-section numbering
  // ---------------------------------------------------------------------

  /** The metadata dictionaries the three entry points attach. */
  datatype Metadata =
    | SectionMeta(section: string, chunkIndex: nat, totalChunks: nat)
    | ChapterMeta(title: string, section: string, chunkIndex: nat, totalChunks: nat, chapterNumber: Option<nat>)
    | SourceMeta(source: string)

  datatype Chunk = Chunk(content: string, metadata: Metadata)

  /** Markdown chunks carry the section only; MDX chunks also the title and chapter number. */
  datatype DocKind = Markdown | Mdx(title: string, chapterNumber: Option<nat>)

  function MetaFor(kind: DocKind, header: string, i: nat, n: nat): Metadata {
    match kind
    case Markdown => SectionMeta(header, i, n)
    case Mdx(title, chapter) => ChapterMeta(title, header, i, n, chapter)
  }

  /** The records of one section whose chunks are `cs`: indices 0..|cs|-1, total |cs|. */
  function Block(header: string, cs: seq<string>, kind: DocKind): seq<Chunk> {
    seq(|cs|, i requires 0 <= i < |cs| => Chunk(cs[i], MetaFor(kind, header, i, |cs|)))
  }

  /** The `chunk_text` chunks of each section's content. */
  function SectionChunks(secs: seq<Section>, chunkSize: nat, overlap: int): (lists: seq<seq<string>>)
    requires Progresses(chunkSize, overlap)
  {
    seq(|secs|, k requires 0 <= k < |secs| => Chunks(Content(secs[k]), chunkSize, overlap))
  }

  /** The records of sections `secs` whose chunk lists are `lists`, in section order. */
  function Number(secs: seq<Section>, lists: seq<seq<string>>, kind: DocKind): seq<Chunk>
    requires |lists| == |secs|
    decreases |secs|
  {
    if secs == [] then []
    else
      var n := |secs| - 1;
      Number(secs[..n], lists[..n], kind) + Block(secs[n].header, lists[n], kind)
  }

  /** What the per-section loops of `chunk_markdown_content` and `chunk_mdx_content` produce. */
  function Annotate(secs: seq<Section>, chunkSize: nat, overlap: int, kind: DocKind): seq<Chunk>
    requires Progresses(chunkSize, overlap)
  {
    Number(secs, SectionChunks(secs, chunkSize, overlap), kind)
  }

  /** How many chunks the first `k` lists hold. */
  function Offset(lists: seq<seq<string>>, k: nat): nat
    requires k <= |lists|
  {
    if k == 0 then 0 else Offset(lists, k - 1) + |lists[k - 1]|
  }

  lemma {:induction false} OffsetPrefix(lists: seq<seq<string>>, m: nat, k: nat)
    requires k <= m <= |lists|
    ensures Offset(lists[..m], k) == Offset(lists, k)
  {
    if k > 0 {
      OffsetPrefix(lists, m, k - 1);
      assert lists[..m][k - 1] == lists[k - 1];
    }
  }

  lemma {:induction false} OffsetMonotone(lists: seq<seq<string>>, j: nat, k: nat)
    requires j <= k <= |lists|
    ensures Offset(lists, j) + (if j < k then |lists[j]| else 0) <= Offset(lists, k)
    decreases k - j
  {
    if j + 1 < k {
      OffsetMonotone(lists, j, k - 1);
    }
  }

  lemma {:induction false} NumberLength(secs: seq<Section>, lists: seq<seq<string>>, kind: DocKind)
    requires |lists| == |secs|
    ensures |Number(secs, lists, kind)| == Offset(lists, |lists|)
    decreases |secs|
  {
    if secs != [] {
      var n := |secs| - 1;
      NumberLength(secs[..n], lists[..n], kind);
      OffsetPrefix(lists, n, n);
    }
  }

  /** Chunk `i` of section `k` is record number `Offset(lists, k) + i`. */
  lemma {:induction false} NumberAt(secs: seq<Section>, lists: seq<seq<string>>, kind: DocKind, k: nat, i: nat)
    requires |lists| == |secs| && k < |secs| && i < |lists[k]|
    ensures Offset(lists, k) + |lists[k]| <= |Number(secs, lists, kind)|
    ensures Number(secs, lists, kind)[Offset(lists, k) + i] == Chunk(lists[k][i], MetaFor(kind, secs[k].header, i, |lists[k]|))
    decreases |secs|
  {
    var n := |secs| - 1;
    var init, inits := secs[..n], lists[..n];
    var r := Number(secs, lists, kind);
    var front := Number(init, inits, kind);
    assert r == front + Block(secs[n].header, lists[n], kind);
    NumberLength(init, inits, kind);
    OffsetPrefix(lists, n, n);
    if k < n {
      NumberAt(init, inits, kind, k, i);
      OffsetPrefix(lists, n, k);
      assert init[k] == secs[k] && inits[k] == lists[k];
      assert r[Offset(lists, k) + i] == front[Offset(inits, k) + i];
    } else {
      assert r[Offset(lists, k) + i] == Block(secs[n].header, lists[n], kind)[i];
    }
  }

  /**
   * Section `k`'s chunks sit, in order, right after those of the sections
   * before it; within a section `chunk_index` runs 0..total_chunks-1 and
   * `total_chunks` is that section's chunk count.
   */
  lemma NumberLayout(secs: seq<Section>, lists: seq<seq<string>>, kind: DocKind)
    requires |lists| == |secs|
    ensures |Number(secs, lists, kind)| == Offset(lists, |lists|)
    ensures forall k :: 0 <= k < |secs| ==> Offset(lists, k) + |lists[k]| <= Offset(lists, |lists|)
    ensures forall k, i :: 0 <= k < |secs| && 0 <= i < |lists[k]| ==>
              Number(secs, lists, kind)[Offset(lists, k) + i] == Chunk(lists[k][i], MetaFor(kind, secs[k].header, i, |lists[k]|))
  {
    NumberLength(secs, lists, kind);
    forall k | 0 <= k < |secs| ensures Offset(lists, k) + |lists[k]| <= Offset(lists, |lists|) {
      OffsetMonotone(lists, k, |lists|);
    }
    forall k, i | 0 <= k < |secs| && 0 <= i < |lists[k]|
      ensures Number(secs, lists, kind)[Offset(lists, k) + i] == Chunk(lists[k][i], MetaFor(kind, secs[k].header, i, |lists[k]|))
    {
      NumberAt(secs, lists, kind, k, i);
    }
  }

  /** Every record carries the document kind's metadata: the MDX title and chapter number on each. */
  lemma {:induction false} NumberKind(secs: seq<Section>, lists: seq<seq<string>>, kind: DocKind)
    requires |lists| == |secs|
    ensures forall c :: c in Number(secs, lists, kind) ==>
              match kind
              case Markdown => c.metadata.SectionMeta?
              case Mdx(title, chapter) =>
                c.metadata.ChapterMeta? && c.metadata.title == title && c.metadata.chapterNumber == chapter
    decreases |secs|
  {
    if secs != [] {
      var n := |secs| - 1;
      NumberKind(secs[..n], lists[..n], kind);
    }
  }

  /** The inner loop: one record per chunk of a section, numbered within it. */
  method NumberSection(header: string, sectionChunks: seq<string>, kind: DocKind) returns (records: seq<Chunk>)
    ensures records == Block(header, sectionChunks, kind)
  {
    records := [];
    for i := 0 to |sectionChunks|
      invariant records == Block(header, sectionChunks, kind)[..i]
    {
      records := records + [Chunk(sectionChunks[i], MetaFor(kind, header, i, |sectionChunks|))];
    }
  }

  /** Numbering one more section appends that section's block. */
  lemma NumberStep(secs: seq<Section>, lists: seq<seq<string>>, kind: DocKind, k: nat)
    requires |lists| == |secs| && k < |secs|
    ensures Number(secs[..k + 1], lists[..k + 1], kind) == Number(secs[..k], lists[..k], kind) + Block(secs[k].header, lists[k], kind)
  {
    assert secs[..k + 1][..k] == secs[..k] && lists[..k + 1][..k] == lists[..k];
  }

  /** The per-section loops: chunk each section and number its chunks. */
  method ChunkSections(secs: seq<Section>, chunkSize: nat, overlap: int, kind: DocKind) returns (chunks: seq<Chunk>)
    requires Progresses(chunkSize, overlap)
    ensures chunks == Annotate(secs, chunkSize, overlap, kind)
  {
    ghost var lists := SectionChunks(secs, chunkSize, overlap);
    chunks := [];
    for k := 0 to |secs|
      invariant chunks == Number(secs[..k], lists[..k], kind)
    {
      var section := secs[k];
      var sectionChunks := ChunkText(Content(section), chunkSize, overlap);
      var records := NumberSection(section.header, sectionChunks, kind);
      NumberStep(secs, lists, kind, k);
      chunks := chunks + records;
    }
    assert secs[..|secs|] == secs && lists[..|secs|] == lists;
  }

  /** What `chunk_markdown_content` returns. */
  function MarkdownChunks(content: string, chunkSize: nat, overlap: int): seq<Chunk>
    requires Progresses(chunkSize, overlap)
  {
    Annotate(Sections(Split(content, '\n')), chunkSize, overlap, Markdown)
  }

  /** The sections of a document, joined back with newlines, give the document. */
  lemma SectionsCoverDocument(content: string)
    ensures Join(Flatten(Sections(Split(content, '\n'))), "\n") == content
  {
    SectionsPartition(Split(content, '\n'));
    JoinSplit(content, '\n');
  }

  /** `chunk_markdown_content`. */
  method ChunkMarkdown(content: string, chunkSize: nat, overlap: int) returns (chunks: seq<Chunk>)
    requires Progresses(chunkSize, overlap)
    ensures chunks == MarkdownChunks(content, chunkSize, overlap)
    ensures forall c :: c in chunks ==> c.metadata.SectionMeta?
  {
    var lines := Split(content, '\n');
    var sections := SplitSections(lines);
    chunks := ChunkSections(sections, chunkSize, overlap, Markdown);
    NumberKind(sections, SectionChunks(sections, chunkSize, overlap), Markdown);
  }

  // ---------------------------------------------------------------------
  // MDX frontmatter
  // ---------------------------------------------------------------------

  const Delimiter := "---"

  /**
   * `content.split('---', 2)` when the content starts with `---`: there
   * are three parts exactly when the delimiter occurs again at or after
   * index 3; the frontmatter is what lies between the two occurrences and
   * the main content all that follows the second.
   */
  function SplitFrontmatter(content: string): (r: (Option<string>, string))
    ensures r.0.None? ==> r.1 == content
    ensures r.0.Some? ==> StartsWith(content, Delimiter) && |content| == |r.0.value| + |r.1| + 2 * |Delimiter|
  {
    if StartsWith(content, Delimiter) then
      var k := FindFrom(content, Delimiter, 3);
      if k == -1 then (None, content) else (Some(content[3..k]), content[k + 3..])
    else (None, content)
  }

  /** The split is exact and the frontmatter ends at the first closing delimiter. */
  lemma FrontmatterSplit(content: string)
    ensures var (fm, main) := SplitFrontmatter(content);
            && (fm.Some? <==> StartsWith(content, Delimiter) && exists k :: 3 <= k && OccursAt(content, Delimiter, k))
            && (fm.Some? ==> content == Delimiter + fm.value + Delimiter + main
                             && forall j :: 3 <= j < 3 + |fm.value| ==> !OccursAt(content, Delimiter, j))
            && (fm.None? ==> main == content)
  {
    var (fm, main) := SplitFrontmatter(content);
    if StartsWith(content, Delimiter) {
      var k := FindFrom(content, Delimiter, 3);
      if k != -1 {
        assert content == content[..3] + content[3..k] + content[k..k + 3] + content[k + 3..];
      }
    }
  }

  /**
   * `re.search(r'title:\s*["\']?(.*?)["\']?', fm)`: the lazy group can end
   * at once, as everything after it is optional, so when `title:` occurs
   * the captured title is the empty string.
   */
  function TitleOf(frontmatter: Option<string>): (t: string)
    ensures t == "" || t == DefaultTitle
  {
    if frontmatter.Some? && frontmatter.value != "" && FindFrom(frontmatter.value, TitleKey, 0) != -1 then ""
    else DefaultTitle
  }

  const TitleKey := "title:"

  /** The title is never the one written: it is empty when `title:` occurs, and the default otherwise. */
  lemma TitleOfDiscardsValue(frontmatter: Option<string>)
    ensures TitleOf(frontmatter) == "" <==> frontmatter.Some? && exists k :: OccursAt(frontmatter.value, TitleKey, k)
    ensures TitleOf(frontmatter) != "" ==> TitleOf(frontmatter) == DefaultTitle
  {
    if frontmatter.Some? && exists k :: OccursAt(frontmatter.value, TitleKey, k) {
      var k :| OccursAt(frontmatter.value, TitleKey, k);
      assert frontmatter.value != "";
      assert FindFrom(frontmatter.value, TitleKey, 0) != -1;
    }
  }

  /** A frontmatter whose one line is `title: "Intro"`. */
  const IntroFrontmatter := "\ntitle: \"Intro\"\n"

  /** The usual frontmatter line `title: "Intro"` yields the empty title. */
  lemma TitleOfIntro()
    ensures TitleOf(Some(IntroFrontmatter)) == ""
    ensures WrittenTitle(Some(IntroFrontmatter)) == "Intro"
  {
    var t := "Intro";
    var q := "\"";
    assert IntroFrontmatter == "\n" + TitleKey + " " + (q + t + q) + "\n" + "";
    assert IsStripped(t);
    assert forall i :: 0 <= i < |t| ==> t[i] != '\n';
    var head := "\n" + TitleKey;
    assert !OccursAt(head, TitleKey, 0) by { assert head[0..|TitleKey|][0] == head[0] == '\n'; }
    WrittenTitleReadsValue("\n", " ", t, q, "");
    AppendRegroup("\n", TitleKey, " ", q + t + q, "\n", "");
    TitleOfAfterNewline(" " + (q + t + q) + "\n" + "");
  }

  lemma TitleOfAfterNewline(rest: string)
    ensures TitleOf(Some("\n" + TitleKey + rest)) == ""
  {
    var fm := "\n" + TitleKey + rest;
    assert fm[1..7] == TitleKey;
    assert OccursAt(fm, TitleKey, 1);
  }

  predicate IsQuote(c: char) {
    c == '"' || c == '\''
  }

  /** Drops one quote at each end, where there is one. */
  function Unquote(v: string): string {
    var a := if v != [] && IsQuote(v[0]) then v[1..] else v;
    if a != [] && IsQuote(a[|a| - 1]) then a[..|a| - 1] else a
  }

  /**
   * The title as evidently intended: the rest of the line after the first
   * `title:`, stripped, with its surrounding quotes dropped; the default
   * when there is no frontmatter or no `title:` in it.
   */
  function WrittenTitle(frontmatter: Option<string>): string {
    if frontmatter.Some? && frontmatter.value != "" then
      var k := FindFrom(frontmatter.value, TitleKey, 0);
      if k == -1 then DefaultTitle else TitleValue(frontmatter.value[k + |TitleKey|..])
    else DefaultTitle
  }

  /** What follows `title:` up to the end of its line, stripped and unquoted. */
  function TitleValue(rest: string): string {
    var e := IndexOf(rest, '\n');
    Unquote(Strip(if e == -1 then rest else rest[..e]))
  }

  /** The value is read after the first `title:` of the frontmatter. */
  lemma WrittenTitleAtFirst(pre: string, rest: string)
    requires forall j :: 0 <= j < |pre| ==> !OccursAt(pre + TitleKey, TitleKey, j)
    ensures WrittenTitle(Some(pre + TitleKey + rest)) == TitleValue(rest)
  {
    var head := pre + TitleKey;
    var fm := head + rest;
    forall j | 0 <= j < |pre| ensures !OccursAt(fm, TitleKey, j) {
      OccursInPrefix(head, rest, TitleKey, j);
    }
    assert fm[|pre|..|head|] == TitleKey;
    FindFromFirst(fm, TitleKey, |pre|);
    assert fm[|head|..] == rest;
  }

  lemma AppendRegroup(a: string, b: string, c: string, d: string, e: string, f: string)
    ensures a + b + c + d + e + f == a + b + (c + d + e + f)
  {
  }

  lemma UnquoteQuoted(t: string, q: string)
    requires |q| <= 1 && (q != [] ==> IsQuote(q[0]))
    requires t != [] ==> !IsQuote(t[0]) && !IsQuote(t[|t| - 1])
    ensures Unquote(q + t + q) == t
  {
    var x := q + t + q;
    if q != [] {
      assert x[1..] == t + q;
      assert (t + q)[..|t|] == t;
    } else {
      assert x == t;
    }
  }

  lemma QuotedIsLine(t: string, q: string)
    requires |q| <= 1 && (q != [] ==> IsQuote(q[0]))
    requires IsStripped(t)
    requires forall i :: 0 <= i < |t| ==> t[i] != '\n'
    ensures IsStripped(q + t + q)
    ensures forall i :: 0 <= i < |q + t + q| ==> (q + t + q)[i] != '\n'
  {
    var x := q + t + q;
    if q != [] {
      assert x == [q[0]] + t + [q[0]];
      assert x[0] == q[0] && x[|x| - 1] == q[0];
      forall i | 0 <= i < |x| ensures x[i] != '\n' {
        if 0 < i < |x| - 1 {
          assert x[i] == t[i - 1];
        }
      }
    } else {
      assert x == t;
    }
  }

  /** Spaces or tabs, then a stripped value ending its line. */
  lemma TitleValueOfLine(ws: string, x: string, after: string)
    requires forall i :: 0 <= i < |ws| ==> IsSpace(ws[i]) && ws[i] != '\n'
    requires IsStripped(x)
    requires forall i :: 0 <= i < |x| ==> x[i] != '\n'
    ensures TitleValue(ws + x + "\n" + after) == Unquote(x)
  {
    var rest := ws + x + "\n" + after;
    forall j | 0 <= j < |ws| + |x| ensures rest[j] != '\n' {
      if j < |ws| {
        assert rest[j] == ws[j];
      } else {
        assert rest[j] == x[j - |ws|];
      }
    }
    IndexOfAt(rest, '\n', |ws| + |x|);
    assert rest[..|ws| + |x|] == ws + x;
    StripAfterBlank(ws, x);
  }

  /** Without a `title:` both readings give the default title. */
  lemma WrittenTitleDefault(frontmatter: Option<string>)
    requires frontmatter.None? || forall k :: !OccursAt(frontmatter.value, TitleKey, k)
    ensures WrittenTitle(frontmatter) == DefaultTitle && TitleOf(frontmatter) == DefaultTitle
  {
  }

  /**
   * A title is read back exactly when it follows the first `title:` of the
   * frontmatter (anywhere in it, on any line), after any run of spaces or
   * tabs, bare or in one kind of quotes, and ends its line. Quotes inside
   * the title are kept; only its first and last characters must not be one.
   */
  lemma WrittenTitleReadsValue(pre: string, ws: string, t: string, q: string, after: string)
    requires forall j :: 0 <= j < |pre| ==> !OccursAt(pre + TitleKey, TitleKey, j)
    requires forall i :: 0 <= i < |ws| ==> IsSpace(ws[i]) && ws[i] != '\n'
    requires |q| <= 1 && (q != [] ==> IsQuote(q[0]))
    requires IsStripped(t)
    requires forall i :: 0 <= i < |t| ==> t[i] != '\n'
    requires t != [] ==> !IsQuote(t[0]) && !IsQuote(t[|t| - 1])
    ensures WrittenTitle(Some(pre + TitleKey + ws + (q + t + q) + "\n" + after)) == t
  {
    var x := q + t + q;
    AppendRegroup(pre, TitleKey, ws, x, "\n", after);
    WrittenTitleAtFirst(pre, ws + x + "\n" + after);
    QuotedIsLine(t, q);
    TitleValueOfLine(ws, x, after);
    UnquoteQuoted(t, q);
  }

  /** A Docusaurus frontmatter whose title is on its second line. */
  const SidebarFrontmatter := "\nsidebar_position: 1\ntitle: Intro\n"

  /** The corrected reading finds that title after the `sidebar_position:` line. */
  lemma WrittenTitleAfterSidebar()
    ensures WrittenTitle(Some(SidebarFrontmatter)) == "Intro"
  {
    var pre := "\nsidebar_position: 1\n";
    var head := pre + TitleKey;
    forall j | 0 <= j < |pre| ensures !OccursAt(head, TitleKey, j) {
      assert head[j..j + |TitleKey|][0] == head[j];
      assert head[j..j + |TitleKey|][2] == head[j + 2];
    }
    var t := "Intro";
    assert SidebarFrontmatter == pre + TitleKey + " " + ("" + t + "") + "\n" + "";
    assert IsStripped(t);
    assert forall i :: 0 <= i < |t| ==> t[i] != '\n';
    WrittenTitleReadsValue(pre, " ", t, "", "");
  }

  const SidebarKey := "sidebar_position:"

  predicate IsDigit(c: char) {
    '0' <= c <= '9'
  }

  /** `sidebar_position:\s*\d+` matches at index `j`. */
  predicate SidebarAt(fm: string, j: nat) {
    && OccursAt(fm, SidebarKey, j)
    && var rest := fm[j + |SidebarKey|..];
       var w := LeadLen(rest, IsSpace);
       w < |rest| && IsDigit(rest[w])
  }

  /** The decimal value of a string of digits. */
  function DigitsValue(ds: string): nat
    decreases |ds|
  {
    if ds == [] then 0
    else DigitsValue(ds[..|ds| - 1]) * 10 + (if IsDigit(ds[|ds| - 1]) then ds[|ds| - 1] as int - '0' as int else 0)
  }

  /** `int(group(1))` of a match at `j`: the whole run of digits after the key and any whitespace. */
  function SidebarValue(fm: string, j: nat): nat
    requires SidebarAt(fm, j)
  {
    var rest := fm[j + |SidebarKey|..];
    var w := LeadLen(rest, IsSpace);
    var digits := rest[w..];
    DigitsValue(digits[..LeadLen(digits, IsDigit)])
  }

  /** The leftmost match at or after `from`, as `re.search` finds it. */
  function SidebarFrom(fm: string, from: nat): Option<nat>
    decreases |fm| - from
  {
    if from >= |fm| then None
    else if SidebarAt(fm, from) then Some(SidebarValue(fm, from))
    else SidebarFrom(fm, from + 1)
  }

  /** There is no match at or after `from` exactly when the search finds none. */
  lemma {:induction false} SidebarFromNone(fm: string, from: nat)
    ensures SidebarFrom(fm, from).None? <==> forall j :: from <= j < |fm| ==> !SidebarAt(fm, j)
    decreases |fm| - from
  {
    if from < |fm| && !SidebarAt(fm, from) {
      SidebarFromNone(fm, from + 1);
    }
  }

  /** A number found is that of the leftmost match at or after `from`. */
  lemma {:induction false} SidebarFromLeftmost(fm: string, from: nat)
    requires SidebarFrom(fm, from).Some?
    ensures exists j :: from <= j < |fm| && SidebarAt(fm, j) && SidebarFrom(fm, from).value == SidebarValue(fm, j)
                        && forall i :: from <= i < j ==> !SidebarAt(fm, i)
    decreases |fm| - from
  {
    if !SidebarAt(fm, from) {
      SidebarFromLeftmost(fm, from + 1);
      var j :| from + 1 <= j < |fm| && SidebarAt(fm, j) && SidebarFrom(fm, from + 1).value == SidebarValue(fm, j)
               && forall i :: from + 1 <= i < j ==> !SidebarAt(fm, i);
      assert forall i :: from <= i < j ==> !SidebarAt(fm, i);
    }
  }

  /** `chapter_number`, present only for non-empty frontmatter with a match. */
  function ChapterNumber(frontmatter: Option<string>): Option<nat> {
    if frontmatter.Some? && frontmatter.value != "" then SidebarFrom(frontmatter.value, 0) else None
  }

  /** What `chunk_mdx_content` returns. */
  function MdxChunks(content: string, chunkSize: nat, overlap: int): seq<Chunk>
    requires Progresses(chunkSize, overlap)
  {
    var (fm, main) := SplitFrontmatter(content);
    Annotate(Sections(Split(main, '\n')), chunkSize, overlap, Mdx(TitleOf(fm), ChapterNumber(fm)))
  }

  /**
   * Every MDX chunk carries the same title, "Unknown Chapter" unless the
   * frontmatter mentions `title:` (then the empty string), and carries a
   * chapter number exactly when the frontmatter has a `sidebar_position`
   * match.
   */
  lemma MdxMetadata(content: string, chunkSize: nat, overlap: int)
    requires Progresses(chunkSize, overlap)
    ensures var (fm, _) := SplitFrontmatter(content);
            forall c :: c in MdxChunks(content, chunkSize, overlap) ==>
              && c.metadata.ChapterMeta?
              && c.metadata.title == (if fm.Some? && fm.value != "" && FindFrom(fm.value, "title:", 0) != -1
                                      then "" else DefaultTitle)
              && (c.metadata.chapterNumber.Some? <==>
                    fm.Some? && fm.value != "" && exists j :: 0 <= j < |fm.value| && SidebarAt(fm.value, j))
  {
    var (fm, main) := SplitFrontmatter(content);
    var secs := Sections(Split(main, '\n'));
    NumberKind(secs, SectionChunks(secs, chunkSize, overlap), Mdx(TitleOf(fm), ChapterNumber(fm)));
    if fm.Some? && fm.value != "" {
      SidebarFromNone(fm.value, 0);
    }
  }

  /** `chunk_mdx_content`. */
  method ChunkMdx(content: string, chunkSize: nat, overlap: int) returns (chunks: seq<Chunk>)
    requires Progresses(chunkSize, overlap)
    ensures chunks == MdxChunks(content, chunkSize, overlap)
  {
    var frontmatter: Option<string> := None;
    var mainContent := content;
    if StartsWith(content, Delimiter) {
      var k := FindFrom(content, Delimiter, 3);
      if k != -1 {
        frontmatter := Some(content[3..k]);
        mainContent := content[k + 3..];
      }
    }
    assert (frontmatter, mainContent) == SplitFrontmatter(content);
    var title := TitleOf(frontmatter);
    var chapter := ChapterNumber(frontmatter);
    var lines := Split(mainContent, '\n');
    var sections := SplitSections(lines);
    chunks := ChunkSections(sections, chunkSize, overlap, Mdx(title, chapter));
  }

  // ---------------------------------------------------------------------
  // Extension dispatch
  // ---------------------------------------------------------------------

  /** What `create_chunks_from_file` returns for the file `path` whose text is `content`. */
  function FileChunks(path: string, content: string, chunkSize: nat, overlap: int): seq<Chunk>
    requires Progresses(chunkSize, overlap)
  {
    var p := Lower(path);
    if EndsWith(p, ".mdx") then MdxChunks(content, chunkSize, overlap)
    else if EndsWith(p, ".md") || EndsWith(p, ".markdown") then MarkdownChunks(content, chunkSize, overlap)
    else
      var cs := Chunks(content, chunkSize, overlap);
      seq(|cs|, i requires 0 <= i < |cs| => Chunk(cs[i], SourceMeta(path)))
  }

  /** `create_chunks_from_file`, given the file's content. */
  method CreateChunksFromFile(path: string, content: string, chunkSize: nat, overlap: int) returns (chunks: seq<Chunk>)
    requires Progresses(chunkSize, overlap)
    ensures chunks == FileChunks(path, content, chunkSize, overlap)
  {
    var p := Lower(path);
    if EndsWith(p, ".mdx") {
      chunks := ChunkMdx(content, chunkSize, overlap);
    } else if EndsWith(p, ".md") || EndsWith(p, ".markdown") {
      chunks := ChunkMarkdown(content, chunkSize, overlap);
    } else {
      var texts := ChunkText(content, chunkSize, overlap);
      chunks := seq(|texts|, i requires 0 <= i < |texts| => Chunk(texts[i], SourceMeta(path)));
    }
  }

  /** A plain-text file's chunks are its `chunk_text` chunks, each tagged with the path. */
  lemma PlainFileChunks(path: string, content: string, chunkSize: nat, overlap: int)
    requires Progresses(chunkSize, overlap)
    requires !EndsWith(Lower(path), ".mdx") && !EndsWith(Lower(path), ".md") && !EndsWith(Lower(path), ".markdown")
    ensures |FileChunks(path, content, chunkSize, overlap)| == |Chunks(content, chunkSize, overlap)|
    ensures forall i :: 0 <= i < |Chunks(content, chunkSize, overlap)| ==>
              FileChunks(path, content, chunkSize, overlap)[i] == Chunk(Chunks(content, chunkSize, overlap)[i], SourceMeta(path))
  {
  }

  /**
   * The extension decides the records' kind: chapter metadata for `.mdx`,
   * section metadata for `.md` and `.markdown`, and the path as source for
   * anything else.
   */
  lemma FileChunksKind(path: string, content: string, chunkSize: nat, overlap: int)
    requires Progresses(chunkSize, overlap)
    ensures EndsWith(Lower(path), ".mdx") ==>
              forall c :: c in FileChunks(path, content, chunkSize, overlap) ==> c.metadata.ChapterMeta?
    ensures !EndsWith(Lower(path), ".mdx") && (EndsWith(Lower(path), ".md") || EndsWith(Lower(path), ".markdown")) ==>
              forall c :: c in FileChunks(path, content, chunkSize, overlap) ==> c.metadata.SectionMeta?
    ensures !EndsWith(Lower(path), ".mdx") && !EndsWith(Lower(path), ".md") && !EndsWith(Lower(path), ".markdown") ==>
              forall c :: c in FileChunks(path, content, chunkSize, overlap) ==> c.metadata == SourceMeta(path)
  {
    var p := Lower(path);
    if EndsWith(p, ".mdx") {
      MdxMetadata(content, chunkSize, overlap);
    } else if EndsWith(p, ".md") || EndsWith(p, ".markdown") {
      var secs := Sections(Split(content, '\n'));
      NumberKind(secs, SectionChunks(secs, chunkSize, overlap), Markdown);
    } else {
      PlainFileChunks(path, content, chunkSize, overlap);
    }
  }

}
