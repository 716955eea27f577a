/**
 * Python string primitives the core relies on: whitespace, `strip`,
 * `split`/`join` on a separator, prefix and suffix tests, substring search
 * and ASCII case mapping.
 */
module Text {

  /**
   * Python's `str.isspace()`, which is also the class `\s` matches in a `str`
   * pattern of the `re` module: U+0009..U+000D, U+001C..U+001F, the space,
   * U+0085, U+00A0, U+1680, U+2000..U+200A, U+2028, U+2029, U+202F, U+205F
   * and U+3000.
   */
  predicate IsSpace(c: char) {
    || ('\t' <= c <= '\r')
    || ('\U{001C}' <= c <= '\U{001F}')
    || c == ' '
    || c == '\U{0085}'
    || c == '\U{00A0}'
    || c == '\U{1680}'
    || ('\U{2000}' <= c <= '\U{200A}')
    || c == '\U{2028}'
    || c == '\U{2029}'
    || c == '\U{202F}'
    || c == '\U{205F}'
    || c == '\U{3000}'
  }

  /** The number of leading characters of `s` that satisfy `p`. */
  function LeadLen(s: string, p: char -> bool): (n: nat)
    ensures n <= |s|
    ensures forall i :: 0 <= i < n ==> p(s[i])
    ensures n < |s| ==> !p(s[n])
  {
    if s == [] || !p(s[0]) then 0 else 1 + LeadLen(s[1..], p)
  }

  /** The number of trailing characters of `s` that satisfy `p`. */
  function TrailLen(s: string, p: char -> bool): (n: nat)
    ensures n <= |s|
    ensures forall i :: |s| - n <= i < |s| ==> p(s[i])
    ensures n < |s| ==> !p(s[|s| - 1 - n])
  {
    if s == [] || !p(s[|s| - 1]) then 0 else 1 + TrailLen(s[..|s| - 1], p)
  }

  /**
   * `s.strip(chars)` where `p` says which characters are in `chars`: the
   * longest factor of `s` that neither starts nor ends with such a character.
   */
  function StripBy(s: string, p: char -> bool): (r: string)
    ensures |r| <= |s|
    ensures LeadLen(s, p) + |r| <= |s| && r == s[LeadLen(s, p)..LeadLen(s, p) + |r|]
    ensures r == [] || (!p(r[0]) && !p(r[|r| - 1]))
    ensures r == [] <==> forall i :: 0 <= i < |s| ==> p(s[i])
  {
    var a := LeadLen(s, p);
    var t := s[a..];
    var r := t[..|t| - TrailLen(t, p)];
    assert r != [] ==> r[0] == s[a];
    r
  }

  /** `s.strip()`. */
  function Strip(s: string): (r: string)
    ensures |r| <= |s|
    ensures IsStripped(r)
    ensures r == [] <==> IsBlank(s)
  {
    StripBy(s, IsSpace)
  }

  /** Neither the first nor the last character is whitespace. */
  predicate IsStripped(s: string) {
    s == [] || (!IsSpace(s[0]) && !IsSpace(s[|s| - 1]))
  }

  /** `not s.strip()`: every character is whitespace (the empty string included). */
  predicate IsBlank(s: string) {
    forall i :: 0 <= i < |s| ==> IsSpace(s[i])
  }

  /** Stripping a stripped string changes nothing. */
  lemma StripStripped(s: string)
    requires IsStripped(s)
    ensures Strip(s) == s
  {
    var a := LeadLen(s, IsSpace);
    if s != [] {
      assert a == 0;
      var t := s[a..];
      assert t == s;
      assert TrailLen(t, IsSpace) == 0;
    }
  }

  /** `s.lstrip(chars)` where `p` says which characters are in `chars`. */
  function LStrip(s: string, p: char -> bool): string
    decreases |s|
  {
    if s != [] && p(s[0]) then LStrip(s[1..], p) else s
  }

  /** `s.rstrip(chars)` where `p` says which characters are in `chars`. */
  function RStrip(s: string, p: char -> bool): string
    decreases |s|
  {
    if s != [] && p(s[|s| - 1]) then RStrip(s[..|s| - 1], p) else s
  }

  lemma {:induction false} LStripDrops(s: string, p: char -> bool)
    ensures LStrip(s, p) == s[LeadLen(s, p)..]
    decreases |s|
  {
    if s != [] && p(s[0]) {
      LStripDrops(s[1..], p);
    }
  }

  lemma {:induction false} RStripTakes(s: string, p: char -> bool)
    ensures RStrip(s, p) == s[..|s| - TrailLen(s, p)]
    decreases |s|
  {
    if s != [] && p(s[|s| - 1]) {
      RStripTakes(s[..|s| - 1], p);
    }
  }

  /** `strip` is `lstrip` followed by `rstrip`. */
  lemma StripByIsLeftThenRight(s: string, p: char -> bool)
    ensures StripBy(s, p) == RStrip(LStrip(s, p), p)
  {
    LStripDrops(s, p);
    RStripTakes(LStrip(s, p), p);
  }

  /** Every factor of a string without whitespace runs is one too. */
  predicate NoDoubleSpace(s: string) {
    forall i :: 0 <= i < |s| - 1 ==> !(IsSpace(s[i]) && IsSpace(s[i + 1]))
  }

  lemma NoDoubleSpaceFactor(s: string, lo: nat, hi: nat)
    requires lo <= hi <= |s|
    requires NoDoubleSpace(s)
    ensures NoDoubleSpace(s[lo..hi])
  {
    forall i | 0 <= i < hi - lo - 1
      ensures !(IsSpace(s[lo..hi][i]) && IsSpace(s[lo..hi][i + 1]))
    {
      assert s[lo..hi][i] == s[lo + i] && s[lo..hi][i + 1] == s[lo + i + 1];
    }
  }

  /** A slice of a slice is a slice. */
  lemma SliceOfSlice(s: string, lo: nat, hi: nat, i: nat, j: nat)
    requires lo <= hi <= |s| && i <= j <= hi - lo
    ensures s[lo..hi][i..j] == s[lo + i..lo + j]
  {
    assert forall k :: 0 <= k < j - i ==> s[lo..hi][i..j][k] == s[lo + i + k];
  }

  /** `s.startswith(p)`. */
  predicate StartsWith(s: string, p: string) {
    |p| <= |s| && s[..|p|] == p
  }

  /** `s.endswith(p)`. */
  predicate EndsWith(s: string, p: string) {
    |p| <= |s| && s[|s| - |p|..] == p
  }

  /** `pat` occurs in `s` starting at index `i`. */
  predicate OccursAt(s: string, pat: string, i: int) {
    0 <= i && i + |pat| <= |s| && s[i..i + |pat|] == pat
  }

  /** `s.find(pat, from)`: the first index at or after `from` where `pat` occurs, or -1. */
  function FindFrom(s: string, pat: string, from: nat): (k: int)
    ensures k == -1 || (from <= k && OccursAt(s, pat, k))
    ensures forall j :: from <= j < (if k == -1 then |s| + 1 else k) ==> !OccursAt(s, pat, j)
    decreases |s| + 1 - from
  {
    if from > |s| then -1
    else if OccursAt(s, pat, from) then from
    else FindFrom(s, pat, from + 1)
  }

  /** The first index of `c` in `s`, or -1. */
  function IndexOf(s: string, c: char): (k: int)
    ensures k == -1 || (0 <= k < |s| && s[k] == c && c !in s[..k])
    ensures k == -1 <==> c !in s
  {
    if s == [] then -1
    else if s[0] == c then 0
    else
      var k := IndexOf(s[1..], c);
      assert s[1..][..(if k == -1 then 0 else k)] == s[1..(if k == -1 then 1 else k + 1)];
      if k == -1 then -1 else k + 1
  }

  /** The first occurrence of `c` is found. */
  lemma {:induction false} IndexOfAt(s: string, c: char, k: nat)
    requires k < |s| && s[k] == c
    requires forall j :: 0 <= j < k ==> s[j] != c
    ensures IndexOf(s, c) == k
  {
    if k > 0 {
      IndexOfAt(s[1..], c, k - 1);
    }
  }

  /** `s.find(pat)` is the first occurrence of `pat`. */
  lemma FindFromFirst(s: string, pat: string, k: nat)
    requires OccursAt(s, pat, k)
    requires forall j :: 0 <= j < k ==> !OccursAt(s, pat, j)
    ensures FindFrom(s, pat, 0) == k
  {
  }

  /** An occurrence that ends within `a` is one in `a + b` and back. */
  lemma OccursInPrefix(a: string, b: string, pat: string, j: nat)
    requires j + |pat| <= |a|
    ensures OccursAt(a + b, pat, j) <==> OccursAt(a, pat, j)
  {
    assert (a + b)[j..j + |pat|] == a[j..j + |pat|];
  }

  /** Whitespace in front of a non-space is exactly what `lstrip` skips. */
  lemma {:induction false} LeadLenBlank(ws: string, x: string)
    requires IsBlank(ws)
    requires x == [] || !IsSpace(x[0])
    ensures LeadLen(ws + x, IsSpace) == |ws|
    decreases |ws|
  {
    if ws == [] {
      assert ws + x == x;
    } else {
      assert (ws + x)[0] == ws[0];
      assert (ws + x)[1..] == ws[1..] + x;
      LeadLenBlank(ws[1..], x);
    }
  }

  /** Stripping whitespace in front of a stripped string leaves that string. */
  lemma StripAfterBlank(ws: string, x: string)
    requires IsBlank(ws) && IsStripped(x)
    ensures Strip(ws + x) == x
  {
    var s := ws + x;
    LeadLenBlank(ws, x);
    assert s[|ws|..] == x;
    if x != [] {
      assert TrailLen(x, IsSpace) == 0;
    }
  }

  /** `sep.join(parts)`. */
  function Join(parts: seq<string>, sep: string): string
    decreases |parts|
  {
    if |parts| == 0 then ""
    else if |parts| == 1 then parts[0]
    else parts[0] + sep + Join(parts[1..], sep)
  }

  /** Appending one part to a non-empty join. */
  lemma {:induction false} JoinSnoc(parts: seq<string>, sep: string, x: string)
    requires |parts| > 0
    ensures Join(parts + [x], sep) == Join(parts, sep) + sep + x
    decreases |parts|
  {
    if |parts| == 1 {
      assert (parts + [x])[1..] == [x];
    } else {
      assert (parts + [x])[1..] == parts[1..] + [x];
      JoinSnoc(parts[1..], sep, x);
    }
  }

  /** A join always begins with its first part. */
  lemma {:induction false} JoinStartsWithFirst(parts: seq<string>, sep: string)
    requires |parts| > 0
    ensures StartsWith(Join(parts, sep), parts[0])
  {
    if |parts| > 1 {
      assert Join(parts, sep)[..|parts[0]|] == parts[0];
    }
  }

  /** `s.split(sep)` for a one-character separator. */
  function Split(s: string, sep: char): (parts: seq<string>)
    ensures |parts| >= 1
    ensures forall i :: 0 <= i < |parts| ==> sep !in parts[i]
    decreases |s|
  {
    var k := IndexOf(s, sep);
    if k == -1 then [s] else [s[..k]] + Split(s[k + 1..], sep)
  }

  /** Joining the parts of a split gives back the string. */
  lemma {:induction false} JoinSplit(s: string, sep: char)
    ensures Join(Split(s, sep), [sep]) == s
    decreases |s|
  {
    var k := IndexOf(s, sep);
    if k != -1 {
      var head, tail := s[..k], s[k + 1..];
      var rest := Split(tail, sep);
      JoinSplit(tail, sep);
      JoinCons(head, rest, [sep]);
      assert s == head + [sep] + tail;
    }
  }

  /** Joining a part in front of a non-empty list of parts. */
  lemma JoinCons(x: string, parts: seq<string>, sep: string)
    requires |parts| > 0
    ensures Join([x] + parts, sep) == x + sep + Join(parts, sep)
  {
    assert ([x] + parts)[1..] == parts;
  }

  /** The first separator of `head + [sep] + tail` is the one after `head`. */
  lemma SplitCons(head: string, tail: string, sep: char)
    requires sep !in head
    ensures Split(head + [sep] + tail, sep) == [head] + Split(tail, sep)
  {
    var s := head + [sep] + tail;
    forall j | 0 <= j < |head| ensures s[j] != sep {
      assert s[j] == head[j];
    }
    IndexOfAt(s, sep, |head|);
    assert s[..|head|] == head;
    assert s[|head| + 1..] == tail;
  }

  /** Splitting a join of separator-free parts gives back the parts. */
  lemma {:induction false} SplitJoin(parts: seq<string>, sep: char)
    requires |parts| >= 1
    requires forall i :: 0 <= i < |parts| ==> sep !in parts[i]
    ensures Split(Join(parts, [sep]), sep) == parts
    decreases |parts|
  {
    if |parts| > 1 {
      var rest := Join(parts[1..], [sep]);
      assert Join(parts, [sep]) == parts[0] + [sep] + rest;
      SplitCons(parts[0], rest, sep);
      SplitJoin(parts[1..], sep);
      assert parts == [parts[0]] + parts[1..];
    }
  }

  /** ASCII `A`..`Z`: the model of `str.isupper()` on one character. */
  predicate IsUpperChar(c: char) {
    'A' <= c <= 'Z'
  }

  /** ASCII lower-casing of one character. */
  function LowerChar(c: char): char {
    if IsUpperChar(c) then (c as int - 'A' as int + 'a' as int) as char else c
  }

  /** `s.lower()` on ASCII letters; other characters are kept. */
  function Lower(s: string): (r: string)
    ensures |r| == |s|
    ensures forall i :: 0 <= i < |s| ==> r[i] == LowerChar(s[i])
  {
    seq(|s|, i requires 0 <= i < |s| => LowerChar(s[i]))
  }

  /** Lower-casing leaves no ASCII capital behind. */
  lemma LowerHasNoCapital(s: string)
    ensures forall i :: 0 <= i < |s| ==> !IsUpperChar(Lower(s)[i])
  {
  }
}
