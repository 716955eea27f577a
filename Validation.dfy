/**
 * The input validators of backend/app/utils/validation.py: length checks
 * with ordered error messages, the token estimate, and the keyword
 * sanitiser.
 */
module Validation {
  import opened Text

  /** `(True, None)` or `(False, message)`. */
  datatype Verdict = Valid | Invalid(message: string)

  const SelectionEmpty := "Selection cannot be empty"
  const SelectionShort := "Selection must be at least 10 characters for meaningful context"
  const SelectionLong := "Selection is too long (maximum 5000 characters)"

  const QuestionEmpty := "Question cannot be empty"
  const QuestionShort := "Question must be at least 1 character long"
  const QuestionLong := "Question is too long (maximum 1000 characters)"

  /** `validate_text_length`: non-empty, long enough once stripped, short enough as given. */
  function ValidateTextLength(text: string, minLength: int, maxLength: int): (ok: bool)
    ensures ok <==> text != [] && minLength <= |Strip(text)| && |text| <= maxLength
  {
    if text == [] then false
    else if |Strip(text)| < minLength then false
    else if |text| > maxLength then false
    else true
  }

  /**
   * `validate_selection_text`: a selection is valid exactly when it is not
   * blank, has at least 10 characters once stripped and at most 5000 as
   * given; the checks run in that order, so the first failing one names
   * the error.
   */
  function ValidateSelectionText(selection: string): (v: Verdict)
    ensures v == Valid <==> !IsBlank(selection) && 10 <= |Strip(selection)| && |selection| <= 5000
    ensures IsBlank(selection) ==> v == Invalid(SelectionEmpty)
    ensures !IsBlank(selection) && |Strip(selection)| < 10 ==> v == Invalid(SelectionShort)
    ensures 10 <= |Strip(selection)| && |selection| > 5000 ==> v == Invalid(SelectionLong)
  {
    if selection == [] || Strip(selection) == [] then Invalid(SelectionEmpty)
    else if |Strip(selection)| < 10 then Invalid(SelectionShort)
    else if |selection| > 5000 then Invalid(SelectionLong)
    else Valid
  }

  /**
   * `validate_question_text`: a question is valid exactly when it is not
   * blank and has at most 1000 characters as given; the "at least 1
   * character" message is never produced.
   */
  function ValidateQuestionText(question: string): (v: Verdict)
    ensures v == Valid <==> !IsBlank(question) && |question| <= 1000
    ensures IsBlank(question) ==> v == Invalid(QuestionEmpty)
    ensures !IsBlank(question) && |question| > 1000 ==> v == Invalid(QuestionLong)
    ensures v != Invalid(QuestionShort)
  {
    if question == [] || Strip(question) == [] then Invalid(QuestionEmpty)
    else if |Strip(question)| < 1 then Invalid(QuestionShort)
    else if |question| > 1000 then Invalid(QuestionLong)
    else Valid
  }

  /** The selection validator is `validate_text_length` with bounds 10 and 5000. */
  lemma SelectionIsTextLength(selection: string)
    ensures ValidateSelectionText(selection) == Valid <==> ValidateTextLength(selection, 10, 5000)
  {
  }

  /** The question validator is `validate_text_length` with bounds 1 and 1000. */
  lemma QuestionIsTextLength(question: string)
    ensures ValidateQuestionText(question) == Valid <==> ValidateTextLength(question, 1, 1000)
  {
  }

  /** `validate_token_length`: the estimate `len(text) // 4` is within `maxTokens`. */
  function ValidateTokenLength(text: string, maxTokens: int): (ok: bool)
    ensures ok <==> |text| < 4 * (maxTokens + 1)
  {
    |text| / 4 <= maxTokens
  }

  /** A text no longer than one within the token limit is within it too. */
  lemma TokenLengthMonotone(shorter: string, longer: string, maxTokens: int)
    requires |shorter| <= |longer| && ValidateTokenLength(longer, maxTokens)
    ensures ValidateTokenLength(shorter, maxTokens)
  {
  }

  // ---------------------------------------------------------------------
  // sanitize_text: re.sub(r"(?i)(union|...|exec|execute)", "", text).strip()
  // ---------------------------------------------------------------------

  /** The alternatives of the pattern, in the order the regex tries them. */
  const Keywords := ["union", "select", "insert", "delete", "update", "drop", "create", "alter", "exec", "execute"]

  /** `kw` occurs at index `i` of `s`, ignoring ASCII case. */
  predicate MatchesAt(s: string, i: nat, kw: string) {
    i + |kw| <= |s| && forall j :: 0 <= j < |kw| ==> LowerChar(s[i + j]) == LowerChar(kw[j])
  }

  /**
   * The length of the first alternative of `kws`, from the `k`-th on, that
   * matches at the start of `s` (empty alternatives never count), or 0 when
   * none does.
   */
  function MatchFrom(s: string, kws: seq<string>, k: nat): (n: nat)
    requires k <= |kws|
    ensures n == 0 <==> forall j :: k <= j < |kws| && kws[j] != [] ==> !MatchesAt(s, 0, kws[j])
    ensures n != 0 ==> exists j :: k <= j < |kws| && kws[j] != [] && n == |kws[j]| && MatchesAt(s, 0, kws[j])
                               && forall i :: k <= i < j && kws[i] != [] ==> !MatchesAt(s, 0, kws[i])
    ensures n <= |s|
    decreases |kws| - k
  {
    if k == |kws| then 0
    else if kws[k] != [] && MatchesAt(s, 0, kws[k]) then |kws[k]|
    else MatchFrom(s, kws, k + 1)
  }

  /** The length of the alternative the regex matches at the start of `s`, or 0. */
  function MatchLen(s: string, kws: seq<string>): nat {
    MatchFrom(s, kws, 0)
  }

  /**
   * One left-to-right pass of `re.sub(pattern, "", s)`: at each position the
   * first matching alternative is deleted and the scan resumes after it;
   * otherwise the character is kept.
   */
  function Strike(s: string, kws: seq<string>): (r: string)
    ensures |r| <= |s|
    decreases |s|
  {
    if s == [] then []
    else
      var n := MatchLen(s, kws);
      if n > 0 then Strike(s[n..], kws) else [s[0]] + Strike(s[1..], kws)
  }

  /** `sanitize_text`: no longer than the input, and without surrounding whitespace. */
  function SanitizeText(text: string): (r: string)
    ensures |r| <= |text|
    ensures IsStripped(r)
  {
    Strip(Strike(text, Keywords))
  }

  /** A pass that deletes nothing leaves no alternative anywhere in `s`. */
  lemma {:induction false} StrikeFixedIsClean(s: string, kws: seq<string>)
    ensures |Strike(s, kws)| == |s| ==>
              forall i, k :: 0 <= i && 0 <= k < |kws| && kws[k] != [] ==> !MatchesAt(s, i, kws[k])
    decreases |s|
  {
    if s != [] && MatchLen(s, kws) == 0 && |Strike(s, kws)| == |s| {
      var t := s[1..];
      StrikeFixedIsClean(t, kws);
      forall i, k | 0 <= i && 0 <= k < |kws| && kws[k] != [] ensures !MatchesAt(s, i, kws[k]) {
        var kw := kws[k];
        if 0 < i && i + |kw| <= |s| {
          assert !MatchesAt(t, i - 1, kw);
          var j :| 0 <= j < |kw| && LowerChar(t[i - 1 + j]) != LowerChar(kw[j]);
          assert t[i - 1 + j] == s[i + j];
        }
      }
    }
  }

  /** `a` can be obtained from `b` by deleting characters. */
  predicate IsSubsequence(a: string, b: string)
    decreases |b|
  {
    if b == [] then a == []
    else IsSubsequence(a, b[1..]) || (a != [] && a[0] == b[0] && IsSubsequence(a[1..], b[1..]))
  }

  lemma {:induction false} SubsequenceOfSuffix(a: string, b: string, n: nat)
    requires n <= |b| && IsSubsequence(a, b[n..])
    ensures IsSubsequence(a, b)
    decreases n
  {
    if n > 0 {
      assert b[1..][n - 1..] == b[n..];
      SubsequenceOfSuffix(a, b[1..], n - 1);
    }
  }

  /** Keyword removal only deletes: what is left keeps its characters and their order. */
  lemma {:induction false} StrikeSubsequence(s: string, kws: seq<string>)
    ensures IsSubsequence(Strike(s, kws), s)
    decreases |s|
  {
    if s != [] {
      var n := MatchLen(s, kws);
      if n > 0 {
        StrikeSubsequence(s[n..], kws);
        SubsequenceOfSuffix(Strike(s, kws), s, n);
      } else {
        StrikeSubsequence(s[1..], kws);
        var r := Strike(s, kws);
        assert r[0] == s[0] && r[1..] == Strike(s[1..], kws);
      }
    }
  }

  /** A string in which no alternative occurs anywhere passes through unchanged. */
  lemma {:induction false} StrikeCleanUnchanged(s: string, kws: seq<string>)
    requires forall i, k :: 0 <= i && 0 <= k < |kws| && kws[k] != [] ==> !MatchesAt(s, i, kws[k])
    ensures Strike(s, kws) == s
    decreases |s|
  {
    if s != [] {
      assert MatchLen(s, kws) == 0;
      FactorIsClean(s, 1, |s|, kws);
      assert s[1..|s|] == s[1..];
      StrikeCleanUnchanged(s[1..], kws);
    }
  }

  /** `sanitize_text` of a text with no keyword in it is just `strip()`. */
  lemma SanitizeCleanIsStrip(text: string)
    requires forall i, k :: 0 <= i && 0 <= k < |Keywords| && Keywords[k] != [] ==> !MatchesAt(text, i, Keywords[k])
    ensures SanitizeText(text) == Strip(text)
  {
    StrikeCleanUnchanged(text, Keywords);
  }

  /** A factor of a clean string is clean. */
  lemma FactorIsClean(s: string, lo: nat, hi: nat, kws: seq<string>)
    requires lo <= hi <= |s|
    requires forall i, k :: 0 <= i && 0 <= k < |kws| && kws[k] != [] ==> !MatchesAt(s, i, kws[k])
    ensures forall i, k :: 0 <= i && 0 <= k < |kws| && kws[k] != [] ==> !MatchesAt(s[lo..hi], i, kws[k])
  {
    var f := s[lo..hi];
    forall i, k | 0 <= i && 0 <= k < |kws| && kws[k] != [] ensures !MatchesAt(f, i, kws[k]) {
      var kw := kws[k];
      if i + |kw| <= |f| {
        SliceOfSlice(s, lo, hi, i, i + |kw|);
        assert !MatchesAt(s, lo + i, kw);
      }
    }
  }

  // ---------------------------------------------------------------------
  // What a single pass with this alternative order leaves behind
  // ---------------------------------------------------------------------

  /** `kw` does not occur at index `i` when its `j`-th character differs there. */
  lemma Refute(s: string, i: nat, kw: string, j: nat)
    requires j < |kw| && (i + |kw| <= |s| ==> LowerChar(s[i + j]) != LowerChar(kw[j]))
    ensures !MatchesAt(s, i, kw)
  {
  }

  /** A match of a word is a match of each of its prefixes. */
  lemma PrefixMatches(s: string, i: nat, kw: string, n: nat)
    requires n <= |kw| && MatchesAt(s, i, kw)
    ensures MatchesAt(s, i, kw[..n])
  {
  }

  lemma StrikeKeep(s: string, kws: seq<string>)
    requires s != [] && MatchLen(s, kws) == 0
    ensures Strike(s, kws) == [s[0]] + Strike(s[1..], kws)
  {
  }

  lemma StrikeSkip(s: string, kws: seq<string>)
    requires MatchLen(s, kws) > 0
    ensures Strike(s, kws) == Strike(s[MatchLen(s, kws)..], kws)
  {
  }

  /** No keyword has fewer than four characters. */
  lemma ShortNoMatch(t: string)
    requires |t| < 4
    ensures MatchLen(t, Keywords) == 0
  {
    Refute(t, 0, Keywords[0], 0);
    Refute(t, 0, Keywords[1], 0);
    Refute(t, 0, Keywords[2], 0);
    Refute(t, 0, Keywords[3], 0);
    Refute(t, 0, Keywords[4], 0);
    Refute(t, 0, Keywords[5], 0);
    Refute(t, 0, Keywords[6], 0);
    Refute(t, 0, Keywords[7], 0);
    Refute(t, 0, Keywords[8], 0);
    Refute(t, 0, Keywords[9], 0);
  }

  /** A string shorter than every keyword passes through unchanged. */
  lemma {:induction false} ShortUnchanged(t: string)
    requires |t| < 4
    ensures Strike(t, Keywords) == t
    decreases |t|
  {
    if t != [] {
      ShortNoMatch(t);
      StrikeKeep(t, Keywords);
      ShortUnchanged(t[1..]);
    }
  }

  /** Nothing matches at a "dd". */
  lemma DoubleDNoMatch(s: string)
    requires 2 <= |s| && s[0] == 'd' && s[1] == 'd'
    ensures MatchLen(s, Keywords) == 0
  {
    Refute(s, 0, Keywords[0], 0);
    Refute(s, 0, Keywords[1], 0);
    Refute(s, 0, Keywords[2], 0);
    Refute(s, 0, Keywords[3], 1);
    Refute(s, 0, Keywords[4], 0);
    Refute(s, 0, Keywords[5], 1);
    Refute(s, 0, Keywords[6], 0);
    Refute(s, 0, Keywords[7], 0);
    Refute(s, 0, Keywords[8], 0);
    Refute(s, 0, Keywords[9], 0);
  }

  /** "drop" is the alternative matched at a "drop". */
  lemma DropMatch(t: string)
    requires 4 <= |t| && t[0] == 'd' && t[1] == 'r' && t[2] == 'o' && t[3] == 'p'
    ensures MatchLen(t, Keywords) == 4
  {
    Refute(t, 0, Keywords[0], 0);
    Refute(t, 0, Keywords[1], 0);
    Refute(t, 0, Keywords[2], 0);
    Refute(t, 0, Keywords[3], 1);
    Refute(t, 0, Keywords[4], 0);
    assert MatchesAt(t, 0, Keywords[5]);
  }

  /** One pass over "ddroprop" deletes the inner "drop" and joins "d" to "rop". */
  lemma StrikeSample(s: string)
    requires |s| == 8 && s[0] == 'd' && s[1] == 'd' && s[2] == 'r' && s[3] == 'o' && s[4] == 'p'
    ensures Strike(s, Keywords) == [s[0]] + s[5..]
  {
    var t := s[1..];
    assert t[4..] == s[5..];
    DoubleDNoMatch(s);
    StrikeKeep(s, Keywords);
    DropMatch(t);
    StrikeSkip(t, Keywords);
    ShortUnchanged(s[5..]);
  }

  lemma SpellsDrop(r: string)
    requires |r| == 4 && r[0] == 'd' && r[1] == 'r' && r[2] == 'o' && r[3] == 'p'
    ensures MatchesAt(r, 0, Keywords[5])
  {
  }

  /**
   * `sanitize_text` as written can return a keyword: deleting the inner
   * "drop" of "ddroprop" leaves "drop".
   */
  lemma SinglePassLeavesKeyword(s: string)
    requires |s| == 8 && forall i :: 0 <= i < 8 ==> s[i] == "ddroprop"[i]
    ensures MatchesAt(SanitizeText(s), 0, Keywords[5])
  {
    assert s[0] == 'd' && s[1] == 'd' && s[2] == 'r' && s[3] == 'o' && s[4] == 'p';
    assert s[5] == 'r' && s[6] == 'o' && s[7] == 'p';
    StrikeSample(s);
    var r := Strike(s, Keywords);
    assert r[0] == 'd' && r[1] == 'r' && r[2] == 'o' && r[3] == 'p';
    StripStripped(r);
    SpellsDrop(r);
  }

  /**
   * The alternative `execute` is never the one matched: wherever it occurs
   * its prefix `exec`, listed before it, matches first, so `ute` is kept.
   */
  lemma ExecuteNeverWhole(s: string)
    ensures MatchLen(s, Keywords) != 7
  {
    if MatchesAt(s, 0, Keywords[9]) {
      assert Keywords[9][..4] == Keywords[8];
      PrefixMatches(s, 0, Keywords[9], 4);
    }
    assert forall j :: 0 <= j < 9 ==> |Keywords[j]| != 7;
    assert MatchFrom(s, Keywords, 8) != 7;
  }

  // ---------------------------------------------------------------------
  // What the sanitiser evidently intends
  // ---------------------------------------------------------------------

  /** The same alternatives with `execute` ahead of its prefix `exec`. */
  const LongestFirst := ["union", "select", "insert", "delete", "update", "drop", "create", "alter", "execute", "exec"]

  /** Passes of `Strike` until one deletes nothing. */
  function Purge(s: string, kws: seq<string>): (r: string)
    ensures |r| <= |s|
    ensures forall i, k :: 0 <= i && 0 <= k < |kws| && kws[k] != [] ==> !MatchesAt(r, i, kws[k])
    decreases |s|
  {
    var t := Strike(s, kws);
    StrikeFixedIsClean(s, kws);
    if |t| == |s| then s else Purge(t, kws)
  }

  /** With the corrected order, an occurrence of `execute` is matched whole. */
  lemma ExecuteMatchedWhole(s: string)
    requires MatchesAt(s, 0, "execute")
    ensures MatchLen(s, LongestFirst) == 7
  {
    assert LowerChar(s[0]) == LowerChar("execute"[0]);
    Refute(s, 0, LongestFirst[0], 0);
    Refute(s, 0, LongestFirst[1], 0);
    Refute(s, 0, LongestFirst[2], 0);
    Refute(s, 0, LongestFirst[3], 0);
    Refute(s, 0, LongestFirst[4], 0);
    Refute(s, 0, LongestFirst[5], 0);
    Refute(s, 0, LongestFirst[6], 0);
    Refute(s, 0, LongestFirst[7], 0);
    assert LongestFirst[8] == "execute";
  }

  /** Every alternative of the corrected list is non-empty. */
  lemma LongestFirstNonEmpty()
    ensures forall k :: 0 <= k < |LongestFirst| ==> LongestFirst[k] != []
  {
  }

  /** Keyword removal that leaves no alternative of `kws` behind, then `strip()`. */
  function SanitizeWith(text: string, kws: seq<string>): (r: string)
    ensures |r| <= |text|
    ensures IsStripped(r)
    ensures forall i, k :: 0 <= i && 0 <= k < |kws| && kws[k] != [] ==> !MatchesAt(r, i, kws[k])
  {
    var p := Purge(text, kws);
    StripKeepsClean(p, kws);
    Strip(p)
  }

  /** Stripping a clean text leaves it clean. */
  lemma StripKeepsClean(p: string, kws: seq<string>)
    requires forall i, k :: 0 <= i && 0 <= k < |kws| && kws[k] != [] ==> !MatchesAt(p, i, kws[k])
    ensures forall i, k :: 0 <= i && 0 <= k < |kws| && kws[k] != [] ==> !MatchesAt(Strip(p), i, kws[k])
  {
    var r := Strip(p);
    var a := LeadLen(p, IsSpace);
    assert r == p[a..a + |r|];
    FactorIsClean(p, a, a + |r|, kws);
  }

  /** The evident intent of `sanitize_text`: its result contains none of the keywords. */
  lemma SanitizeFullyIsClean(text: string)
    ensures var r := SanitizeWith(text, LongestFirst);
            |r| <= |text| && IsStripped(r)
            && forall i, k :: 0 <= i && 0 <= k < |LongestFirst| ==> !MatchesAt(r, i, LongestFirst[k])
  {
    LongestFirstNonEmpty();
  }
}
