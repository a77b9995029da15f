/**
 * `findSyllableBoundaries` and `isNonPinyinWord` of tone-tool.js.
 *
 * The syllable regular expression of `buildSyllablePattern` is written out as
 * a scanner that tries its alternatives in the order the regular-expression
 * engine does: an optional initial (zh, ch, sh, one consonant, or none), an
 * optional medial, a final (a vowel followed by the first compound ending of
 * the list that fits, else by one of the simple endings, else alone) and an
 * optional erhua r.  The scanner's spans then go through the post-pass that
 * moves a syllable-final consonant onto a following a/o/e syllable.
 */
module Syllables {
  import opened Common
  import opened ToneTable

  /**
   * A half-open range `[start, end)` of the text: one syllable.  The bounds
   * are plain numbers, as in the source; `Ordered` keeps them inside the text.
   */
  datatype Span = Span(start: int, end: int)

  function Length(s: Span): int { s.end - s.start }

  // ---------------------------------------------------------------------
  // The syllable pattern
  // ---------------------------------------------------------------------

  /** `w` (small letters) occurs at `i`, ignoring case. */
  predicate MatchesAt(text: string, i: nat, w: string)
  {
    i + |w| <= |text| && forall k :: 0 <= k < |w| ==> FoldCase(text[i + k]) == w[k]
  }

  /** The length of the first alternative of `alts` that occurs at `i`. */
  function FirstMatch(text: string, i: nat, alts: seq<string>): Option<nat>
  {
    if alts == [] then None
    else if MatchesAt(text, i, alts[0]) then Some(|alts[0]|)
    else FirstMatch(text, i, alts[1..])
  }

  /**
   * `FirstMatch` is the alternation's choice: the alternative it picks occurs
   * at `i` and none listed before it does; when it picks none, none occurs.
   */
  lemma {:induction false} FirstMatchIsFirst(text: string, i: nat, alts: seq<string>)
    ensures FirstMatch(text, i, alts).Some? ==>
      exists k :: 0 <= k < |alts| && |alts[k]| == FirstMatch(text, i, alts).value
                  && MatchesAt(text, i, alts[k])
                  && forall j :: 0 <= j < k ==> !MatchesAt(text, i, alts[j])
    ensures FirstMatch(text, i, alts).None? ==> forall k :: 0 <= k < |alts| ==> !MatchesAt(text, i, alts[k])
  {
    if alts != [] && !MatchesAt(text, i, alts[0]) {
      FirstMatchIsFirst(text, i, alts[1..]);
      if FirstMatch(text, i, alts).Some? {
        var k :| 0 <= k < |alts[1..]| && |alts[1..][k]| == FirstMatch(text, i, alts[1..]).value
                 && MatchesAt(text, i, alts[1..][k])
                 && forall j :: 0 <= j < k ==> !MatchesAt(text, i, alts[1..][j]);
        assert alts[k + 1] == alts[1..][k];
        assert forall j :: 1 <= j < k + 1 ==> alts[j] == alts[1..][j - 1];
      } else {
        assert forall k :: 1 <= k < |alts| ==> alts[k] == alts[1..][k - 1];
      }
    } else if alts != [] {
      assert MatchesAt(text, i, alts[0]);
    }
  }

  /** A match found by `FirstMatch` lies inside the text. */
  lemma FirstMatchBound(text: string, i: nat, alts: seq<string>)
    ensures FirstMatch(text, i, alts).Some? ==> i + FirstMatch(text, i, alts).value <= |text|
  {
    FirstMatchIsFirst(text, i, alts);
  }

  /** The compound endings, in the order the alternation lists them. */
  const CompoundEndings: seq<string> :=
    ["iang", "iong", "uang", "ueng", "ian", "iao", "ian", "ing", "ong", "ang",
     "eng", "ai", "ao", "ei", "ou", "an", "en", "in", "un", "vn"]

  /** The simple endings, `ng` before `n`. */
  const SimpleEndings: seq<string> := ["i", "o", "u", "ng", "n"]

  /** The medial class `[iuvü…]` under the `i` flag, marked vowels included. */
  predicate IsMedial(c: char)
  {
    var f := FoldCase(c);
    f == 'i' || f == 'u' || f == 'v' || f == 'ü' || IsToneMarked(c)
  }

  /** The first of two alternatives that matches. */
  function OrElse(a: Option<nat>, b: Option<nat>): Option<nat>
  {
    if a.Some? then a else b
  }

  /** A match preceded by `k` more matched characters. */
  function After(k: nat, m: Option<nat>): Option<nat>
  {
    if m.Some? then Some(k + m.value) else None
  }

  /** The ending after a final's vowel: the first compound that fits, else the first simple one, else none. */
  function EndingLen(text: string, i: nat): nat
  {
    var m := OrElse(FirstMatch(text, i, CompoundEndings), FirstMatch(text, i, SimpleEndings));
    if m.Some? then m.value else 0
  }

  /** The final at `r`: a vowel and its ending. */
  function FinalLen(text: string, r: nat): Option<nat>
  {
    if r < |text| && IsVowel(text[r]) then Some(1 + EndingLen(text, r + 1)) else None
  }

  /**
   * A character after which the erhua `r` is not taken: the look-ahead class
   * `[a-zü…]` under the `i` flag, i.e. any letter, not only a vowel.
   */
  predicate BlocksErhua(c: char)
  {
    IsAsciiLetter(c) || FoldCase(c) == 'ü' || IsToneMarked(c)
  }

  /** The optional erhua `r` at `e`: 1 when taken, 0 otherwise. */
  function ErhuaLen(text: string, e: nat): nat
  {
    if e < |text| && FoldCase(text[e]) == 'r' && !(e + 1 < |text| && BlocksErhua(text[e + 1]))
    then 1 else 0
  }

  /** A final at `r` followed by the optional erhua. */
  function FinalWithErhua(text: string, r: nat): Option<nat>
  {
    var f := FinalLen(text, r);
    if f.Some? then Some(f.value + ErhuaLen(text, r + f.value)) else None
  }

  /** A medial at `q` followed by a final. */
  function WithMedial(text: string, q: nat): Option<nat>
  {
    if q < |text| && IsMedial(text[q]) then After(1, FinalWithErhua(text, q + 1)) else None
  }

  /** The pattern after an initial of length `i`: with a medial if one fits, else without. */
  function MatchAfterInitial(text: string, p: nat, i: nat): Option<nat>
  {
    After(i, OrElse(WithMedial(text, p + i), FinalWithErhua(text, p + i)))
  }

  /** zh, ch or sh at `p`, ignoring case. */
  predicate DigraphAt(text: string, p: nat)
  {
    MatchesAt(text, p, "zh") || MatchesAt(text, p, "ch") || MatchesAt(text, p, "sh")
  }

  /** The pattern with a zh/ch/sh initial. */
  function WithDigraph(text: string, p: nat): Option<nat>
  {
    if DigraphAt(text, p) then MatchAfterInitial(text, p, 2) else None
  }

  /** The pattern with a one-consonant initial. */
  function WithConsonant(text: string, p: nat): Option<nat>
  {
    if p < |text| && IsConsonant(text[p]) then MatchAfterInitial(text, p, 1) else None
  }

  /**
   * The length of the syllable the pattern matches at `p`, if any: the
   * initials are tried as the alternation orders them (a digraph, one
   * consonant, none) and the first that lets the rest match wins.
   */
  function MatchAt(text: string, p: nat): Option<nat>
  {
    OrElse(WithDigraph(text, p), OrElse(WithConsonant(text, p), MatchAfterInitial(text, p, 0)))
  }

  /** A final and its erhua are non-empty and lie inside the text. */
  lemma FinalWithErhuaBounds(text: string, r: nat)
    ensures FinalWithErhua(text, r).Some? ==>
      1 <= FinalWithErhua(text, r).value && r + FinalWithErhua(text, r).value <= |text|
  {
    FirstMatchBound(text, r + 1, CompoundEndings);
    FirstMatchBound(text, r + 1, SimpleEndings);
  }

  /** Whatever follows an initial of length `i` is non-empty and lies inside the text. */
  lemma MatchAfterInitialBounds(text: string, p: nat, i: nat)
    ensures MatchAfterInitial(text, p, i).Some? ==>
      i < MatchAfterInitial(text, p, i).value && p + MatchAfterInitial(text, p, i).value <= |text|
  {
    FinalWithErhuaBounds(text, p + i);
    FinalWithErhuaBounds(text, p + i + 1);
  }

  /** A match is non-empty and lies inside the text. */
  lemma MatchAtBounds(text: string, p: nat)
    ensures MatchAt(text, p).Some? ==> 1 <= MatchAt(text, p).value && p + MatchAt(text, p).value <= |text|
  {
    MatchAfterInitialBounds(text, p, 0);
    MatchAfterInitialBounds(text, p, 1);
    MatchAfterInitialBounds(text, p, 2);
  }

  /** Whatever follows an initial of length `i` holds a vowel; a vowel right after it always matches. */
  lemma MatchAfterInitialVowel(text: string, p: nat, i: nat)
    ensures MatchAfterInitial(text, p, i).Some? ==> HasVowel(text, Span(p, p + MatchAfterInitial(text, p, i).value))
    ensures p + i < |text| && IsVowel(text[p + i]) ==> MatchAfterInitial(text, p, i).Some?
  {
    var q := p + i;
    FinalWithErhuaBounds(text, q);
    FinalWithErhuaBounds(text, q + 1);
    if WithMedial(text, q).Some? {
      assert IsVowel(text[q + 1]);
    } else if FinalWithErhua(text, q).Some? {
      assert IsVowel(text[q]);
    }
  }

  /** Every match holds a vowel (its final), and a vowel always starts a match. */
  lemma MatchAtVowel(text: string, p: nat)
    ensures MatchAt(text, p).Some? ==> HasVowel(text, Span(p, p + MatchAt(text, p).value))
    ensures p < |text| && IsVowel(text[p]) ==> MatchAt(text, p).Some?
  {
    MatchAfterInitialVowel(text, p, 0);
    MatchAfterInitialVowel(text, p, 1);
    MatchAfterInitialVowel(text, p, 2);
  }

  /** A span holds a vowel: the final every match contains. */
  predicate HasVowel(text: string, s: Span)
  {
    exists k :: 0 <= s.start <= k < s.end && k < |text| && IsVowel(text[k])
  }

  // ---------------------------------------------------------------------
  // Lists of spans
  // ---------------------------------------------------------------------

  /**
   * The spans are non-empty, in order, do not overlap, and lie in
   * `[lo, hi)`.
   */
  predicate Ordered(bs: seq<Span>, lo: nat, hi: nat)
    decreases |bs|
  {
    if bs == [] then lo <= hi
    else lo <= bs[0].start < bs[0].end <= hi && Ordered(bs[1..], bs[0].end, hi)
  }

  /** The spans cover `[lo, hi)` exactly, one after the other. */
  predicate Tiles(bs: seq<Span>, lo: nat, hi: nat)
    decreases |bs|
  {
    if bs == [] then lo == hi
    else bs[0].start == lo && bs[0].start < bs[0].end && Tiles(bs[1..], bs[0].end, hi)
  }

  /** The total length of the spans (the `reduce` of `isNonPinyinWord`). */
  function Covered(bs: seq<Span>): int
    decreases |bs|
  {
    if bs == [] then 0 else Length(bs[0]) + Covered(bs[1..])
  }

  /** Ordered spans in `[lo, hi)` cover at most its width, all of it exactly when they tile it. */
  lemma {:induction false} CoveredBound(bs: seq<Span>, lo: nat, hi: nat)
    requires Ordered(bs, lo, hi)
    ensures Covered(bs) <= hi - lo
    ensures Covered(bs) == hi - lo <==> Tiles(bs, lo, hi)
    decreases |bs|
  {
    if bs != [] {
      CoveredBound(bs[1..], bs[0].end, hi);
    }
  }

  // ---------------------------------------------------------------------
  // The exec loop
  // ---------------------------------------------------------------------

  /** The syllable pattern as the `exec` loop uses it: the match at each position. */
  function Matcher(text: string): nat -> Option<nat>
  {
    (p: nat) => MatchAt(text, p)
  }

  /**
   * `next` reports a match at `q` that is non-empty and ends inside a text
   * of length `n`.
   */
  predicate Accepts(n: nat, next: nat -> Option<nat>, q: nat)
  {
    next(q).Some? && 0 < next(q).value && q + next(q).value <= n
  }

  /**
   * The matches an `exec` loop finds in a text of length `n` from `p` on: a
   * match resumes the search at its end, a failure one character further.
   * `next(p)` is the length of the pattern's match at `p`; a match that is
   * empty or runs past the end is treated as none (the syllable pattern
   * never yields one, see `MatchAtBounds`).
   */
  function ScanFrom(n: nat, next: nat -> Option<nat>, p: nat): seq<Span>
    requires p <= n
    decreases n - p
  {
    if p == n then []
    else if Accepts(n, next, p) then [Span(p, p + next(p).value)] + ScanFrom(n, next, p + next(p).value)
    else ScanFrom(n, next, p + 1)
  }

  /** The spans of the first loop of `findSyllableBoundaries`. */
  function RawSpans(text: string): seq<Span>
  {
    ScanFrom(|text|, Matcher(text), 0)
  }

  /** The scan yields ordered, non-empty spans inside `[p, n)`. */
  lemma {:induction false} ScanFromOrdered(n: nat, next: nat -> Option<nat>, p: nat)
    requires p <= n
    ensures Ordered(ScanFrom(n, next, p), p, n)
    decreases n - p
  {
    if p < n {
      if Accepts(n, next, p) {
        ScanFromOrdered(n, next, p + next(p).value);
        var rest := ScanFrom(n, next, p + next(p).value);
        assert ([Span(p, p + next(p).value)] + rest)[1..] == rest;
      } else {
        ScanFromOrdered(n, next, p + 1);
      }
    }
  }

  /** Every span of the scan is the pattern's match at its start. */
  lemma {:induction false} ScanFromMatches(n: nat, next: nat -> Option<nat>, p: nat)
    requires p <= n
    ensures forall k :: 0 <= k < |ScanFrom(n, next, p)| ==>
              0 <= ScanFrom(n, next, p)[k].start
              && Accepts(n, next, ScanFrom(n, next, p)[k].start)
              && ScanFrom(n, next, p)[k].end == ScanFrom(n, next, p)[k].start + next(ScanFrom(n, next, p)[k].start).value
    decreases n - p
  {
    if p < n {
      if Accepts(n, next, p) {
        ScanFromMatches(n, next, p + next(p).value);
      } else {
        ScanFromMatches(n, next, p + 1);
      }
    }
  }

  /** The scan passes over a position only when the pattern does not match there. */
  lemma {:induction false} ScanFromCovers(n: nat, next: nat -> Option<nat>, p: nat, j: nat)
    requires p <= j < n && Accepts(n, next, j)
    ensures exists k :: 0 <= k < |ScanFrom(n, next, p)|
                        && ScanFrom(n, next, p)[k].start <= j < ScanFrom(n, next, p)[k].end
    decreases n - p
  {
    var spans := ScanFrom(n, next, p);
    if Accepts(n, next, p) {
      var e := p + next(p).value;
      if j >= e {
        ScanFromCovers(n, next, e, j);
        var rest := ScanFrom(n, next, e);
        var k :| 0 <= k < |rest| && rest[k].start <= j < rest[k].end;
        assert spans[k + 1] == rest[k];
      } else {
        assert spans[0] == Span(p, e);
      }
    } else {
      ScanFromCovers(n, next, p + 1, j);
    }
  }

  /** The syllable pattern accepts at `q` exactly when it matches there. */
  lemma MatcherAccepts(text: string, q: nat)
    ensures Accepts(|text|, Matcher(text), q) <==> MatchAt(text, q).Some?
    ensures Accepts(|text|, Matcher(text), q) ==> Matcher(text)(q) == MatchAt(text, q)
  {
    MatchAtBounds(text, q);
  }

  /** Every syllable the scan finds holds a vowel. */
  lemma RawSpansHaveVowels(text: string)
    ensures forall k :: 0 <= k < |RawSpans(text)| ==> HasVowel(text, RawSpans(text)[k])
  {
    var spans := RawSpans(text);
    ScanFromMatches(|text|, Matcher(text), 0);
    forall k | 0 <= k < |spans|
      ensures HasVowel(text, spans[k])
    {
      MatcherAccepts(text, spans[k].start);
      MatchAtVowel(text, spans[k].start);
    }
  }

  /** No vowel is passed over: every vowel lies in a syllable the scan finds. */
  lemma RawSpansCoverVowels(text: string, j: nat)
    requires j < |text| && IsVowel(text[j])
    ensures exists k :: 0 <= k < |RawSpans(text)| && RawSpans(text)[k].start <= j < RawSpans(text)[k].end
  {
    VowelAccepted(text, j);
    ScanFromCovers(|text|, Matcher(text), 0, j);
    var spans := ScanFrom(|text|, Matcher(text), 0);
    var k :| 0 <= k < |spans| && spans[k].start <= j < spans[k].end;
    assert RawSpans(text)[k] == spans[k];
  }

  /** The syllable pattern matches at every vowel. */
  lemma VowelAccepted(text: string, j: nat)
    requires j < |text| && IsVowel(text[j])
    ensures Accepts(|text|, Matcher(text), j)
  {
    MatchAtVowel(text, j);
    MatcherAccepts(text, j);
  }

  /** A text without vowels has no syllables. */
  lemma NoVowelNoSpans(text: string)
    requires forall j :: 0 <= j < |text| ==> !IsVowel(text[j])
    ensures RawSpans(text) == []
  {
    SpansImplyVowel(text);
  }

  /** A text in which the scan finds a syllable holds a vowel. */
  lemma SpansImplyVowel(text: string)
    ensures |RawSpans(text)| > 0 ==> exists j :: 0 <= j < |text| && IsVowel(text[j])
  {
    RawSpansHaveVowels(text);
    if |RawSpans(text)| > 0 {
      assert HasVowel(text, RawSpans(text)[0]);
    }
  }

  // ---------------------------------------------------------------------
  // The post-pass
  // ---------------------------------------------------------------------

  /**
   * The post-pass moves the last character of `cur` onto `next` when `next`
   * starts with a/o/e, the gap between them holds no apostrophe and no space,
   * and `cur` is longer than one character and ends in a consonant.
   */
  predicate ShouldShift(text: string, cur: Span, next: Span)
  {
    0 <= cur.start < cur.end <= next.start < next.end <= |text|
    && IsAoe(text[next.start])
    && '\'' !in text[cur.end..next.start]
    && ' ' !in text[cur.end..next.start]
    && cur.end - cur.start > 1
    && IsEndingConsonant(text[cur.end - 1])
  }

  /** The shift condition of `text`, as the post-pass consults it. */
  function ShiftRule(text: string): (Span, Span) -> bool
  {
    (cur: Span, next: Span) => ShouldShift(text, cur, next)
  }

  /**
   * A shift rule only ever takes a character from a span longer than one
   * character that lies before the span it gives it to.
   */
  ghost predicate Forward(shift: (Span, Span) -> bool)
  {
    forall cur: Span, next: Span :: shift(cur, next) ==> cur.start + 1 < cur.end <= next.start
  }

  /** The syllable post-pass only ever moves a character forward. */
  lemma ShiftRuleForward(text: string)
    ensures Forward(ShiftRule(text))
  {
  }

  /**
   * The second loop of `findSyllableBoundaries` from span `i` on, for the
   * shift rule `shift`: span `i` is emitted, and when it shifts, it loses its
   * last character and span `i + 1` is rewritten to start one character
   * earlier before it is looked at.
   */
  function PostPassFrom(shift: (Span, Span) -> bool, bs: seq<Span>, i: nat): (out: seq<Span>)
    requires i <= |bs|
    ensures |out| == |bs| - i
    decreases |bs| - i
  {
    if i == |bs| then []
    else if i + 1 < |bs| && shift(bs[i], bs[i + 1]) then
      [Span(bs[i].start, bs[i].end - 1)] + PostPassFrom(shift, Moved(bs, i + 1), i + 1)
    else
      [bs[i]] + PostPassFrom(shift, bs, i + 1)
  }

  /** `boundaries[j]` rewritten to start one character earlier. */
  function Moved(bs: seq<Span>, j: nat): seq<Span>
    requires j < |bs|
  {
    bs[j := Span(bs[j].start - 1, bs[j].end)]
  }

  /** The whole post-pass. */
  function PostPass(text: string, bs: seq<Span>): seq<Span>
  {
    PostPassFrom(ShiftRule(text), bs, 0)
  }

  /** What `findSyllableBoundaries` returns. */
  function Boundaries(text: string): seq<Span>
  {
    PostPass(text, RawSpans(text))
  }

  /** The first span the post-pass emits from `i` on, and the rest. */
  lemma PostPassFromUnfold(shift: (Span, Span) -> bool, bs: seq<Span>, i: nat)
    requires i < |bs|
    ensures var moves := i + 1 < |bs| && shift(bs[i], bs[i + 1]);
      PostPassFrom(shift, bs, i)[0] == (if moves then Span(bs[i].start, bs[i].end - 1) else bs[i])
      && PostPassFrom(shift, bs, i)[1..] == PostPassFrom(shift, if moves then Moved(bs, i + 1) else bs, i + 1)
  {
  }

  /**
   * The post-pass from `i` on, span by span: span `k` loses its last
   * character exactly when the shift rule holds between it (as already
   * moved) and the original span `k + 1`.
   */
  lemma {:induction false} PostPassFromEnd(shift: (Span, Span) -> bool, bs: seq<Span>, i: nat, k: nat)
    requires i <= k < |bs|
    ensures PostPassFrom(shift, bs, i)[k - i].end ==
      if k + 1 < |bs| && shift(Span(PostPassFrom(shift, bs, i)[k - i].start, bs[k].end), bs[k + 1])
      then bs[k].end - 1 else bs[k].end
    decreases |bs| - i
  {
    var moves := i + 1 < |bs| && shift(bs[i], bs[i + 1]);
    var next := if moves then Moved(bs, i + 1) else bs;
    var out := PostPassFrom(shift, bs, i);
    PostPassFromUnfold(shift, bs, i);
    if k == i {
      assert out[0].start == bs[i].start;
      assert Span(bs[i].start, bs[i].end) == bs[i];
    } else {
      var rest := PostPassFrom(shift, next, i + 1);
      PostPassFromEnd(shift, next, i + 1, k);
      assert out[k - i] == out[1..][k - i - 1] == rest[k - i - 1];
      assert next[k].end == bs[k].end;
      assert k + 1 < |bs| ==> next[k + 1] == bs[k + 1];
    }
  }

  /**
   * The post-pass from `i` on, span by span: span `k` starts one character
   * early exactly when span `k - 1` lost its last character.
   */
  lemma {:induction false} PostPassFromStart(shift: (Span, Span) -> bool, bs: seq<Span>, i: nat, k: nat)
    requires i <= k < |bs|
    ensures PostPassFrom(shift, bs, i)[k - i].start ==
      if k > i && PostPassFrom(shift, bs, i)[k - i - 1].end < bs[k - 1].end then bs[k].start - 1 else bs[k].start
    decreases |bs| - i
  {
    var moves := i + 1 < |bs| && shift(bs[i], bs[i + 1]);
    var next := if moves then Moved(bs, i + 1) else bs;
    PostPassFromUnfold(shift, bs, i);
    if k > i + 1 {
      PostPassFromStart(shift, next, i + 1, k);
      assert next[k - 1].end == bs[k - 1].end;
      assert next[k] == bs[k];
    } else if k == i + 1 {
      PostPassFromUnfold(shift, next, i + 1);
    }
  }

  /**
   * The whole post-pass, span by span: span `k` loses its last character
   * exactly when the shift condition holds between it (as already moved) and
   * the original span `k + 1`; it starts one character early exactly when
   * span `k - 1` lost its last character.  Nothing else moves.
   */
  lemma PostPassAt(text: string, bs: seq<Span>, k: nat)
    requires k < |bs|
    ensures PostPass(text, bs)[k].end ==
      if k + 1 < |bs| && ShouldShift(text, Span(PostPass(text, bs)[k].start, bs[k].end), bs[k + 1])
      then bs[k].end - 1 else bs[k].end
    ensures PostPass(text, bs)[k].start ==
      if k > 0 && PostPass(text, bs)[k - 1].end < bs[k - 1].end then bs[k].start - 1 else bs[k].start
  {
    PostPassFromEnd(ShiftRule(text), bs, 0, k);
    PostPassFromStart(ShiftRule(text), bs, 0, k);
  }

  /** The post-pass from `i` on keeps the spans ordered, non-empty and inside `[lo, hi)`. */
  lemma {:induction false} PostPassFromOrdered(shift: (Span, Span) -> bool, bs: seq<Span>, i: nat, lo: nat, hi: nat)
    requires Forward(shift) && i <= |bs| && Ordered(bs[i..], lo, hi)
    ensures Ordered(PostPassFrom(shift, bs, i), lo, hi)
    decreases |bs| - i
  {
    if i < |bs| {
      PostPassFromUnfold(shift, bs, i);
      assert bs[i..][1..] == bs[i + 1..];
      if i + 1 < |bs| && shift(bs[i], bs[i + 1]) {
        var next := Moved(bs, i + 1);
        assert bs[i + 1..][1..] == bs[i + 2..];
        assert next[i + 1..] == [next[i + 1]] + bs[i + 2..];
        PostPassFromOrdered(shift, next, i + 1, bs[i].end - 1, hi);
      } else {
        PostPassFromOrdered(shift, bs, i + 1, bs[i].end, hi);
      }
    }
  }

  /** The post-pass keeps the spans ordered, non-empty and inside `[lo, hi)`. */
  lemma PostPassOrdered(text: string, bs: seq<Span>, lo: nat, hi: nat)
    requires Ordered(bs, lo, hi)
    ensures Ordered(PostPass(text, bs), lo, hi)
  {
    assert bs[0..] == bs;
    ShiftRuleForward(text);
    PostPassFromOrdered(ShiftRule(text), bs, 0, lo, hi);
  }

  /** A shift moves one character from one span to the next, so the total is unchanged. */
  lemma {:induction false} PostPassFromCovered(shift: (Span, Span) -> bool, bs: seq<Span>, i: nat)
    requires i <= |bs|
    ensures Covered(PostPassFrom(shift, bs, i)) == Covered(bs[i..])
    decreases |bs| - i
  {
    if i < |bs| {
      PostPassFromUnfold(shift, bs, i);
      assert bs[i..][1..] == bs[i + 1..];
      if i + 1 < |bs| && shift(bs[i], bs[i + 1]) {
        var next := Moved(bs, i + 1);
        assert bs[i + 1..][1..] == bs[i + 2..];
        assert next[i + 1..][1..] == bs[i + 2..];
        PostPassFromCovered(shift, next, i + 1);
      } else {
        PostPassFromCovered(shift, bs, i + 1);
      }
    }
  }

  /** The post-pass leaves the total length of the spans unchanged. */
  lemma PostPassCovered(text: string, bs: seq<Span>)
    ensures Covered(PostPass(text, bs)) == Covered(bs)
  {
    assert bs[0..] == bs;
    PostPassFromCovered(ShiftRule(text), bs, 0);
  }

  // ---------------------------------------------------------------------
  // findSyllableBoundaries and isNonPinyinWord
  // ---------------------------------------------------------------------

  /**
   * The first loop of `findSyllableBoundaries`: `exec` until it finds no more
   * matches, in a text of length `n` searched with the pattern `next`.
   */
  method CollectMatches(n: nat, next: nat -> Option<nat>) returns (boundaries: seq<Span>)
    ensures boundaries == ScanFrom(n, next, 0)
  {
    boundaries := [];
    var p := 0;
    while p < n
      invariant p <= n
      invariant boundaries + ScanFrom(n, next, p) == ScanFrom(n, next, 0)
      decreases n - p
    {
      var m := next(p);
      if m.Some? && 0 < m.value && p + m.value <= n {
        var span := Span(p, p + m.value);
        assert Accepts(n, next, p);
        assert boundaries + ScanFrom(n, next, p) == (boundaries + [span]) + ScanFrom(n, next, p + m.value);
        boundaries := boundaries + [span];
        p := p + m.value;
      } else {
        p := p + 1;
      }
    }
  }

  /**
   * The second loop of `findSyllableBoundaries`: each span is emitted in turn;
   * when a consonant moves, the span just emitted is shortened and the next
   * one is rewritten in place before it is looked at.
   */
  method ShiftConsonants(text: string, raw: seq<Span>) returns (processed: seq<Span>)
    ensures processed == PostPass(text, raw)
  {
    var boundaries := raw;
    processed := [];
    var i := 0;
    ghost var whole := PostPassFrom(ShiftRule(text), raw, 0);
    assert processed + whole == whole;
    while i < |boundaries|
      invariant i <= |boundaries| == |raw|
      invariant processed + PostPassFrom(ShiftRule(text), boundaries, i) == whole
      decreases |boundaries| - i
    {
      var current := boundaries[i];
      ghost var before := boundaries;
      ghost var done := processed;
      processed := processed + [current];
      if i + 1 < |boundaries| && ShouldShift(text, current, boundaries[i + 1]) {
        var next := boundaries[i + 1];
        processed := processed[|processed| - 1 := Span(current.start, current.end - 1)];
        boundaries := boundaries[i + 1 := Span(next.start - 1, next.end)];
        PostPassShifted(ShiftRule(text), before, i, done);
      } else {
        PostPassKept(ShiftRule(text), before, i, done);
      }
      i := i + 1;
    }
  }

  /** A round of the loop above that moves a consonant: the emitted span shrinks, the next one grows. */
  lemma PostPassShifted(shift: (Span, Span) -> bool, bs: seq<Span>, i: nat, done: seq<Span>)
    requires i + 1 < |bs| && shift(bs[i], bs[i + 1])
    ensures (done + [bs[i]])[|done| := Span(bs[i].start, bs[i].end - 1)] + PostPassFrom(shift, Moved(bs, i + 1), i + 1)
      == done + PostPassFrom(shift, bs, i)
  {
    var shrunk := Span(bs[i].start, bs[i].end - 1);
    var rest := PostPassFrom(shift, Moved(bs, i + 1), i + 1);
    assert PostPassFrom(shift, bs, i) == [shrunk] + rest;
    assert (done + [bs[i]])[|done| := shrunk] == done + [shrunk];
    assert (done + [shrunk]) + rest == done + ([shrunk] + rest);
  }

  /** A round of the loop above that moves nothing: the span is emitted as it is. */
  lemma PostPassKept(shift: (Span, Span) -> bool, bs: seq<Span>, i: nat, done: seq<Span>)
    requires i < |bs| && !(i + 1 < |bs| && shift(bs[i], bs[i + 1]))
    ensures (done + [bs[i]]) + PostPassFrom(shift, bs, i + 1) == done + PostPassFrom(shift, bs, i)
  {
  }

  /** `findSyllableBoundaries`: the matches of the syllable pattern after the post-pass. */
  method FindSyllableBoundaries(text: string) returns (processed: seq<Span>)
    ensures processed == Boundaries(text)
    ensures Ordered(processed, 0, |text|)
    ensures Covered(processed) == Covered(RawSpans(text))
  {
    var boundaries := CollectMatches(|text|, Matcher(text));
    processed := ShiftConsonants(text, boundaries);
    ScanFromOrdered(|text|, Matcher(text), 0);
    PostPassOrdered(text, RawSpans(text), 0, |text|);
    PostPassCovered(text, RawSpans(text));
  }

  /**
   * `isNonPinyinWord`: no syllable found, or the syllables leave part of the
   * word uncovered.
   */
  predicate IsNonPinyinWord(word: string)
  {
    var b := Boundaries(word);
    |b| == 0 || Covered(b) < |word|
  }

  /** A word counts as pinyin exactly when its syllables tile it from end to end. */
  lemma PinyinIffTiled(word: string)
    ensures Ordered(Boundaries(word), 0, |word|)
    ensures !IsNonPinyinWord(word) <==> |Boundaries(word)| > 0 && Tiles(Boundaries(word), 0, |word|)
  {
    ScanFromOrdered(|word|, Matcher(word), 0);
    PostPassOrdered(word, RawSpans(word), 0, |word|);
    CoveredBound(Boundaries(word), 0, |word|);
  }

  /** The post-pass never changes the verdict: the raw matches decide it. */
  lemma VerdictFromRawSpans(word: string)
    ensures IsNonPinyinWord(word) <==> |RawSpans(word)| == 0 || Covered(RawSpans(word)) < |word|
  {
    PostPassCovered(word, RawSpans(word));
  }

  /** A word without a vowel is never pinyin. */
  lemma NoVowelIsNonPinyin(word: string)
    requires forall j :: 0 <= j < |word| ==> !IsVowel(word[j])
    ensures IsNonPinyinWord(word)
  {
    NoVowelNoSpans(word);
  }
}
