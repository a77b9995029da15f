/**
 * `p2z` of pinyin-to-zhuyin.js: pinyin with tone numbers to zhuyin.  The text
 * is lower-cased and then reassigned through ordered passes: an erhua tone
 * number moves in front of its `r`, a syllable without a number gets the
 * neutral `5`, a space separates a numbered syllable from the next one, the
 * `bpmfTransforms` cascade spells the letters as zhuyin, and with `tonemarks`
 * each number becomes a glyph.
 */
module P2z {
  import opened Common
  import opened ToneTable
  import opened ZhuyinSegment
  import opened Rules
  import ZhuyinSyllable

  datatype P2zOptions = P2zOptions(tonemarks: bool, convertPunctuation: bool)

  const DefaultOptions := P2zOptions(true, false)

  // ---------------------------------------------------------------------
  // toLowerCase
  // ---------------------------------------------------------------------

  /**
   * The capitals whose lower-case forms a pattern of `p2z` names: the ASCII
   * capitals, Ü, the Kelvin sign K (U+212A), which lower-cases to `k`, and
   * the marked capitals of the tone table.
   */
  predicate IsFoldedCapital(c: char)
  {
    'A' <= c <= 'Z' || c == 'Ü' || c == '\U{212A}'
    || (match Decompose(c) case Some((v, _)) => v == 'A' || v == 'E' || v == 'I' || v == 'O' || v == 'U' || v == 'Ü' case None => false)
  }

  lemma LowerBaseTwice(v: char)
    requires IsBaseVowel(v)
    ensures LowerBase(LowerBase(v)) == LowerBase(v)
  {
  }

  /** `toLowerCase` of a marked vowel: the mark of the same tone on the lower-case vowel. */
  function LowerMark(c: char): (l: char)
    requires IsToneMarked(c)
    ensures IsToneMarked(l) && ToneMarkedToBase(l) == ToneMarkedToBase(c) && ToneMarkedToNumber(l) == ToneMarkedToNumber(c)
  {
    var v, k := Decompose(c).value.0, Decompose(c).value.1;
    DecomposeSound(c);
    DecomposeCell(LowerBase(v), k);
    LowerBaseTwice(v);
    ToneMarks(LowerBase(v))[k]
  }

  /** `toLowerCase` on one character, for the capitals `IsFoldedCapital` names. */
  function LowerChar(c: char): char
  {
    if c as int < 0xC0 || c == 'Ü' || c == 'ü' then FoldCase(c)
    else if c == '\U{212A}' then 'k'
    else if IsToneMarked(c) then LowerMark(c)
    else c
  }

  /** A marked vowel lower-cases to the same vowel with the same tone. */
  lemma LowerMarkedVowel(c: char)
    requires IsToneMarked(c)
    ensures IsToneMarked(LowerChar(c))
    ensures ToneMarkedToBase(LowerChar(c)) == ToneMarkedToBase(c)
    ensures ToneMarkedToNumber(LowerChar(c)) == ToneMarkedToNumber(c)
  {
    DecomposeRange(c);
  }

  /** Lower-casing changes exactly the capitals, and leaves none. */
  lemma LowerCharFixes(c: char)
    ensures LowerChar(c) == c <==> !IsFoldedCapital(c)
    ensures !IsFoldedCapital(LowerChar(c))
  {
    if IsToneMarked(c) {
      DecomposeRange(c);
      var v, k := Decompose(c).value.0, Decompose(c).value.1;
      DecomposeSound(c);
      DecomposeCell(LowerBase(v), k);
      var l := LowerChar(c);
      assert l == LowerMark(c);
      assert Decompose(l) == Some((LowerBase(v), k));
      DecomposeRange(l);
      if LowerBase(v) == v {
        assert l == c;
      }
    } else if c as int < 0xC0 {
      if Decompose(LowerChar(c)).Some? {
        DecomposeRange(LowerChar(c));
      }
    }
  }

  /** `toLowerCase`, one character at a time. */
  function Lower(s: string): (r: string)
    ensures |r| == |s| && forall i :: 0 <= i < |s| ==> r[i] == LowerChar(s[i])
  {
    if s == [] then [] else [LowerChar(s[0])] + Lower(s[1..])
  }

  /** Lower-casing twice is lower-casing once, and text without a capital is kept. */
  lemma {:induction false} LowerIdempotent(s: string)
    ensures Lower(Lower(s)) == Lower(s)
    ensures (forall i :: 0 <= i < |s| ==> !IsFoldedCapital(s[i])) ==> Lower(s) == s
  {
    forall i | 0 <= i < |s|
      ensures LowerChar(LowerChar(s[i])) == LowerChar(s[i])
      ensures !IsFoldedCapital(s[i]) ==> LowerChar(s[i]) == s[i]
    {
      LowerCharFixes(s[i]);
      LowerCharFixes(LowerChar(s[i]));
    }
  }

  /**
   * `m.toLowerCase() === c` for a run `m` the passes matched under the `i`
   * flag: one letter that folds to `c`.
   */
  predicate FoldsTo(m: string, c: char)
  {
    |m| == 1 && FoldCase(m[0]) == c
  }

  // ---------------------------------------------------------------------
  // The four regular-expression passes before the cascade
  // ---------------------------------------------------------------------

  /** `[a-zü]`: with the `i` flag (`fold`) capitals count too. */
  predicate IsLetter(c: char, fold: bool)
  {
    var f := if fold then FoldCase(c) else c;
    IsSmallAscii(f) || f == 'ü'
  }

  /** On a run of `[a-zü]` letters, `FoldsTo` is `toLowerCase() === c`. */
  lemma FoldsToLower(m: string, c: char)
    requires forall i :: 0 <= i < |m| ==> IsLetter(m[i], true)
    ensures FoldsTo(m, c) <==> Lower(m) == [c]
  {
    if |m| == 1 {
      assert Lower(m) == [LowerChar(m[0])];
    }
  }

  /** Where the run of letters that starts at `p` ends. */
  function RunEnd(s: string, p: nat, fold: bool): (q: nat)
    requires p <= |s|
    ensures p <= q <= |s|
    ensures forall i :: p <= i < q ==> IsLetter(s[i], fold)
    ensures q < |s| ==> !IsLetter(s[q], fold)
    decreases |s| - p
  {
    if p < |s| && IsLetter(s[p], fold) then RunEnd(s, p + 1, fold) else p
  }

  /** The run's end is the first non-letter from `p`. */
  lemma RunEndAt(s: string, p: nat, q: nat, fold: bool)
    requires p <= q <= |s|
    requires forall i :: p <= i < q ==> IsLetter(s[i], fold)
    requires q < |s| ==> !IsLetter(s[q], fold)
    ensures RunEnd(s, p, fold) == q
  {
  }

  /** `[a-zü]+[1-5]` at `i`, under the `i` flag: a run of letters, then a tone number. */
  predicate LettersThenDigit(s: string, i: nat)
    requires i <= |s|
  {
    var q := RunEnd(s, i, true);
    i < q < |s| && IsToneDigit(s[q])
  }

  /**
   * `boundary` at `j`: the end of the text, a character outside `[a-zü'1-5]`,
   * or a `danglingApostrophe`, one that no numbered syllable follows.
   */
  predicate Boundary(s: string, j: nat)
    requires j <= |s|
  {
    j == |s|
    || !(IsLetter(s[j], true) || s[j] == '\'' || IsToneDigit(s[j]))
    || (s[j] == '\'' && !LettersThenDigit(s, j + 1))
  }

  /** A match of a pass: how many characters it consumes and what replaces them. */
  datatype Edit = Edit(len: nat, text: string)

  datatype Pass =
    | ErhuaTone         // `/([a-zü]+)r([1-5])/gi`, `Xr<d>` to `X<d>r` unless X is `e`
    | NeutralVowel      // `vowelFinalSyllable`, replaced by `$15`
    | NeutralConsonant  // `consonantFinalSyllable`, with a `5` unless the match is `r`
    | SpaceAfterTone    // `([a-zü]+[1-5])(?=notErhuaNext[a-zü])`, replaced by `$1 `

  /**
   * The match of a pass that starts at `p`, if any.  Every pattern looks only
   * forward, so the match depends on the text from `p` on and nothing before.
   */
  function EditAt(s: string, p: nat, pass: Pass): (e: Option<Edit>)
    requires p < |s|
    ensures e.Some? ==> 0 < e.value.len && p + e.value.len <= |s|
  {
    EditOn(s[p..], pass)
  }

  /**
   * The match of a pass at the start of `u`.  The greedy letter run
   * backtracks only as far as the pattern needs: every later position is a
   * letter, which no lookahead accepts as a boundary.
   */
  function EditOn(u: string, pass: Pass): (e: Option<Edit>)
    requires u != []
    ensures e.Some? ==> 0 < e.value.len <= |u|
  {
    match pass
    case ErhuaTone => ErhuaEdit(u)
    case NeutralVowel => VowelEdit(u)
    case NeutralConsonant => ConsonantEdit(u)
    case SpaceAfterTone => SpaceEdit(u)
  }

  /** `([a-zü]+)r([1-5])`: a letter run ending in `r`, then a number. */
  function ErhuaEdit(u: string): (e: Option<Edit>)
    requires u != []
    ensures e.Some? ==> 0 < e.value.len <= |u|
  {
    var q := RunEnd(u, 0, true);
    if 2 <= q < |u| && FoldCase(u[q - 1]) == 'r' && IsToneDigit(u[q]) then
      var base := u[..q - 1];
      Some(Edit(q + 1, if FoldsTo(base, 'e') then u[..q + 1] else base + [u[q]] + "r"))
    else None
  }

  /**
   * `([a-zü]*[vowels])(?=boundary)`: the whole run and one more vowel, or
   * the run given back to its last letter, a vowel.
   */
  function VowelEdit(u: string): (e: Option<Edit>)
    requires u != []
    ensures e.Some? ==> 0 < e.value.len <= |u|
  {
    var q := RunEnd(u, 0, true);
    if q < |u| && IsVowel(u[q]) && Boundary(u, q + 1) then Some(Edit(q + 1, u[..q + 1] + "5"))
    else if 0 < q && IsVowel(u[q - 1]) && Boundary(u, q) then Some(Edit(q, u[..q] + "5"))
    else None
  }

  /** `([a-zü]+[consonants])(?=boundary)`, with a `5` unless the match is a lone `r`. */
  function ConsonantEdit(u: string): (e: Option<Edit>)
    requires u != []
    ensures e.Some? ==> 0 < e.value.len <= |u|
  {
    var q := RunEnd(u, 0, true);
    if 2 <= q && IsConsonant(u[q - 1]) && Boundary(u, q) then
      var m := u[..q];
      Some(Edit(q, if FoldsTo(m, 'r') then m else m + "5"))
    else None
  }

  /** `([a-zü]+[1-5])(?=notErhuaNext[a-zü])`, case-sensitive, replaced by `$1 `. */
  function SpaceEdit(u: string): (e: Option<Edit>)
    requires u != []
    ensures e.Some? ==> 0 < e.value.len <= |u|
  {
    var q := RunEnd(u, 0, false);
    if 0 < q && q + 1 < |u| && IsToneDigit(u[q]) && IsLetter(u[q + 1], false)
       && !(u[q + 1] == 'r' && (q + 2 == |u| || IsToneDigit(u[q + 2]) || !InPinyinClass(u[q + 2])))
    then Some(Edit(q + 1, u[..q + 1] + " "))
    else None
  }

  /**
   * `replace` with the pass's global pattern over the text not yet scanned:
   * a match is replaced and the scan resumes after it; elsewhere one
   * character is copied.
   */
  function ApplyPass(u: string, pass: Pass): string
    decreases |u|
  {
    if u == [] then ""
    else match EditOn(u, pass)
      case Some(e) => e.text + ApplyPass(u[e.len..], pass)
      case None => [u[0]] + ApplyPass(u[1..], pass)
  }

  /** Where no match starts, one character is copied. */
  lemma CopiedStep(u: string, pass: Pass)
    requires u != [] && EditOn(u, pass).None?
    ensures ApplyPass(u, pass) == [u[0]] + ApplyPass(u[1..], pass)
  {
  }

  /** No match starts at any of the first `n` positions of `u`. */
  predicate NoEditIn(u: string, n: nat, pass: Pass)
    requires n <= |u|
    decreases n
  {
    n == 0 || (EditOn(u, pass).None? && NoEditIn(u[1..], n - 1, pass))
  }

  /** Positions without a match, seen from the text that starts at `p`. */
  lemma {:induction false} NoEditFrom(s: string, p: nat, n: nat, pass: Pass)
    requires p + n <= |s|
    requires forall q :: p <= q < p + n ==> EditAt(s, q, pass).None?
    ensures NoEditIn(s[p..], n, pass)
    decreases n
  {
    if n > 0 {
      NoEditFrom(s, p + 1, n - 1, pass);
      assert s[p..][1..] == s[p + 1..];
      assert EditAt(s, p, pass).None?;
    }
  }

  /** Where no match starts in the first part, it is copied and the pass goes on with the rest. */
  lemma {:induction false} CopiedThenRest(a: string, t: string, pass: Pass)
    requires NoEditIn(a + t, |a|, pass)
    ensures ApplyPass(a + t, pass) == a + ApplyPass(t, pass)
    decreases |a|
  {
    if a != [] {
      CopiedStep(a + t, pass);
      assert (a + t)[1..] == a[1..] + t;
      CopiedThenRest(a[1..], t, pass);
      assert a == [a[0]] + a[1..];
    } else {
      assert a + t == t;
    }
  }

  /** The positions before `n` where no match starts. */
  lemma NoEditBefore(s: string, n: nat, pass: Pass)
    requires n <= |s|
    requires forall q :: 0 <= q < n ==> EditAt(s, q, pass).None?
    ensures NoEditIn(s, n, pass)
  {
    NoEditFrom(s, 0, n, pass);
    assert s[0..] == s;
  }

  /** A text where no match starts goes through a pass unchanged. */
  lemma NoEditKept(s: string, pass: Pass)
    requires NoEditIn(s, |s|, pass)
    ensures ApplyPass(s, pass) == s
  {
    assert s + [] == s;
    CopiedThenRest(s, [], pass);
  }

  /** A match that spans the whole text is all a pass produces. */
  lemma WholeEdit(s: string, pass: Pass, text: string)
    requires s != [] && EditAt(s, 0, pass) == Some(Edit(|s|, text))
    ensures ApplyPass(s, pass) == text
  {
    assert s[0..] == s;
    assert ApplyPass(s[|s|..], pass) == "";
  }

  // ---------------------------------------------------------------------
  // The passes look only forward
  // ---------------------------------------------------------------------

  /** The run that starts at `q` seen from the text that starts there. */
  lemma RunEndDrop(s: string, q: nat, fold: bool)
    requires q <= |s|
    ensures RunEnd(s[q..], 0, fold) == RunEnd(s, q, fold) - q
  {
    var r := RunEnd(s, q, fold);
    RunEndAt(s[q..], 0, r - q, fold);
  }

  /** A match that covers the first part is followed by the pass over the rest. */
  lemma EditThenRest(a: string, t: string, pass: Pass, text: string)
    requires a != [] && EditAt(a + t, 0, pass) == Some(Edit(|a|, text))
    ensures ApplyPass(a + t, pass) == text + ApplyPass(t, pass)
  {
    assert (a + t)[0..] == a + t;
    assert (a + t)[|a|..] == t;
  }

  /** A character that is neither a letter nor a vowel starts no match and is copied. */
  lemma {:induction false} KeptFirst(c: char, t: string, pass: Pass)
    requires !IsLetter(c, true) && !IsVowel(c)
    ensures ApplyPass([c] + t, pass) == [c] + ApplyPass(t, pass)
  {
    assert RunEnd([c] + t, 0, true) == 0 && RunEnd([c] + t, 0, false) == 0;
    assert EditOn([c] + t, pass).None?;
    CopiedThenRest([c], t, pass);
  }

  /** The four passes in order. */
  function Passes(s: string): string
  {
    var moved := ApplyPass(s, ErhuaTone);
    var vowels := ApplyPass(moved, NeutralVowel);
    var consonants := ApplyPass(vowels, NeutralConsonant);
    ApplyPass(consonants, SpaceAfterTone)
  }

  /** The text the passes leave for the cascade: lower-cased, then the four passes. */
  function Numbered(pinyin: string): string
  {
    Passes(Lower(pinyin))
  }

  // ---------------------------------------------------------------------
  // What the passes do to one word
  // ---------------------------------------------------------------------

  /** The characters the passes look at are ASCII, which no tone mark is. */
  lemma AsciiNotMarked(c: char)
    requires c as int < 0x80
    ensures !IsToneMarked(c)
  {
  }

  /** Letters without the `i` flag are letters with it. */
  lemma {:induction false} PlainLetters(w: string)
    requires forall i :: 0 <= i < |w| ==> IsLetter(w[i], false)
    ensures forall i :: 0 <= i < |w| ==> IsLetter(w[i], true) && FoldCase(w[i]) == w[i]
    ensures Lower(w) == w
  {
    forall i | 0 <= i < |w|
      ensures LowerChar(w[i]) == w[i]
    {
      if w[i] != 'ü' {
        AsciiNotMarked(w[i]);
      }
    }
  }

  /** `toLowerCase` works one character at a time, so it splits over a concatenation. */
  lemma LowerAppend(a: string, b: string)
    ensures Lower(a + b) == Lower(a) + Lower(b)
  {
    var l, r := Lower(a + b), Lower(a) + Lower(b);
    forall i | 0 <= i < |l|
      ensures l[i] == r[i]
    {
      if i < |a| {
        assert (a + b)[i] == a[i];
      } else {
        assert (a + b)[i] == b[i - |a|];
      }
    }
    assert |l| == |r|;
  }

  /** Lower-casing makes no tone number and removes none. */
  lemma LowerKeepsDigits(c: char)
    ensures IsToneDigit(LowerChar(c)) <==> IsToneDigit(c)
  {
    if IsToneDigit(LowerChar(c)) {
      AsciiNotMarked(LowerChar(c));
    }
  }

  lemma {:induction false} LowerNoDigit(s: string)
    requires forall i :: 0 <= i < |s| ==> !IsToneDigit(s[i])
    ensures forall i :: 0 <= i < |Lower(s)| ==> !IsToneDigit(Lower(s)[i])
  {
    forall i | 0 <= i < |s|
      ensures !IsToneDigit(LowerChar(s[i]))
    {
      LowerKeepsDigits(s[i]);
    }
  }

  /** The run that starts at `|a| + p` is the run of `t` from `p`, shifted. */
  lemma RunEndAfter(a: string, t: string, p: nat, fold: bool)
    requires p <= |t|
    ensures RunEnd(a + t, |a| + p, fold) == |a| + RunEnd(t, p, fold)
  {
    var q := RunEnd(t, p, fold);
    var s := a + t;
    forall i | |a| + p <= i < |a| + q
      ensures IsLetter(s[i], fold)
    {
      assert s[i] == t[i - |a|];
    }
    if q < |t| {
      assert s[|a| + q] == t[q];
    }
    RunEndAt(s, |a| + p, |a| + q, fold);
  }

  /** Whether a syllable ends at a position depends only on the text after it. */
  lemma BoundaryAfter(a: string, t: string)
    ensures Boundary(a + t, |a|) == Boundary(t, 0)
  {
    if t != [] {
      var s := a + t;
      assert s[|a|] == t[0];
      RunEndAfter(a, t, 1, true);
      var q := RunEnd(t, 1, true);
      if q < |t| {
        assert s[|a| + q] == t[q];
      }
    }
  }

  /** After an apostrophe, text without tone numbers holds no numbered syllable. */
  lemma ApostropheBoundary(e: string)
    requires forall i :: 0 <= i < |e| ==> !IsToneDigit(e[i])
    ensures Boundary("'" + e, 0)
  {
    var s := "'" + e;
    var q := RunEnd(s, 1, true);
    if q < |s| {
      assert s[q] == e[q - 1];
    }
  }

  // Where the patterns match

  /** `Xr<d>` is one erhua match, whatever follows it. */
  lemma ErhuaMatch(w: string, d: char, t: string)
    requires w != [] && forall i :: 0 <= i < |w| ==> IsLetter(w[i], true)
    requires IsToneDigit(d)
    ensures EditAt(w + "r" + [d] + t, 0, ErhuaTone)
            == Some(Edit(|w| + 2, if FoldsTo(w, 'e') then w + "r" + [d] else w + [d] + "r"))
  {
    var s := w + "r" + [d] + t;
    assert s[0..] == s;
    assert s[..|w|] == w && s[..|w| + 2] == w + "r" + [d];
    assert s[|w|] == 'r' && s[|w| + 1] == d;
    RunEndAt(s, 0, |w| + 1, true);
  }

  /** A word ending in a vowel, where a syllable may end, is one vowel-final match. */
  lemma VowelWordMatch(w: string, v: char, t: string)
    requires forall i :: 0 <= i < |w| ==> IsLetter(w[i], true)
    requires IsVowel(v) && Boundary(t, 0) && (t != [] ==> !IsVowel(t[0]))
    ensures EditAt(w + [v] + t, 0, NeutralVowel) == Some(Edit(|w| + 1, w + [v] + "5"))
  {
    var s := w + [v] + t;
    var n := |w| + 1;
    assert s[0..] == s;
    assert s[..n] == w + [v];
    BoundaryAfter(w + [v], t);
    if t != [] {
      assert s[n] == t[0];
    }
    if IsLetter(v, true) {
      RunEndAt(s, 0, n, true);
    } else {
      RunEndAt(s, 0, |w|, true);
    }
  }

  /** A word of two or more letters ending in a consonant, where a syllable may end, is one consonant-final match. */
  lemma ConsonantWordMatch(w: string, t: string)
    requires |w| >= 2 && forall i :: 0 <= i < |w| ==> IsLetter(w[i], true)
    requires IsConsonant(w[|w| - 1]) && Boundary(t, 0)
    ensures EditAt(w + t, 0, NeutralConsonant) == Some(Edit(|w|, w + "5"))
  {
    var s := w + t;
    assert s[0..] == s;
    assert s[..|w|] == w;
    BoundaryAfter(w, t);
    if t != [] {
      assert s[|w|] == t[0];
    }
    RunEndAt(s, 0, |w|, true);
  }

  /** The spacing pattern matches a numbered word directly followed by letters other than a lone erhua `r`. */
  lemma SpaceMatch(w1: string, d: char, w2: string)
    requires w1 != [] && forall i :: 0 <= i < |w1| ==> IsLetter(w1[i], false)
    requires w2 != [] && w2 != "r" && forall i :: 0 <= i < |w2| ==> IsLetter(w2[i], false)
    requires IsToneDigit(d)
    ensures EditAt(w1 + [d] + w2, 0, SpaceAfterTone) == Some(Edit(|w1| + 1, w1 + [d] + " "))
  {
    var s := w1 + [d] + w2;
    var n := |w1|;
    RunEndAt(s, 0, n, false);
    if w2[0] == 'r' {
      assert s[n + 2] == w2[1];
    }
    assert s[0..] == s;
    assert s[..n + 1] == w1 + [d];
  }

  // Where they do not

  /** Text without a tone number holds no erhua and no spacing match. */
  lemma NoDigitNoMatch(s: string)
    requires forall i :: 0 <= i < |s| ==> !IsToneDigit(s[i])
    ensures NoEditIn(s, |s|, ErhuaTone) && NoEditIn(s, |s|, SpaceAfterTone)
  {
    forall q | 0 <= q < |s|
      ensures EditAt(s, q, ErhuaTone).None? && EditAt(s, q, SpaceAfterTone).None?
    {
    }
    NoEditBefore(s, |s|, ErhuaTone);
    NoEditBefore(s, |s|, SpaceAfterTone);
  }

  /** No erhua match starts in a word without a number, nor at the non-letter after it. */
  lemma ErhuaNoMatch(w: string, c: char, t: string)
    requires forall i :: 0 <= i < |w| ==> IsLetter(w[i], true)
    requires !IsLetter(c, true) && !IsToneDigit(c)
    ensures NoEditIn(w + [c] + t, |w| + 1, ErhuaTone)
  {
    var s := w + [c] + t;
    forall q | 0 <= q <= |w|
      ensures EditAt(s, q, ErhuaTone).None?
    {
      RunEndAt(s[q..], 0, |w| - q, true);
      assert s[q..][|w| - q] == c;
    }
    NoEditBefore(s, |w| + 1, ErhuaTone);
  }

  /** No neutral-tone match starts in a numbered word, nor at its number. */
  lemma NumberedNoMatch(w: string, d: char, t: string, pass: Pass)
    requires forall i :: 0 <= i < |w| ==> IsLetter(w[i], true)
    requires IsToneDigit(d) && (pass.NeutralVowel? || pass.NeutralConsonant?)
    ensures NoEditIn(w + [d] + t, |w| + 1, pass)
  {
    var s := w + [d] + t;
    forall q | 0 <= q <= |w|
      ensures EditAt(s, q, pass).None?
    {
      assert s[q..] == w[q..] + [d] + t;
      NumberedRunNoEdit(w[q..], d, t, pass);
    }
    NoEditBefore(s, |w| + 1, pass);
  }

  /** A letter run before a number is no neutral-tone match. */
  lemma NumberedRunNoEdit(a: string, d: char, t: string, pass: Pass)
    requires forall i :: 0 <= i < |a| ==> IsLetter(a[i], true)
    requires IsToneDigit(d) && (pass.NeutralVowel? || pass.NeutralConsonant?)
    ensures EditOn(a + [d] + t, pass).None?
  {
    var u := a + [d] + t;
    AsciiNotMarked(d);
    assert u[|a|] == d;
    assert forall i :: 0 <= i < |a| ==> u[i] == a[i];
    RunEndAt(u, 0, |a|, true);
  }

  /** No vowel-final match starts in a word ending in a consonant, before a non-letter that is not a vowel. */
  lemma ConsonantEndNoVowelMatch(w: string, t: string)
    requires w != [] && forall i :: 0 <= i < |w| ==> IsLetter(w[i], true)
    requires IsConsonant(w[|w| - 1])
    requires t != [] ==> !IsLetter(t[0], true) && !IsVowel(t[0])
    ensures NoEditIn(w + t, |w|, NeutralVowel)
  {
    forall q | 0 <= q < |w|
      ensures EditAt(w + t, q, NeutralVowel).None?
    {
      ConsonantRunNoVowelEdit(w, t, q);
    }
    NoEditBefore(w + t, |w|, NeutralVowel);
  }

  /** From inside a word ending in a consonant, before a non-letter, no vowel-final match starts. */
  lemma ConsonantRunNoVowelEdit(w: string, t: string, q: nat)
    requires q < |w| && forall i :: 0 <= i < |w| ==> IsLetter(w[i], true)
    requires IsConsonant(w[|w| - 1])
    requires t != [] ==> !IsLetter(t[0], true) && !IsVowel(t[0])
    ensures EditAt(w + t, q, NeutralVowel).None?
  {
    var u := (w + t)[q..];
    var n := |w| - q;
    AsciiNotMarked(w[|w| - 1]);
    assert u[n - 1] == w[|w| - 1];
    if t != [] {
      assert u[n] == t[0];
    }
    assert forall i :: 0 <= i < n ==> u[i] == w[q + i];
    RunEndAt(u, 0, n, true);
  }

  /** No spacing match starts in a word followed by a non-letter, unless a number and a letter follow. */
  lemma SpaceNoMatch(w: string, d: char, t: string)
    requires forall i :: 0 <= i < |w| ==> IsLetter(w[i], false)
    requires !IsLetter(d, false)
    requires IsToneDigit(d) && t != [] ==> !IsLetter(t[0], false)
    ensures NoEditIn(w + [d] + t, |w| + 1, SpaceAfterTone)
  {
    var s := w + [d] + t;
    forall q | 0 <= q <= |w|
      ensures EditAt(s, q, SpaceAfterTone).None?
    {
      assert s[q..] == w[q..] + [d] + t;
      SpaceRunNoEdit(w[q..], d, t);
    }
    NoEditBefore(s, |w| + 1, SpaceAfterTone);
  }

  /** A letter run before one non-letter that no letter follows, if it is a number, is no spacing match. */
  lemma SpaceRunNoEdit(a: string, d: char, t: string)
    requires forall i :: 0 <= i < |a| ==> IsLetter(a[i], false)
    requires !IsLetter(d, false)
    requires IsToneDigit(d) && t != [] ==> !IsLetter(t[0], false)
    ensures SpaceEdit(a + [d] + t).None?
  {
    var u := a + [d] + t;
    assert u[|a|] == d;
    if t != [] {
      assert u[|a| + 1] == t[0];
    }
    assert forall i :: 0 <= i < |a| ==> u[i] == a[i];
    RunEndAt(u, 0, |a|, false);
  }

  /**
   * The spacing pass keeps `r` after a number with the syllable before it
   * when the `r` ends the text or a character outside `[a-zü'1-5]` follows.
   */
  lemma ErhuaNoSpaceMatch(w: string, d: char, t: string)
    requires forall i :: 0 <= i < |w| ==> IsLetter(w[i], false)
    requires IsToneDigit(d) && (t == [] || !InPinyinClass(t[0]))
    ensures NoEditIn(w + [d] + "r" + t, |w| + 2, SpaceAfterTone)
  {
    var s := w + [d] + "r" + t;
    forall q | 0 <= q < |w| + 2
      ensures EditAt(s, q, SpaceAfterTone).None?
    {
      var u := s[q..];
      if q <= |w| {
        assert u[|w| - q] == d && u[|w| - q + 1] == 'r';
        if t != [] {
          assert u[|w| - q + 2] == t[0];
        }
        RunEndAt(u, 0, |w| - q, false);
      } else {
        assert u[0] == 'r';
        if t != [] {
          assert u[1] == t[0];
        }
        RunEndAt(u, 0, 1, false);
      }
    }
    NoEditBefore(s, |w| + 2, SpaceAfterTone);
  }

  // What each pass makes of one word in running text

  /**
   * `Xr<d>` becomes `X<d>r`, except that `er<d>` stays as it is, and the pass
   * goes on after the number.
   */
  lemma ErhuaToneMoved(w: string, d: char, t: string)
    requires w != [] && forall i :: 0 <= i < |w| ==> IsLetter(w[i], true)
    requires IsToneDigit(d)
    ensures ApplyPass(w + "r" + [d] + t, ErhuaTone)
            == (if FoldsTo(w, 'e') then w + "r" + [d] else w + [d] + "r") + ApplyPass(t, ErhuaTone)
  {
    ErhuaMatch(w, d, t);
    EditThenRest(w + "r" + [d], t, ErhuaTone, if FoldsTo(w, 'e') then w + "r" + [d] else w + [d] + "r");
  }

  /** A numbered word that does not end in `r` is copied by the erhua pass, which goes on after its number. */
  lemma TonedWordErhua(w: string, d: char, t: string)
    requires w != [] && forall i :: 0 <= i < |w| ==> IsLetter(w[i], true) && FoldCase(w[i]) == w[i]
    requires w[|w| - 1] != 'r' && IsToneDigit(d)
    ensures ApplyPass(w + [d] + t, ErhuaTone) == w + [d] + ApplyPass(t, ErhuaTone)
  {
    TonedNoErhuaMatch(w, d, t);
    CopiedThenRest(w + [d], t, ErhuaTone);
  }

  /** Text without a tone number is left alone by the erhua and the spacing passes. */
  lemma NoDigitPasses(s: string)
    requires forall i :: 0 <= i < |s| ==> !IsToneDigit(s[i])
    ensures ApplyPass(s, ErhuaTone) == s && ApplyPass(s, SpaceAfterTone) == s
  {
    NoDigitNoMatch(s);
    NoEditKept(s, ErhuaTone);
    NoEditKept(s, SpaceAfterTone);
  }

  /** The erhua pass copies a word without a number and the non-letter after it, and goes on. */
  lemma PlainWordErhua(w: string, c: char, t: string)
    requires forall i :: 0 <= i < |w| ==> IsLetter(w[i], true)
    requires !IsLetter(c, true) && !IsToneDigit(c)
    ensures ApplyPass(w + [c] + t, ErhuaTone) == w + [c] + ApplyPass(t, ErhuaTone)
  {
    ErhuaNoMatch(w, c, t);
    CopiedThenRest(w + [c], t, ErhuaTone);
  }

  /**
   * A word that ends in a vowel (a marked one too) and has no number gets the
   * neutral `5` where a syllable may end after it, and the pass goes on with
   * the rest of the text.
   */
  lemma VowelWordNeutral(w: string, v: char, t: string)
    requires forall i :: 0 <= i < |w| ==> IsLetter(w[i], true)
    requires IsVowel(v) && Boundary(t, 0) && (t != [] ==> !IsVowel(t[0]))
    ensures ApplyPass(w + [v] + t, NeutralVowel) == w + [v] + "5" + ApplyPass(t, NeutralVowel)
  {
    VowelWordMatch(w, v, t);
    EditThenRest(w + [v], t, NeutralVowel, w + [v] + "5");
  }

  /**
   * A word of two or more letters that ends in a consonant gets the neutral
   * `5` where a syllable may end after it, and the pass goes on.
   */
  lemma ConsonantWordNeutral(w: string, t: string)
    requires |w| >= 2 && forall i :: 0 <= i < |w| ==> IsLetter(w[i], true)
    requires IsConsonant(w[|w| - 1]) && Boundary(t, 0)
    ensures ApplyPass(w + t, NeutralConsonant) == w + "5" + ApplyPass(t, NeutralConsonant)
  {
    ConsonantWordMatch(w, t);
    EditThenRest(w, t, NeutralConsonant, w + "5");
  }

  /** A numbered word is copied by both neutral-tone passes, which go on after its number. */
  lemma NumberedWordKept(w: string, d: char, t: string, pass: Pass)
    requires forall i :: 0 <= i < |w| ==> IsLetter(w[i], true)
    requires IsToneDigit(d) && (pass.NeutralVowel? || pass.NeutralConsonant?)
    ensures ApplyPass(w + [d] + t, pass) == w + [d] + ApplyPass(t, pass)
  {
    NumberedNoMatch(w, d, t, pass);
    CopiedThenRest(w + [d], t, pass);
  }

  /** The vowel-final pass copies a word ending in a consonant and goes on after it. */
  lemma ConsonantEndNoVowelEdit(w: string, t: string)
    requires w != [] && forall i :: 0 <= i < |w| ==> IsLetter(w[i], true)
    requires IsConsonant(w[|w| - 1])
    requires t != [] ==> !IsLetter(t[0], true) && !IsVowel(t[0])
    ensures ApplyPass(w + t, NeutralVowel) == w + ApplyPass(t, NeutralVowel)
  {
    ConsonantEndNoVowelMatch(w, t);
    CopiedThenRest(w, t, NeutralVowel);
  }

  /**
   * Lower-case letters and one non-letter are copied by the spacing pass,
   * unless the non-letter is a number and a letter follows it.
   */
  lemma SpaceKeepsWord(w: string, d: char, t: string)
    requires forall i :: 0 <= i < |w| ==> IsLetter(w[i], false)
    requires !IsLetter(d, false)
    requires IsToneDigit(d) && t != [] ==> !IsLetter(t[0], false)
    ensures ApplyPass(w + [d] + t, SpaceAfterTone) == w + [d] + ApplyPass(t, SpaceAfterTone)
  {
    SpaceNoMatch(w, d, t);
    CopiedThenRest(w + [d], t, SpaceAfterTone);
  }

  /**
   * A numbered syllable directly followed by letters is set apart by a space,
   * unless the letters are a lone erhua `r`.
   */
  lemma SpaceBetween(w1: string, d: char, w2: string)
    requires w1 != [] && forall i :: 0 <= i < |w1| ==> IsLetter(w1[i], false)
    requires w2 != [] && forall i :: 0 <= i < |w2| ==> IsLetter(w2[i], false)
    requires IsToneDigit(d)
    ensures ApplyPass(w1 + [d] + w2, SpaceAfterTone)
            == if w2 == "r" then w1 + [d] + w2 else w1 + [d] + " " + w2
  {
    if w2 == "r" {
      AppendEmpty(w1 + [d] + "r");
      SpaceBeforeErhua(w1, d, []);
    } else {
      SpaceBeforeWord(w1, d, w2);
    }
  }

  /**
   * No space goes between a numbered syllable and an erhua `r` that ends the
   * text or comes before a character outside `[a-zü'1-5]`.
   */
  lemma SpaceBeforeErhua(w: string, d: char, t: string)
    requires forall i :: 0 <= i < |w| ==> IsLetter(w[i], false)
    requires IsToneDigit(d) && (t == [] || !InPinyinClass(t[0]))
    ensures ApplyPass(w + [d] + "r" + t, SpaceAfterTone) == w + [d] + "r" + ApplyPass(t, SpaceAfterTone)
  {
    ErhuaNoSpaceMatch(w, d, t);
    CopiedThenRest(w + [d] + "r", t, SpaceAfterTone);
  }

  /** A space goes between a numbered syllable and a word that is not a lone `r`. */
  lemma SpaceBeforeWord(w1: string, d: char, w2: string)
    requires w1 != [] && forall i :: 0 <= i < |w1| ==> IsLetter(w1[i], false)
    requires w2 != [] && w2 != "r" && forall i :: 0 <= i < |w2| ==> IsLetter(w2[i], false)
    requires IsToneDigit(d)
    ensures ApplyPass(w1 + [d] + w2, SpaceAfterTone) == w1 + [d] + " " + w2
  {
    NoDigitPasses(w2);
    SpaceMatch(w1, d, w2);
    EditThenRest(w1 + [d], w2, SpaceAfterTone, w1 + [d] + " ");
  }

  // All four passes

  /** A character after which every pass sees a word end: no letter, vowel, apostrophe or number, and no capital. */
  predicate Separator(c: char)
  {
    !IsLetter(c, true) && !IsVowel(c) && c != '\'' && !IsToneDigit(c) && LowerChar(c) == c
  }

  /**
   * What may follow a word for its syllable to end there: nothing, a
   * separator, or an apostrophe before text without tone numbers (an
   * apostrophe before a numbered syllable joins the two).
   */
  predicate WordEndsBefore(t: string)
  {
    t == [] || Separator(t[0]) || (t[0] == '\'' && forall i :: 0 <= i < |t| ==> !IsToneDigit(t[i]))
  }

  /** A character that is neither a letter nor a vowel goes through the four passes as it is. */
  lemma {:induction false} KeptPasses(c: char, l: string)
    requires !IsLetter(c, true) && !IsVowel(c)
    ensures Passes([c] + l) == [c] + Passes(l)
  {
    KeptFirst(c, l, ErhuaTone);
    var e := ApplyPass(l, ErhuaTone);
    KeptFirst(c, e, NeutralVowel);
    var v := ApplyPass(e, NeutralVowel);
    KeptFirst(c, v, NeutralConsonant);
    var k := ApplyPass(v, NeutralConsonant);
    KeptFirst(c, k, SpaceAfterTone);
  }

  /** A character that lower-casing keeps stays in front. */
  lemma LowerCons(c: char, r: string)
    requires LowerChar(c) == c
    ensures Lower([c] + r) == [c] + Lower(r)
  {
    assert ([c] + r)[1..] == r;
  }

  /** Text without a tone number after its first character. */
  lemma NoDigitAfterFirst(t: string)
    requires t != [] && forall i :: 0 <= i < |t| ==> !IsToneDigit(t[i])
    ensures forall i :: 0 <= i < |t[1..]| ==> !IsToneDigit(t[1..][i])
  {
    forall i | 0 <= i < |t[1..]|
      ensures !IsToneDigit(t[1..][i])
    {
      assert t[1..][i] == t[i + 1];
    }
  }

  /** What follows a word, lower-cased: its first character is kept, and an apostrophe's text gains no number. */
  lemma {:induction false} LowerAfterWord(c: char, r: string)
    requires WordEndsBefore([c] + r)
    ensures !IsLetter(c, true) && !IsVowel(c) && !IsToneDigit(c)
    ensures Lower([c] + r) == [c] + Lower(r)
    ensures c == '\'' ==> forall i :: 0 <= i < |Lower(r)| ==> !IsToneDigit(Lower(r)[i])
  {
    assert ([c] + r)[0] == c && ([c] + r)[1..] == r;
    LowerCons(c, r);
    if c == '\'' {
      NoDigitAfterFirst([c] + r);
      LowerNoDigit(r);
    }
  }

  /** A separator or an apostrophe goes through all of `p2z`'s passes as it is. */
  lemma KeptNumbered(c: char, t: string)
    requires Separator(c) || c == '\''
    ensures Numbered([c] + t) == [c] + Numbered(t)
  {
    assert Lower([c] + t) == [c] + Lower(t) by {
      LowerAppend([c], t);
      assert Lower([c]) == [c];
    }
    KeptPasses(c, Lower(t));
  }

  lemma SeparatorBoundary(c: char, e: string)
    requires Separator(c)
    ensures Boundary([c] + e, 0)
  {
    assert ([c] + e)[0] == c;
  }

  /** After the erhua pass, a syllable may still end before a separator, or an apostrophe before text without numbers. */
  lemma BoundaryAfterWord(c: char, l: string)
    requires Separator(c) || (c == '\'' && forall i :: 0 <= i < |l| ==> !IsToneDigit(l[i]))
    ensures Boundary([c] + ApplyPass(l, ErhuaTone), 0)
  {
    if c == '\'' {
      NoDigitPasses(l);
      ApostropheBoundary(l);
    } else {
      SeparatorBoundary(c, ApplyPass(l, ErhuaTone));
    }
  }

  /** Regrouping a word, the character after it and the rest. */
  lemma Regroup(w: string, c: char, t: string, x: string)
    ensures w + [c] + t == w + ([c] + t)
    ensures w + ([c] + x) == w + [c] + x
  {
  }

  /** Regrouping three strings. */
  lemma Assoc(a: string, b: string, c: string)
    ensures a + b + c == a + (b + c)
  {
  }

  /** Appending nothing. */
  lemma AppendEmpty(s: string)
    ensures s + [] == s
  {
  }

  /** Nothing goes through the passes as nothing. */
  lemma NumberedEmpty()
    ensures Numbered([]) == []
  {
  }

  /** Regrouping a word ending in `v`, the character after it and the rest. */
  lemma RegroupLast(w: string, c: char, t: string, x: string)
    requires w != []
    ensures w + [c] + t == w[..|w| - 1] + [w[|w| - 1]] + ([c] + t)
    ensures w[..|w| - 1] + [w[|w| - 1]] + "5" + ([c] + x) == w + "5" + [c] + x
  {
    assert w[..|w| - 1] + [w[|w| - 1]] == w;
  }

  /** The vowel-final pass on a word ending in a vowel and what follows it. */
  lemma VowelStep(w: string, c: char, e: string)
    requires w != [] && forall i :: 0 <= i < |w| ==> IsLetter(w[i], true)
    requires IsVowel(w[|w| - 1]) && !IsLetter(c, true) && !IsVowel(c)
    requires Boundary([c] + e, 0)
    ensures ApplyPass(w + [c] + e, NeutralVowel) == w + "5" + [c] + ApplyPass(e, NeutralVowel)
  {
    RegroupLast(w, c, e, ApplyPass(e, NeutralVowel));
    VowelWordNeutral(w[..|w| - 1], w[|w| - 1], [c] + e);
    KeptFirst(c, e, NeutralVowel);
  }

  /** A neutral-tone pass on a numbered word and what follows it. */
  lemma NumberedStep(w: string, d: char, c: char, n: string, pass: Pass)
    requires forall i :: 0 <= i < |w| ==> IsLetter(w[i], true)
    requires IsToneDigit(d) && !IsLetter(c, true) && !IsVowel(c)
    requires pass.NeutralVowel? || pass.NeutralConsonant?
    ensures ApplyPass(w + [d] + [c] + n, pass) == w + [d] + [c] + ApplyPass(n, pass)
  {
    Regroup(w + [d], c, n, ApplyPass(n, pass));
    NumberedWordKept(w, d, [c] + n, pass);
    KeptFirst(c, n, pass);
  }

  /** The spacing pass on a numbered word and a non-letter after it. */
  lemma SpaceStep(w: string, d: char, c: char, k: string)
    requires forall i :: 0 <= i < |w| ==> IsLetter(w[i], false)
    requires IsToneDigit(d) && !IsLetter(c, true) && !IsVowel(c)
    ensures ApplyPass(w + [d] + [c] + k, SpaceAfterTone) == w + [d] + [c] + ApplyPass(k, SpaceAfterTone)
  {
    Regroup(w + [d], c, k, ApplyPass(k, SpaceAfterTone));
    SpaceKeepsWord(w, d, [c] + k);
    KeptFirst(c, k, SpaceAfterTone);
  }

  /** The consonant-final pass on a word ending in a consonant and what follows it. */
  lemma ConsonantStep(w: string, c: char, n: string)
    requires |w| >= 2 && forall i :: 0 <= i < |w| ==> IsLetter(w[i], true)
    requires IsConsonant(w[|w| - 1]) && !IsLetter(c, true) && !IsVowel(c)
    requires c != '\'' && !IsToneDigit(c)
    ensures ApplyPass(w + [c] + n, NeutralConsonant) == w + "5" + [c] + ApplyPass(n, NeutralConsonant)
  {
    assert Boundary([c] + n, 0) by {
      assert ([c] + n)[0] == c;
    }
    Regroup(w, c, n, []);
    Regroup(w + "5", c, [], ApplyPass(n, NeutralConsonant));
    ConsonantWordNeutral(w, [c] + n);
    KeptFirst(c, n, NeutralConsonant);
  }

  /** The vowel-final pass on a word ending in a consonant and what follows it. */
  lemma ConsonantVowelStep(w: string, c: char, e: string)
    requires w != [] && forall i :: 0 <= i < |w| ==> IsLetter(w[i], true)
    requires IsConsonant(w[|w| - 1]) && !IsLetter(c, true) && !IsVowel(c)
    ensures ApplyPass(w + [c] + e, NeutralVowel) == w + [c] + ApplyPass(e, NeutralVowel)
  {
    Regroup(w, c, e, ApplyPass(e, NeutralVowel));
    ConsonantEndNoVowelEdit(w, [c] + e);
    KeptFirst(c, e, NeutralVowel);
  }

  /** The four passes over a lower-case word ending in a vowel, then a word end. */
  lemma {:induction false} VowelWordPasses(w: string, c: char, l: string)
    requires w != [] && forall i :: 0 <= i < |w| ==> IsLetter(w[i], false)
    requires IsVowel(w[|w| - 1])
    requires !IsLetter(c, true) && !IsVowel(c) && !IsToneDigit(c)
    requires Boundary([c] + ApplyPass(l, ErhuaTone), 0)
    ensures Passes(w + [c] + l) == w + "5" + [c] + Passes(l)
  {
    PlainLetters(w);
    var e := ApplyPass(l, ErhuaTone);
    PlainWordErhua(w, c, l);
    var n := ApplyPass(e, NeutralVowel);
    VowelStep(w, c, e);
    var k := ApplyPass(n, NeutralConsonant);
    NumberedStep(w, '5', c, n, NeutralConsonant);
    SpaceStep(w, '5', c, k);
  }

  /** The four passes over a lower-case word ending in a vowel, alone. */
  lemma {:induction false} VowelWordAlone(w: string)
    requires w != [] && forall i :: 0 <= i < |w| ==> IsLetter(w[i], false)
    requires IsVowel(w[|w| - 1])
    ensures Passes(w) == w + "5"
  {
    PlainLetters(w);
    NoDigitPasses(w);
    var init, v := w[..|w| - 1], w[|w| - 1];
    assert ApplyPass(w, NeutralVowel) == w + "5" by {
      assert init + [v] + [] == w;
      VowelWordNeutral(init, v, []);
      assert w + "5" + [] == w + "5";
    }
    assert ApplyPass(w + "5", NeutralConsonant) == w + "5" by {
      assert w + ['5'] + [] == w + "5";
      NumberedWordKept(w, '5', [], NeutralConsonant);
    }
    assert ApplyPass(w + "5", SpaceAfterTone) == w + "5" by {
      assert w + ['5'] + [] == w + "5";
      SpaceKeepsWord(w, '5', []);
    }
  }

  /** The four passes over a lower-case word of two or more letters ending in a consonant, then a word end. */
  lemma {:induction false} ConsonantWordPasses(w: string, c: char, l: string)
    requires |w| >= 2 && forall i :: 0 <= i < |w| ==> IsLetter(w[i], false)
    requires IsConsonant(w[|w| - 1]) && Separator(c)
    ensures Passes(w + [c] + l) == w + "5" + [c] + Passes(l)
  {
    PlainLetters(w);
    var e := ApplyPass(l, ErhuaTone);
    PlainWordErhua(w, c, l);
    var n := ApplyPass(e, NeutralVowel);
    ConsonantVowelStep(w, c, e);
    var k := ApplyPass(n, NeutralConsonant);
    ConsonantStep(w, c, n);
    SpaceStep(w, '5', c, k);
  }

  /** The four passes over a lower-case word of two or more letters ending in a consonant, alone. */
  lemma {:induction false} ConsonantWordAlone(w: string)
    requires |w| >= 2 && forall i :: 0 <= i < |w| ==> IsLetter(w[i], false)
    requires IsConsonant(w[|w| - 1])
    ensures Passes(w) == w + "5"
  {
    PlainLetters(w);
    NoDigitPasses(w);
    assert ApplyPass(w, NeutralVowel) == w by {
      assert w + [] == w;
      ConsonantEndNoVowelEdit(w, []);
    }
    assert ApplyPass(w, NeutralConsonant) == w + "5" by {
      assert w + [] == w;
      ConsonantWordNeutral(w, []);
      assert w + "5" + [] == w + "5";
    }
    assert ApplyPass(w + "5", SpaceAfterTone) == w + "5" by {
      assert w + ['5'] + [] == w + "5";
      SpaceKeepsWord(w, '5', []);
    }
  }

  /**
   * `p2z`'s passes on a lower-case word without a number that ends in a
   * vowel: it gets `5`, and the rest of the text goes through the passes on
   * its own.
   */
  lemma {:induction false} VowelWordNumbered(w: string, t: string)
    requires w != [] && forall i :: 0 <= i < |w| ==> IsLetter(w[i], false)
    requires IsVowel(w[|w| - 1]) && WordEndsBefore(t)
    ensures Numbered(w + t) == w + "5" + Numbered(t)
  {
    PlainLetters(w);
    LowerAppend(w, t);
    if t == [] {
      AppendEmpty(w);
      AppendEmpty(w + "5");
      NumberedEmpty();
      VowelWordAlone(w);
    } else {
      var c, r := t[0], t[1..];
      assert t == [c] + r;
      LowerAfterWord(c, r);
      Regroup(w, c, Lower(r), []);
      Regroup(w + "5", c, [], Passes(Lower(r)));
      BoundaryAfterWord(c, Lower(r));
      VowelWordPasses(w, c, Lower(r));
      KeptNumbered(c, r);
    }
  }

  /**
   * `p2z`'s passes on a lower-case word of two or more letters ending in a
   * consonant: it gets `5`, and the rest of the text goes through the passes
   * on its own.
   */
  lemma {:induction false} ConsonantWordNumbered(w: string, t: string)
    requires |w| >= 2 && forall i :: 0 <= i < |w| ==> IsLetter(w[i], false)
    requires IsConsonant(w[|w| - 1]) && (t == [] || Separator(t[0]))
    ensures Numbered(w + t) == w + "5" + Numbered(t)
  {
    PlainLetters(w);
    LowerAppend(w, t);
    if t == [] {
      AppendEmpty(w);
      AppendEmpty(w + "5");
      NumberedEmpty();
      ConsonantWordAlone(w);
    } else {
      var c, r := t[0], t[1..];
      assert t == [c] + r;
      LowerAfterWord(c, r);
      Regroup(w, c, Lower(r), []);
      Regroup(w + "5", c, [], Passes(Lower(r)));
      ConsonantWordPasses(w, c, Lower(r));
      KeptNumbered(c, r);
    }
  }

  /** Two syllables apart: each gets its own `5`. */
  lemma NiHaoNumbered()
    ensures Numbered("ni hao") == "ni5 hao5"
  {
    assert forall i :: 0 <= i < |"ni"| ==> IsLetter("ni"[i], false);
    assert forall i :: 0 <= i < |"hao"| ==> IsLetter("hao"[i], false);
    assert IsVowel("ni"[1]) && IsVowel("hao"[2]);
    AsciiNotMarked(' ');
    assert WordEndsBefore([' '] + "hao");
    assert "ni hao" == "ni" + ([' '] + "hao");
    assert "hao" == "hao" + [];
    assert "ni" + "5" + ([' '] + ("hao" + "5" + [])) == "ni5 hao5";
    VowelWordNumbered("ni", [' '] + "hao");
    KeptNumbered(' ', "hao");
    VowelWordNumbered("hao", []);
    NumberedEmpty();
  }

  /** A dangling apostrophe ends the syllable before it: `xi'an` is two syllables. */
  lemma XiAnNumbered()
    ensures Numbered("xi'an") == "xi5'an5"
  {
    assert forall i :: 0 <= i < |"xi"| ==> IsLetter("xi"[i], false);
    assert forall i :: 0 <= i < |"an"| ==> IsLetter("an"[i], false);
    assert IsVowel("xi"[1]) && IsConsonant("an"[1]);
    assert WordEndsBefore(['\''] + "an");
    assert "xi'an" == "xi" + (['\''] + "an");
    assert "an" == "an" + [];
    assert "xi" + "5" + (['\''] + ("an" + "5" + [])) == "xi5'an5";
    VowelWordNumbered("xi", ['\''] + "an");
    KeptNumbered('\'', "an");
    ConsonantWordNumbered("an", []);
    NumberedEmpty();
  }

  /** A lone `r` gets no number: erhua is spelled out later by the cascade. */
  lemma LoneRNumbered()
    ensures Numbered("r") == "r"
  {
    PlainLetters("r");
    NoDigitPasses("r");
    assert NoEditIn("r", 1, NeutralVowel) && NoEditIn("r", 1, NeutralConsonant) by {
      AsciiNotMarked('r');
      assert EditOn("r", NeutralVowel).None?;
      assert EditOn("r", NeutralConsonant).None?;
    }
    NoEditKept("r", NeutralVowel);
    NoEditKept("r", NeutralConsonant);
  }

  /** No erhua match starts in a word that carries a number, not after an `r`. */
  lemma TonedNoErhuaMatch(w: string, d: char, t: string)
    requires w != [] && forall i :: 0 <= i < |w| ==> IsLetter(w[i], true) && FoldCase(w[i]) == w[i]
    requires w[|w| - 1] != 'r' && IsToneDigit(d)
    ensures NoEditIn(w + [d] + t, |w| + 1, ErhuaTone)
  {
    var s := w + [d] + t;
    forall q | 0 <= q < |w| + 1
      ensures EditAt(s, q, ErhuaTone).None?
    {
      if q < |w| {
        assert s[q..] == w[q..] + [d] + t;
        ErhuaRunNone(w[q..], d, t);
      } else {
        assert s[q..][0] == d;
        RunEndAt(s[q..], 0, 0, true);
      }
    }
    NoEditBefore(s, |w| + 1, ErhuaTone);
  }

  /** A letter run that does not end in `r`, then a number: no erhua match. */
  lemma ErhuaRunNone(a: string, d: char, t: string)
    requires a != [] && forall i :: 0 <= i < |a| ==> IsLetter(a[i], true) && FoldCase(a[i]) == a[i]
    requires a[|a| - 1] != 'r' && IsToneDigit(d)
    ensures ErhuaEdit(a + [d] + t).None?
  {
    var u := a + [d] + t;
    assert u[|a|] == d && u[|a| - 1] == a[|a| - 1];
    assert forall i :: 0 <= i < |a| ==> u[i] == a[i];
    RunEndAt(u, 0, |a|, true);
  }

  /** A numbered word is kept by lower-casing. */
  lemma LowerToned(w: string, d: char)
    requires forall i :: 0 <= i < |w| ==> IsLetter(w[i], false)
    requires IsToneDigit(d)
    ensures Lower(w + [d]) == w + [d]
  {
    PlainLetters(w);
    LowerAppend(w, [d]);
    AsciiNotMarked(d);
    assert Lower([d]) == [d];
  }

  /** The erhua pass on a numbered word that does not end in `r` and the non-letter after it. */
  lemma TonedErhuaStep(w: string, d: char, c: char, l: string)
    requires w != [] && forall i :: 0 <= i < |w| ==> IsLetter(w[i], true) && FoldCase(w[i]) == w[i]
    requires w[|w| - 1] != 'r' && IsToneDigit(d) && !IsLetter(c, true) && !IsVowel(c)
    ensures ApplyPass(w + [d] + [c] + l, ErhuaTone) == w + [d] + [c] + ApplyPass(l, ErhuaTone)
  {
    Regroup(w + [d], c, l, ApplyPass(l, ErhuaTone));
    TonedWordErhua(w, d, [c] + l);
    KeptFirst(c, l, ErhuaTone);
  }

  /** The four passes over a numbered word that does not end in `r`, then a non-letter. */
  lemma {:induction false} TonedWordPasses(w: string, d: char, c: char, l: string)
    requires w != [] && forall i :: 0 <= i < |w| ==> IsLetter(w[i], false)
    requires w[|w| - 1] != 'r' && IsToneDigit(d) && !IsLetter(c, true) && !IsVowel(c)
    ensures Passes(w + [d] + [c] + l) == w + [d] + [c] + Passes(l)
  {
    PlainLetters(w);
    var e := ApplyPass(l, ErhuaTone);
    TonedErhuaStep(w, d, c, l);
    var n := ApplyPass(e, NeutralVowel);
    NumberedStep(w, d, c, e, NeutralVowel);
    var k := ApplyPass(n, NeutralConsonant);
    NumberedStep(w, d, c, n, NeutralConsonant);
    SpaceStep(w, d, c, k);
  }

  /** The four passes over a numbered word that does not end in `r`, alone. */
  lemma {:induction false} TonedWordAlone(w: string, d: char)
    requires w != [] && forall i :: 0 <= i < |w| ==> IsLetter(w[i], false)
    requires w[|w| - 1] != 'r' && IsToneDigit(d)
    ensures Passes(w + [d]) == w + [d]
  {
    var s := w + [d];
    AppendEmpty(s);
    PlainLetters(w);
    TonedNoErhuaMatch(w, d, []);
    NoEditKept(s, ErhuaTone);
    NumberedWordKept(w, d, [], NeutralVowel);
    NumberedWordKept(w, d, [], NeutralConsonant);
    SpaceKeepsWord(w, d, []);
  }

  /**
   * A word that already carries a number, not after an `r`, goes through
   * lower-casing and the passes unchanged, and the text after it, from a
   * separator or an apostrophe on, goes through them on its own.
   */
  lemma {:induction false} TonedWordNumbered(w: string, d: char, t: string)
    requires w != [] && forall i :: 0 <= i < |w| ==> IsLetter(w[i], false)
    requires w[|w| - 1] != 'r' && IsToneDigit(d)
    requires t == [] || Separator(t[0]) || t[0] == '\''
    ensures Numbered(w + [d] + t) == w + [d] + Numbered(t)
  {
    LowerToned(w, d);
    LowerAppend(w + [d], t);
    if t == [] {
      AppendEmpty(w + [d]);
      NumberedEmpty();
      TonedWordAlone(w, d);
    } else {
      var c, r := t[0], t[1..];
      assert t == [c] + r;
      LowerCons(c, r);
      Regroup(w + [d], c, Lower(r), []);
      Regroup(w + [d], c, [], Passes(Lower(r)));
      TonedWordPasses(w, d, c, Lower(r));
      KeptNumbered(c, r);
    }
  }

  /** A numbered word before more text: `wo3 de` becomes `wo3 de5`. */
  lemma WoDeNumbered()
    ensures Numbered("wo3 de") == "wo3 de5"
  {
    assert forall i :: 0 <= i < |"wo"| ==> IsLetter("wo"[i], false);
    assert forall i :: 0 <= i < |"de"| ==> IsLetter("de"[i], false);
    assert IsVowel("de"[1]);
    AsciiNotMarked(' ');
    assert Separator(' ');
    assert "wo3 de" == "wo" + ['3'] + ([' '] + "de");
    assert "de" == "de" + [];
    assert "wo" + ['3'] + ([' '] + ("de" + "5" + [])) == "wo3 de5";
    TonedWordNumbered("wo", '3', [' '] + "de");
    KeptNumbered(' ', "de");
    VowelWordNumbered("de", []);
    NumberedEmpty();
  }

  // An erhua word in running text

  /** Regrouping after a numbered syllable and its erhua `r`. */
  lemma ErhuaRegroup(a: string, c: char, x: string)
    ensures a + "r" + [c] + x == a + ("r" + [c] + x)
  {
  }

  /** A lone `r` before a non-letter is copied by both neutral-tone passes, which go on after it. */
  lemma LoneRKept(c: char, e: string, pass: Pass)
    requires !IsLetter(c, true) && !IsVowel(c)
    requires pass.NeutralVowel? || pass.NeutralConsonant?
    ensures ApplyPass("r" + [c] + e, pass) == "r" + [c] + ApplyPass(e, pass)
  {
    var u := "r" + [c] + e;
    assert u[0] == 'r' && u[1] == c && u[1..] == [c] + e;
    Assoc("r", [c], ApplyPass(e, pass));
    LoneRNoEdit(u, pass);
    CopiedStep(u, pass);
    KeptFirst(c, e, pass);
  }

  /** No neutral-tone match starts at a lone `r` before a non-letter. */
  lemma LoneRNoEdit(u: string, pass: Pass)
    requires |u| >= 2 && u[0] == 'r' && !IsLetter(u[1], true) && !IsVowel(u[1])
    requires pass.NeutralVowel? || pass.NeutralConsonant?
    ensures EditOn(u, pass).None?
  {
    AsciiNotMarked('r');
    RunEndAt(u, 0, 1, true);
  }

  /** A neutral-tone pass on `X<d>r` and the non-letter after it. */
  lemma MovedErhuaStep(w: string, d: char, c: char, e: string, pass: Pass)
    requires forall i :: 0 <= i < |w| ==> IsLetter(w[i], true)
    requires IsToneDigit(d) && !IsLetter(c, true) && !IsVowel(c)
    requires pass.NeutralVowel? || pass.NeutralConsonant?
    ensures ApplyPass(w + [d] + "r" + [c] + e, pass) == w + [d] + "r" + [c] + ApplyPass(e, pass)
  {
    ErhuaRegroup(w + [d], c, e);
    ErhuaRegroup(w + [d], c, ApplyPass(e, pass));
    NumberedWordKept(w, d, "r" + [c] + e, pass);
    LoneRKept(c, e, pass);
  }

  /** The spacing pass on `X<d>r` and a separator after it. */
  lemma MovedErhuaSpaceStep(w: string, d: char, c: char, k: string)
    requires forall i :: 0 <= i < |w| ==> IsLetter(w[i], false)
    requires IsToneDigit(d) && Separator(c)
    ensures ApplyPass(w + [d] + "r" + [c] + k, SpaceAfterTone) == w + [d] + "r" + [c] + ApplyPass(k, SpaceAfterTone)
  {
    Regroup(w + [d] + "r", c, k, ApplyPass(k, SpaceAfterTone));
    assert !InPinyinClass(c) && ([c] + k)[0] == c;
    SpaceBeforeErhua(w, d, [c] + k);
    KeptFirst(c, k, SpaceAfterTone);
  }

  /** The erhua pass on `Xr<d>` and the non-letter after it. */
  lemma ErhuaStep(w: string, d: char, c: char, l: string)
    requires w != [] && forall i :: 0 <= i < |w| ==> IsLetter(w[i], true)
    requires IsToneDigit(d) && !IsLetter(c, true) && !IsVowel(c)
    ensures var moved := if FoldsTo(w, 'e') then w + "r" + [d] else w + [d] + "r";
            ApplyPass(w + "r" + [d] + [c] + l, ErhuaTone) == moved + [c] + ApplyPass(l, ErhuaTone)
  {
    var moved := if FoldsTo(w, 'e') then w + "r" + [d] else w + [d] + "r";
    Regroup(w + "r" + [d], c, l, []);
    Regroup(moved, c, [], ApplyPass(l, ErhuaTone));
    ErhuaToneMoved(w, d, [c] + l);
    KeptFirst(c, l, ErhuaTone);
  }

  /** The four passes over `Xr<d>`, X not `e`, then a separator: the number goes before the `r`. */
  lemma {:induction false} MovedErhuaPasses(w: string, d: char, c: char, l: string)
    requires w != [] && w != "e" && forall i :: 0 <= i < |w| ==> IsLetter(w[i], false)
    requires IsToneDigit(d) && Separator(c)
    ensures Passes(w + "r" + [d] + [c] + l) == w + [d] + "r" + [c] + Passes(l)
  {
    PlainLetters(w);
    FoldsToLower(w, 'e');
    var e := ApplyPass(l, ErhuaTone);
    ErhuaStep(w, d, c, l);
    var n := ApplyPass(e, NeutralVowel);
    MovedErhuaStep(w, d, c, e, NeutralVowel);
    var k := ApplyPass(n, NeutralConsonant);
    MovedErhuaStep(w, d, c, n, NeutralConsonant);
    MovedErhuaSpaceStep(w, d, c, k);
  }

  /** The four passes over `er<d>`, then a separator: it stays as it is. */
  lemma {:induction false} KeptErhuaPasses(d: char, c: char, l: string)
    requires IsToneDigit(d) && Separator(c)
    ensures Passes("er" + [d] + [c] + l) == "er" + [d] + [c] + Passes(l)
  {
    assert "e" + "r" == "er";
    PlainLetters("e");
    PlainLetters("er");
    FoldsToLower("e", 'e');
    var e := ApplyPass(l, ErhuaTone);
    ErhuaStep("e", d, c, l);
    var n := ApplyPass(e, NeutralVowel);
    NumberedStep("er", d, c, e, NeutralVowel);
    var k := ApplyPass(n, NeutralConsonant);
    NumberedStep("er", d, c, n, NeutralConsonant);
    SpaceStep("er", d, c, k);
  }

  /** A lone `r` goes through both neutral-tone passes as it is. */
  lemma LoneRAlone(pass: Pass)
    requires pass.NeutralVowel? || pass.NeutralConsonant?
    ensures ApplyPass("r", pass) == "r"
  {
    AsciiNotMarked('r');
    assert EditOn("r", pass).None?;
    assert NoEditIn("r", 1, pass);
    NoEditKept("r", pass);
  }

  /** The four passes over `Xr<d>` alone, X not `e`: the number goes before the `r`. */
  lemma {:induction false} MovedErhuaAlone(w: string, d: char)
    requires w != [] && w != "e" && forall i :: 0 <= i < |w| ==> IsLetter(w[i], false)
    requires IsToneDigit(d)
    ensures Passes(w + "r" + [d]) == w + [d] + "r"
  {
    var s := w + [d] + "r";
    AppendEmpty(w + "r" + [d]);
    AppendEmpty(s);
    PlainLetters(w);
    FoldsToLower(w, 'e');
    ErhuaToneMoved(w, d, []);
    LoneRAlone(NeutralVowel);
    LoneRAlone(NeutralConsonant);
    NumberedWordKept(w, d, "r", NeutralVowel);
    NumberedWordKept(w, d, "r", NeutralConsonant);
    SpaceBeforeErhua(w, d, []);
  }

  /** The four passes over `er<d>` alone: it stays as it is. */
  lemma {:induction false} KeptErhuaAlone(d: char)
    requires IsToneDigit(d)
    ensures Passes("er" + [d]) == "er" + [d]
  {
    var s := "er" + [d];
    assert "e" + "r" + [d] + [] == s && s + [] == s;
    PlainLetters("e");
    PlainLetters("er");
    FoldsToLower("e", 'e');
    ErhuaToneMoved("e", d, []);
    NumberedWordKept("er", d, [], NeutralVowel);
    NumberedWordKept("er", d, [], NeutralConsonant);
    SpaceKeepsWord("er", d, []);
  }

  /** An erhua word is kept by lower-casing. */
  lemma LowerErhua(w: string, d: char)
    requires forall i :: 0 <= i < |w| ==> IsLetter(w[i], false)
    requires IsToneDigit(d)
    ensures Lower(w + "r" + [d]) == w + "r" + [d]
  {
    assert forall i :: 0 <= i < |w + "r"| ==> IsLetter((w + "r")[i], false);
    LowerToned(w + "r", d);
  }

  /**
   * `p2z`'s passes on an erhua word `Xr<d>`, X not `e`, before the end of the
   * text or a separator: the number moves before the `r`, and the text after
   * it goes through the passes on its own.
   */
  lemma {:induction false} MovedErhuaNumbered(w: string, d: char, t: string)
    requires w != [] && w != "e" && forall i :: 0 <= i < |w| ==> IsLetter(w[i], false)
    requires IsToneDigit(d) && (t == [] || Separator(t[0]))
    ensures Numbered(w + "r" + [d] + t) == w + [d] + "r" + Numbered(t)
  {
    LowerErhua(w, d);
    LowerAppend(w + "r" + [d], t);
    if t == [] {
      AppendEmpty(w + "r" + [d]);
      AppendEmpty(w + [d] + "r");
      NumberedEmpty();
      MovedErhuaAlone(w, d);
    } else {
      var c, r := t[0], t[1..];
      assert t == [c] + r;
      LowerCons(c, r);
      Regroup(w + "r" + [d], c, Lower(r), []);
      Regroup(w + [d] + "r", c, [], Passes(Lower(r)));
      MovedErhuaPasses(w, d, c, Lower(r));
      KeptNumbered(c, r);
    }
  }

  /** `er<d>` before the end of the text or a separator stays as it is. */
  lemma {:induction false} KeptErhuaNumbered(d: char, t: string)
    requires IsToneDigit(d) && (t == [] || Separator(t[0]))
    ensures Numbered("er" + [d] + t) == "er" + [d] + Numbered(t)
  {
    assert "e" + "r" == "er";
    LowerErhua("e", d);
    LowerAppend("er" + [d], t);
    if t == [] {
      AppendEmpty("er" + [d]);
      NumberedEmpty();
      KeptErhuaAlone(d);
    } else {
      var c, r := t[0], t[1..];
      assert t == [c] + r;
      LowerCons(c, r);
      Regroup("er" + [d], c, Lower(r), []);
      Regroup("er" + [d], c, [], Passes(Lower(r)));
      KeptErhuaPasses(d, c, Lower(r));
      KeptNumbered(c, r);
    }
  }

  /** An erhua word in running text, as `p2z`'s passes treat it: `Xr<d>` becomes `X<d>r`, except `er<d>`. */
  lemma ErhuaWordNumbered(w: string, d: char, t: string)
    requires w != [] && forall i :: 0 <= i < |w| ==> IsLetter(w[i], false)
    requires IsToneDigit(d) && (t == [] || Separator(t[0]))
    ensures Numbered(w + "r" + [d] + t) == (if w == "e" then w + "r" + [d] else w + [d] + "r") + Numbered(t)
  {
    if w == "e" {
      assert w + "r" == "er";
      KeptErhuaNumbered(d, t);
    } else {
      MovedErhuaNumbered(w, d, t);
    }
  }

  /** The erhua move inside a sentence: `yi1 bar5` becomes `yi1 ba5r`. */
  lemma YiBarNumbered()
    ensures Numbered("yi1 bar5") == "yi1 ba5r"
  {
    assert forall i :: 0 <= i < |"yi"| ==> IsLetter("yi"[i], false);
    assert forall i :: 0 <= i < |"ba"| ==> IsLetter("ba"[i], false);
    AsciiNotMarked(' ');
    assert Separator(' ');
    assert "yi1 bar5" == "yi" + ['1'] + ([' '] + ("ba" + "r" + ['5']));
    assert "ba" + "r" + ['5'] == "ba" + "r" + ['5'] + [];
    assert "yi" + ['1'] + ([' '] + ("ba" + ['5'] + "r" + [])) == "yi1 ba5r";
    TonedWordNumbered("yi", '1', [' '] + ("ba" + "r" + ['5']));
    KeptNumbered(' ', "ba" + "r" + ['5']);
    MovedErhuaNumbered("ba", '5', []);
    NumberedEmpty();
  }

  // Before an apostrophe and a syllable the vowel-final pass numbers

  /** The vowel-final pass alone on a word ending in a vowel. */
  lemma VowelWordOnly(v: string)
    requires v != [] && forall i :: 0 <= i < |v| ==> IsLetter(v[i], true)
    requires IsVowel(v[|v| - 1])
    ensures ApplyPass(v, NeutralVowel) == v + "5"
  {
    var init, last := v[..|v| - 1], v[|v| - 1];
    assert init + [last] == v;
    AppendEmpty(v);
    AppendEmpty(v + "5");
    VowelWordNeutral(init, last, []);
  }

  /** A numbered word alone goes through the consonant-final and spacing passes as it is. */
  lemma NumberedOnly(v: string)
    requires forall i :: 0 <= i < |v| ==> IsLetter(v[i], false)
    ensures ApplyPass(v + "5", NeutralConsonant) == v + "5"
    ensures ApplyPass(v + "5", SpaceAfterTone) == v + "5"
  {
    PlainLetters(v);
    assert v + ['5'] + [] == v + "5";
    NumberedWordKept(v, '5', [], NeutralConsonant);
    SpaceKeepsWord(v, '5', []);
  }

  /**
   * The apostrophe before a numbered syllable is not a boundary, so no
   * consonant-final match starts in the word before it or at it.
   */
  lemma ApostropheTonedNoMatch(w: string, v: string)
    requires w != [] && forall i :: 0 <= i < |w| ==> IsLetter(w[i], true)
    requires v != [] && forall i :: 0 <= i < |v| ==> IsLetter(v[i], true)
    ensures NoEditIn(w + ['\''] + (v + "5"), |w| + 1, NeutralConsonant)
  {
    var s := w + ['\''] + (v + "5");
    forall q | 0 <= q < |w| + 1
      ensures EditAt(s, q, NeutralConsonant).None?
    {
      var u := s[q..];
      assert u[|w| - q] == '\'';
      RunEndAt(u, 0, |w| - q, true);
      if q < |w| {
        assert u[|u| - 1] == '5';
        RunEndAt(u, |w| - q + 1, |u| - 1, true);
        assert LettersThenDigit(u, |w| - q + 1);
      }
    }
    NoEditBefore(s, |w| + 1, NeutralConsonant);
  }

  /** The vowel-final pass numbers the word after the apostrophe and not the one before it. */
  lemma ApostropheVowelPass(w: string, v: string)
    requires w != [] && forall i :: 0 <= i < |w| ==> IsLetter(w[i], true)
    requires IsConsonant(w[|w| - 1])
    requires v != [] && forall i :: 0 <= i < |v| ==> IsLetter(v[i], true)
    requires IsVowel(v[|v| - 1])
    ensures ApplyPass(w + ['\''] + v, NeutralVowel) == w + ['\''] + (v + "5")
  {
    assert (['\''] + v)[0] == '\'';
    Regroup(w, '\'', v, v + "5");
    ConsonantEndNoVowelEdit(w, ['\''] + v);
    KeptFirst('\'', v, NeutralVowel);
    VowelWordOnly(v);
  }

  /** The consonant-final pass then finds nothing to number. */
  lemma ApostropheConsonantPass(w: string, v: string)
    requires w != [] && forall i :: 0 <= i < |w| ==> IsLetter(w[i], false)
    requires v != [] && forall i :: 0 <= i < |v| ==> IsLetter(v[i], false)
    ensures ApplyPass(w + ['\''] + (v + "5"), NeutralConsonant) == w + ['\''] + (v + "5")
  {
    PlainLetters(w);
    PlainLetters(v);
    ApostropheTonedNoMatch(w, v);
    CopiedThenRest(w + ['\''], v + "5", NeutralConsonant);
    NumberedOnly(v);
  }

  /** Nor does the spacing pass. */
  lemma ApostropheSpacePass(w: string, v: string)
    requires forall i :: 0 <= i < |w| ==> IsLetter(w[i], false)
    requires forall i :: 0 <= i < |v| ==> IsLetter(v[i], false)
    ensures ApplyPass(w + ['\''] + (v + "5"), SpaceAfterTone) == w + ['\''] + (v + "5")
  {
    SpaceKeepsWord(w, '\'', v + "5");
    NumberedOnly(v);
  }

  /**
   * A word ending in a consonant, an apostrophe and a word ending in a
   * vowel: the vowel-final pass numbers the second word first, which makes
   * the apostrophe no boundary, so the first word keeps no number.
   */
  lemma ApostropheBeforeToned(w: string, v: string)
    requires |w| >= 2 && forall i :: 0 <= i < |w| ==> IsLetter(w[i], false)
    requires IsConsonant(w[|w| - 1])
    requires v != [] && forall i :: 0 <= i < |v| ==> IsLetter(v[i], false)
    requires IsVowel(v[|v| - 1])
    ensures Passes(w + ['\''] + v) == w + ['\''] + v + "5"
  {
    var s := w + ['\''] + v;
    assert forall i :: 0 <= i < |s| ==> !IsToneDigit(s[i]);
    Assoc(w + ['\''], v, "5");
    PlainLetters(w);
    PlainLetters(v);
    NoDigitPasses(s);
    ApostropheVowelPass(w, v);
    ApostropheConsonantPass(w, v);
    ApostropheSpacePass(w, v);
  }

  /** The same through `p2z`'s lower-casing. */
  lemma ApostropheBeforeTonedNumbered(w: string, v: string)
    requires |w| >= 2 && forall i :: 0 <= i < |w| ==> IsLetter(w[i], false)
    requires IsConsonant(w[|w| - 1])
    requires v != [] && forall i :: 0 <= i < |v| ==> IsLetter(v[i], false)
    requires IsVowel(v[|v| - 1])
    ensures Numbered(w + ['\''] + v) == w + ['\''] + v + "5"
  {
    PlainLetters(w);
    PlainLetters(v);
    LowerAppend(w + ['\''], v);
    LowerAppend(w, ['\'']);
    assert Lower(['\'']) == ['\''];
    ApostropheBeforeToned(w, v);
  }

  /** `tian'e`: the source numbers only the second syllable. */
  lemma TianENumbered()
    ensures Numbered("tian'e") == "tian'e5"
  {
    assert forall i :: 0 <= i < |"tian"| ==> IsLetter("tian"[i], false);
    assert forall i :: 0 <= i < |"e"| ==> IsLetter("e"[i], false);
    assert IsConsonant("tian"[3]) && IsVowel("e"[0]);
    assert "tian'e" == "tian" + ['\''] + "e";
    assert "tian'e" + "5" == "tian'e5";
    ApostropheBeforeTonedNumbered("tian", "e");
  }

  // ---------------------------------------------------------------------
  // bpmfTransforms, the tone glyphs and the punctuation
  // ---------------------------------------------------------------------

  function Lit(key: string, rep: string): Rule
  {
    Rule(Literal(key), rep)
  }

  /**
   * `bpmfTransforms`: its objects in order, each with its keys in order, in
   * the three parts its comments name.
   */
  const BpmfTransforms: seq<seq<Rule>> := PreProcessing + SyllableMappings + PostProcessing

  /** The name dot, `v` as `ü`, and erhua `r` as ㄦ. */
  const PreProcessing: seq<seq<Rule>> := [
    [Lit("・", " ")],
    [Lit("v", "ü")],
    [Rule(ErTone, "ㄦ$1")],
    [Rule(RTone, "ㄦ$1")],
    [Rule(RBeforeBoundary, "ㄦ")],
    [Rule(RAtEnd, "ㄦ")]
  ]

  /** Whole syllables and finals first, then initials, then single letters. */
  const SyllableMappings: seq<seq<Rule>> := [
    [Lit("yao", "ㄧㄠ"), Lit("you", "ㄧㄡ"), Lit("yue", "ㄩㄝ"), Lit("yong", "ㄩㄥ"),
     Lit("yuan", "ㄩㄢ"), Lit("ying", "ㄧㄥ"), Lit("yun", "ㄩㄣ"),
     Lit("yang", "ㄧㄤ"), Lit("yan", "ㄧㄢ"), Lit("yin", "ㄧㄣ"),
     Lit("wei", "ㄨㄟ"), Lit("wang", "ㄨㄤ"), Lit("wan", "ㄨㄢ"), Lit("weng", "ㄨㄥ"),
     Lit("wen", "ㄨㄣ"), Lit("wai", "ㄨㄞ")],
    [Lit("iang", "ㄧㄤ"), Lit("ing", "ㄧㄥ")],
    [Lit("iai", "ㄧㄞ"), Lit("iao", "ㄧㄠ"), Lit("iu", "ㄧㄡ"), Lit("ian", "ㄧㄢ"), Lit("in", "ㄧㄣ")],
    [Lit("uai", "ㄨㄞ"), Lit("uang", "ㄨㄤ"), Lit("uan", "ㄨㄢ"), Lit("ua", "ㄨㄚ"),
     Lit("uo", "ㄨㄛ"), Lit("ui", "ㄨㄟ"), Lit("un", "ㄨㄣ"), Lit("ün", "ㄩㄣ"),
     Lit("iong", "ㄩㄥ"), Lit("ong", "ㄨㄥ")],
    [Lit("uan", "ㄩㄢ"), Lit("un", "ㄩㄣ"), Lit("ong", "ㄩㄥ"), Lit("ue", "ㄩㄝ")],
    [Lit("zhi", "ㄓ"), Lit("chi", "ㄔ"), Lit("shi", "ㄕ"), Lit("ri", "ㄖ"), Lit("ang", "ㄤ"),
     Lit("eng", "ㄥ"), Lit("ai", "ㄞ"), Lit("ei", "ㄟ"), Lit("ao", "ㄠ"), Lit("ou", "ㄡ"),
     Lit("er", "ㄦ")],
    [Lit("an", "ㄢ"), Lit("en", "ㄣ"), Lit("wa", "ㄨㄚ"), Lit("wo", "ㄨㄛ"), Lit("wu", "ㄨ"),
     Lit("ya", "ㄧㄚ"), Lit("yo", "ㄧㄛ"), Lit("ye", "ㄧㄝ"), Lit("yu", "ㄩ")],
    [Lit("ia", "ㄧㄚ"), Lit("io", "ㄧㄛ"), Lit("ie", "ㄧㄝ")],
    [Lit("zh", "ㄓ"), Lit("ch", "ㄔ"), Lit("sh", "ㄕ"),
     Lit("zi", "ㄗ"), Lit("ci", "ㄘ"), Lit("si", "ㄙ"),
     Lit("r", "ㄖ"), Lit("yi", "ㄧ"), Lit("üe", "ㄩㄝ")],
    [Lit("b", "ㄅ"), Lit("p", "ㄆ"), Lit("m", "ㄇ"), Lit("f", "ㄈ"),
     Lit("d", "ㄉ"), Lit("t", "ㄊ"), Lit("n", "ㄋ"), Lit("l", "ㄌ"),
     Lit("g", "ㄍ"), Lit("k", "ㄎ"), Lit("h", "ㄏ"),
     Lit("j", "ㄐ"), Lit("q", "ㄑ"), Lit("x", "ㄒ"),
     Lit("z", "ㄗ"), Lit("c", "ㄘ"), Lit("s", "ㄙ"),
     Lit("i", "ㄧ"), Lit("u", "ㄨ"), Lit("ü", "ㄩ"),
     Lit("a", "ㄚ"), Lit("o", "ㄛ"), Lit("e", "ㄜ")]
  ]

  /** ju, qu and xu spelled with ㄩ, then apostrophes as spaces. */
  const PostProcessing: seq<seq<Rule>> := [
    [Rule(JqxWu, "$1ㄩ")],
    [Lit("'", " ")]
  ]

  /** The groups applied in order, each rule of a group in its order. */
  function ApplyGroups(s: string, groups: seq<seq<Rule>>): string
  {
    if groups == [] then s else ApplyAll(ApplyGroups(s, groups[..|groups| - 1]), groups[|groups| - 1])
  }

  /** The text after the whole cascade. */
  function Spelled(pinyin: string): string
  {
    ApplyGroups(Numbered(pinyin), BpmfTransforms)
  }

  /** `tones`: tone 1 has no glyph. */
  function ToneGlyph(d: char): (g: string)
    requires IsToneDigit(d)
    ensures d == '1' <==> g == ""
    ensures g != "" ==> |g| == 1 && IsBpmfTone(g[0])
  {
    if d == '1' then "" else if d == '2' then "ˊ" else if d == '3' then "ˇ" else if d == '4' then "ˋ" else "˙"
  }

  /** The keys of `tones`, in order. */
  const ToneKeys: string := "12345"

  /** The rule for one key: the glyph after the syllable. */
  function ToneRule(key: char): Rule
    requires IsToneDigit(key)
  {
    Rule(SyllableThen(key), "$1" + ToneGlyph(key))
  }

  /** One rule per key, in the keys' order. */
  function KeyRules(keys: string): (rules: seq<Rule>)
    requires forall i :: 0 <= i < |keys| ==> IsToneDigit(keys[i])
    ensures |rules| == |keys| && forall i :: 0 <= i < |keys| ==> rules[i] == ToneRule(keys[i])
  {
    if keys == [] then [] else [ToneRule(keys[0])] + KeyRules(keys[1..])
  }

  /** The neutral tone first, as a dot before the syllable, then each key in order. */
  const ToneRules: seq<Rule> := [Rule(SyllableThen('5'), "˙$1")] + KeyRules(ToneKeys)

  /** The `punctuation` table: full-width marks to ASCII. */
  const PunctuationRules: seq<Rule> :=
    [Lit("，", ","), Lit("。", "."), Lit("？", "?"), Lit("！", "!"), Lit("；", ";"), Lit("：", ":")]

  /** What `p2z` returns. */
  function P2zOf(pinyin: string, options: P2zOptions): string
  {
    var spelled := Spelled(pinyin);
    var marked := if options.tonemarks then ApplyAll(spelled, ToneRules) else spelled;
    if options.convertPunctuation then ApplyAll(marked, PunctuationRules) else marked
  }

  // ---------------------------------------------------------------------
  // What the cascade and the tone rules produce
  // ---------------------------------------------------------------------

  lemma {:induction false} ApplyGroupsAppend(s: string, a: seq<seq<Rule>>, b: seq<seq<Rule>>)
    ensures ApplyGroups(s, a + b) == ApplyGroups(ApplyGroups(s, a), b)
    decreases |b|
  {
    if b == [] {
      assert a + b == a;
    } else {
      assert (a + b)[..|a + b| - 1] == a + b[..|b| - 1];
      ApplyGroupsAppend(s, a, b[..|b| - 1]);
    }
  }

  lemma ApplyAllOne(s: string, r: Rule)
    ensures ApplyAll(s, [r]) == Replace(s, r)
  {
    assert [r][..0] == [];
  }

  /** Rules whose replacements lack a character do not bring it back. */
  lemma {:induction false} ApplyAllAvoids(s: string, rules: seq<Rule>, c: char)
    requires c !in s && forall i :: 0 <= i < |rules| ==> c !in rules[i].replacement
    ensures c !in ApplyAll(s, rules)
    decreases |rules|
  {
    if rules != [] {
      var before := ApplyAll(s, rules[..|rules| - 1]);
      ApplyAllAvoids(s, rules[..|rules| - 1], c);
      assert forall k :: 0 <= k < |before| ==> before[k] != c;
      RewriteAvoids(before, rules[|rules| - 1], 0, c);
    }
  }

  lemma {:induction false} ApplyGroupsAvoids(s: string, groups: seq<seq<Rule>>, c: char)
    requires c !in s && GroupsAvoid(groups, c)
    ensures c !in ApplyGroups(s, groups)
    decreases |groups|
  {
    if groups != [] {
      ApplyGroupsAvoids(s, groups[..|groups| - 1], c);
      ApplyAllAvoids(ApplyGroups(s, groups[..|groups| - 1]), groups[|groups| - 1], c);
    }
  }

  /** The replacements of some groups lack a character. */
  predicate GroupsAvoid(groups: seq<seq<Rule>>, c: char)
  {
    forall g, i :: 0 <= g < |groups| && 0 <= i < |groups[g]| ==> c !in groups[g][i].replacement
  }

  lemma MappingsAvoidVFirst(g: nat)
    requires 0 <= g < 5
    ensures forall i :: 0 <= i < |SyllableMappings[g]| ==> 'v' !in SyllableMappings[g][i].replacement
  {
    if g == 0 {} else if g == 1 {} else if g == 2 {} else if g == 3 {} else {}
  }

  lemma MappingsAvoidVLast(g: nat)
    requires 5 <= g < 10
    ensures forall i :: 0 <= i < |SyllableMappings[g]| ==> 'v' !in SyllableMappings[g][i].replacement
  {
    if g == 5 {} else if g == 6 {} else if g == 7 {} else if g == 8 {} else {}
  }

  /** The syllable mappings spell zhuyin, never a `v`. */
  lemma MappingsAvoidV()
    ensures GroupsAvoid(SyllableMappings, 'v')
  {
    forall g | 0 <= g < |SyllableMappings|
      ensures forall i :: 0 <= i < |SyllableMappings[g]| ==> 'v' !in SyllableMappings[g][i].replacement
    {
      if g < 5 {
        MappingsAvoidVFirst(g);
      } else {
        MappingsAvoidVLast(g);
      }
    }
  }

  /** The cascade as its three parts, one after the other. */
  lemma CascadeParts(s: string)
    ensures ApplyGroups(s, BpmfTransforms)
            == ApplyGroups(ApplyGroups(ApplyGroups(s, PreProcessing), SyllableMappings), PostProcessing)
  {
    ApplyGroupsAppend(s, PreProcessing + SyllableMappings, PostProcessing);
    ApplyGroupsAppend(s, PreProcessing, SyllableMappings);
  }

  /** `v` stands for `ü`: none is left after the cascade, whatever the input. */
  lemma {:induction false} CascadeRemovesV(s: string)
    ensures 'v' !in ApplyGroups(s, BpmfTransforms)
  {
    CascadeParts(s);
    var pre := PreProcessing;
    assert pre == pre[..2] + pre[2..];
    ApplyGroupsAppend(s, pre[..2], pre[2..]);
    var first := ApplyGroups(s, pre[..1]);
    assert pre[..2][..1] == pre[..1];
    ApplyAllOne(first, Lit("v", "ü"));
    RewriteRemoves(first, 'v', "ü", 0);
    ApplyGroupsAvoids(ApplyGroups(s, pre[..2]), pre[2..], 'v');
    MappingsAvoidV();
    ApplyGroupsAvoids(ApplyGroups(s, pre), SyllableMappings, 'v');
    ApplyGroupsAvoids(ApplyGroups(ApplyGroups(s, pre), SyllableMappings), PostProcessing, 'v');
  }

  /** Apostrophes become spaces: none is left after the cascade. */
  lemma {:induction false} CascadeRemovesApostrophes(s: string)
    ensures '\'' !in ApplyGroups(s, BpmfTransforms)
  {
    CascadeParts(s);
    var before := ApplyGroups(ApplyGroups(s, PreProcessing), SyllableMappings);
    var post := PostProcessing;
    assert post[..|post|][..1] == post[..1];
    ApplyAllOne(ApplyGroups(before, post[..1]), Lit("'", " "));
    RewriteRemoves(ApplyGroups(before, post[..1]), '\'', " ", 0);
  }

  /** The tone rules write `$1`, `˙` and the glyphs, nothing else. */
  lemma ToneRulesAvoid(c: char)
    requires c != '$' && c != '1' && !IsBpmfTone(c)
    ensures forall i :: 0 <= i < |ToneRules| ==> c !in ToneRules[i].replacement
  {
    forall i | 0 <= i < |ToneRules|
      ensures c !in ToneRules[i].replacement
    {
      if i > 0 {
        var g := ToneGlyph(ToneKeys[i - 1]);
        assert ToneRules[i].replacement == "$1" + g;
      }
    }
  }

  lemma PunctuationAvoids(c: char)
    requires c != ',' && c != '.' && c != '?' && c != '!' && c != ';' && c != ':'
    ensures forall i :: 0 <= i < |PunctuationRules| ==> c !in PunctuationRules[i].replacement
  {
  }

  /** A character the cascade leaves out stays out of the output. */
  lemma {:induction false} OutputAvoids(pinyin: string, options: P2zOptions, c: char)
    requires c !in Spelled(pinyin)
    requires forall i :: 0 <= i < |ToneRules| ==> c !in ToneRules[i].replacement
    requires forall i :: 0 <= i < |PunctuationRules| ==> c !in PunctuationRules[i].replacement
    ensures c !in P2zOf(pinyin, options)
  {
    var spelled := Spelled(pinyin);
    var marked := if options.tonemarks then ApplyAll(spelled, ToneRules) else spelled;
    if options.tonemarks {
      ApplyAllAvoids(spelled, ToneRules, c);
    }
    if options.convertPunctuation {
      ApplyAllAvoids(marked, PunctuationRules, c);
    }
  }

  /** Neither the tone glyphs nor the punctuation bring a `v` or an apostrophe back. */
  lemma {:induction false} NoVNorApostrophe(pinyin: string, options: P2zOptions)
    ensures 'v' !in P2zOf(pinyin, options) && '\'' !in P2zOf(pinyin, options)
  {
    CascadeRemovesV(Numbered(pinyin));
    CascadeRemovesApostrophes(Numbered(pinyin));
    ToneRulesAvoid('v');
    ToneRulesAvoid('\'');
    PunctuationAvoids('v');
    PunctuationAvoids('\'');
    OutputAvoids(pinyin, options, 'v');
    OutputAvoids(pinyin, options, '\'');
  }

  /** No ㄐ, ㄑ or ㄒ directly before ㄨ. */
  predicate NoJqxBeforeWu(s: string)
  {
    forall i :: 0 <= i < |s| - 1 ==> !(IsZhuyinJqx(s[i]) && s[i + 1] == 'ㄨ')
  }

  /** `(ㄐ|ㄑ|ㄒ)ㄨ` to `$1ㄩ` leaves no such pair, and keeps the first character. */
  lemma {:induction false} JqxWuRewrite(s: string, p: nat)
    requires p <= |s|
    ensures var out := Rewrite(s, Rule(JqxWu, "$1ㄩ"), p);
            NoJqxBeforeWu(out) && (p < |s| ==> out != [] && out[0] == s[p])
    decreases |s| - p
  {
    var r := Rule(JqxWu, "$1ㄩ");
    if p < |s| {
      var out := Rewrite(s, r, p);
      match MatchAt(s, p, JqxWu)
      case Some(h) =>
        assert "$1ㄩ"[2..] == "ㄩ";
        ExpandPlain("ㄩ", [s[p]]);
        assert Expand("$1ㄩ", [s[p]]) == [s[p], 'ㄩ'];
        assert s[h.groupStart..h.groupEnd] == [s[p]];
        var rest := Rewrite(s, r, p + 2);
        JqxWuRewrite(s, p + 2);
        assert out == [s[p], 'ㄩ'] + rest;
        forall i | 0 <= i < |out| - 1
          ensures !(IsZhuyinJqx(out[i]) && out[i + 1] == 'ㄨ')
        {
          if i >= 2 {
            assert out[i] == rest[i - 2] && out[i + 1] == rest[i - 1];
          }
        }
      case None =>
        var rest := Rewrite(s, r, p + 1);
        JqxWuRewrite(s, p + 1);
        assert out == [s[p]] + rest;
        forall i | 0 <= i < |out| - 1
          ensures !(IsZhuyinJqx(out[i]) && out[i + 1] == 'ㄨ')
        {
          if i >= 1 {
            assert out[i] == rest[i - 1] && out[i + 1] == rest[i];
          }
        }
    }
  }

  /** Replacing one character by one character, position by position. */
  lemma {:induction false} SubstCharPointwise(s: string, c: char, e: char)
    ensures |SubstChar(s, c, [e])| == |s|
    ensures forall i :: 0 <= i < |s| ==> SubstChar(s, c, [e])[i] == if s[i] == c then e else s[i]
    decreases |s|
  {
    if s != [] {
      SubstCharPointwise(s[1..], c, e);
    }
  }

  /** A rule that swaps one character for another, neither of them ㄐ, ㄑ, ㄒ or ㄨ. */
  predicate CharSwap(r: Rule)
  {
    r.pattern.Literal? && |r.pattern.text| == 1 && |r.replacement| == 1 && r.replacement[0] != '$'
    && !IsZhuyinJqx(r.pattern.text[0]) && r.pattern.text[0] != 'ㄨ'
    && !IsZhuyinJqx(r.replacement[0]) && r.replacement[0] != 'ㄨ'
  }

  lemma {:induction false} SwapsKeepNoJqxBeforeWu(s: string, rules: seq<Rule>)
    requires NoJqxBeforeWu(s) && forall i :: 0 <= i < |rules| ==> CharSwap(rules[i])
    ensures NoJqxBeforeWu(ApplyAll(s, rules))
    decreases |rules|
  {
    if rules != [] {
      var before := ApplyAll(s, rules[..|rules| - 1]);
      SwapsKeepNoJqxBeforeWu(s, rules[..|rules| - 1]);
      var r := rules[|rules| - 1];
      var c := r.pattern.text[0];
      var e := r.replacement[0];
      assert r == Rule(Literal([c]), [e]);
      CharRewrite(before, c, [e], 0);
      assert before[0..] == before;
      SubstCharPointwise(before, c, e);
    }
  }

  /** ju, qu and xu are spelled with ㄩ: after the cascade no ㄐ, ㄑ or ㄒ stands before ㄨ. */
  lemma {:induction false} CascadeNoJqxBeforeWu(s: string)
    ensures NoJqxBeforeWu(ApplyGroups(s, BpmfTransforms))
  {
    CascadeParts(s);
    var before := ApplyGroups(ApplyGroups(s, PreProcessing), SyllableMappings);
    var post := PostProcessing;
    assert post[..|post|][..1] == post[..1];
    assert post[..1][..0] == [];
    ApplyAllOne(before, Rule(JqxWu, "$1ㄩ"));
    assert ApplyGroups(before, post[..1]) == Replace(before, Rule(JqxWu, "$1ㄩ"));
    JqxWuRewrite(before, 0);
    SwapsKeepNoJqxBeforeWu(ApplyGroups(before, post[..1]), post[1]);
  }

  /** With tone numbers, the output keeps that: the punctuation swaps do not create such a pair. */
  lemma {:induction false} NumbersNoJqxBeforeWu(pinyin: string, options: P2zOptions)
    requires !options.tonemarks
    ensures NoJqxBeforeWu(P2zOf(pinyin, options))
  {
    CascadeNoJqxBeforeWu(Numbered(pinyin));
    if options.convertPunctuation {
      SwapsKeepNoJqxBeforeWu(Spelled(pinyin), PunctuationRules);
    }
  }

  /** The first end followed by `d` is the only one. */
  lemma {:induction false} FirstFollowedByOnly(s: string, ends: seq<nat>, d: char, x: nat)
    requires x in ends && x < |s| && s[x] == d
    requires forall e :: e in ends && e < |s| && s[e] == d ==> e == x
    ensures FirstFollowedBy(s, ends, d) == Some(x)
    decreases |ends|
  {
    if !(ends[0] < |s| && s[ends[0]] == d) {
      assert x in ends[1..];
      assert forall e :: e in ends[1..] ==> e in ends;
      FirstFollowedByOnly(s, ends[1..], d, x);
    }
  }

  /** A tone rule on text without a number changes nothing. */
  lemma {:induction false} ToneRuleWithoutDigit(s: string, k: char, rep: string)
    requires forall i :: 0 <= i < |s| ==> !IsToneDigit(s[i])
    requires IsToneDigit(k)
    ensures Replace(s, Rule(SyllableThen(k), rep)) == s
  {
    RewriteWithoutMatch(s, Rule(SyllableThen(k), rep), 0);
  }

  /**
   * One tone rule on a syllable and its number: the rule for that number
   * rewrites the pair, a rule for another number keeps it.
   */
  lemma {:induction false} ToneRuleOnSyllable(t: string, d: char, k: char, rep: string)
    requires IsSyllable(t) && IsToneDigit(d) && IsToneDigit(k)
    ensures Replace(t + [d], Rule(SyllableThen(k), rep)) == if k == d then Expand(rep, t) else t + [d]
  {
    if k == d {
      ToneRuleMatches(t, d, rep);
    } else {
      ToneRuleOtherDigit(t, d, k, rep);
    }
  }

  /** The rule for the syllable's own number rewrites the syllable and its number. */
  lemma {:induction false} ToneRuleMatches(t: string, d: char, rep: string)
    requires IsSyllable(t) && IsToneDigit(d)
    ensures Replace(t + [d], Rule(SyllableThen(d), rep)) == Expand(rep, t)
  {
    var s := t + [d];
    var r := Rule(SyllableThen(d), rep);
    SyllableSymbols(t);
    assert forall i :: 0 <= i < |t| ==> s[i] == t[i] && !IsToneDigit(s[i]);
    assert t <= s;
    SyllableEndReached(s, t);
    FirstFollowedByOnly(s, SyllableEnds(s, 0), d, |t|);
    assert MatchAt(s, 0, r.pattern) == Some(Hit(|t| + 1, 0, |t|));
    assert s[0..|t|] == t;
    assert Rewrite(s, r, |s|) == "";
  }

  /** A rule for another number leaves a syllable and its number alone. */
  lemma {:induction false} ToneRuleOtherDigit(t: string, d: char, k: char, rep: string)
    requires IsSyllable(t) && IsToneDigit(d) && IsToneDigit(k) && k != d
    ensures Replace(t + [d], Rule(SyllableThen(k), rep)) == t + [d]
  {
    var s := t + [d];
    SyllableSymbols(t);
    assert forall i :: 0 <= i < |t| ==> s[i] == t[i] && !IsToneDigit(s[i]);
    RewriteWithoutMatch(s, Rule(SyllableThen(k), rep), 0);
  }

  /** Every rule of a list is a tone rule: a syllable, then a number. */
  predicate ToneRuleList(rules: seq<Rule>)
  {
    forall i :: 0 <= i < |rules| ==> rules[i].pattern.SyllableThen? && IsToneDigit(rules[i].pattern.digit)
  }

  lemma {:induction false} ToneRulesWithoutDigit(s: string, rules: seq<Rule>)
    requires forall i :: 0 <= i < |s| ==> !IsToneDigit(s[i])
    requires ToneRuleList(rules)
    ensures ApplyAll(s, rules) == s
    decreases |rules|
  {
    if rules != [] {
      ToneRulesWithoutDigit(s, rules[..|rules| - 1]);
      var r := rules[|rules| - 1];
      ToneRuleWithoutDigit(s, r.pattern.digit, r.replacement);
    }
  }

  lemma {:induction false} ToneRulesForOthers(t: string, d: char, rules: seq<Rule>)
    requires IsSyllable(t) && IsToneDigit(d) && ToneRuleList(rules)
    requires forall i :: 0 <= i < |rules| ==> rules[i].pattern.digit != d
    ensures ApplyAll(t + [d], rules) == t + [d]
    decreases |rules|
  {
    if rules != [] {
      ToneRulesForOthers(t, d, rules[..|rules| - 1]);
      var r := rules[|rules| - 1];
      ToneRuleOnSyllable(t, d, r.pattern.digit, r.replacement);
    }
  }

  /** `$1` followed by plain text: the group, then the text. */
  lemma {:induction false} ExpandGroupFirst(g: string, t: string)
    requires '$' !in g
    ensures Expand("$1" + g, t) == t + g
  {
    var rep := "$1" + g;
    assert rep[0] == '$' && rep[1] == '1' && rep[2..] == g;
    ExpandPlain(g, t);
  }

  /** `˙$1`: the dot, then the group. */
  lemma {:induction false} ExpandDotFirst(t: string)
    ensures Expand("˙$1", t) == "˙" + t
  {
    var rep := "˙$1";
    assert rep[0] == '˙' && rep[1..] == "$1" + "";
    ExpandGroupFirst("", t);
  }

  /** The tone rules, entry by entry. */
  lemma ToneRulesShape()
    ensures |ToneRules| == 6 && ToneRuleList(ToneRules)
    ensures ToneRules[0] == Rule(SyllableThen('5'), "˙$1")
    ensures forall j :: 1 <= j < 6 ==> ToneRules[j] == ToneRule(ToneKeys[j - 1])
  {
  }

  /** A list that starts with the neutral-dot rule: its dot goes before the syllable, and the later rules find no number. */
  lemma {:induction false} NeutralDotFirst(t: string, rules: seq<Rule>)
    requires IsSyllable(t) && |rules| >= 1 && rules[0] == Rule(SyllableThen('5'), "˙$1")
    requires ToneRuleList(rules[1..])
    ensures ApplyAll(t + "5", rules) == "˙" + t
  {
    var front, back := rules[..1], rules[1..];
    assert front == [Rule(SyllableThen('5'), "˙$1")];
    DotPlaced(t);
    DottedKept(t, back);
    assert front + back == rules;
    ApplyAllAppend(t + "5", front, back);
  }

  /** The neutral-dot rule alone on a syllable and its `5`. */
  lemma {:induction false} DotPlaced(t: string)
    requires IsSyllable(t)
    ensures ApplyAll(t + "5", [Rule(SyllableThen('5'), "˙$1")]) == "˙" + t
  {
    var r := Rule(SyllableThen('5'), "˙$1");
    assert [r][..0] == [];
    ToneRuleOnSyllable(t, '5', '5', "˙$1");
    ExpandDotFirst(t);
  }

  /** A dotted syllable has no number left for later tone rules. */
  lemma {:induction false} DottedKept(t: string, rules: seq<Rule>)
    requires IsSyllable(t) && ToneRuleList(rules)
    ensures ApplyAll("˙" + t, rules) == "˙" + t
  {
    var dotted := "˙" + t;
    SyllableSymbols(t);
    assert forall i :: 0 <= i < |dotted| ==> !IsToneDigit(dotted[i]);
    ToneRulesWithoutDigit(dotted, rules);
  }

  /** Up to and including the rule for the number: the rules before it keep the pair, it writes the glyph. */
  lemma {:induction false} GlyphThrough(t: string, d: char, g: string, rules: seq<Rule>, i: nat)
    requires IsSyllable(t) && IsToneDigit(d) && ToneRuleList(rules)
    requires '$' !in g
    requires i < |rules| && rules[i] == Rule(SyllableThen(d), "$1" + g)
    requires forall j :: 0 <= j < i ==> rules[j].pattern.digit != d
    ensures ApplyAll(t + [d], rules[..i + 1]) == t + g
  {
    assert rules[..i + 1][..i] == rules[..i];
    ToneRulesForOthers(t, d, rules[..i]);
    ToneRuleOnSyllable(t, d, d, "$1" + g);
    ExpandGroupFirst(g, t);
  }

  /**
   * The rule for a number at `i` of a list of tone rules: the rules before it
   * are for other numbers and keep the pair, it writes the glyph, and the
   * rules after it find no number.
   */
  lemma {:induction false} GlyphAt(t: string, d: char, g: string, rules: seq<Rule>, i: nat)
    requires IsSyllable(t) && IsToneDigit(d) && ToneRuleList(rules)
    requires '$' !in g && forall k :: 0 <= k < |g| ==> IsBpmfTone(g[k])
    requires i < |rules| && rules[i] == Rule(SyllableThen(d), "$1" + g)
    requires forall j :: 0 <= j < i ==> rules[j].pattern.digit != d
    ensures ApplyAll(t + [d], rules) == t + g
  {
    var front, back := rules[..i + 1], rules[i + 1..];
    assert ApplyAll(t + [d], front) == t + g by {
      GlyphThrough(t, d, g, rules, i);
    }
    assert ApplyAll(t + g, back) == t + g by {
      assert ToneRuleList(back);
      MarkedKept(t, g, back);
    }
    assert ApplyAll(t + [d], rules) == ApplyAll(ApplyAll(t + [d], front), back) by {
      assert front + back == rules;
      ApplyAllAppend(t + [d], front, back);
    }
  }

  /** A syllable with its glyph has no number left for later tone rules. */
  lemma {:induction false} MarkedKept(t: string, g: string, rules: seq<Rule>)
    requires IsSyllable(t) && ToneRuleList(rules)
    requires forall k :: 0 <= k < |g| ==> IsBpmfTone(g[k])
    ensures ApplyAll(t + g, rules) == t + g
  {
    var marked := t + g;
    SyllableSymbols(t);
    assert forall k :: 0 <= k < |marked| ==> !IsToneDigit(marked[k]);
    ToneRulesWithoutDigit(marked, rules);
  }

  /**
   * With `tonemarks`, a syllable and its number become the syllable and its
   * glyph, except the neutral tone, whose dot goes before the syllable.
   */
  lemma ToneMarkPlaced(t: string, d: char)
    requires IsSyllable(t) && IsToneDigit(d)
    ensures ApplyAll(t + [d], ToneRules) == if d == '5' then "˙" + t else t + ToneGlyph(d)
  {
    ToneRulesShape();
    if d == '5' {
      assert ToneRuleList(ToneRules[1..]);
      NeutralDotFirst(t, ToneRules);
    } else {
      var i := d as int - '0' as int;
      assert ToneKeys[i - 1] == d;
      GlyphAt(t, d, ToneGlyph(d), ToneRules, i);
    }
  }

  /**
   * The glyph placed for a number is read back as that number by the zhuyin
   * to pinyin direction, which takes the first tone glyph of a syllable.
   */
  lemma {:induction false} ToneMarkReadsBack(t: string, d: char)
    requires IsCore(t) && IsToneDigit(d)
    ensures ZhuyinSyllable.ToneNumber(ZhuyinSyllable.FirstTone(ApplyAll(t + [d], ToneRules))) == [d]
  {
    var marked := ApplyAll(t + [d], ToneRules);
    CoreSymbols(t);
    assert marked == if d == '5' then "˙" + t else t + ToneGlyph(d) by {
      ToneMarkPlaced(t, d);
    }
    GlyphReadsBack(t, d);
  }

  /** A syllable core is a syllable, written with Zhuyin letters only. */
  lemma {:induction false} CoreSymbols(t: string)
    requires IsCore(t)
    ensures IsSyllable(t)
    ensures forall i :: 0 <= i < |t| ==> 'ㄅ' <= t[i] <= 'ㄩ'
  {
    assert t[..|t|] == t;
    assert IsSyllable(t);
    SyllableSymbols(t);
  }

  /** Reading the tone off a syllable marked with `ToneGlyph`, or with the leading dot. */
  lemma {:induction false} GlyphReadsBack(t: string, d: char)
    requires IsToneDigit(d)
    requires forall i :: 0 <= i < |t| ==> 'ㄅ' <= t[i] <= 'ㄩ'
    ensures ZhuyinSyllable.ToneNumber(ZhuyinSyllable.FirstTone(
              if d == '5' then "˙" + t else t + ToneGlyph(d))) == [d]
  {
    var g := ToneGlyph(d);
    if d == '5' {
      assert ("˙" + t)[0] == '˙';
    } else {
      ZhuyinSyllable.FirstToneAppend(t, g);
      if g != "" {
        assert g[1..] == [];
      }
    }
  }

  /** The nested `forEach` over `bpmfTransforms`: each object, then each of its keys. */
  method TransformAll(s: string, groups: seq<seq<Rule>>) returns (output: string)
    ensures output == ApplyGroups(s, groups)
  {
    output := s;
    var g := 0;
    while g < |groups|
      invariant 0 <= g <= |groups|
      invariant output == ApplyGroups(s, groups[..g])
    {
      output := ApplyRules(output, groups[g]);
      assert groups[..g + 1][..g] == groups[..g];
      g := g + 1;
    }
    assert groups[..g] == groups;
  }

  /** The tone glyphs: the neutral dot first, then the `forEach` over the keys of `tones`. */
  method MarkTones(s: string) returns (output: string)
    ensures output == ApplyAll(s, ToneRules)
  {
    var keys := ToneKeys;
    ToneKeysDigits();
    var dot := Rule(SyllableThen('5'), "˙$1");
    ghost var rules := [dot] + KeyRules(keys);
    output := Replace(s, dot);
    KeyRulesFirst(s, dot, keys);
    for i := 0 to |keys|
      invariant output == ApplyAll(s, rules[..i + 1])
    {
      var key := keys[i];
      KeyRulesStep(s, dot, keys, i);
      output := Replace(output, ToneRule(key));
    }
    KeyRulesLast(s, dot, keys);
  }

  /** Every key of `tones` is a tone number. */
  lemma ToneKeysDigits()
    ensures forall k :: 0 <= k < |ToneKeys| ==> IsToneDigit(ToneKeys[k])
  {
  }

  lemma KeyRulesFirst(s: string, first: Rule, keys: string)
    requires forall i :: 0 <= i < |keys| ==> IsToneDigit(keys[i])
    ensures ApplyAll(s, ([first] + KeyRules(keys))[..1]) == Replace(s, first)
  {
    var rules := [first] + KeyRules(keys);
    assert rules[..1] == [first];
    assert [first][..0] == [];
  }

  /** After the last round every rule has been applied. */
  lemma KeyRulesLast(s: string, first: Rule, keys: string)
    requires forall k :: 0 <= k < |keys| ==> IsToneDigit(keys[k])
    ensures var rules := [first] + KeyRules(keys);
      ApplyAll(s, rules[..|keys| + 1]) == ApplyAll(s, rules)
  {
    var rules := [first] + KeyRules(keys);
    assert rules[..|keys| + 1] == rules;
  }

  /** One round of the loop over the keys of the tone table. */
  lemma KeyRulesStep(s: string, first: Rule, keys: string, i: nat)
    requires forall k :: 0 <= k < |keys| ==> IsToneDigit(keys[k])
    requires i < |keys|
    ensures var rules := [first] + KeyRules(keys);
      ApplyAll(s, rules[..i + 2]) == Replace(ApplyAll(s, rules[..i + 1]), ToneRule(keys[i]))
  {
    var rules := [first] + KeyRules(keys);
    assert rules[..i + 2][..i + 1] == rules[..i + 1];
    assert rules[i + 1] == ToneRule(keys[i]);
  }

  /** `p2z`. */
  method P2z(pinyin: string, options: P2zOptions) returns (output: string)
    ensures output == P2zOf(pinyin, options)
  {
    output := Lower(pinyin);
    output := ApplyPass(output, ErhuaTone);
    output := ApplyPass(output, NeutralVowel);
    output := ApplyPass(output, NeutralConsonant);
    output := ApplyPass(output, SpaceAfterTone);
    output := TransformAll(output, BpmfTransforms);
    if options.tonemarks {
      output := MarkTones(output);
    }
    if options.convertPunctuation {
      output := ApplyRules(output, PunctuationRules);
    }
  }
}
