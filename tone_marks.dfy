/**
 * `toToneMarks` of tone-tool.js: numbered pinyin (`hao3`) to marked pinyin
 * (`hǎo`).
 *
 * The source walks the input once, one character past its end, keeping an
 * output string, the word being built and a count of the `vowelSet`
 * characters seen.  A tone digit 1 to 5 closes the word: the tone goes on
 * its first vowel, or on its second one when the word holds i+a/e/o/u,
 * u+a/e/i or v/ü+e; every v in the word becomes ü; and an apostrophe goes in
 * front of a word that starts with a, o or e unless the output is empty or
 * ends in whitespace or punctuation.  `Feed` is one round of the source's
 * loop as a function of the state before it, `ToneMarksOf` the whole
 * conversion; `ToToneMarks` is the loop itself, proved equal to it.
 */
module ToneMarks {
  import opened Common
  import opened ToneTable

  // ---------------------------------------------------------------------
  // Words and their vowels
  // ---------------------------------------------------------------------

  /** The number of `vowelSet` characters in `s`. */
  function VowelCount(s: string): nat
  {
    if s == [] then 0
    else VowelCount(s[..|s| - 1]) + (if IsVowelSetChar(s[|s| - 1]) then 1 else 0)
  }

  /** The `basicVowels` test (`[aeiouvü]`, ignoring case): some `vowelSet` character. */
  predicate HasBasicVowel(w: string)
  {
    exists k :: 0 <= k < |w| && IsVowelSetChar(w[k])
  }

  /** `/i[aeou]/i`, `/u[aeio]/i` or `/[vü]e/i` matches `x` followed by `y`. */
  predicate SecondVowelPair(x: char, y: char)
  {
    var f := FoldCase(x);
    var g := FoldCase(y);
    (f == 'i' && (g == 'a' || g == 'e' || g == 'o' || g == 'u'))
    || (f == 'u' && (g == 'a' || g == 'e' || g == 'i' || g == 'o'))
    || ((f == 'v' || f == 'ü') && g == 'e')
  }

  /** Whether the tone goes on the first or on the second vowel of `w`. */
  function UseVowel(w: string): nat
  {
    if exists k :: 0 <= k < |w| - 1 && SecondVowelPair(w[k], w[k + 1]) then 2 else 1
  }

  /**
   * The inner loop of `toToneMarks` from position `j` on: the first
   * `vowelSet` character at which the count of them reaches `n`.
   */
  function NthVowelFrom(w: string, n: nat, j: nat): (r: Option<nat>)
    requires j <= |w|
    ensures r.Some? ==> j <= r.value < |w| && IsVowelSetChar(w[r.value])
    decreases |w| - j
  {
    if j == |w| then None
    else if IsVowelSetChar(w[j]) && VowelCount(w[..j]) + 1 >= n then Some(j)
    else NthVowelFrom(w, n, j + 1)
  }

  /**
   * The word as `toToneMarks` writes it once its tone is placed: the
   * character at `j` replaced by `toned`, every other one with v read as ü.
   */
  function MarkWord(w: string, j: nat, toned: char): (r: string)
    ensures |r| == |w|
  {
    seq(|w|, k requires 0 <= k < |w| => if k == j then toned else ConvertToUmlautIfV(w[k]))
  }

  /** `[\s\-.,!?;:]`: after one of these no apostrophe is needed. */
  predicate IsBreak(c: char)
  {
    IsJsSpace(c) || c == '-' || c == '.' || c == ',' || c == '!' || c == '?' || c == ';' || c == ':'
  }

  /**
   * With `apostrophes` on, a word starting with a, o or e gets an apostrophe
   * in front when the output so far is not empty and does not end in a
   * break.
   */
  predicate NeedsApostrophe(output: string, w: string, apostrophes: bool)
  {
    apostrophes && |output| > 0 && !IsBreak(output[|output| - 1]) && |w| > 0 && IsAoe(w[0])
  }

  /** `Number(currentChar)` for a tone digit. */
  function ToneNumber(c: char): (t: nat)
    requires IsToneDigit(c)
    ensures 1 <= t <= 5
  {
    c as int - '0' as int
  }

  // ---------------------------------------------------------------------
  // The conversion as a function
  // ---------------------------------------------------------------------

  /** `outputText`, `currentWord` and `foundVowels` between two rounds of the loop. */
  datatype MarkState = MarkState(output: string, word: string, found: nat)

  const Start := MarkState("", "", 0)

  /** A round on a character that is not a tone digit. */
  function FeedLetter(st: MarkState, c: char): MarkState
  {
    var found := st.found + (if IsVowelSetChar(c) then 1 else 0);
    if found != 0 && !IsVowelNGR(c) then MarkState(st.output + st.word, [c], found)
    else MarkState(st.output, st.word + [c], found)
  }

  /** A round on a tone digit. */
  function FeedDigit(st: MarkState, c: char, apostrophes: bool): MarkState
    requires IsToneDigit(c)
  {
    if !HasBasicVowel(st.word) then MarkState(st.output + st.word + [c], "", 0)
    else
      var use := UseVowel(st.word);
      var output := st.output + (if NeedsApostrophe(st.output, st.word, apostrophes) then "'" else "");
      match NthVowelFrom(st.word, use, 0)
      case Some(j) => MarkState(output + MarkWord(st.word, j, ApplyToneToVowel(st.word[j], ToneNumber(c))), "", use)
      case None => MarkState(output, st.word, VowelCount(st.word))
  }

  /** One round of the loop of `toToneMarks` on the character `c`. */
  function Feed(st: MarkState, c: char, apostrophes: bool): MarkState
  {
    if IsToneDigit(c) then FeedDigit(st, c, apostrophes) else FeedLetter(st, c)
  }

  /** The state after the rounds on the characters of `s`, from `st`. */
  function RunFrom(st: MarkState, s: string, apostrophes: bool): MarkState
  {
    if s == [] then st
    else Feed(RunFrom(st, s[..|s| - 1], apostrophes), s[|s| - 1], apostrophes)
  }

  /** `toToneMarks`: the last round, past the end of the input, flushes the word. */
  function ToneMarksOf(input: string, apostrophes: bool): string
  {
    var st := RunFrom(Start, input, apostrophes);
    st.output + st.word
  }

  // ---------------------------------------------------------------------
  // The conversion as the source's loop
  // ---------------------------------------------------------------------

  /** `toToneMarks(inputText, { apostrophes })`. */
  method ToToneMarks(input: string, apostrophes: bool) returns (outputText: string)
    ensures outputText == ToneMarksOf(input, apostrophes)
  {
    outputText := "";
    var currentWord := "";
    var foundVowels := 0;
    var i := 0;
    while i <= |input|
      invariant i <= |input| + 1
      invariant i <= |input| ==> MarkState(outputText, currentWord, foundVowels) == RunFrom(Start, input[..i], apostrophes)
      invariant i == |input| + 1 ==> outputText == ToneMarksOf(input, apostrophes)
      decreases |input| + 1 - i
    {
      if i == |input| {
        // `charAt` past the end is the empty string, which flushes the word.
        assert input[..i] == input;
        outputText := outputText + currentWord;
        currentWord := "";
      } else {
        var c := input[i];
        ghost var st := MarkState(outputText, currentWord, foundVowels);
        assert RunFrom(Start, input[..i + 1], apostrophes) == Feed(st, c, apostrophes) by {
          assert input[..i + 1][..i] == input[..i];
        }
        if !IsToneDigit(c) {
          if IsVowelSetChar(c) {
            foundVowels := foundVowels + 1;
          }
          if foundVowels != 0 && !IsVowelNGR(c) {
            outputText := outputText + currentWord;
            currentWord := [c];
          } else {
            currentWord := currentWord + [c];
          }
          assert MarkState(outputText, currentWord, foundVowels) == FeedLetter(st, c);
        } else {
          outputText, currentWord, foundVowels := PlaceTone(outputText, currentWord, c, apostrophes);
          assert MarkState(outputText, currentWord, foundVowels) == FeedDigit(st, c, apostrophes) by {
            FeedDigitIgnoresFound(st, c, apostrophes);
          }
        }
      }
      i := i + 1;
    }
  }

  /**
   * The tone-digit branch of `toToneMarks`: a word without a vowel is written
   * out with its digit; otherwise the tone goes on the vowel the inner loop
   * finds.
   */
  method PlaceTone(output0: string, word: string, c: char, apostrophes: bool)
    returns (outputText: string, currentWord: string, foundVowels: nat)
    requires IsToneDigit(c)
    ensures MarkState(outputText, currentWord, foundVowels) == FeedDigit(MarkState(output0, word, 0), c, apostrophes)
  {
    var toneNum := ToneNumber(c);
    outputText := output0;
    currentWord := word;
    foundVowels := 0;
    if !HasBasicVowel(currentWord) {
      outputText := outputText + currentWord + [c];
      currentWord := "";
      return;
    }
    var useVowel := 1;
    if exists k :: 0 <= k < |word| - 1 && SecondVowelPair(word[k], word[k + 1]) {
      useVowel := 2;
    }
    assert useVowel == UseVowel(word);
    if apostrophes {
      if |outputText| > 0 && !IsBreak(outputText[|outputText| - 1]) && |word| > 0 && IsAoe(word[0]) {
        outputText := outputText + "'";
      }
    }
    assert outputText == output0 + (if NeedsApostrophe(output0, word, apostrophes) then "'" else "");
    FeedDigitCases(MarkState(output0, word, 0), c, apostrophes);
    outputText, currentWord, foundVowels := MarkVowel(outputText, word, useVowel, toneNum);
  }

  /**
   * The inner loop of the tone-digit branch: walk the word counting its
   * vowels; at the `useVowel`-th one write out the word with that vowel
   * toned and empty the buffer.  If there is no such vowel, the word stays
   * buffered and the count is that of all its vowels.
   */
  method MarkVowel(prefix: string, word: string, useVowel: nat, toneNum: nat)
    returns (outputText: string, currentWord: string, foundVowels: nat)
    requires 1 <= useVowel && 1 <= toneNum <= 5
    ensures match NthVowelFrom(word, useVowel, 0)
      case Some(j) => outputText == prefix + MarkWord(word, j, ApplyToneToVowel(word[j], toneNum))
        && currentWord == "" && foundVowels == useVowel
      case None => outputText == prefix && currentWord == word && foundVowels == VowelCount(word)
  {
    outputText := prefix;
    currentWord := word;
    foundVowels := 0;
    var j := 0;
    while j < |word| && foundVowels < useVowel
      invariant j <= |word|
      invariant foundVowels < useVowel ==>
        foundVowels == VowelCount(word[..j]) && currentWord == word && outputText == prefix
        && NthVowelFrom(word, useVowel, 0) == NthVowelFrom(word, useVowel, j)
      invariant foundVowels >= useVowel ==>
        foundVowels == useVowel && currentWord == "" && 0 < j
        && NthVowelFrom(word, useVowel, 0) == Some(j - 1)
        && outputText == prefix + MarkWord(word, j - 1, ApplyToneToVowel(word[j - 1], toneNum))
      decreases |word| - j
    {
      assert word[..j + 1][..j] == word[..j];
      var charInWord := word[j];
      if IsVowelSetChar(charInWord) {
        foundVowels := foundVowels + 1;
        var tonedChar := ApplyToneToVowel(charInWord, toneNum);
        if foundVowels >= useVowel {
          outputText := outputText + MarkWord(word, j, tonedChar);
          currentWord := "";
        }
      }
      j := j + 1;
    }
    if foundVowels < useVowel {
      assert word[..j] == word;
    }
  }

  /** `FeedDigit` on a word with a vowel, case by case. */
  lemma FeedDigitCases(st: MarkState, c: char, apostrophes: bool)
    requires IsToneDigit(c) && HasBasicVowel(st.word)
    ensures var output := st.output + (if NeedsApostrophe(st.output, st.word, apostrophes) then "'" else "");
      && (NthVowelFrom(st.word, UseVowel(st.word), 0).None? ==>
            FeedDigit(st, c, apostrophes) == MarkState(output, st.word, VowelCount(st.word)))
      && (forall j :: NthVowelFrom(st.word, UseVowel(st.word), 0) == Some(j) ==>
            FeedDigit(st, c, apostrophes) == MarkState(output + MarkWord(st.word, j, ApplyToneToVowel(st.word[j], ToneNumber(c))), "", UseVowel(st.word)))
  {
  }

  // ---------------------------------------------------------------------
  // Properties
  // ---------------------------------------------------------------------

  /** No tone digit in `s`. */
  predicate NoToneDigit(s: string)
  {
    forall k :: 0 <= k < |s| ==> !IsToneDigit(s[k])
  }

  /** No `vowelSet` character in `s`. */
  predicate NoBasicVowel(s: string)
  {
    forall k :: 0 <= k < |s| ==> !IsVowelSetChar(s[k])
  }

  /**
   * Without a tone digit, or without a vowel, every character read ends up in
   * the output or the word, in order, and nothing is added.
   */
  lemma {:induction false} PlainRun(s: string, apostrophes: bool)
    requires NoToneDigit(s) || NoBasicVowel(s)
    ensures RunFrom(Start, s, apostrophes).output + RunFrom(Start, s, apostrophes).word == s
    ensures NoBasicVowel(s) ==> RunFrom(Start, s, apostrophes).found == 0 && !HasBasicVowel(RunFrom(Start, s, apostrophes).word)
    decreases |s|
  {
    if s != [] {
      var init := s[..|s| - 1];
      var c := s[|s| - 1];
      var st := RunFrom(Start, init, apostrophes);
      assert NoToneDigit(s) ==> NoToneDigit(init) && !IsToneDigit(c);
      assert NoBasicVowel(s) ==> NoBasicVowel(init) && !IsVowelSetChar(c);
      assert st.output + st.word == init
          && (NoBasicVowel(init) ==> st.found == 0 && !HasBasicVowel(st.word)) by {
        PlainRun(init, apostrophes);
      }
      assert RunFrom(Start, s, apostrophes) == Feed(st, c, apostrophes);
      PlainFeed(st, c, apostrophes);
      assert s == init + [c];
    }
  }

  /** One round that adds no mark: the character read is kept at the end. */
  lemma PlainFeed(st: MarkState, c: char, apostrophes: bool)
    requires !IsToneDigit(c) || (st.found == 0 && !HasBasicVowel(st.word))
    ensures Feed(st, c, apostrophes).output + Feed(st, c, apostrophes).word == st.output + st.word + [c]
    ensures st.found == 0 && !HasBasicVowel(st.word) && !IsVowelSetChar(c)
            ==> Feed(st, c, apostrophes).found == 0 && !HasBasicVowel(Feed(st, c, apostrophes).word)
  {
    if !IsToneDigit(c) {
      var w := st.word + [c];
      assert (st.output + st.word) + [c] == st.output + w;
      if st.found == 0 && !HasBasicVowel(st.word) && !IsVowelSetChar(c) {
        assert forall k :: 0 <= k < |st.word| ==> w[k] == st.word[k];
      }
    }
  }

  /**
   * Input without a tone digit 1 to 5 comes back unchanged, and so does input
   * without a vowel, whose digits stay where they are (`123`, `n2`).
   */
  lemma UnchangedWithoutToneWork(s: string, apostrophes: bool)
    requires NoToneDigit(s) || NoBasicVowel(s)
    ensures ToneMarksOf(s, apostrophes) == s
  {
    PlainRun(s, apostrophes);
  }

  /** A zero vowel count means the word holds no vowel. */
  lemma {:induction false} NoCountNoVowel(s: string, apostrophes: bool)
    ensures RunFrom(Start, s, apostrophes).found == 0 ==> !HasBasicVowel(RunFrom(Start, s, apostrophes).word)
    decreases |s|
  {
    if s != [] {
      var init := s[..|s| - 1];
      NoCountNoVowel(init, apostrophes);
      FeedNoCountNoVowel(RunFrom(Start, init, apostrophes), s[|s| - 1], apostrophes);
    }
  }

  /** One round keeps a zero vowel count tied to a word without a vowel. */
  lemma FeedNoCountNoVowel(st: MarkState, c: char, apostrophes: bool)
    requires st.found == 0 ==> !HasBasicVowel(st.word)
    ensures Feed(st, c, apostrophes).found == 0 ==> !HasBasicVowel(Feed(st, c, apostrophes).word)
  {
    if IsToneDigit(c) {
      if HasBasicVowel(st.word) {
        var k :| 0 <= k < |st.word| && IsVowelSetChar(st.word[k]);
        VowelAt(st.word, k);
      }
    } else if st.found == 0 && !IsVowelSetChar(c) {
      var w := st.word + [c];
      assert forall k :: 0 <= k < |st.word| ==> w[k] == st.word[k];
    }
  }

  /**
   * A digit right after a character that ends the word and is no vowel
   * (`abc1`): the word before it holds no vowel, so the digit is copied.
   */
  lemma DigitAfterBreak(s: string, c: char, d: char, apostrophes: bool)
    requires !IsToneDigit(c) && !IsVowelNGR(c) && IsToneDigit(d)
    ensures ToneMarksOf(s + [c, d], apostrophes) == ToneMarksOf(s + [c], apostrophes) + [d]
  {
    var st := RunFrom(Start, s, apostrophes);
    RunFromSnoc(Start, s, c, apostrophes);
    assert s + [c, d] == (s + [c]) + [d];
    RunFromSnoc(Start, s + [c], d, apostrophes);
    NoCountNoVowel(s, apostrophes);
    var m := Feed(st, c, apostrophes);
    assert !HasBasicVowel(m.word) by {
      if st.found == 0 {
        assert forall k :: 0 <= k < |st.word| ==> m.word[k] == st.word[k];
      }
    }
  }

  /** `abc1`: the digit does not follow the vowel, so nothing is marked. */
  lemma DigitAfterConsonants()
    ensures ToneMarksOf("abc1", false) == "abc1"
    ensures ToneMarksOf("abc1", true) == "abc1"
  {
    assert "abc1" == "ab" + ['c', '1'];
    assert "ab" + ['c'] == "abc";
    assert NoToneDigit("abc");
    UnchangedWithoutToneWork("abc", false);
    UnchangedWithoutToneWork("abc", true);
    DigitAfterBreak("ab", 'c', '1', false);
    DigitAfterBreak("ab", 'c', '1', true);
  }

  /** Counting vowels one character further. */
  lemma VowelCountStep(w: string, j: nat)
    requires j < |w|
    ensures VowelCount(w[..j + 1]) == VowelCount(w[..j]) + (if IsVowelSetChar(w[j]) then 1 else 0)
  {
    assert w[..j + 1][..j] == w[..j];
  }

  /** The count of vowels grows along the word. */
  lemma {:induction false} VowelCountMonotone(w: string, i: nat, j: nat)
    requires i <= j <= |w|
    ensures VowelCount(w[..i]) <= VowelCount(w[..j])
    decreases j - i
  {
    if i < j {
      VowelCountStep(w, j - 1);
      VowelCountMonotone(w, i, j - 1);
    }
  }

  /** The inner loop stops on the `n`-th vowel, or runs off the word when there are fewer. */
  lemma {:induction false} NthVowelFromCount(w: string, n: nat, j: nat)
    requires 1 <= n && j <= |w| && VowelCount(w[..j]) < n
    ensures NthVowelFrom(w, n, j).Some? ==> VowelCount(w[..NthVowelFrom(w, n, j).value]) + 1 == n
    ensures NthVowelFrom(w, n, j).None? ==> VowelCount(w) < n
    decreases |w| - j
  {
    if j == |w| {
      assert w[..j] == w;
    } else {
      VowelCountStep(w, j);
      if !(IsVowelSetChar(w[j]) && VowelCount(w[..j]) + 1 >= n) {
        NthVowelFromCount(w, n, j + 1);
      }
    }
  }

  /** Both letters of a second-vowel pair are vowels. */
  lemma PairIsVowels(x: char, y: char)
    requires SecondVowelPair(x, y)
    ensures IsVowelSetChar(x) && IsVowelSetChar(y)
  {
  }

  /** The inner loop finds the `n`-th vowel of a word that has `n` of them. */
  lemma EnoughVowels(w: string, n: nat)
    requires 1 <= n <= VowelCount(w)
    ensures NthVowelFrom(w, n, 0).Some?
  {
    assert w[..0] == [];
    NthVowelFromCount(w, n, 0);
  }

  /** A vowel at `k` makes the word count at least the vowels up to it. */
  lemma VowelAt(w: string, k: nat)
    requires k < |w| && IsVowelSetChar(w[k])
    ensures VowelCount(w) >= VowelCount(w[..k]) + 1
  {
    VowelCountStep(w, k);
    VowelCountMonotone(w, k + 1, |w|);
    assert w[..|w|] == w;
  }

  /** A word with a vowel always has the vowel its tone goes on. */
  lemma ToneVowelExists(w: string)
    requires HasBasicVowel(w)
    ensures NthVowelFrom(w, UseVowel(w), 0).Some?
  {
    if exists m :: 0 <= m < |w| - 1 && SecondVowelPair(w[m], w[m + 1]) {
      var m :| 0 <= m < |w| - 1 && SecondVowelPair(w[m], w[m + 1]);
      PairIsVowels(w[m], w[m + 1]);
      VowelCountStep(w, m);
      VowelAt(w, m + 1);
      EnoughVowels(w, 2);
    } else {
      var k :| 0 <= k < |w| && IsVowelSetChar(w[k]);
      VowelAt(w, k);
      EnoughVowels(w, 1);
    }
  }

  /**
   * The toned word: as long as the word, the chosen vowel (the first, or the
   * second after i+a/e/o/u, u+a/e/i, v/ü+e) carries the tone (a plain vowel
   * for tone 5), every other character is the same with v read as ü, and no
   * v is left.
   */
  lemma TonedWord(w: string, c: char)
    requires HasBasicVowel(w) && IsToneDigit(c)
    ensures var j := NthVowelFrom(w, UseVowel(w), 0);
      j.Some? && IsVowelSetChar(w[j.value])
      && VowelCount(w[..j.value]) + 1 == UseVowel(w)
      && var r := MarkWord(w, j.value, ApplyToneToVowel(w[j.value], ToneNumber(c)));
         |r| == |w|
         && (ToneNumber(c) <= 4 ==>
               ToneMarkedToNumber(r[j.value]) == Some(ToneNumber(c))
               && ToneMarkedToBase(r[j.value]) == Some(LowerBase(ConvertToUmlautIfV(w[j.value]))))
         && (ToneNumber(c) == 5 ==> r[j.value] == ConvertToUmlautIfV(w[j.value]))
         && (forall k :: 0 <= k < |w| && k != j.value ==> r[k] == ConvertToUmlautIfV(w[k]))
         && 'v' !in r && 'V' !in r
  {
    ToneVowelExists(w);
    var j := NthVowelFrom(w, UseVowel(w), 0).value;
    assert w[..0] == [];
    NthVowelFromCount(w, UseVowel(w), 0);
    var toned := ApplyToneToVowel(w[j], ToneNumber(c));
    var r := MarkWord(w, j, toned);
    ApplyToneToVowelCell(w[j], ToneNumber(c));
    if ToneNumber(c) <= 4 {
      VowelSetNotMarked('v');
      VowelSetNotMarked('V');
    }
    assert toned != 'v' && toned != 'V';
    assert forall k :: 0 <= k < |r| ==> r[k] != 'v' && r[k] != 'V';
  }

  // ---------------------------------------------------------------------
  // Whole inputs
  // ---------------------------------------------------------------------

  /**
   * A syllable as `toToneMarks` reads one in a single word: no digit, and
   * after its first vowel only vowels and n, g, r.
   */
  predicate SyllableShaped(w: string)
  {
    NoToneDigit(w)
    && forall i, k :: 0 <= i < k < |w| && IsVowelSetChar(w[i]) ==> IsVowelNGR(w[k])
  }

  /** `RunFrom` over a concatenation. */
  lemma {:induction false} RunFromAppend(st: MarkState, s: string, t: string, apostrophes: bool)
    ensures RunFrom(st, s + t, apostrophes) == RunFrom(RunFrom(st, s, apostrophes), t, apostrophes)
    decreases |t|
  {
    if t == [] {
      assert s + t == s;
    } else {
      assert (s + t)[..|s + t| - 1] == s + t[..|t| - 1];
      RunFromAppend(st, s, t[..|t| - 1], apostrophes);
    }
  }

  /** `RunFrom` one character further. */
  lemma RunFromSnoc(st: MarkState, s: string, c: char, apostrophes: bool)
    ensures RunFrom(st, s + [c], apostrophes) == Feed(RunFrom(st, s, apostrophes), c, apostrophes)
  {
    assert (s + [c])[..|s|] == s;
  }

  /** A syllable read from the start lands whole in the word. */
  lemma {:induction false} SyllableBuffered(w: string, apostrophes: bool)
    requires SyllableShaped(w)
    ensures RunFrom(Start, w, apostrophes) == MarkState("", w, VowelCount(w))
    decreases |w|
  {
    if w != [] {
      var init := w[..|w| - 1];
      assert SyllableShaped(init) by {
        forall i, k | 0 <= i < k < |init| && IsVowelSetChar(init[i])
          ensures IsVowelNGR(init[k])
        {
          assert init[i] == w[i] && init[k] == w[k];
        }
      }
      var c := w[|w| - 1];
      assert RunFrom(Start, init, apostrophes) == MarkState("", init, VowelCount(init)) by {
        SyllableBuffered(init, apostrophes);
      }
      assert VowelCount(init) != 0 ==> IsVowelNGR(c) by {
        if VowelCount(init) != 0 {
          var i := VowelBefore(init);
          assert IsVowelSetChar(w[i]);
        }
      }
      assert !IsToneDigit(c);
      assert RunFrom(Start, w, apostrophes) == Feed(MarkState("", init, VowelCount(init)), c, apostrophes);
      assert init + [c] == w;
    }
  }

  /** A word with vowels has one. */
  lemma {:induction false} VowelBefore(w: string) returns (i: nat)
    requires VowelCount(w) > 0
    ensures i < |w| && IsVowelSetChar(w[i])
    decreases |w|
  {
    if IsVowelSetChar(w[|w| - 1]) {
      i := |w| - 1;
    } else {
      i := VowelBefore(w[..|w| - 1]);
    }
  }

  /** Letters that all continue a syllable land whole in the word, after the tone of the last one. */
  lemma {:induction false} NgrBuffered(st: MarkState, s: string, apostrophes: bool)
    requires forall k :: 0 <= k < |s| ==> IsVowelNGR(s[k])
    ensures RunFrom(st, s, apostrophes) == MarkState(st.output, st.word + s, st.found + VowelCount(s))
    decreases |s|
  {
    if s != [] {
      NgrBuffered(st, s[..|s| - 1], apostrophes);
      assert st.word + s == (st.word + s[..|s| - 1]) + [s[|s| - 1]];
    }
  }

  /** A digit after a letter of a syllable is never a letter of one. */
  lemma NgrIsNotDigit(c: char)
    requires IsVowelNGR(c)
    ensures !IsToneDigit(c)
  {
  }

  /** `hao3` becomes `hǎo`: one numbered syllable is its toned word. */
  lemma OneSyllable(w: string, c: char, apostrophes: bool)
    requires SyllableShaped(w) && HasBasicVowel(w) && IsToneDigit(c)
    ensures var j := NthVowelFrom(w, UseVowel(w), 0);
      j.Some? && ToneMarksOf(w + [c], apostrophes) == MarkWord(w, j.value, ApplyToneToVowel(w[j.value], ToneNumber(c)))
  {
    SyllableBuffered(w, apostrophes);
    ToneVowelExists(w);
    assert (w + [c])[..|w|] == w;
  }

  /**
   * `xi1an1` becomes `xī'ān`: a second syllable made only of vowels and
   * n, g, r follows the first one with an apostrophe exactly when
   * apostrophes are on and it starts with a, o or e.
   */
  lemma {:induction false} TwoSyllables(w1: string, c1: char, w2: string, c2: char, apostrophes: bool)
    requires SyllableShaped(w1) && HasBasicVowel(w1) && IsToneDigit(c1)
    requires HasBasicVowel(w2) && IsToneDigit(c2)
    requires forall k :: 0 <= k < |w2| ==> IsVowelNGR(w2[k])
    ensures var j1 := NthVowelFrom(w1, UseVowel(w1), 0);
      var j2 := NthVowelFrom(w2, UseVowel(w2), 0);
      j1.Some? && j2.Some?
      && ToneMarksOf(w1 + [c1] + w2 + [c2], apostrophes)
         == MarkWord(w1, j1.value, ApplyToneToVowel(w1[j1.value], ToneNumber(c1)))
            + (if apostrophes && IsAoe(w2[0]) then "'" else "")
            + MarkWord(w2, j2.value, ApplyToneToVowel(w2[j2.value], ToneNumber(c2)))
  {
    var m1 := FirstSyllable(w1, c1, apostrophes);
    var s := w1 + [c1] + w2 + [c2];
    var st2 := MarkState(m1, w2, UseVowel(w1) + VowelCount(w2));
    assert RunFrom(Start, s, apostrophes) == FeedDigit(st2, c2, apostrophes) by {
      var st1 := MarkState(m1, "", UseVowel(w1));
      NgrBuffered(st1, w2, apostrophes);
      assert st1.word + w2 == w2;
      RunFromAppend(Start, w1 + [c1], w2, apostrophes);
      assert RunFrom(Start, w1 + [c1] + w2, apostrophes) == st2;
      RunFromSnoc(Start, w1 + [c1] + w2, c2, apostrophes);
      assert RunFrom(Start, s, apostrophes) == Feed(st2, c2, apostrophes);
    }
    ToneVowelExists(w2);
    var j2 := NthVowelFrom(w2, UseVowel(w2), 0).value;
    var apos := if apostrophes && IsAoe(w2[0]) then "'" else "";
    assert FeedDigit(st2, c2, apostrophes)
        == MarkState(m1 + apos + MarkWord(w2, j2, ApplyToneToVowel(w2[j2], ToneNumber(c2))), "", UseVowel(w2)) by {
      LastSyllable(m1, w2, c2, st2.found, apostrophes);
    }
  }

  /**
   * The digit closing a syllable buffered after a toned one: the apostrophe
   * depends only on the apostrophes option and on the syllable's first letter.
   */
  lemma LastSyllable(m: string, w: string, c: char, found: nat, apostrophes: bool)
    requires |m| > 0 && !IsBreak(m[|m| - 1])
    requires HasBasicVowel(w) && IsToneDigit(c)
    ensures NthVowelFrom(w, UseVowel(w), 0).Some?
    ensures var j := NthVowelFrom(w, UseVowel(w), 0).value;
      FeedDigit(MarkState(m, w, found), c, apostrophes)
      == MarkState(m + (if apostrophes && IsAoe(w[0]) then "'" else "")
                     + MarkWord(w, j, ApplyToneToVowel(w[j], ToneNumber(c))), "", UseVowel(w))
  {
    ToneVowelExists(w);
    assert NeedsApostrophe(m, w, apostrophes) == (apostrophes && IsAoe(w[0]));
    FeedDigitCases(MarkState(m, w, 0), c, apostrophes);
    FeedDigitIgnoresFound(MarkState(m, w, found), c, apostrophes);
  }

  /** `FeedDigit` does not look at the vowel count it is given. */
  lemma FeedDigitIgnoresFound(st: MarkState, c: char, apostrophes: bool)
    requires IsToneDigit(c)
    ensures FeedDigit(st, c, apostrophes) == FeedDigit(st.(found := 0), c, apostrophes)
  {
  }

  /**
   * The first syllable of `TwoSyllables`: after its digit the output is the
   * toned word, which is not empty and does not end in a break, and the
   * buffer is empty.
   */
  lemma FirstSyllable(w: string, c: char, apostrophes: bool) returns (m: string)
    requires SyllableShaped(w) && HasBasicVowel(w) && IsToneDigit(c)
    ensures NthVowelFrom(w, UseVowel(w), 0).Some?
    ensures var j := NthVowelFrom(w, UseVowel(w), 0).value;
      m == MarkWord(w, j, ApplyToneToVowel(w[j], ToneNumber(c)))
    ensures RunFrom(Start, w + [c], apostrophes) == MarkState(m, "", UseVowel(w))
    ensures |m| > 0 && !IsBreak(m[|m| - 1])
  {
    SyllableBuffered(w, apostrophes);
    ToneVowelExists(w);
    var j := NthVowelFrom(w, UseVowel(w), 0).value;
    m := MarkWord(w, j, ApplyToneToVowel(w[j], ToneNumber(c)));
    assert (w + [c])[..|w|] == w;
    FeedDigitCases(MarkState("", w, VowelCount(w)), c, apostrophes);
    FeedDigitIgnoresFound(MarkState("", w, VowelCount(w)), c, apostrophes);
    ApplyToneToVowelCell(w[j], ToneNumber(c));
    LastOfTonedWord(w, j, ApplyToneToVowel(w[j], ToneNumber(c)));
  }

  /** A toned syllable never ends in a break. */
  lemma LastOfTonedWord(w: string, j: nat, toned: char)
    requires SyllableShaped(w) && j < |w| && IsVowelSetChar(w[j])
    requires ToneMarkedToNumber(toned).Some? || toned == ConvertToUmlautIfV(w[j])
    ensures !IsBreak(MarkWord(w, j, toned)[|w| - 1])
  {
    var last := MarkWord(w, j, toned)[|w| - 1];
    if j < |w| - 1 {
      assert IsVowelNGR(w[|w| - 1]);
      NgrNotBreak(w[|w| - 1]);
    } else if ToneMarkedToNumber(toned).Some? {
      DecomposeRange(toned);
    } else {
      NgrNotBreak(w[j]);
    }
  }

  /** Vowels and n, g, r, with v read as ü, are not breaks. */
  lemma NgrNotBreak(c: char)
    requires IsVowelNGR(c)
    ensures !IsBreak(ConvertToUmlautIfV(c))
  {
  }
}
