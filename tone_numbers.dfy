/**
 * `toToneNumbers` of tone-tool.js: marked pinyin (`hǎo`) to numbered pinyin
 * (`hao3`).
 *
 * The text is cut into words (runs of `\w` characters and marked vowels)
 * and the runs between them.  A run between words, and a word the syllable
 * scanner does not cover from end to end, comes back as it is.  Every other
 * word is rebuilt syllable by syllable: the tone of its first marked vowel
 * (5 when it has none) goes after the syllable with its marks stripped, or
 * in front of a final erhua `r` when `erhuaTone` is not `after-r`.  With
 * `showNeutralTone` off, every `5` of a rebuilt word is deleted.
 */
module ToneNumbers {
  import opened Common
  import opened ToneTable
  import opened Syllables
  import opened ToneMarks

  // ---------------------------------------------------------------------
  // One syllable
  // ---------------------------------------------------------------------

  /** `extractToneNumber`: the tone of the first marked vowel, 5 when there is none. */
  function ExtractToneNumber(syllable: string): (t: nat)
    ensures 1 <= t <= 5
    decreases |syllable|
  {
    if syllable == [] then 5
    else match ToneMarkedToNumber(syllable[0])
      case Some(n) => (ReverseMapsDomain(syllable[0]); n)
      case None => ExtractToneNumber(syllable[1..])
  }

  /** One character of `stripToneFromSyllable`: a marked vowel becomes its (lower-case) base. */
  function StripChar(c: char): char
  {
    match ToneMarkedToBase(c)
    case Some(b) => b
    case None => c
  }

  /** `stripToneFromSyllable`. */
  function StripToneFromSyllable(syllable: string): (r: string)
    ensures |r| == |syllable|
  {
    seq(|syllable|, k requires 0 <= k < |syllable| => StripChar(syllable[k]))
  }

  /** The digit `toneNumber` turns into when it is appended to a string. */
  function DigitOf(t: nat): (d: char)
    requires 1 <= t <= 5
    ensures IsToneDigit(d) && ToneNumber(d) == t
  {
    ('0' as int + t) as char
  }

  /** Whether `erhuaTone` asks for the digit after the erhua `r` (the default `after-r`). */
  predicate AfterR(erhuaTone: string)
  {
    erhuaTone == "after-r"
  }

  /**
   * The numbered form of one syllable: its base, its tone digit, and, for a
   * base of two or more characters ending in `r`, the digit in front of the
   * `r` unless `erhuaTone` is `after-r`.
   */
  function SyllableToNumbers(syllable: string, erhuaTone: string): string
  {
    var toneNumber := ExtractToneNumber(syllable);
    var base := StripToneFromSyllable(syllable);
    if |base| > 1 && base[|base| - 1] == 'r' then
      if AfterR(erhuaTone) then base[..|base| - 1] + "r" + [DigitOf(toneNumber)]
      else base[..|base| - 1] + [DigitOf(toneNumber)] + "r"
    else base + [DigitOf(toneNumber)]
  }

  // ---------------------------------------------------------------------
  // One word
  // ---------------------------------------------------------------------

  /** An index of `String.prototype.slice`: negative counts from the end, then clamped to `[0, n]`. */
  function SliceIndex(x: int, n: nat): (k: nat)
    ensures k <= n
  {
    if x < 0 then (if n + x < 0 then 0 else n + x) else if x > n then n else x
  }

  /** `s.slice(a, b)`. */
  function JsSlice(s: string, a: int, b: int): string
  {
    var from := SliceIndex(a, |s|);
    var to := SliceIndex(b, |s|);
    if from < to then s[from..to] else ""
  }

  /**
   * The loop of the `words.map` callback from the `i`-th boundary on, the
   * previous syllable having ended at `last`: the text before each
   * syllable, the syllable in numbered form, and after the last one the
   * rest of the word.
   */
  function AssembleFrom(word: string, bs: seq<Span>, i: nat, last: int, erhuaTone: string): string
    requires i <= |bs|
    decreases |bs| - i
  {
    if i == |bs| then (if last < |word| then JsSlice(word, last, |word|) else "")
    else
      var b := bs[i];
      (if b.start > last then JsSlice(word, last, b.start) else "")
      + SyllableToNumbers(JsSlice(word, b.start, b.end), erhuaTone)
      + AssembleFrom(word, bs, i + 1, b.end, erhuaTone)
  }

  /** The first of ordered spans, and the rest. */
  lemma OrderedAt(bs: seq<Span>, i: nat, lo: nat, hi: nat)
    requires i < |bs| && Ordered(bs[i..], lo, hi)
    ensures lo <= bs[i].start < bs[i].end <= hi && Ordered(bs[i + 1..], bs[i].end, hi)
  {
    assert bs[i..][1..] == bs[i + 1..];
  }

  /** `wordPattern`: one or more `\w` characters and marked vowels. */
  predicate IsWordChar(c: char)
  {
    IsJsWordChar(c) || IsToneMarked(c)
  }

  predicate IsWordPiece(s: string)
  {
    |s| > 0 && forall k :: 0 <= k < |s| ==> IsWordChar(s[k])
  }

  /** The callback of the source's `words.map`: one piece of the split text, converted. */
  function ConvertPiece(word: string, erhuaTone: string, showNeutralTone: bool): string
  {
    if !IsWordPiece(word) || IsNonPinyinWord(word) then word
    else
      var result := AssembleFrom(word, Boundaries(word), 0, 0, erhuaTone);
      if showNeutralTone then result else RemoveChar(result, '5')
  }

  // ---------------------------------------------------------------------
  // The text
  // ---------------------------------------------------------------------

  /** The end of the run of word characters, or of other characters, that starts at `i`. */
  function RunEnd(text: string, i: nat): (e: nat)
    requires i < |text|
    ensures i < e <= |text|
    ensures forall m :: i <= m < e ==> IsWordChar(text[m]) == IsWordChar(text[i])
    ensures e < |text| ==> IsWordChar(text[e]) != IsWordChar(text[i])
    decreases |text| - i
  {
    if i + 1 < |text| && IsWordChar(text[i + 1]) == IsWordChar(text[i]) then RunEnd(text, i + 1)
    else i + 1
  }

  /**
   * `text.split(wordSplitPattern)` from `i` on, up to joining: the maximal
   * runs of word characters, and the text between two of them as one piece.
   * The source may cut that text into several pieces, with empty words
   * between them; they come back unchanged and join to the same text.
   */
  function SplitFrom(text: string, i: nat): seq<string>
    requires i <= |text|
    decreases |text| - i
  {
    if i == |text| then [] else [text[i..RunEnd(text, i)]] + SplitFrom(text, RunEnd(text, i))
  }

  function Split(text: string): seq<string>
  {
    SplitFrom(text, 0)
  }

  /** The converted pieces, joined. */
  function ConvertAll(pieces: seq<string>, erhuaTone: string, showNeutralTone: bool): string
  {
    if pieces == [] then ""
    else ConvertAll(pieces[..|pieces| - 1], erhuaTone, showNeutralTone)
         + ConvertPiece(pieces[|pieces| - 1], erhuaTone, showNeutralTone)
  }

  /** `toToneNumbers(text, { erhuaTone, showNeutralTone })`. */
  function ToneNumbersOf(text: string, erhuaTone: string, showNeutralTone: bool): string
  {
    if text == [] then text else ConvertAll(Split(text), erhuaTone, showNeutralTone)
  }

  // ---------------------------------------------------------------------
  // The source's loops
  // ---------------------------------------------------------------------

  /** `toToneNumbers`: convert each piece of the split text and join them. */
  method ToToneNumbers(text: string, erhuaTone: string, showNeutralTone: bool) returns (r: string)
    ensures r == ToneNumbersOf(text, erhuaTone, showNeutralTone)
  {
    var words := Split(text);
    if text == [] {
      return text;
    }
    r := "";
    var i := 0;
    while i < |words|
      invariant i <= |words|
      invariant r == ConvertAll(words[..i], erhuaTone, showNeutralTone)
    {
      var converted := ConvertWord(words[i], erhuaTone, showNeutralTone);
      ConvertAllStep(words, i, erhuaTone, showNeutralTone);
      r := r + converted;
      i := i + 1;
    }
    assert words[..i] == words;
  }

  lemma ConvertAllStep(pieces: seq<string>, i: nat, erhuaTone: string, showNeutralTone: bool)
    requires i < |pieces|
    ensures ConvertAll(pieces[..i + 1], erhuaTone, showNeutralTone)
      == ConvertAll(pieces[..i], erhuaTone, showNeutralTone) + ConvertPiece(pieces[i], erhuaTone, showNeutralTone)
  {
    assert pieces[..i + 1][..i] == pieces[..i];
  }

  /** The callback of `words.map`, with its loop over the syllable boundaries. */
  method ConvertWord(word: string, erhuaTone: string, showNeutralTone: bool) returns (result: string)
    ensures result == ConvertPiece(word, erhuaTone, showNeutralTone)
  {
    if !IsWordPiece(word) {
      return word;
    }
    if IsNonPinyinWord(word) {
      return word;
    }
    var boundaries := FindSyllableBoundaries(word);
    result := AssembleWord(word, boundaries, erhuaTone);
    if !showNeutralTone {
      result := RemoveChar(result, '5');
    }
  }

  /**
   * The loop of the `words.map` callback over the boundaries of a pinyin
   * word: the text before each syllable, the syllable in numbered form, and
   * after the last one the rest of the word.
   */
  method AssembleWord(word: string, boundaries: seq<Span>, erhuaTone: string) returns (result: string)
    ensures result == AssembleFrom(word, boundaries, 0, 0, erhuaTone)
  {
    result := "";
    var lastBoundaryEnd := 0;
    var i := 0;
    ghost var whole := AssembleFrom(word, boundaries, 0, 0, erhuaTone);
    assert result + whole == whole;
    while i < |boundaries|
      invariant i <= |boundaries|
      invariant result + AssembleFrom(word, boundaries, i, lastBoundaryEnd, erhuaTone) == whole
    {
      ghost var before := result;
      result := AssembleRound(word, boundaries[i], lastBoundaryEnd, erhuaTone, result);
      AssembleStep(word, boundaries, i, lastBoundaryEnd, erhuaTone, before, result);
      lastBoundaryEnd := boundaries[i].end;
      i := i + 1;
    }
    ghost var rest := AssembleFrom(word, boundaries, i, lastBoundaryEnd, erhuaTone);
    if lastBoundaryEnd < |word| {
      assert rest == JsSlice(word, lastBoundaryEnd, |word|);
      result := result + JsSlice(word, lastBoundaryEnd, |word|);
    } else {
      assert rest == "";
      assert result + "" == result;
    }
  }

  /** One round of the boundary loop: the text since the previous syllable, then this syllable numbered. */
  method AssembleRound(word: string, boundary: Span, lastBoundaryEnd: int, erhuaTone: string, result: string)
    returns (extended: string)
    ensures extended == (if boundary.start > lastBoundaryEnd then result + JsSlice(word, lastBoundaryEnd, boundary.start) else result)
      + SyllableToNumbers(JsSlice(word, boundary.start, boundary.end), erhuaTone)
  {
    extended := result;
    if boundary.start > lastBoundaryEnd {
      extended := extended + JsSlice(word, lastBoundaryEnd, boundary.start);
    }
    var syllable := JsSlice(word, boundary.start, boundary.end);
    var numbered := NumberSyllable(syllable, erhuaTone);
    extended := extended + numbered;
  }

  /** The body of the boundary loop for one syllable: its base and its tone digit, placed around an erhua `r`. */
  method NumberSyllable(syllable: string, erhuaTone: string) returns (numbered: string)
    ensures numbered == SyllableToNumbers(syllable, erhuaTone)
  {
    var toneNumber := ExtractToneNumber(syllable);
    var baseSyllable := StripToneFromSyllable(syllable);
    if |baseSyllable| > 0 && baseSyllable[|baseSyllable| - 1] == 'r' && |baseSyllable| > 1 {
      var baseWithoutR := baseSyllable[..|baseSyllable| - 1];
      if AfterR(erhuaTone) {
        numbered := baseWithoutR + "r" + [DigitOf(toneNumber)];
      } else {
        numbered := baseWithoutR + [DigitOf(toneNumber)] + "r";
      }
    } else {
      numbered := baseSyllable + [DigitOf(toneNumber)];
    }
  }

  /** One round of the boundary loop, as `AssembleFrom` unfolds. */
  lemma AssembleStep(word: string, bs: seq<Span>, i: nat, last: int, erhuaTone: string, before: string, after: string)
    requires i < |bs|
    requires after == (if bs[i].start > last then before + JsSlice(word, last, bs[i].start) else before)
      + SyllableToNumbers(JsSlice(word, bs[i].start, bs[i].end), erhuaTone)
    ensures after + AssembleFrom(word, bs, i + 1, bs[i].end, erhuaTone)
      == before + AssembleFrom(word, bs, i, last, erhuaTone)
  {
    var gap := if bs[i].start > last then JsSlice(word, last, bs[i].start) else "";
    var syllable := SyllableToNumbers(JsSlice(word, bs[i].start, bs[i].end), erhuaTone);
    var rest := AssembleFrom(word, bs, i + 1, bs[i].end, erhuaTone);
    assert AssembleFrom(word, bs, i, last, erhuaTone) == gap + syllable + rest;
    ConcatAssoc(before, gap, syllable, rest);
    assert before + gap == (if bs[i].start > last then before + JsSlice(word, last, bs[i].start) else before);
  }

  // ---------------------------------------------------------------------
  // Properties of one syllable
  // ---------------------------------------------------------------------

  /** The tone is that of the first marked vowel ... */
  lemma {:induction false} FirstMarkDecides(syllable: string, k: nat)
    requires k < |syllable| && IsToneMarked(syllable[k])
    requires forall j :: 0 <= j < k ==> !IsToneMarked(syllable[j])
    ensures ToneMarkedToNumber(syllable[k]).Some?
    ensures ExtractToneNumber(syllable) == ToneMarkedToNumber(syllable[k]).value
    decreases k
  {
    if k > 0 {
      assert !IsToneMarked(syllable[0]);
      FirstMarkDecides(syllable[1..], k - 1);
    }
  }

  /** ... and 5, the neutral tone, when there is none. */
  lemma {:induction false} NoMarkIsNeutral(syllable: string)
    requires forall j :: 0 <= j < |syllable| ==> !IsToneMarked(syllable[j])
    ensures ExtractToneNumber(syllable) == 5
    decreases |syllable|
  {
    if syllable != [] {
      assert !IsToneMarked(syllable[0]);
      NoMarkIsNeutral(syllable[1..]);
    }
  }

  /**
   * Stripping keeps the length, leaves every unmarked character alone, puts
   * the lower-case base in place of a marked vowel, and leaves no mark.
   */
  lemma StripRemovesMarks(syllable: string)
    ensures var r := StripToneFromSyllable(syllable);
      && (forall k :: 0 <= k < |r| && !IsToneMarked(syllable[k]) ==> r[k] == syllable[k])
      && (forall k :: 0 <= k < |r| && IsToneMarked(syllable[k]) ==>
            ToneMarkedToBase(syllable[k]) == Some(r[k]) && IsBaseVowel(r[k]))
      && (forall k :: 0 <= k < |r| ==> !IsToneMarked(r[k]))
  {
    var r := StripToneFromSyllable(syllable);
    forall k | 0 <= k < |r|
      ensures !IsToneMarked(syllable[k]) ==> r[k] == syllable[k]
      ensures IsToneMarked(syllable[k]) ==> ToneMarkedToBase(syllable[k]) == Some(r[k]) && IsBaseVowel(r[k])
      ensures !IsToneMarked(r[k])
    {
      StripCharOf(syllable[k]);
    }
  }

  /** `StripChar` one character at a time. */
  lemma StripCharOf(c: char)
    ensures !IsToneMarked(c) ==> StripChar(c) == c
    ensures IsToneMarked(c) ==> ToneMarkedToBase(c) == Some(StripChar(c)) && IsBaseVowel(StripChar(c))
    ensures !IsToneMarked(StripChar(c))
  {
    if IsToneMarked(c) {
      DecomposeSound(c);
      BaseVowelNotMarked(StripChar(c));
    }
  }

  /** A stripped syllable has the neutral tone. */
  lemma StrippedIsNeutral(syllable: string)
    ensures ExtractToneNumber(StripToneFromSyllable(syllable)) == 5
  {
    StripRemovesMarks(syllable);
    NoMarkIsNeutral(StripToneFromSyllable(syllable));
  }

  /**
   * Where the digit goes: after the stripped syllable, except that a
   * stripped syllable of two or more characters ending in `r` takes it in
   * front of the `r` when `erhuaTone` is not `after-r`.
   */
  lemma ErhuaPlacement(syllable: string, erhuaTone: string)
    ensures var base := StripToneFromSyllable(syllable);
      var d := DigitOf(ExtractToneNumber(syllable));
      var r := SyllableToNumbers(syllable, erhuaTone);
      && (AfterR(erhuaTone) || !(|base| > 1 && base[|base| - 1] == 'r') ==> r == base + [d])
      && (!AfterR(erhuaTone) && |base| > 1 && base[|base| - 1] == 'r' ==>
            r == base[..|base| - 1] + [d] + "r" && |r| == |base| + 1)
  {
    var base := StripToneFromSyllable(syllable);
    if |base| > 1 && base[|base| - 1] == 'r' {
      assert base[..|base| - 1] + "r" == base;
    }
  }

  /** `s` with every v read as ü. */
  function Umlauted(s: string): (r: string)
    ensures |r| == |s|
  {
    seq(|s|, k requires 0 <= k < |s| => ConvertToUmlautIfV(s[k]))
  }

  /** A lower-case vowel of `vowelSet`. */
  predicate IsSmallVowel(c: char)
  {
    c == 'a' || c == 'e' || c == 'i' || c == 'o' || c == 'u' || c == 'v' || c == 'ü'
  }

  /**
   * Numbers, marks, numbers: the word `toToneMarks` writes for a syllable
   * whose chosen vowel is lower case gives back, through
   * `stripToneFromSyllable` and `extractToneNumber`, the syllable (v read as
   * ü) and its tone.
   */
  lemma MarkedSyllableBack(w: string, j: nat, t: nat)
    requires j < |w| && IsSmallVowel(w[j]) && 1 <= t <= 5
    requires forall k :: 0 <= k < |w| ==> !IsToneMarked(w[k])
    ensures var m := MarkWord(w, j, ApplyToneToVowel(w[j], t));
      StripToneFromSyllable(m) == Umlauted(w) && ExtractToneNumber(m) == t
  {
    var toned := ApplyToneToVowel(w[j], t);
    var m := MarkWord(w, j, toned);
    ApplyToneToVowelCell(w[j], t);
    assert IsVowelSetChar(w[j]);
    forall k | 0 <= k < |w| && k != j
      ensures !IsToneMarked(m[k]) && StripChar(m[k]) == ConvertToUmlautIfV(w[k])
    {
      if w[k] == 'v' || w[k] == 'V' {
        VowelSetNotMarked(ConvertToUmlautIfV(w[k]));
      }
      StripCharOf(m[k]);
    }
    if t <= 4 {
      assert StripChar(m[j]) == ConvertToUmlautIfV(w[j]);
      FirstMarkDecides(m, j);
    } else {
      VowelSetNotMarked(ConvertToUmlautIfV(w[j]));
      StripCharOf(m[j]);
      NoMarkIsNeutral(m);
    }
    assert StripToneFromSyllable(m) == Umlauted(w);
  }

  /**
   * `toToneMarks` then the syllable step of `toToneNumbers`: a numbered
   * syllable in lower case (`lve4`) comes back with its tone and with v read
   * as ü (`lüe`, 4).
   */
  lemma SyllableRoundTrip(w: string, c: char)
    requires SyllableShaped(w) && HasBasicVowel(w) && IsToneDigit(c)
    requires forall k :: 0 <= k < |w| ==> !IsToneMarked(w[k])
    requires forall k :: 0 <= k < |w| && IsVowelSetChar(w[k]) ==> IsSmallVowel(w[k])
    ensures var m := ToneMarksOf(w + [c], true);
      StripToneFromSyllable(m) == Umlauted(w) && ExtractToneNumber(m) == ToneNumber(c)
  {
    OneSyllable(w, c, true);
    var j := NthVowelFrom(w, UseVowel(w), 0).value;
    MarkedSyllableBack(w, j, ToneNumber(c));
  }

  // ---------------------------------------------------------------------
  // Properties of words and texts
  // ---------------------------------------------------------------------

  /** No word character in `s`. */
  predicate IsGapPiece(s: string)
  {
    |s| > 0 && forall k :: 0 <= k < |s| ==> !IsWordChar(s[k])
  }

  /**
   * The split loses nothing: its pieces joined give the text back, and each
   * piece is a word or a run of other characters.
   */
  lemma {:induction false} SplitFromJoins(text: string, i: nat)
    requires i <= |text|
    ensures Concat(SplitFrom(text, i)) == text[i..]
    ensures forall k :: 0 <= k < |SplitFrom(text, i)| ==>
      IsWordPiece(SplitFrom(text, i)[k]) || IsGapPiece(SplitFrom(text, i)[k])
    decreases |text| - i
  {
    if i < |text| {
      var e := RunEnd(text, i);
      var piece := text[i..e];
      SplitFromJoins(text, e);
      ConcatCons(piece, SplitFrom(text, e));
      assert text[i..] == piece + text[e..];
      assert IsWordPiece(piece) || IsGapPiece(piece) by {
        if IsWordChar(text[i]) {
          assert forall k :: 0 <= k < |piece| ==> piece[k] == text[i + k];
        } else {
          assert forall k :: 0 <= k < |piece| ==> piece[k] == text[i + k];
        }
      }
      forall k | 0 <= k < |SplitFrom(text, i)|
        ensures IsWordPiece(SplitFrom(text, i)[k]) || IsGapPiece(SplitFrom(text, i)[k])
      {
        if k > 0 {
          assert SplitFrom(text, i)[k] == SplitFrom(text, e)[k - 1];
        }
      }
    }
  }

  lemma SplitJoins(text: string)
    ensures Concat(Split(text)) == text
    ensures forall k :: 0 <= k < |Split(text)| ==> IsWordPiece(Split(text)[k]) || IsGapPiece(Split(text)[k])
  {
    SplitFromJoins(text, 0);
  }

  /** Pieces the callback returns as they are join to what they were. */
  lemma {:induction false} ConvertAllKept(pieces: seq<string>, erhuaTone: string, showNeutralTone: bool)
    requires forall k :: 0 <= k < |pieces| ==> !IsWordPiece(pieces[k]) || IsNonPinyinWord(pieces[k])
    ensures ConvertAll(pieces, erhuaTone, showNeutralTone) == Concat(pieces)
    decreases |pieces|
  {
    if pieces != [] {
      ConvertAllKept(pieces[..|pieces| - 1], erhuaTone, showNeutralTone);
    }
  }

  /**
   * A text in which no word is pinyin, the empty text among them, comes
   * back unchanged: runs between words and words the syllables do not cover
   * are copied.
   */
  lemma UnchangedWithoutPinyin(text: string, erhuaTone: string, showNeutralTone: bool)
    requires forall k :: 0 <= k < |Split(text)| ==> !IsWordPiece(Split(text)[k]) || IsNonPinyinWord(Split(text)[k])
    ensures ToneNumbersOf(text, erhuaTone, showNeutralTone) == text
  {
    if text != [] {
      ConvertAllKept(Split(text), erhuaTone, showNeutralTone);
      SplitJoins(text);
    }
  }

  /** The numbered syllables of the spans from the `i`-th on, one after the other. */
  function SyllablesFrom(word: string, bs: seq<Span>, i: nat, erhuaTone: string): string
    requires i <= |bs|
    decreases |bs| - i
  {
    if i == |bs| then ""
    else SyllableToNumbers(JsSlice(word, bs[i].start, bs[i].end), erhuaTone) + SyllablesFrom(word, bs, i + 1, erhuaTone)
  }

  /** Spans that tile the rest of the word leave no text between or after them. */
  lemma {:induction false} TiledAssembly(word: string, bs: seq<Span>, i: nat, last: nat, erhuaTone: string)
    requires i <= |bs| && last <= |word|
    requires Ordered(bs[i..], last, |word|) && Tiles(bs[i..], last, |word|)
    ensures AssembleFrom(word, bs, i, last, erhuaTone) == SyllablesFrom(word, bs, i, erhuaTone)
    decreases |bs| - i
  {
    if i < |bs| {
      OrderedAt(bs, i, last, |word|);
      TilesAt(bs, i, last, |word|);
      TiledAssembly(word, bs, i + 1, bs[i].end, erhuaTone);
      var syllable := SyllableToNumbers(JsSlice(word, bs[i].start, bs[i].end), erhuaTone);
      assert AssembleFrom(word, bs, i, last, erhuaTone)
        == "" + syllable + AssembleFrom(word, bs, i + 1, bs[i].end, erhuaTone);
      assert "" + syllable == syllable;
    } else {
      assert bs[i..] == [];
    }
  }

  /** The first of tiling spans starts where the tiling does. */
  lemma TilesAt(bs: seq<Span>, i: nat, lo: nat, hi: nat)
    requires i < |bs| && Tiles(bs[i..], lo, hi)
    ensures bs[i].start == lo && Tiles(bs[i + 1..], bs[i].end, hi)
  {
    assert bs[i..][1..] == bs[i + 1..];
  }

  /**
   * A pinyin word is the concatenation of its syllables in numbered form
   * (with `showNeutralTone` on) ...
   */
  lemma PinyinWordBySyllables(word: string, erhuaTone: string)
    requires IsWordPiece(word) && !IsNonPinyinWord(word)
    ensures ConvertPiece(word, erhuaTone, true) == SyllablesFrom(word, Boundaries(word), 0, erhuaTone)
  {
    PinyinIffTiled(word);
    assert Boundaries(word)[0..] == Boundaries(word);
    TiledAssembly(word, Boundaries(word), 0, 0, erhuaTone);
  }

  /**
   * ... and with `showNeutralTone` off the same text without its `5`s,
   * every other character (the digits 1 to 4 among them) kept as often as
   * it occurs.
   */
  lemma NeutralToneHidden(word: string, erhuaTone: string, d: char)
    requires IsWordPiece(word) && !IsNonPinyinWord(word) && d != '5'
    ensures ConvertPiece(word, erhuaTone, false) == RemoveChar(ConvertPiece(word, erhuaTone, true), '5')
    ensures '5' !in ConvertPiece(word, erhuaTone, false)
    ensures multiset(ConvertPiece(word, erhuaTone, false))[d] == multiset(ConvertPiece(word, erhuaTone, true))[d]
  {
    RemoveCharKeepsOthers(ConvertPiece(word, erhuaTone, true), '5', d);
  }
}
