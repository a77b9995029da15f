/**
 * The tone table of tone-tool.js and the character classes built around it.
 *
 * `toneMarkTable` maps each of the twelve base vowels (a e i o u ü and their
 * capitals) to its four tone-marked forms, tone 1 first.  The two reverse maps
 * `toneMarkedToBase` and `toneMarkedToNumber` record, for every cell, its key
 * (lower-cased) and its column + 1; here both are read off `Decompose`, which
 * names the cell a character occupies.
 */
module ToneTable {
  import opened Common

  /** `toneMarkTable[v]`: the marked forms of base vowel `v`, tones 1 to 4. */
  function ToneMarks(v: char): (marks: string)
  {
    match v
    case 'a' => "āáǎà"
    case 'e' => "ēéěè"
    case 'i' => "īíǐì"
    case 'o' => "ōóǒò"
    case 'u' => "ūúǔù"
    case 'ü' => "ǖǘǚǜ"
    case 'A' => "ĀÁǍÀ"
    case 'E' => "ĒÉĚÈ"
    case 'I' => "ĪÍǏÌ"
    case 'O' => "ŌÓǑÒ"
    case 'U' => "ŪÚǓÙ"
    case 'Ü' => "ǕǗǙǛ"
    case _ => ""
  }

  /** The keys of `toneMarkTable`. */
  predicate IsBaseVowel(v: char) { ToneMarks(v) != "" }

  /**
   * The key and the tone index (0 to 3) of the cell holding `c`, or `None`
   * when `c` is in no cell.  Cells are listed by code point so that each
   * comparison is one of integers.
   */
  function Decompose(c: char): Option<(char, nat)>
  {
    match c as int
    case 0xC0 => Some(('A', 3))  // À
    case 0xC1 => Some(('A', 1))  // Á
    case 0xC8 => Some(('E', 3))  // È
    case 0xC9 => Some(('E', 1))  // É
    case 0xCC => Some(('I', 3))  // Ì
    case 0xCD => Some(('I', 1))  // Í
    case 0xD2 => Some(('O', 3))  // Ò
    case 0xD3 => Some(('O', 1))  // Ó
    case 0xD9 => Some(('U', 3))  // Ù
    case 0xDA => Some(('U', 1))  // Ú
    case 0xE0 => Some(('a', 3))  // à
    case 0xE1 => Some(('a', 1))  // á
    case 0xE8 => Some(('e', 3))  // è
    case 0xE9 => Some(('e', 1))  // é
    case 0xEC => Some(('i', 3))  // ì
    case 0xED => Some(('i', 1))  // í
    case 0xF2 => Some(('o', 3))  // ò
    case 0xF3 => Some(('o', 1))  // ó
    case 0xF9 => Some(('u', 3))  // ù
    case 0xFA => Some(('u', 1))  // ú
    case 0x100 => Some(('A', 0))  // Ā
    case 0x101 => Some(('a', 0))  // ā
    case 0x112 => Some(('E', 0))  // Ē
    case 0x113 => Some(('e', 0))  // ē
    case 0x11A => Some(('E', 2))  // Ě
    case 0x11B => Some(('e', 2))  // ě
    case 0x12A => Some(('I', 0))  // Ī
    case 0x12B => Some(('i', 0))  // ī
    case 0x14C => Some(('O', 0))  // Ō
    case 0x14D => Some(('o', 0))  // ō
    case 0x16A => Some(('U', 0))  // Ū
    case 0x16B => Some(('u', 0))  // ū
    case 0x1CD => Some(('A', 2))  // Ǎ
    case 0x1CE => Some(('a', 2))  // ǎ
    case 0x1CF => Some(('I', 2))  // Ǐ
    case 0x1D0 => Some(('i', 2))  // ǐ
    case 0x1D1 => Some(('O', 2))  // Ǒ
    case 0x1D2 => Some(('o', 2))  // ǒ
    case 0x1D3 => Some(('U', 2))  // Ǔ
    case 0x1D4 => Some(('u', 2))  // ǔ
    case 0x1D5 => Some(('Ü', 0))  // Ǖ
    case 0x1D6 => Some(('ü', 0))  // ǖ
    case 0x1D7 => Some(('Ü', 1))  // Ǘ
    case 0x1D8 => Some(('ü', 1))  // ǘ
    case 0x1D9 => Some(('Ü', 2))  // Ǚ
    case 0x1DA => Some(('ü', 2))  // ǚ
    case 0x1DB => Some(('Ü', 3))  // Ǜ
    case 0x1DC => Some(('ü', 3))  // ǜ
    case _ => None
  }

  lemma RowA()
    ensures ToneMarks('a') == "āáǎà"
    ensures Decompose('ā') == Some(('a', 0))
    ensures Decompose('á') == Some(('a', 1))
    ensures Decompose('ǎ') == Some(('a', 2))
    ensures Decompose('à') == Some(('a', 3))
  {
  }

  lemma RowE()
    ensures ToneMarks('e') == "ēéěè"
    ensures Decompose('ē') == Some(('e', 0))
    ensures Decompose('é') == Some(('e', 1))
    ensures Decompose('ě') == Some(('e', 2))
    ensures Decompose('è') == Some(('e', 3))
  {
  }

  lemma RowI()
    ensures ToneMarks('i') == "īíǐì"
    ensures Decompose('ī') == Some(('i', 0))
    ensures Decompose('í') == Some(('i', 1))
    ensures Decompose('ǐ') == Some(('i', 2))
    ensures Decompose('ì') == Some(('i', 3))
  {
  }

  lemma RowO()
    ensures ToneMarks('o') == "ōóǒò"
    ensures Decompose('ō') == Some(('o', 0))
    ensures Decompose('ó') == Some(('o', 1))
    ensures Decompose('ǒ') == Some(('o', 2))
    ensures Decompose('ò') == Some(('o', 3))
  {
  }

  lemma RowU()
    ensures ToneMarks('u') == "ūúǔù"
    ensures Decompose('ū') == Some(('u', 0))
    ensures Decompose('ú') == Some(('u', 1))
    ensures Decompose('ǔ') == Some(('u', 2))
    ensures Decompose('ù') == Some(('u', 3))
  {
  }

  lemma RowUmlaut()
    ensures ToneMarks('ü') == "ǖǘǚǜ"
    ensures Decompose('ǖ') == Some(('ü', 0))
    ensures Decompose('ǘ') == Some(('ü', 1))
    ensures Decompose('ǚ') == Some(('ü', 2))
    ensures Decompose('ǜ') == Some(('ü', 3))
  {
  }

  lemma RowCapitalA()
    ensures ToneMarks('A') == "ĀÁǍÀ"
    ensures Decompose('Ā') == Some(('A', 0))
    ensures Decompose('Á') == Some(('A', 1))
    ensures Decompose('Ǎ') == Some(('A', 2))
    ensures Decompose('À') == Some(('A', 3))
  {
  }

  lemma RowCapitalE()
    ensures ToneMarks('E') == "ĒÉĚÈ"
    ensures Decompose('Ē') == Some(('E', 0))
    ensures Decompose('É') == Some(('E', 1))
    ensures Decompose('Ě') == Some(('E', 2))
    ensures Decompose('È') == Some(('E', 3))
  {
  }

  lemma RowCapitalI()
    ensures ToneMarks('I') == "ĪÍǏÌ"
    ensures Decompose('Ī') == Some(('I', 0))
    ensures Decompose('Í') == Some(('I', 1))
    ensures Decompose('Ǐ') == Some(('I', 2))
    ensures Decompose('Ì') == Some(('I', 3))
  {
  }

  lemma RowCapitalO()
    ensures ToneMarks('O') == "ŌÓǑÒ"
    ensures Decompose('Ō') == Some(('O', 0))
    ensures Decompose('Ó') == Some(('O', 1))
    ensures Decompose('Ǒ') == Some(('O', 2))
    ensures Decompose('Ò') == Some(('O', 3))
  {
  }

  lemma RowCapitalU()
    ensures ToneMarks('U') == "ŪÚǓÙ"
    ensures Decompose('Ū') == Some(('U', 0))
    ensures Decompose('Ú') == Some(('U', 1))
    ensures Decompose('Ǔ') == Some(('U', 2))
    ensures Decompose('Ù') == Some(('U', 3))
  {
  }

  lemma RowCapitalUmlaut()
    ensures ToneMarks('Ü') == "ǕǗǙǛ"
    ensures Decompose('Ǖ') == Some(('Ü', 0))
    ensures Decompose('Ǘ') == Some(('Ü', 1))
    ensures Decompose('Ǚ') == Some(('Ü', 2))
    ensures Decompose('Ǜ') == Some(('Ü', 3))
  {
  }

  /** Every cell of the table decomposes back to its own key and column. */
  lemma DecomposeCell(v: char, k: nat)
    requires IsBaseVowel(v) && k < 4
    ensures |ToneMarks(v)| == 4
    ensures Decompose(ToneMarks(v)[k]) == Some((v, k))
  {
    if v == 'a' { RowA(); } else if v == 'e' { RowE(); } else if v == 'i' { RowI(); }
    else if v == 'o' { RowO(); } else if v == 'u' { RowU(); } else if v == 'ü' { RowUmlaut(); }
    else if v == 'A' { RowCapitalA(); } else if v == 'E' { RowCapitalE(); }
    else if v == 'I' { RowCapitalI(); } else if v == 'O' { RowCapitalO(); }
    else if v == 'U' { RowCapitalU(); } else { RowCapitalUmlaut(); }
  }

  /** Whatever `Decompose` names is a cell of the table holding `c`. */
  lemma DecomposeSound(c: char)
    requires Decompose(c).Some?
    ensures IsBaseVowel(Decompose(c).value.0) && Decompose(c).value.1 < 4
    ensures |ToneMarks(Decompose(c).value.0)| == 4
    ensures ToneMarks(Decompose(c).value.0)[Decompose(c).value.1] == c
  {
    if c as int < 0x100 {
      DecomposeSoundLatin1(c);
    } else if c as int < 0x180 {
      DecomposeSoundExtendedA(c);
    } else {
      DecomposeSoundExtendedB(c);
    }
  }

  /** The marked vowels lie between U+00C0 and U+01DC. */
  lemma DecomposeRange(c: char)
    requires Decompose(c).Some?
    ensures 0xC0 <= c as int <= 0x1DC
  {
  }

  lemma DecomposeSoundLatin1(c: char)
    requires c as int < 0x100 && Decompose(c).Some?
    ensures IsBaseVowel(Decompose(c).value.0) && Decompose(c).value.1 < 4
    ensures |ToneMarks(Decompose(c).value.0)| == 4
    ensures ToneMarks(Decompose(c).value.0)[Decompose(c).value.1] == c
  {
  }

  lemma DecomposeSoundExtendedA(c: char)
    requires 0x100 <= c as int < 0x180 && Decompose(c).Some?
    ensures IsBaseVowel(Decompose(c).value.0) && Decompose(c).value.1 < 4
    ensures |ToneMarks(Decompose(c).value.0)| == 4
    ensures ToneMarks(Decompose(c).value.0)[Decompose(c).value.1] == c
  {
  }

  lemma DecomposeSoundExtendedB(c: char)
    requires 0x180 <= c as int && Decompose(c).Some?
    ensures IsBaseVowel(Decompose(c).value.0) && Decompose(c).value.1 < 4
    ensures |ToneMarks(Decompose(c).value.0)| == 4
    ensures ToneMarks(Decompose(c).value.0)[Decompose(c).value.1] == c
  {
  }

  /** `baseVowel.toLowerCase()` for the keys of the table. */
  function LowerBase(v: char): (w: char)
    requires IsBaseVowel(v)
    ensures IsBaseVowel(w) && (w == v || w as int == v as int + 32)
  {
    match v
    case 'A' => 'a'
    case 'E' => 'e'
    case 'I' => 'i'
    case 'O' => 'o'
    case 'U' => 'u'
    case 'Ü' => 'ü'
    case _ => v
  }

  /** `toneMarkedToBase[c]`: the base vowel of a marked vowel, lower-cased. */
  function ToneMarkedToBase(c: char): Option<char>
  {
    match Decompose(c)
    case Some((v, _)) => if IsBaseVowel(v) then Some(LowerBase(v)) else None
    case None => None
  }

  /** `toneMarkedToNumber[c]`: the tone (1 to 4) of a marked vowel. */
  function ToneMarkedToNumber(c: char): Option<nat>
  {
    match Decompose(c)
    case Some((_, k)) => Some(k + 1)
    case None => None
  }

  /**
   * The reverse maps undo the table: the mark in row `v`, column `k` has the
   * lower-cased `v` as its base and `k + 1` as its tone.
   */
  lemma ReverseMapsOfCell(v: char, k: nat)
    requires IsBaseVowel(v) && k < 4
    ensures |ToneMarks(v)| == 4
    ensures ToneMarkedToBase(ToneMarks(v)[k]) == Some(LowerBase(v))
    ensures ToneMarkedToNumber(ToneMarks(v)[k]) == Some(k + 1)
  {
    DecomposeCell(v, k);
  }

  /** The 48 cells of the table are pairwise distinct characters. */
  lemma TableInjective(v: char, k: nat, w: char, j: nat)
    requires IsBaseVowel(v) && k < 4 && IsBaseVowel(w) && j < 4
    requires |ToneMarks(v)| == 4 && |ToneMarks(w)| == 4
    requires ToneMarks(v)[k] == ToneMarks(w)[j]
    ensures v == w && k == j
  {
    DecomposeCell(v, k);
    DecomposeCell(w, j);
  }

  /** The two reverse maps have the same keys: the cells of the table. */
  lemma ReverseMapsDomain(c: char)
    ensures ToneMarkedToBase(c).Some? <==> ToneMarkedToNumber(c).Some?
    ensures ToneMarkedToNumber(c).Some? ==> 1 <= ToneMarkedToNumber(c).value <= 4
  {
    if Decompose(c).Some? {
      DecomposeSound(c);
    }
  }

  // Character classes of tone-tool.js.

  /** `vowelSet` (and the `basicVowels` class): unmarked vowels, v standing for ü. */
  predicate IsVowelSetChar(c: char)
  {
    c == 'a' || c == 'e' || c == 'i' || c == 'o' || c == 'u' || c == 'v' || c == 'ü'
    || c == 'A' || c == 'E' || c == 'I' || c == 'O' || c == 'U' || c == 'V' || c == 'Ü'
  }

  /**
   * The `toneMarkedVowels` class.  The source spells it out as a string of
   * the 48 cells of the table; here it is the table's image.
   */
  predicate IsToneMarked(c: char) { Decompose(c).Some? }

  /** The `vowels` class: unmarked and marked vowels. */
  predicate IsVowel(c: char) { IsVowelSetChar(c) || IsToneMarked(c) }

  /**
   * Case folding as a regular expression with the `i` flag applies it to the
   * letters these patterns name: ASCII capitals and Ü fold to small letters.
   * The marked vowels need no folding because every class that lists one
   * lists its capital too.
   */
  function FoldCase(c: char): (f: char)
    ensures 'A' <= c <= 'Z' ==> f as int == c as int + 32
    ensures c == 'Ü' ==> f == 'ü'
    ensures !('A' <= c <= 'Z') && c != 'Ü' ==> f == c
  {
    if 'A' <= c <= 'Z' then (c as int + 32) as char
    else if c == 'Ü' then 'ü'
    else c
  }

  /** A small ASCII letter. */
  predicate IsSmallAscii(c: char) { 'a' <= c <= 'z' }

  /** `[a-z]` under the `i` flag. */
  predicate IsAsciiLetter(c: char) { IsSmallAscii(FoldCase(c)) }

  /** The `consonants` class `bpmfdtnlgkhjqxrzcsyw` under the `i` flag. */
  predicate IsConsonant(c: char)
  {
    var f := FoldCase(c);
    IsSmallAscii(f) && !(f == 'a' || f == 'e' || f == 'i' || f == 'o' || f == 'u' || f == 'v')
  }

  /** `consonantsEnding` (`bcdfghjklmnpqrstvwxyz`) under the `i` flag. */
  predicate IsEndingConsonant(c: char)
  {
    var f := FoldCase(c);
    IsSmallAscii(f) && !(f == 'a' || f == 'e' || f == 'i' || f == 'o' || f == 'u')
  }

  /** `aoeVowels` under the `i` flag: a, o, e, plain or marked, either case. */
  predicate IsAoe(c: char)
  {
    var f := FoldCase(c);
    f == 'a' || f == 'o' || f == 'e'
    || c == 'ā' || c == 'á' || c == 'ǎ' || c == 'à' || c == 'Ā' || c == 'Á' || c == 'Ǎ' || c == 'À'
    || c == 'ō' || c == 'ó' || c == 'ǒ' || c == 'ò' || c == 'Ō' || c == 'Ó' || c == 'Ǒ' || c == 'Ò'
    || c == 'ē' || c == 'é' || c == 'ě' || c == 'è' || c == 'Ē' || c == 'É' || c == 'Ě' || c == 'È'
  }

  /** The a/o/e class is the plain a, o, e and every mark of them in the table. */
  lemma IsAoeByTable(c: char)
    ensures IsAoe(c) <==>
      FoldCase(c) == 'a' || FoldCase(c) == 'o' || FoldCase(c) == 'e'
      || ToneMarkedToBase(c) == Some('a') || ToneMarkedToBase(c) == Some('o') || ToneMarkedToBase(c) == Some('e')
  {
    if ToneMarkedToBase(c) == Some('a') || ToneMarkedToBase(c) == Some('o') || ToneMarkedToBase(c) == Some('e') {
      IsAoeFromTable(c);
    }
    RowA(); RowCapitalA(); RowO(); RowCapitalO(); RowE(); RowCapitalE();
  }

  /** A character the table maps back to a, o or e is one of the 24 marked a/o/e. */
  lemma IsAoeFromTable(c: char)
    requires ToneMarkedToBase(c) == Some('a') || ToneMarkedToBase(c) == Some('o') || ToneMarkedToBase(c) == Some('e')
    ensures IsAoe(c)
  {
    DecomposeSound(c);
    var v := Decompose(c).value.0;
    if v == 'a' { RowA(); } else if v == 'A' { RowCapitalA(); }
    else if v == 'o' { RowO(); } else if v == 'O' { RowCapitalO(); }
    else if v == 'e' { RowE(); } else { RowCapitalE(); }
  }

  /** `vowelsWithNG`: letters that may continue a syllable after its vowel. */
  predicate IsVowelNGR(c: char)
  {
    var f := FoldCase(c);
    IsVowelSetChar(c) || f == 'n' || f == 'g' || f == 'r'
  }

  /** `\w` of a JavaScript regular expression. */
  predicate IsJsWordChar(c: char)
  {
    'a' <= c <= 'z' || 'A' <= c <= 'Z' || '0' <= c <= '9' || c == '_'
  }

  /** `\s` of a JavaScript regular expression. */
  predicate IsJsSpace(c: char)
  {
    var n := c as int;
    9 <= n <= 13 || n == 0x20 || n == 0xA0 || n == 0x1680 || 0x2000 <= n <= 0x200A
    || n == 0x2028 || n == 0x2029 || n == 0x202F || n == 0x205F || n == 0x3000 || n == 0xFEFF
  }

  /** A tone digit `[1-5]`. */
  predicate IsToneDigit(c: char) { '1' <= c <= '5' }

  /** `convertToUmlautIfV`: `v` stands for `ü` and `V` for `Ü`; nothing else changes. */
  function ConvertToUmlautIfV(c: char): (d: char)
    ensures c == 'v' ==> d == 'ü'
    ensures c == 'V' ==> d == 'Ü'
    ensures c != 'v' && c != 'V' ==> d == c
  {
    if c == 'v' then 'ü' else if c == 'V' then 'Ü' else c
  }

  /** The keys of the table are unmarked vowels. */
  lemma BaseVowelNotMarked(v: char)
    requires IsBaseVowel(v)
    ensures IsVowelSetChar(v) && !IsToneMarked(v)
  {
    assert IsVowelSetChar(v);
    VowelSetNotMarked(v);
  }

  /** Among the `vowelSet` characters, only v and V are not keys of the table. */
  lemma VowelSetIsBaseOrV(c: char)
    requires IsVowelSetChar(c)
    ensures IsBaseVowel(ConvertToUmlautIfV(c))
    ensures c != 'v' && c != 'V' ==> IsBaseVowel(c)
  {
  }

  /** No `vowelSet` character sits in a cell of the table. */
  lemma VowelSetNotMarked(c: char)
    requires IsVowelSetChar(c)
    ensures !IsToneMarked(c)
  {
    if c == 'a' { assert Decompose('a') == None; }
    else if c == 'e' { assert Decompose('e') == None; }
    else if c == 'i' { assert Decompose('i') == None; }
    else if c == 'o' { assert Decompose('o') == None; }
    else if c == 'u' { assert Decompose('u') == None; }
    else if c == 'v' { assert Decompose('v') == None; }
    else if c == 'ü' { assert Decompose('ü') == None; }
    else if c == 'A' { assert Decompose('A') == None; }
    else if c == 'E' { assert Decompose('E') == None; }
    else if c == 'I' { assert Decompose('I') == None; }
    else if c == 'O' { assert Decompose('O') == None; }
    else if c == 'U' { assert Decompose('U') == None; }
    else if c == 'V' { assert Decompose('V') == None; }
    else { assert Decompose('Ü') == None; }
  }

  /**
   * `applyToneToVowel`: the vowel `c` (v read as ü) carrying tone `tone`;
   * tone 5 leaves it unmarked.  Its callers only pass `vowelSet` characters
   * and a digit 1 to 5.
   */
  function ApplyToneToVowel(c: char, tone: nat): char
    requires IsVowelSetChar(c) && 1 <= tone <= 5
  {
    var base := ConvertToUmlautIfV(c);
    VowelSetIsBaseOrV(c);
    if tone <= 4 then ToneMarks(base)[tone - 1] else base
  }

  /**
   * A toned vowel is the cell of its tone in the row of the vowel (v read as
   * ü): the reverse maps give back that tone and the lower-cased vowel, and
   * it is marked exactly for tones 1 to 4.
   */
  lemma ApplyToneToVowelCell(c: char, tone: nat)
    requires IsVowelSetChar(c) && 1 <= tone <= 5
    ensures var d := ApplyToneToVowel(c, tone);
      (tone <= 4 ==> ToneMarkedToNumber(d) == Some(tone))
      && (tone <= 4 ==> ToneMarkedToBase(d) == Some(LowerBase(ConvertToUmlautIfV(c))))
      && (tone <= 4 <==> IsToneMarked(d))
      && (tone == 5 ==> d == ConvertToUmlautIfV(c))
  {
    var base := ConvertToUmlautIfV(c);
    VowelSetIsBaseOrV(c);
    if tone <= 4 {
      ReverseMapsOfCell(base, tone - 1);
    } else {
      VowelSetNotMarked(base);
    }
  }
}
