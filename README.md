# pinyin-zhuyin in Dafny

A verified model of the conversion core of the pinyin-zhuyin JavaScript
library: the pinyin tone engine of `tone-tool.js` and the pinyin/zhuyin
converter of `pinyin-to-zhuyin.js`.

- **Tone table** (`tone_table.dfy`, module `ToneTable`): `toneMarkTable`,
  its two reverse maps, `applyToneToVowel`, `convertToUmlautIfV` and the
  character classes the regular expressions use.
- **Syllable scanner** (`syllables.dfy`, `Syllables`): the pattern of
  `buildSyllablePattern` as a scanner that tries its alternatives in the
  engine's order, the `exec` loop of `findSyllableBoundaries`, its
  consonant-shifting post-pass, which rewrites spans in place, and
  `isNonPinyinWord`.
- **Numbers to marks** (`tone_marks.dfy`, `ToneMarks`): `toToneMarks` as the
  source's loop (`ToToneMarks`, with its inner vowel loop `MarkVowel`). It is
  proved equal to a state machine over `outputText`, `currentWord` and
  `foundVowels`, and the properties are proved about that state machine.
- **Marks to numbers** (`tone_numbers.dfy`, `ToneNumbers`): `toToneNumbers`
  with its word split, `extractToneNumber`, `stripToneFromSyllable`, the loop
  over syllable boundaries with erhua placement, and `showNeutralTone`.
- **Rewrite rules** (`rules.dfy`, `Rules`): the ordered `(pattern,
  replacement)` rules of the library and a global `replace` interpreter.
  `applyRules` is written as a loop. Each pattern that occurs in the tables is
  a hand-written matcher.
- **Zhuyin tokens** (`zhuyin_segment.dfy`, `ZhuyinSegment`): the
  `syllableMatcher` pattern, the `exec` loop of `segmentBpmf` and
  `applyErhua`.
- **Zhuyin to pinyin** (`zhuyin_to_pinyin.dfy`, `zhuyin_syllable.dfy`,
  `z2p.dfy`):
  - the `pinyinTransforms` table and its three buckets;
  - `bpmfSyllableToPinyin`;
  - the token loop of `z2p`, with apostrophe insertion and the final switch
    to tone marks.
- **Pinyin to zhuyin** (`p2z.dfy`, `P2z`): `p2z`. Its four regular-expression
  passes are modelled first:
  - the erhua tone move;
  - neutral tone after a vowel;
  - neutral tone after a consonant;
  - spacing.

  Then come the `bpmfTransforms` cascade, the tone glyphs and the
  punctuation table.
- **Helpers** (`common.dfy`, `Common`): an option type, `join("")` and
  character removal.

Where the source loops or reassigns variables, the model has a method with
that loop. Each method's postcondition ties its result to a recursive
function, and the lemmas state the source's promises about those functions.

Where the code and its comments differ, the model follows the code:

- The erhua `r` of the syllable pattern is refused before any letter, not
  only before a vowel (tone-tool.js:66).
- The compound-final list spells `vn`, not `ün` (tone-tool.js:62).
- `toneMarkedToBase` lower-cases the base vowel (tone-tool.js:30), so
  `stripToneFromSyllable` does not preserve capitals, whatever its comment
  says (tone-tool.js:160).
- `\w` does not include a plain `ü`, so an unmarked `ü` splits words in
  `toToneNumbers` (tone-tool.js:50-51).
- The comment at pinyin-to-zhuyin.js:310 excludes a lone `r` from the
  consonant-final pass. The pattern itself already needs two letters, so the
  explicit test on `r` is never reached. `P2z.LoneRNumbered` shows that a lone
  `r` gets no number.
- The comment at pinyin-to-zhuyin.js:300 makes an apostrophe a syllable
  break unless a toned syllable follows. The vowel-final pass runs first and
  numbers a syllable after an apostrophe, so a consonant-final word before
  it gets no number: `tian'e` becomes `tian'e5` (`P2z.TianENumbered`).

## Model

| member | source | states |
|---|---|---|
| Common.RemoveChar | tone-tool.js:308 | deleting every occurrence of a character leaves none of it and never lengthens the text |
| Common.RemoveCharKeepsOthers | tone-tool.js:308 | deleting one character keeps every other character as often as it occurred |
| Common.ConcatAppend | pinyin-to-zhuyin.js:272 | joining two lists of pieces is joining each of them, one after the other |
| ToneTable.DecomposeCell | tone-tool.js:11-25 | every row holds four marks and every cell is found back at its own row and column |
| ToneTable.DecomposeSound | tone-tool.js:11-25 | a character found in the table really is the cell of the row and column it is found at |
| ToneTable.DecomposeRange | tone-tool.js:39 | the 48 marked vowels lie between U+00C0 and U+01DC |
| ToneTable.TableInjective | tone-tool.js:11-25 | the 48 cells are pairwise distinct: equal marks come from the same row and column |
| ToneTable.LowerBase | tone-tool.js:30 | lower-casing a key of the table gives a key of the table, the key itself or its small letter |
| ToneTable.ReverseMapsOfCell | tone-tool.js:27-32 | the cell at row v, column k maps back to the lower-cased v and to the tone k + 1 |
| ToneTable.ReverseMapsDomain | tone-tool.js:71-76 | the two reverse maps are defined on the same characters, and every tone they give is 1 to 4 |
| ToneTable.FoldCase | tone-tool.js:51 | case folding turns exactly the ASCII capitals and Ü into their small letters and keeps every other character |
| ToneTable.IsAoeByTable | tone-tool.js:45 | the a/o/e class holds exactly a, o and e in either case and the marks the table maps back to them |
| ToneTable.IsAoeFromTable | tone-tool.js:45 | every mark of a, o or e in the table is in the a/o/e class |
| ToneTable.ConvertToUmlautIfV | tone-tool.js:84-88 | v becomes ü, V becomes Ü, and every other character is kept |
| ToneTable.BaseVowelNotMarked | tone-tool.js:34 | the keys of the table are unmarked `vowelSet` vowels |
| ToneTable.VowelSetIsBaseOrV | tone-tool.js:34 | every `vowelSet` character, with v read as ü, is a key of the table; only v and V need the conversion |
| ToneTable.VowelSetNotMarked | tone-tool.js:34 | no `vowelSet` character is a marked vowel |
| ToneTable.ApplyToneToVowel | tone-tool.js:78-82 | `applyToneToVowel`: v read as ü, then the table's mark for tones 1 to 4 and the plain vowel for 5; ApplyToneToVowelCell states what it gives |
| ToneTable.ApplyToneToVowelCell | tone-tool.js:78-82 | for tones 1 to 4 the toned vowel maps back to that tone and to the lower-cased vowel (v read as ü) and is marked; tone 5 gives the unmarked vowel with v read as ü |
| Syllables.FirstMatchIsFirst | tone-tool.js:62 | the ending chosen is the first alternative that occurs, and none listed before it occurs; when none is chosen, none occurs |
| Syllables.FinalWithErhuaBounds | tone-tool.js:62-66 | a final with its optional erhua r is non-empty and lies inside the text |
| Syllables.MatchAt | tone-tool.js:56-69 | the syllable pattern at one position: an optional initial, then the medial and final alternatives in the engine's order and the optional erhua r; MatchAtBounds and MatchAtVowel state its properties |
| Syllables.MatchAtBounds | tone-tool.js:56-69 | a syllable match is non-empty and lies inside the text |
| Syllables.MatchAtVowel | tone-tool.js:56-69 | every syllable match holds a vowel, and the pattern matches at every vowel |
| Syllables.CoveredBound | tone-tool.js:177-181 | ordered spans inside a range cover at most its width, and cover all of it exactly when they tile it |
| Syllables.ScanFromOrdered | tone-tool.js:102-105 | the spans the `exec` loop collects are non-empty, in order, do not overlap and lie in the text |
| Syllables.ScanFromMatches | tone-tool.js:102-105 | each collected span is the pattern's match at its own start |
| Syllables.ScanFromCovers | tone-tool.js:102-105 | every position where the pattern matches lies in some collected span |
| Syllables.RawSpansHaveVowels | tone-tool.js:102-105 | every collected syllable holds a vowel |
| Syllables.RawSpansCoverVowels | tone-tool.js:102-105 | every vowel of the text lies in a collected syllable |
| Syllables.NoVowelNoSpans | tone-tool.js:102-105 | a text without a vowel yields no syllable |
| Syllables.SpansImplyVowel | tone-tool.js:102-105 | a text that yields a syllable holds a vowel |
| Syllables.ShiftRuleForward | tone-tool.js:122-141 | a shift only takes a character from a span longer than one character and gives it to the span that follows |
| Syllables.PostPassFrom | tone-tool.js:108-145 | the post-pass emits exactly one span for every raw span |
| Syllables.PostPassAt | tone-tool.js:108-145 | span k loses its last character exactly when the shift condition holds between it and raw span k + 1; it starts one character early exactly when span k - 1 lost one; nothing else moves |
| Syllables.PostPassOrdered | tone-tool.js:107-147 | the post-pass keeps the spans non-empty, ordered, non-overlapping and inside the text |
| Syllables.PostPassCovered | tone-tool.js:107-147 | the post-pass keeps the total length the spans cover |
| Syllables.CollectMatches | tone-tool.js:102-105 | the `exec` loop collects exactly the scan's spans |
| Syllables.ShiftConsonants | tone-tool.js:107-147 | the loop with its in-place rewrites of the emitted and the next span computes the post-pass |
| Syllables.PostPassShifted | tone-tool.js:128-141 | a round that moves a consonant shortens the emitted span by one and starts the next span one character earlier |
| Syllables.PostPassKept | tone-tool.js:112 | a round that moves nothing emits the span as it is |
| Syllables.FindSyllableBoundaries | tone-tool.js:98-148 | the boundaries are the post-passed matches; they are ordered inside the text and cover as much as the raw matches |
| Syllables.IsNonPinyinWord | tone-tool.js:171-184 | `isNonPinyinWord`: no boundaries, or boundaries covering less than the word; PinyinIffTiled and VerdictFromRawSpans state what it decides |
| Syllables.PinyinIffTiled | tone-tool.js:171-184 | a word is pinyin exactly when it has syllables and they tile it from end to end |
| Syllables.VerdictFromRawSpans | tone-tool.js:171-184 | the verdict is the same as on the raw matches: none, or less covered than the word's length |
| Syllables.NoVowelIsNonPinyin | tone-tool.js:171-175 | a word without a vowel is never pinyin |
| ToneMarks.NthVowelFrom | tone-tool.js:237-251 | the position the inner loop stops at holds a `vowelSet` vowel at or after where it started |
| ToneMarks.ToneNumber | tone-tool.js:211 | a tone digit reads as a tone from 1 to 5 |
| ToneMarks.ToneMarksOf | tone-tool.js:188-258 | `toToneMarks` as a state machine: one round per character, then the word flushed; OneSyllable, TwoSyllables, UnchangedWithoutToneWork and DigitAfterBreak state what it computes |
| ToneMarks.ToToneMarks | tone-tool.js:188-258 | the loop of `toToneMarks`, one character past the end, computes the conversion the state machine defines |
| ToneMarks.PlaceTone | tone-tool.js:210-254 | the tone-digit branch gives the output, buffer and vowel count of one digit round |
| ToneMarks.MarkVowel | tone-tool.js:237-253 | the inner loop writes the word with its n-th vowel toned and empties the buffer; with fewer vowels it keeps the word buffered and counts all its vowels |
| ToneMarks.FeedDigitCases | tone-tool.js:210-254 | a digit after a word with a vowel adds the apostrophe when needed, then the toned word with an empty buffer, or keeps the word when it lacks the chosen vowel |
| ToneMarks.PlainRun | tone-tool.js:196-208 | without a tone digit, or without a vowel, every character read lands in the output or the buffer, in order, and nothing is added |
| ToneMarks.UnchangedWithoutToneWork | tone-tool.js:196-221 | input without a digit 1 to 5, or without a vowel (`123`, `n2`), comes back unchanged |
| ToneMarks.NoCountNoVowel | tone-tool.js:200-213 | whenever the vowel count is zero, the word being built holds no vowel |
| ToneMarks.FeedNoCountNoVowel | tone-tool.js:200-254 | one round of the loop keeps a zero vowel count tied to a word without a vowel |
| ToneMarks.DigitAfterBreak | tone-tool.js:200-221 | a digit right after a character that is neither a vowel nor n, g, r is copied after the text before it, whatever came earlier |
| ToneMarks.DigitAfterConsonants | tone-tool.js:196-221 | `abc1` comes back unchanged, with or without apostrophes |
| ToneMarks.NthVowelFromCount | tone-tool.js:237-251 | the inner loop stops on the n-th vowel of the word, or runs off the word when it has fewer |
| ToneMarks.PairIsVowels | tone-tool.js:224-226 | both letters of an i+a/e/o/u, u+a/e/i or v/ü+e pair are vowels, so the second vowel exists |
| ToneMarks.EnoughVowels | tone-tool.js:237-251 | a word with at least n vowels has its n-th one found |
| ToneMarks.ToneVowelExists | tone-tool.js:218-251 | a word with a vowel always has the vowel its tone goes on |
| ToneMarks.TonedWord | tone-tool.js:224-251 | the toned word keeps the length; the first vowel, or the second after i+a/e/o/u, u+a/e/i or v/ü+e, carries the tone (plain for tone 5); every other character is kept with v read as ü; no v is left |
| ToneMarks.SyllableBuffered | tone-tool.js:200-208 | a syllable read from the start lands whole in the buffer with its vowel count |
| ToneMarks.NgrBuffered | tone-tool.js:200-208 | vowels and n, g, r after a vowel keep extending the buffer |
| ToneMarks.OneSyllable | tone-tool.js:188-258 | a syllable and its digit (`hao3`) become the toned syllable (`hǎo`) |
| ToneMarks.TwoSyllables | tone-tool.js:196-254 | two numbered syllables (`xi1an1`) become the two toned syllables, with an apostrophe between them exactly when apostrophes are on and the second starts with a, o or e (`xī'ān`) |
| ToneMarks.LastSyllable | tone-tool.js:229-234 | after a toned syllable, the apostrophe depends only on the option and on the next word's first letter |
| ToneMarks.FeedDigitIgnoresFound | tone-tool.js:213 | the digit branch resets the vowel count, so the count before it does not matter |
| ToneMarks.FirstSyllable | tone-tool.js:196-254 | after the first syllable's digit the output is the toned syllable, non-empty and not ending in a break, and the buffer is empty |
| ToneMarks.LastOfTonedWord | tone-tool.js:231 | a toned syllable never ends in whitespace or punctuation |
| ToneMarks.NgrNotBreak | tone-tool.js:231 | vowels and n, g, r, with v read as ü, are not breaks |
| ToneNumbers.ExtractToneNumber | tone-tool.js:150-158 | the tone is between 1 and 5 |
| ToneNumbers.StripToneFromSyllable | tone-tool.js:161-168 | stripping keeps the length |
| ToneNumbers.DigitOf | tone-tool.js:290 | the digit appended for a tone reads back as that tone |
| ToneNumbers.SliceIndex | tone-tool.js:278 | a `slice` index, negative counting from the end, is clamped into the string |
| ToneNumbers.RunEnd | tone-tool.js:262 | the run from a position is maximal: all its characters are word characters or all are not, and the next one differs |
| ToneNumbers.ToneNumbersOf | tone-tool.js:260-313 | `toToneNumbers`: the empty text as it is, otherwise the split pieces converted and joined; UnchangedWithoutPinyin, PinyinWordBySyllables and NeutralToneHidden state what it computes |
| ToneNumbers.ToToneNumbers | tone-tool.js:260-313 | the split, map and join compute the conversion |
| ToneNumbers.ConvertWord | tone-tool.js:265-312 | the `map` callback, with its boundary loop, converts one piece |
| ToneNumbers.AssembleWord | tone-tool.js:272-305 | the boundary loop writes the text before each syllable, the syllable numbered, and the rest of the word |
| ToneNumbers.AssembleRound | tone-tool.js:276-299 | one round appends the gap since the last syllable, if any, then the syllable in numbered form |
| ToneNumbers.NumberSyllable | tone-tool.js:281-297 | the syllable body gives the stripped syllable with its tone digit, placed around an erhua r |
| ToneNumbers.AssembleStep | tone-tool.js:275-300 | one round of the loop extends the result by what the assembly function unfolds to |
| ToneNumbers.FirstMarkDecides | tone-tool.js:150-155 | the tone is that of the first marked vowel |
| ToneNumbers.NoMarkIsNeutral | tone-tool.js:156-157 | a syllable without a marked vowel has tone 5 |
| ToneNumbers.StripRemovesMarks | tone-tool.js:161-168 | stripping keeps every unmarked character, puts the lower-case base in place of a marked vowel, and leaves no mark |
| ToneNumbers.StripCharOf | tone-tool.js:162-166 | one character stripped: unmarked kept, marked replaced by its lower-case base, never marked afterwards |
| ToneNumbers.StrippedIsNeutral | tone-tool.js:150-168 | a stripped syllable has the neutral tone |
| ToneNumbers.ErhuaPlacement | tone-tool.js:282-297 | the digit follows the stripped syllable, except that a stripped syllable longer than one character ending in r takes it before the r when `erhuaTone` is not `after-r` |
| ToneNumbers.MarkedSyllableBack | tone-tool.js:150-168 | a word toned by `toToneMarks` strips back to itself (v read as ü) with its tone, when the toned vowel is lower case |
| ToneNumbers.SyllableRoundTrip | tone-tool.js:281-297 | a lower-case numbered syllable (`lve4`) converted to marks and back gives the syllable with v read as ü and its tone (`lüe`, 4) |
| ToneNumbers.SplitFromJoins | tone-tool.js:262 | the pieces of the split join back to the text, and each is a word or a run of other characters |
| ToneNumbers.SplitJoins | tone-tool.js:262 | the whole split loses nothing, and each piece is a word or a run of other characters |
| ToneNumbers.ConvertAllKept | tone-tool.js:265-268 | pieces the callback returns as they are join to what they were |
| ToneNumbers.UnchangedWithoutPinyin | tone-tool.js:262-268 | a text without a pinyin word, the empty text among them, comes back unchanged |
| ToneNumbers.TiledAssembly | tone-tool.js:275-305 | syllables that tile the word leave no text before, between or after them |
| ToneNumbers.PinyinWordBySyllables | tone-tool.js:271-305 | a pinyin word is converted into its numbered syllables, one after the other |
| ToneNumbers.NeutralToneHidden | tone-tool.js:307-309 | with `showNeutralTone` off a word is its shown form with every 5 deleted, and every other character, the digits 1 to 4 included, kept as often as it occurs |
| Rules.FirstFollowedBy | pinyin-to-zhuyin.js:330 | the syllable end chosen is one the pattern reaches, inside the text and followed by the digit |
| Rules.MatchAt | pinyin-to-zhuyin.js:142 | a match is non-empty, lies inside the text, and its group lies inside the match |
| Rules.ApplyRules | pinyin-to-zhuyin.js:139-145 | the loop applies the rules in order, each to the result of the ones before |
| Rules.ApplyAllAppend | pinyin-to-zhuyin.js:139-145 | applying two lists of rules is applying the first, then the second |
| Rules.Rewrite | pinyin-to-zhuyin.js:142 | global `replace` from a position: a match is replaced by its expanded replacement and the scan resumes after it, elsewhere one character is copied; the lemmas below state its properties |
| Rules.RewriteWithoutMatch | pinyin-to-zhuyin.js:142 | where a pattern matches nowhere, `replace` changes nothing |
| Rules.RewriteAvoids | pinyin-to-zhuyin.js:142 | a character in neither the text nor the replacement never appears in the result |
| Rules.RewriteRemoves | pinyin-to-zhuyin.js:142 | replacing a character by text without it leaves none of it |
| Rules.CharRewrite | pinyin-to-zhuyin.js:142 | `replace` with a one-character pattern substitutes that character everywhere, as a character-by-character reference does |
| Rules.SwapBack | pinyin-to-zhuyin.js:142 | replacing one character by another is undone by the opposite replacement when the second did not occur |
| Rules.AnchoredTail | pinyin-to-zhuyin.js:142 | an anchored pattern leaves everything after the first character alone |
| Rules.UmlautRewrite | pinyin-to-zhuyin.js:114-120 | `^([jqx])ü` and `^([nl])ü(?=an)` with `$1u` turn the leading ü into u where they match and change nothing elsewhere |
| ZhuyinSegment.FinalEnds | pinyin-to-zhuyin.js:3-16 | every end the final alternation reaches spans a final |
| ZhuyinSegment.SyllableEnds | pinyin-to-zhuyin.js:18-21 | the ends `syllableMatcher` can reach from a position, in the engine's order: initial and final, final alone, lone syllabic consonant, each with an optional tone glyph |
| ZhuyinSegment.SyllableEndsShape | pinyin-to-zhuyin.js:18-21 | every end the syllable pattern can reach lies past the start, and what it spans is a syllable |
| ZhuyinSegment.SyllableEndReached | pinyin-to-zhuyin.js:18-21 | conversely, the end of any syllable the text begins with is among the ends the pattern reaches |
| ZhuyinSegment.SyllableSymbols | pinyin-to-zhuyin.js:11-19 | a syllable holds zhuyin symbols ㄅ to ㄩ and tone glyphs only |
| ZhuyinSegment.MatchEnd | pinyin-to-zhuyin.js:18-21 | a match ends past its start and inside the text |
| ZhuyinSegment.Search | pinyin-to-zhuyin.js:161 | `exec` reports a non-empty match inside the text, at or after `lastIndex` |
| ZhuyinSegment.SearchIsFirst | pinyin-to-zhuyin.js:161 | `exec` reports the first position where the pattern matches; when it reports none, there is none ahead |
| ZhuyinSegment.NextMatchIsFirst | pinyin-to-zhuyin.js:161-164 | the match found is a syllable and no syllable starts earlier; when none is found, no syllable starts ahead |
| ZhuyinSegment.TokensStep | pinyin-to-zhuyin.js:161-165 | one round of the loop pushes the gap before the match, if any, then the match |
| ZhuyinSegment.TokensJoin | pinyin-to-zhuyin.js:158-166 | the tokens join back to the text, and none is empty |
| ZhuyinSegment.SplitSyllables | pinyin-to-zhuyin.js:158-166 | the `exec` loop and the final gap give the token list |
| ZhuyinSegment.SegmentBpmf | pinyin-to-zhuyin.js:158-169 | segmenting is tokenizing, then merging erhua |
| ZhuyinSegment.SegmentJoins | pinyin-to-zhuyin.js:158-184 | the segments join back to the input exactly, and none is empty |
| ZhuyinSegment.ErhuaFold | pinyin-to-zhuyin.js:171-184 | `applyErhua` as a fold of the reducer over the tokens; ErhuaKeepsText, ErhuaKeepsNonEmpty, BareErMerges and TonedErStays state what it does |
| ZhuyinSegment.ApplyErhua | pinyin-to-zhuyin.js:171-184 | the `reduce` with its in-place overwrite computes the erhua merge |
| ZhuyinSegment.MergeKeepsText | pinyin-to-zhuyin.js:174-182 | one reducer step adds the token's text at the end and nothing else |
| ZhuyinSegment.ErhuaKeepsText | pinyin-to-zhuyin.js:171-184 | merging erhua does not change the joined text |
| ZhuyinSegment.ErhuaKeepsNonEmpty | pinyin-to-zhuyin.js:171-184 | merging erhua never makes an empty token out of non-empty ones |
| ZhuyinSegment.BareErMerges | pinyin-to-zhuyin.js:174-181 | a bare ㄦ joins the previous token exactly when there is one, it is non-empty and it does not already end in ㄦ; otherwise ㄦ stays a token |
| ZhuyinSegment.TonedErStays | pinyin-to-zhuyin.js:172-182 | a toned ㄦ always stays a token of its own |
| ZhuyinToPinyin.BucketBySource | pinyin-to-zhuyin.js:132-137 | the bucket read off a pattern's shape is the one the test on its source text picks |
| ZhuyinToPinyin.BucketRules | pinyin-to-zhuyin.js:132-137 | the loop pushes each rule into its bucket, in table order |
| ZhuyinToPinyin.BucketSizes | pinyin-to-zhuyin.js:132-137 | no rule is lost or duplicated: the three buckets together are as long as the table |
| ZhuyinToPinyin.BucketMembers | pinyin-to-zhuyin.js:132-137 | a bucket holds exactly the table's rules that belong to it |
| ZhuyinToPinyin.ZeroInitialBuckets | pinyin-to-zhuyin.js:76-87 | the zero-initial y-, w- and yu- rules all go to the no-initial bucket |
| ZhuyinToPinyin.SyllabicBuckets | pinyin-to-zhuyin.js:89-91 | the syllabic-consonant rules go to the initial bucket |
| ZhuyinToPinyin.FinalBuckets | pinyin-to-zhuyin.js:93-103 | the unanchored final rules go to the final bucket |
| ZhuyinToPinyin.InitialBuckets | pinyin-to-zhuyin.js:105-111 | the anchored initial rules go to the initial bucket |
| ZhuyinToPinyin.JqxBucket | pinyin-to-zhuyin.js:114 | the j/q/x rule goes to the initial bucket |
| ZhuyinToPinyin.NoInitialTable | pinyin-to-zhuyin.js:128-137 | the no-initial bucket is the zero-initial section, in order |
| ZhuyinToPinyin.InitialTable | pinyin-to-zhuyin.js:128-137 | the initial bucket is the syllabic consonants, then the initials, then the j/q/x rule |
| ZhuyinToPinyin.FinalTable | pinyin-to-zhuyin.js:128-137 | the final bucket is the final section, compound finals first |
| ZhuyinSyllable.SyllableToPinyin | pinyin-to-zhuyin.js:188-236 | `bpmfSyllableToPinyin`: the tone from the first glyph, the glyphs removed, the bucketed rules on the core, then tone and erhua attached; StandaloneEr, ErhuaAddsR, ToneGlyphAnywhere and SyllableUmlauts state what it gives |
| ZhuyinSyllable.FirstTone | pinyin-to-zhuyin.js:189 | the tone found is a tone glyph of the syllable; when none is found, the syllable has no glyph |
| ZhuyinSyllable.ToneNumber | pinyin-to-zhuyin.js:190 | the tone is one digit 1 to 5, and it is 1 exactly when there is no glyph |
| ZhuyinSyllable.StripTones | pinyin-to-zhuyin.js:191 | the core holds no tone glyph and is no longer than the syllable |
| ZhuyinSyllable.FirstGlyphWins | pinyin-to-zhuyin.js:189 | when several glyphs occur, the first decides the tone |
| ZhuyinSyllable.ToneGlyphAnywhere | pinyin-to-zhuyin.js:189-191 | where the one tone glyph stands in the syllable does not change the pinyin |
| ZhuyinSyllable.NeutralHidden | pinyin-to-zhuyin.js:194 | hiding the neutral tone only drops its 5, which stands last or before the erhua r; no other tone changes |
| ZhuyinSyllable.StandaloneEr | pinyin-to-zhuyin.js:196-197 | ㄦ alone gives er1; ㄦ with ˊ ˇ ˋ gives er2, er3, er4; with ˙ it gives er5, or er when the neutral tone is hidden |
| ZhuyinSyllable.ErhuaAddsR | pinyin-to-zhuyin.js:200-235 | a bare ㄦ added to a syllable adds an r to its pinyin: before the tone digit under `after-r`, after it otherwise |
| ZhuyinSyllable.FirstToneOfErhua | pinyin-to-zhuyin.js:189 | a trailing ㄦ does not change the tone found |
| ZhuyinSyllable.CollapseKeeps | pinyin-to-zhuyin.js:226-228 | in collapse mode no n/l + üan is left, and the collapse never creates a j/q/x + ü |
| ZhuyinSyllable.CoreNoJqxUmlaut | pinyin-to-zhuyin.js:216-223 | a core with an initial never comes out with ü after j, q or x |
| ZhuyinSyllable.JqxRuleClears | pinyin-to-zhuyin.js:114 | after the j/q/x rule the text does not begin with j, q or x followed by ü |
| ZhuyinSyllable.CoreNoNlUan | pinyin-to-zhuyin.js:226-228 | in collapse mode the core never comes out starting with n or l and üan |
| ZhuyinSyllable.AttachTail | pinyin-to-zhuyin.js:230-235 | tone and erhua only append digits and r to the core's pinyin |
| ZhuyinSyllable.SyllableUmlauts | pinyin-to-zhuyin.js:188-236 | a syllable with an initial, other than a lone syllabic consonant, never has ü after j/q/x, nor n/l + üan in collapse mode, whatever tone and erhua follow |
| Z2p.HasZhuyin | pinyin-to-zhuyin.js:261 | a token is converted exactly when it holds a zhuyin symbol or tone glyph |
| Z2p.BuildPieces | pinyin-to-zhuyin.js:254-270 | the token loop with its `prevWasSyllable` flag builds the pieces |
| Z2p.Z2pOf | pinyin-to-zhuyin.js:240-276 | `z2p`: the tokens converted with apostrophes where needed, joined, and switched to tone marks when `tonemarks` is on; the lemmas below state what it keeps and adds |
| Z2p.Z2p | pinyin-to-zhuyin.js:240-276 | `z2p` computes the conversion: pieces joined, then switched to tone marks when `tonemarks` is on |
| Z2p.NormalizeSpaces | pinyin-to-zhuyin.js:250 | `replace(/・/g, " ")` turns each ・ into a space and leaves none |
| Z2p.PiecesWithoutApostrophes | pinyin-to-zhuyin.js:260-270 | without apostrophes every token gives exactly one piece, its own conversion |
| Z2p.ApostrophesOnlyAdded | pinyin-to-zhuyin.js:258-265 | the apostrophe option only adds apostrophes: one for every pair of adjacent syllables whose second one begins with a, o or e |
| Z2p.PieceApostrophes | pinyin-to-zhuyin.js:261-269 | one token gets an apostrophe exactly when the one before was a syllable and its own pinyin begins with a, o or e |
| Z2p.PlainPieces | pinyin-to-zhuyin.js:266-268 | tokens without zhuyin are copied verbatim |
| Z2p.PlainTextKept | pinyin-to-zhuyin.js:253-272 | text without zhuyin segments and joins back to itself |
| Z2p.NoZhuyinPassesThrough | pinyin-to-zhuyin.js:249-272 | text without zhuyin comes out with tone numbers as it went in, with ・ read as a space |
| P2z.LowerMarkedVowel | pinyin-to-zhuyin.js:284 | a marked vowel lower-cases to a marked vowel of the same base and tone |
| P2z.LowerCharFixes | pinyin-to-zhuyin.js:284 | lower-casing changes exactly the ASCII capitals, Ü, the marked capitals and the Kelvin sign, and none of them is left in its result |
| P2z.Lower | pinyin-to-zhuyin.js:284 | lower-casing keeps the length and lower-cases each character on its own |
| P2z.LowerIdempotent | pinyin-to-zhuyin.js:284 | lower-casing twice is lower-casing once, and text without those capitals is kept |
| P2z.FoldsToLower | pinyin-to-zhuyin.js:291-313 | on a letter run, the case-insensitive test against one letter is `toLowerCase() === c` |
| P2z.RunEnd | pinyin-to-zhuyin.js:290 | the letter run `[a-zü]+` from a position is maximal |
| P2z.RunEndAt | pinyin-to-zhuyin.js:290 | the run ends at the first non-letter |
| P2z.EditAt | pinyin-to-zhuyin.js:290-319 | a pass's match is non-empty and lies inside the text |
| P2z.EditOn | pinyin-to-zhuyin.js:290-319 | the match at the start of the text not yet scanned is non-empty and lies inside it |
| P2z.CopiedStep | pinyin-to-zhuyin.js:290-319 | where no match starts, `replace` copies one character and goes on |
| P2z.NoEditFrom | pinyin-to-zhuyin.js:290-319 | positions without a match, seen from a later start, still hold none |
| P2z.CopiedThenRest | pinyin-to-zhuyin.js:290-319 | text where no match starts is copied, and the pass goes on with what follows as on its own |
| P2z.NoEditKept | pinyin-to-zhuyin.js:290-319 | text where no match starts is left as it is |
| P2z.WholeEdit | pinyin-to-zhuyin.js:290-319 | a match spanning the whole text is replaced whole |
| P2z.EditThenRest | pinyin-to-zhuyin.js:290-319 | a match at the start is replaced, and the pass goes on after it as on the rest alone |
| P2z.KeptFirst | pinyin-to-zhuyin.js:290-319 | a character that is neither a letter nor a vowel is copied by every pass, which goes on after it |
| P2z.ErhuaMatch | pinyin-to-zhuyin.js:290-292 | `Xr<d>` is one erhua match whatever follows it, replaced by `X<d>r`, or kept when X is `e` |
| P2z.VowelWordMatch | pinyin-to-zhuyin.js:307-308 | a word ending in a vowel before a boundary that is no vowel is one vowel-final match, replaced with a 5 |
| P2z.ConsonantWordMatch | pinyin-to-zhuyin.js:311-314 | a word of two or more letters ending in a consonant before a boundary is one consonant-final match, replaced with a 5 |
| P2z.SpaceMatch | pinyin-to-zhuyin.js:318-319 | a numbered syllable before letters other than a lone r is one spacing match, replaced with a space after it |
| P2z.NoDigitNoMatch | pinyin-to-zhuyin.js:290-319 | text without a tone number holds no erhua and no spacing match |
| P2z.NumberedNoMatch | pinyin-to-zhuyin.js:301-314 | no neutral-tone match starts in a word before its number |
| P2z.NumberedRunNoEdit | pinyin-to-zhuyin.js:301-314 | a letter run before a number is no neutral-tone match, whatever follows |
| P2z.ConsonantEndNoVowelMatch | pinyin-to-zhuyin.js:307-308 | no vowel-final match starts in a word ending in a consonant |
| P2z.ConsonantRunNoVowelEdit | pinyin-to-zhuyin.js:307-308 | from any letter of a word ending in a consonant, before a non-letter, no vowel-final match starts |
| P2z.SpaceNoMatch | pinyin-to-zhuyin.js:318-319 | no spacing match starts in a word followed by one non-letter that does not carry on into letters |
| P2z.SpaceRunNoEdit | pinyin-to-zhuyin.js:318-319 | a letter run before one non-letter, not a number followed by a letter, is no spacing match |
| P2z.ErhuaNoSpaceMatch | pinyin-to-zhuyin.js:317-319 | no spacing match starts in a numbered syllable before an erhua r that ends the text or comes before a character outside `[a-zü'1-5]` |
| P2z.ErhuaToneMoved | pinyin-to-zhuyin.js:290-292 | in running text, `Xr<d>` becomes `X<d>r`, except that `er<d>` stays, and the pass goes on after the number as on the rest alone |
| P2z.TonedWordErhua | pinyin-to-zhuyin.js:290-292 | in running text, the erhua pass copies a numbered word that does not end in r and goes on after its number |
| P2z.NoDigitPasses | pinyin-to-zhuyin.js:290-319 | text without a tone number is left alone by the erhua and spacing passes |
| P2z.PlainWordErhua | pinyin-to-zhuyin.js:290-292 | the erhua pass copies a word without a number and the non-letter after it, and goes on after them |
| P2z.VowelWordNeutral | pinyin-to-zhuyin.js:307-308 | in running text, a word ending in a vowel before a boundary gets the neutral 5, and the pass goes on after it as on the rest alone |
| P2z.ConsonantWordNeutral | pinyin-to-zhuyin.js:311-314 | in running text, a word of two or more letters ending in a consonant before a boundary gets the neutral 5, and the pass goes on after it |
| P2z.NumberedWordKept | pinyin-to-zhuyin.js:301-314 | a word that already has a number is copied by both neutral-tone passes, which go on after it |
| P2z.ConsonantEndNoVowelEdit | pinyin-to-zhuyin.js:307-308 | the vowel-final pass copies a word ending in a consonant and goes on after it |
| P2z.SpaceKeepsWord | pinyin-to-zhuyin.js:318-319 | a word followed by one non-letter is not split by the spacing pass, which goes on after them |
| P2z.SpaceBetween | pinyin-to-zhuyin.js:316-319 | a numbered syllable directly followed by letters gets a space after it, unless those letters are a lone erhua r |
| P2z.SpaceBeforeErhua | pinyin-to-zhuyin.js:316-319 | no space goes between a numbered syllable and an erhua r that ends the text or comes before a character outside `[a-zü'1-5]`, and the pass goes on after the r |
| P2z.SpaceBeforeWord | pinyin-to-zhuyin.js:316-319 | a space goes between a numbered syllable and a word that is not a lone r |
| P2z.KeptPasses | pinyin-to-zhuyin.js:290-319 | a character that is neither a letter nor a vowel goes through the four passes as it is, and the rest on its own |
| P2z.LowerCons | pinyin-to-zhuyin.js:284 | a character lower-casing keeps stays in front of the lower-cased rest |
| P2z.LowerAfterWord | pinyin-to-zhuyin.js:284-304 | what may end a word is kept by lower-casing, and after an apostrophe no number appears |
| P2z.KeptNumbered | pinyin-to-zhuyin.js:284-319 | a separator or an apostrophe goes through lower-casing and the four passes as it is, and the rest on its own |
| P2z.VowelStep | pinyin-to-zhuyin.js:307-308 | the vowel-final pass numbers a word ending in a vowel before a non-letter boundary and goes on after it |
| P2z.NumberedStep | pinyin-to-zhuyin.js:301-314 | a neutral-tone pass copies a numbered word and the non-letter after it, and goes on after them |
| P2z.SpaceStep | pinyin-to-zhuyin.js:318-319 | the spacing pass copies a numbered word and the non-letter after it, and goes on after them |
| P2z.ConsonantStep | pinyin-to-zhuyin.js:311-314 | the consonant-final pass numbers a word ending in a consonant before a separator and goes on after it |
| P2z.ConsonantVowelStep | pinyin-to-zhuyin.js:307-308 | the vowel-final pass copies a word ending in a consonant and the non-letter after it, and goes on after them |
| P2z.VowelWordPasses | pinyin-to-zhuyin.js:290-319 | the four passes give a lower-case word ending in a vowel its 5, keep the word end after it, and treat the rest as on its own |
| P2z.VowelWordAlone | pinyin-to-zhuyin.js:290-319 | the four passes give a lone lower-case word ending in a vowel its 5 |
| P2z.ConsonantWordPasses | pinyin-to-zhuyin.js:290-319 | the four passes give a lower-case word ending in a consonant its 5 before a separator, and treat the rest as on its own |
| P2z.ConsonantWordAlone | pinyin-to-zhuyin.js:290-319 | the four passes give a lone lower-case word ending in a consonant its 5 |
| P2z.VowelWordNumbered | pinyin-to-zhuyin.js:284-319 | in running text, a lower-case word ending in a vowel before the end, a separator, or an apostrophe before text without numbers gets a 5, and the text after it is numbered as on its own |
| P2z.ConsonantWordNumbered | pinyin-to-zhuyin.js:284-319 | in running text, a lower-case word of two or more letters ending in a consonant before the end or a separator gets a 5, and the text after it is numbered as on its own |
| P2z.NiHaoNumbered | pinyin-to-zhuyin.js:284-319 | `ni hao` becomes `ni5 hao5` |
| P2z.XiAnNumbered | pinyin-to-zhuyin.js:300-319 | `xi'an` becomes `xi5'an5`: the apostrophe ends the first syllable |
| P2z.LoneRNumbered | pinyin-to-zhuyin.js:310-314 | a lone r gets no number |
| P2z.TonedNoErhuaMatch | pinyin-to-zhuyin.js:290-292 | no erhua match starts in a numbered word that does not end in r, whatever follows |
| P2z.ErhuaRunNone | pinyin-to-zhuyin.js:290-292 | a letter run that does not end in r, then a number, is no erhua match |
| P2z.LowerToned | pinyin-to-zhuyin.js:284 | a lower-case word and its number are kept by lower-casing |
| P2z.TonedErhuaStep | pinyin-to-zhuyin.js:290-292 | the erhua pass copies a numbered word not ending in r and the non-letter after it, and goes on after them |
| P2z.TonedWordPasses | pinyin-to-zhuyin.js:290-319 | the four passes copy a numbered word not ending in r and the non-letter after it, and treat the rest as on its own |
| P2z.TonedWordAlone | pinyin-to-zhuyin.js:290-319 | the four passes keep a lone numbered word not ending in r |
| P2z.TonedWordNumbered | pinyin-to-zhuyin.js:284-319 | in running text, a lower-case word with its number, not ending in r, before the end, a separator or an apostrophe, is kept, and the text after it is numbered as on its own |
| P2z.WoDeNumbered | pinyin-to-zhuyin.js:284-319 | `wo3 de` becomes `wo3 de5` |
| P2z.LoneRKept | pinyin-to-zhuyin.js:307-314 | both neutral-tone passes copy a lone r and the non-letter after it, and go on after them |
| P2z.LoneRNoEdit | pinyin-to-zhuyin.js:307-314 | no neutral-tone match starts at a lone r before a non-letter |
| P2z.LoneRAlone | pinyin-to-zhuyin.js:307-314 | both neutral-tone passes keep a lone r |
| P2z.ErhuaStep | pinyin-to-zhuyin.js:290-292 | the erhua pass moves the number of `Xr<d>` before the r (not for `er<d>`), copies the non-letter after it and goes on |
| P2z.MovedErhuaStep | pinyin-to-zhuyin.js:307-314 | both neutral-tone passes copy `X<d>r` and the non-letter after it, and go on after them |
| P2z.MovedErhuaSpaceStep | pinyin-to-zhuyin.js:316-319 | the spacing pass copies `X<d>r` and the separator after it without a space before the r, and goes on after them |
| P2z.MovedErhuaPasses | pinyin-to-zhuyin.js:290-319 | the four passes turn `Xr<d>`, X not e, before a separator into `X<d>r`, and treat the rest as on its own |
| P2z.KeptErhuaPasses | pinyin-to-zhuyin.js:290-319 | the four passes keep `er<d>` before a separator, and treat the rest as on its own |
| P2z.MovedErhuaAlone | pinyin-to-zhuyin.js:290-319 | the four passes turn a lone `Xr<d>`, X not e, into `X<d>r` |
| P2z.KeptErhuaAlone | pinyin-to-zhuyin.js:290-319 | the four passes keep a lone `er<d>` |
| P2z.LowerErhua | pinyin-to-zhuyin.js:284 | a lower-case erhua word and its number are kept by lower-casing |
| P2z.MovedErhuaNumbered | pinyin-to-zhuyin.js:284-319 | in running text, `Xr<d>`, X not e, before the end or a separator becomes `X<d>r`, and the text after it is numbered as on its own |
| P2z.KeptErhuaNumbered | pinyin-to-zhuyin.js:284-319 | in running text, `er<d>` before the end or a separator is kept, and the text after it is numbered as on its own |
| P2z.ErhuaWordNumbered | pinyin-to-zhuyin.js:284-319 | in running text, an erhua word `Xr<d>` before the end or a separator becomes `X<d>r`, except `er<d>`, and the text after it is numbered as on its own |
| P2z.YiBarNumbered | pinyin-to-zhuyin.js:284-319 | `yi1 bar5` becomes `yi1 ba5r` |
| P2z.VowelWordOnly | pinyin-to-zhuyin.js:307-308 | the vowel-final pass gives a lone word ending in a vowel its 5 |
| P2z.NumberedOnly | pinyin-to-zhuyin.js:311-319 | a lone numbered word goes through the consonant-final and spacing passes as it is |
| P2z.ApostropheTonedNoMatch | pinyin-to-zhuyin.js:300-314 | an apostrophe before a numbered syllable is no boundary, so no consonant-final match starts before it |
| P2z.ApostropheVowelPass | pinyin-to-zhuyin.js:307-308 | the vowel-final pass numbers the word after an apostrophe, not the consonant-final word before it |
| P2z.ApostropheConsonantPass | pinyin-to-zhuyin.js:300-314 | the consonant-final pass then finds nothing to number |
| P2z.ApostropheSpacePass | pinyin-to-zhuyin.js:316-319 | nor does the spacing pass change anything |
| P2z.ApostropheBeforeToned | pinyin-to-zhuyin.js:290-319 | a consonant-final word, an apostrophe and a vowel-final word: only the second word gets a number |
| P2z.ApostropheBeforeTonedNumbered | pinyin-to-zhuyin.js:284-319 | the same after lower-casing |
| P2z.TianENumbered | pinyin-to-zhuyin.js:284-319 | `tian'e` becomes `tian'e5` |
| P2z.ToneGlyph | pinyin-to-zhuyin.js:286 | tone 1 has no glyph; every other tone has one tone glyph |
| P2z.KeyRules | pinyin-to-zhuyin.js:333-336 | one rule per key of `tones`, in the keys' order |
| P2z.MappingsAvoidV | pinyin-to-zhuyin.js:32-65 | no syllable mapping writes a v |
| P2z.CascadeRemovesV | pinyin-to-zhuyin.js:23-70 | v stands for ü: no v is left after the cascade, whatever the input |
| P2z.CascadeRemovesApostrophes | pinyin-to-zhuyin.js:69 | apostrophes become spaces: none is left after the cascade |
| P2z.ToneRulesAvoid | pinyin-to-zhuyin.js:328-337 | the tone rules write only the group, the dot and the glyphs |
| P2z.PunctuationAvoids | pinyin-to-zhuyin.js:339-345 | the punctuation rules write only ASCII punctuation |
| P2z.OutputAvoids | pinyin-to-zhuyin.js:328-347 | a character the cascade leaves out stays out of the output |
| P2z.NoVNorApostrophe | pinyin-to-zhuyin.js:321-347 | the output of `p2z` never holds a v or an apostrophe |
| P2z.JqxWuRewrite | pinyin-to-zhuyin.js:68 | `(ㄐ|ㄑ|ㄒ)ㄨ` to `$1ㄩ` leaves no ㄐ, ㄑ or ㄒ before ㄨ and keeps the first character |
| P2z.SwapsKeepNoJqxBeforeWu | pinyin-to-zhuyin.js:69 | swapping characters other than ㄐ, ㄑ, ㄒ and ㄨ does not create such a pair |
| P2z.CascadeNoJqxBeforeWu | pinyin-to-zhuyin.js:68-69 | after the cascade no ㄐ, ㄑ or ㄒ stands before ㄨ |
| P2z.NumbersNoJqxBeforeWu | pinyin-to-zhuyin.js:321-345 | with tone numbers the output of `p2z` holds no ㄐ, ㄑ or ㄒ before ㄨ |
| P2z.ToneRuleWithoutDigit | pinyin-to-zhuyin.js:333-336 | a tone rule changes nothing in text without a number |
| P2z.ToneRuleOnSyllable | pinyin-to-zhuyin.js:333-336 | on a syllable and its number, the rule for that number rewrites the pair and a rule for another number keeps it |
| P2z.ToneRulesWithoutDigit | pinyin-to-zhuyin.js:333-336 | a list of tone rules changes nothing in text without a number |
| P2z.ToneRulesShape | pinyin-to-zhuyin.js:328-337 | the tone rules are the neutral dot first, then one rule per key of `tones` in order |
| P2z.NeutralDotFirst | pinyin-to-zhuyin.js:330 | a syllable with 5 gets the dot before it, and the later rules find no number |
| P2z.GlyphAt | pinyin-to-zhuyin.js:333-336 | the rule for a number writes its glyph after the syllable; the rules before and after it keep the pair or the result |
| P2z.ToneMarkPlaced | pinyin-to-zhuyin.js:328-337 | with `tonemarks`, a syllable and its number become the syllable and its glyph (none for tone 1), and for tone 5 the dot goes before the syllable |
| P2z.ToneMarkReadsBack | pinyin-to-zhuyin.js:328-337 | the glyph placed for a number is read back as that number by the zhuyin-to-pinyin tone reading |
| P2z.GlyphReadsBack | pinyin-to-zhuyin.js:286 | each glyph of `tones`, and the leading dot for 5, reads back as its number under `toneMarkToNumber` |
| P2z.TransformAll | pinyin-to-zhuyin.js:321-326 | the nested loops over `bpmfTransforms` apply each group's rules in key order, group after group |
| P2z.MarkTones | pinyin-to-zhuyin.js:328-337 | the neutral-dot rule, then the loop over the keys of `tones`, apply the tone rules in order |
| P2z.KeyRulesFirst | pinyin-to-zhuyin.js:330 | before the loop only the neutral-dot rule has been applied |
| P2z.KeyRulesLast | pinyin-to-zhuyin.js:333-336 | after the last round every tone rule has been applied |
| P2z.KeyRulesStep | pinyin-to-zhuyin.js:333-336 | one round of the loop over the keys applies the next key's rule |
| P2z.P2zOf | pinyin-to-zhuyin.js:278-348 | `p2z`: lower-case, the four passes, the cascade, then the optional tone glyphs and punctuation; NoVNorApostrophe, NumbersNoJqxBeforeWu and ToneMarkPlaced state what it gives |
| P2z.P2z | pinyin-to-zhuyin.js:278-348 | `p2z` computes the conversion: lower-case, the four passes, the cascade, the optional tone glyphs and the optional punctuation |

## Left out

- The command-line wrappers `p2z.js` and `z2p.js`: argument parsing, file and
  standard-input reading, console output and `process.exit` are I/O.
- `marks-to-numbers.js` is not part of this model. It rests on Unicode
  normalisation, property classes and `Object.groupBy`.
- General JavaScript regular expressions: only the patterns the library uses
  are modelled, each as a matcher that follows the engine's alternation and
  backtracking order. The stateful `lastIndex` of the global patterns becomes
  an explicit position.
- Strings are sequences of Unicode scalar values rather than UTF-16 code units.
  Every character the patterns name is in the Basic Multilingual Plane, and
  only `toToneMarks` mixes the two kinds of index (next line).
- ToneMarks.ToToneMarks: the source finds the vowel to tone by UTF-16 index
  (`charAt`) and rebuilds the word by code point (`Array.from`). The model
  uses one index for both. A character outside the Basic Multilingual Plane
  before the vowel therefore differs: `😀a1` gives `😀a` in the source and
  `😀ā` here.
- P2z.Lower: folds the ASCII capitals, Ü, the marked capitals of the tone
  table and the Kelvin sign U+212A (to k). `toLowerCase` folds every other
  cased character too (Ç, Ж), which the model keeps. Those are outside every
  class the patterns name, so only those characters differ. İ (U+0130) is
  the exception: `toLowerCase` turns it into i and U+0307, and the passes
  then see the letter i, while the model keeps İ.
- ToneNumbers.Split: keeps the text between two words as one piece. The
  source's split may cut it into several pieces with empty words between
  them, which are returned unchanged, so the joined result is the same.
- P2z.ErhuaWordNumbered: stated before the end of the text or a separator.
  When an apostrophe follows the `r`, the spacing lookahead at
  pinyin-to-zhuyin.js:318 does not protect the `r`, and the model states
  nothing for that case.
- P2z.ConsonantWordNumbered: stated before the end of the text or a
  separator. Before an apostrophe the vowel-final pass may already have
  numbered the next syllable, and then the source gives the word no number
  (P2z.ApostropheBeforeToned: `tian'e` becomes `tian'e5`).
- ToneTable.FoldCase: the `i` flag is modelled only for the ASCII letters and
  Ü, the letters the case-insensitive patterns name.
- Option values are typed:
  - `tonemarks`, `convertPunctuation`, `showNeutralTone` and `apostrophes`
    are booleans or a three-way choice;
  - `erhuaTone` and `umlautMode` are compared as strings;
  - a missing `markNeutralTone` is `None`;
  - JavaScript truthiness of other values is not modelled.
- P2z.NumbersNoJqxBeforeWu: stated only for tone numbers. With tone marks
  the neutral dot is moved in front of a syllable, and no lemma covers that
  case.
- ToneNumbers.SyllableRoundTrip: stated for lower-case syllables only.
  `stripToneFromSyllable` lower-cases the marked vowel, so a capital toned
  vowel comes back in lower case.
- ToneMarks.TwoSyllables: the second syllable is taken to hold only vowels and
  n, g, r, so that it lands whole in the buffer after the first syllable's
  digit.
- Test files are not modelled; they are examples rather than behaviour.
