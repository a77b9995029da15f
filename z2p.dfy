/**
 * `z2p` in pinyin-to-zhuyin.js: a whole zhuyin text to pinyin. The text is
 * segmented, every token holding a zhuyin symbol is converted as one
 * syllable, an apostrophe may separate a syllable beginning with a, o or e
 * from the syllable before it, and the tone numbers are finally turned into
 * tone marks unless numbers were asked for.
 */
module Z2p {
  import opened Common
  import opened ZhuyinSegment
  import opened Rules
  import opened ZhuyinSyllable
  import ToneMarks

  /** The `apostrophes` option: `true`, `"auto"`, or any other value, which turns them off. */
  datatype Apostrophes = Always | Auto | Never

  /** The options of `z2p`; an absent `markNeutralTone` defaults to the opposite of `tonemarks`. */
  datatype Z2pOptions = Z2pOptions(
    erhuaTone: string,
    umlautMode: string,
    tonemarks: bool,
    markNeutralTone: Option<bool>,
    apostrophes: Apostrophes)

  const DefaultOptions: Z2pOptions := Z2pOptions("after-r", "collapse-nl-uan", true, None, Auto)

  function MarkNeutral(o: Z2pOptions): bool
  {
    match o.markNeutralTone
    case Some(b) => b
    case None => !o.tonemarks
  }

  /** `addApos`. */
  predicate AddApostrophes(o: Z2pOptions)
  {
    o.apostrophes == Always || (o.apostrophes == Auto && o.tonemarks)
  }

  function SyllableOpts(o: Z2pOptions): SyllableOptions
  {
    SyllableOptions(MarkNeutral(o), o.erhuaTone, o.umlautMode)
  }

  /** The class `[ㄅ-ㄩ˙ˊˇˋ]`. */
  predicate IsZhuyinChar(c: char)
  {
    'ㄅ' <= c <= 'ㄩ' || IsBpmfTone(c)
  }

  /** Whether a token is converted as a syllable. */
  function HasZhuyin(t: string): (b: bool)
    ensures b <==> exists i :: 0 <= i < |t| && IsZhuyinChar(t[i])
  {
    if t == [] then false
    else if IsZhuyinChar(t[0]) then true
    else
      assert forall i :: 1 <= i < |t| ==> t[i] == t[1..][i - 1];
      HasZhuyin(t[1..])
  }

  /** `/^[aoe]/i`. */
  predicate StartsAoe(py: string)
  {
    |py| > 0 && (py[0] == 'a' || py[0] == 'o' || py[0] == 'e' || py[0] == 'A' || py[0] == 'O' || py[0] == 'E')
  }

  /** The syllable converter under the given options. */
  function Pinyin(so: SyllableOptions): string -> string
  {
    (t: string) => SyllableToPinyin(t, so)
  }

  /**
   * The pieces one token contributes, given whether the token before it was
   * a syllable; `pinyin` converts one syllable.
   */
  function PieceFor(token: string, prevSyllable: bool, addApos: bool, pinyin: string -> string): seq<string>
  {
    if HasZhuyin(token) then
      var py := pinyin(token);
      if addApos && prevSyllable && StartsAoe(py) then ["'", py] else [py]
    else [token]
  }

  /** The pieces of a token list, built left to right. */
  function Pieces(tokens: seq<string>, addApos: bool, pinyin: string -> string): seq<string>
  {
    if tokens == [] then []
    else
      var front := tokens[..|tokens| - 1];
      Pieces(front, addApos, pinyin)
      + PieceFor(tokens[|tokens| - 1], front != [] && HasZhuyin(front[|front| - 1]), addApos, pinyin)
  }

  /** ・ read as a space, character by character; `NormalizeSpaces` shows `replace` does this. */
  function Normalize(text: string): string
  {
    SubstChar(text, '・', " ")
  }

  /** The output with tone numbers, before any switch to tone marks. */
  function Z2pNumbers(text: string, o: Z2pOptions): string
  {
    Concat(Pieces(SegmentOf(Normalize(text)), AddApostrophes(o), Pinyin(SyllableOpts(o))))
  }

  function Z2pOf(text: string, o: Z2pOptions): string
  {
    var nums := Z2pNumbers(text, o);
    if o.tonemarks then ToneMarks.ToneMarksOf(nums, false) else nums
  }

  /** The loop of `z2p` over the tokens, with `prevWasSyllable` carried along. */
  method BuildPieces(tokens: seq<string>, addApos: bool, so: SyllableOptions) returns (pieces: seq<string>)
    ensures pieces == Pieces(tokens, addApos, Pinyin(so))
  {
    pieces := [];
    var prevWasSyllable := false;
    for k := 0 to |tokens|
      invariant pieces == Pieces(tokens[..k], addApos, Pinyin(so))
      invariant prevWasSyllable == (k > 0 && HasZhuyin(tokens[k - 1]))
    {
      assert tokens[..k + 1][..k] == tokens[..k];
      var token := tokens[k];
      if HasZhuyin(token) {
        var pyNum := Pinyin(so)(token);
        if addApos && prevWasSyllable && StartsAoe(pyNum) {
          pieces := pieces + ["'"];
        }
        pieces := pieces + [pyNum];
        prevWasSyllable := true;
      } else {
        pieces := pieces + [token];
        prevWasSyllable := false;
      }
    }
    assert tokens[..|tokens|] == tokens;
  }

  /** `z2p`. */
  method Z2p(zhuyin: string, options: Z2pOptions) returns (out: string)
    ensures out == Z2pOf(zhuyin, options)
  {
    var normalized := Replace(zhuyin, Rule(Literal("・"), " "));
    NormalizeSpaces(zhuyin);
    var tokens := SegmentBpmf(normalized);
    var addApos := options.apostrophes == Always || (options.apostrophes == Auto && options.tonemarks);
    var pieces := BuildPieces(tokens, addApos, SyllableOpts(options));
    var outNums := Concat(pieces);
    if options.tonemarks {
      out := ToneMarks.ToToneMarks(outNums, false);
    } else {
      out := outNums;
    }
  }

  // ---------------------------------------------------------------------
  // What z2p promises
  // ---------------------------------------------------------------------

  /** `zhuyin.replace(/・/g, " ")` turns each ・ into a space, so none is left. */
  lemma NormalizeSpaces(text: string)
    ensures Replace(text, Rule(Literal("・"), " ")) == Normalize(text)
    ensures '・' !in Normalize(text)
  {
    RewriteRemoves(text, '・', " ", 0);
    CharRewrite(text, '・', " ", 0);
    assert text[0..] == text;
  }

  /** The conversion of one token on its own, without apostrophes. */
  function Convert(token: string, pinyin: string -> string): string
  {
    if HasZhuyin(token) then pinyin(token) else token
  }

  /** Without apostrophes, every token becomes exactly one piece: its own conversion. */
  lemma {:induction false} PiecesWithoutApostrophes(tokens: seq<string>, pinyin: string -> string)
    ensures |Pieces(tokens, false, pinyin)| == |tokens|
    ensures forall k :: 0 <= k < |tokens| ==> Pieces(tokens, false, pinyin)[k] == Convert(tokens[k], pinyin)
  {
    if tokens != [] {
      PiecesWithoutApostrophes(tokens[..|tokens| - 1], pinyin);
    }
  }

  /** The pieces other than a lone apostrophe. */
  function DropApostrophes(pieces: seq<string>): seq<string>
  {
    if pieces == [] then []
    else DropApostrophes(pieces[..|pieces| - 1]) + (if pieces[|pieces| - 1] == "'" then [] else [pieces[|pieces| - 1]])
  }

  function CountApostrophes(pieces: seq<string>): nat
  {
    if pieces == [] then 0
    else CountApostrophes(pieces[..|pieces| - 1]) + (if pieces[|pieces| - 1] == "'" then 1 else 0)
  }

  /** How many adjacent pairs of syllable tokens there are whose second syllable begins with a, o or e. */
  function VowelJoins(tokens: seq<string>, pinyin: string -> string): nat
  {
    if |tokens| < 2 then 0
    else
      var n := |tokens|;
      VowelJoins(tokens[..n - 1], pinyin)
      + (if HasZhuyin(tokens[n - 2]) && HasZhuyin(tokens[n - 1]) && StartsAoe(pinyin(tokens[n - 1]))
         then 1 else 0)
  }

  lemma {:induction false} DropApostrophesAppend(a: seq<string>, b: seq<string>)
    ensures DropApostrophes(a + b) == DropApostrophes(a) + DropApostrophes(b)
    ensures CountApostrophes(a + b) == CountApostrophes(a) + CountApostrophes(b)
    decreases |b|
  {
    if b == [] {
      assert a + b == a;
    } else {
      assert (a + b)[..|a + b| - 1] == a + b[..|b| - 1];
      DropApostrophesAppend(a, b[..|b| - 1]);
    }
  }

  /**
   * Apostrophes are the only thing the option adds: dropping them gives the
   * pieces without apostrophes, and there is exactly one more for every
   * pair of adjacent syllables whose second one begins with a, o or e.
   */
  lemma {:induction false} ApostrophesOnlyAdded(tokens: seq<string>, pinyin: string -> string)
    ensures DropApostrophes(Pieces(tokens, true, pinyin)) == DropApostrophes(Pieces(tokens, false, pinyin))
    ensures CountApostrophes(Pieces(tokens, true, pinyin)) == CountApostrophes(Pieces(tokens, false, pinyin)) + VowelJoins(tokens, pinyin)
  {
    if tokens != [] {
      var front, last := tokens[..|tokens| - 1], tokens[|tokens| - 1];
      var prev := front != [] && HasZhuyin(front[|front| - 1]);
      var on, off := PieceFor(last, prev, true, pinyin), PieceFor(last, prev, false, pinyin);
      var pt, pf := Pieces(front, true, pinyin), Pieces(front, false, pinyin);
      assert DropApostrophes(pt) == DropApostrophes(pf)
          && CountApostrophes(pt) == CountApostrophes(pf) + VowelJoins(front, pinyin) by {
        ApostrophesOnlyAdded(front, pinyin);
      }
      var join := if prev && HasZhuyin(last) && StartsAoe(pinyin(last)) then 1 else 0;
      assert DropApostrophes(on) == DropApostrophes(off)
          && CountApostrophes(on) == CountApostrophes(off) + join by {
        PieceApostrophes(last, prev, pinyin);
      }
      assert VowelJoins(tokens, pinyin) == VowelJoins(front, pinyin) + join by {
        if |tokens| >= 2 {
          assert tokens[|tokens| - 2] == front[|front| - 1];
        }
      }
      DropApostrophesAppend(pt, on);
      DropApostrophesAppend(pf, off);
    }
  }

  /** One token's pieces with and without the apostrophe option. */
  lemma PieceApostrophes(token: string, prev: bool, pinyin: string -> string)
    ensures DropApostrophes(PieceFor(token, prev, true, pinyin)) == DropApostrophes(PieceFor(token, prev, false, pinyin))
    ensures CountApostrophes(PieceFor(token, prev, true, pinyin))
      == CountApostrophes(PieceFor(token, prev, false, pinyin))
         + (if prev && HasZhuyin(token) && StartsAoe(pinyin(token)) then 1 else 0)
  {
    var on, off := PieceFor(token, prev, true, pinyin), PieceFor(token, prev, false, pinyin);
    if on != off {
      assert on == ["'"] + off;
      DropApostrophesAppend(["'"], off);
      assert DropApostrophes(["'"]) == [];
      assert CountApostrophes(["'"]) == 1;
    }
  }

  /** Strings joined without a zhuyin symbol had none to begin with. */
  lemma {:induction false} ConcatPlain(parts: seq<string>)
    requires forall i :: 0 <= i < |Concat(parts)| ==> !IsZhuyinChar(Concat(parts)[i])
    ensures forall k :: 0 <= k < |parts| ==> !HasZhuyin(parts[k])
    decreases |parts|
  {
    if parts != [] {
      var front, last := parts[..|parts| - 1], parts[|parts| - 1];
      var whole := Concat(parts);
      assert whole == Concat(front) + last;
      assert forall i :: 0 <= i < |Concat(front)| ==> Concat(front)[i] == whole[i];
      assert forall i :: 0 <= i < |last| ==> last[i] == whole[|Concat(front)| + i];
      ConcatPlain(front);
      assert forall k :: 0 <= k < |front| ==> parts[k] == front[k];
    }
  }

  /** Without a token to convert, the pieces are the tokens themselves. */
  lemma {:induction false} PlainPieces(tokens: seq<string>, addApos: bool, pinyin: string -> string)
    requires forall k :: 0 <= k < |tokens| ==> !HasZhuyin(tokens[k])
    ensures Pieces(tokens, addApos, pinyin) == tokens
  {
    if tokens != [] {
      var front := tokens[..|tokens| - 1];
      var last := tokens[|tokens| - 1];
      PlainPieces(front, addApos, pinyin);
      assert PieceFor(last, front != [] && HasZhuyin(front[|front| - 1]), addApos, pinyin) == [last];
      assert front + [last] == tokens;
    }
  }

  /** Segmenting and converting text without a zhuyin symbol gives the text back. */
  lemma {:induction false} PlainTextKept(s: string, addApos: bool, pinyin: string -> string)
    requires forall i :: 0 <= i < |s| ==> !IsZhuyinChar(s[i])
    ensures Concat(Pieces(SegmentOf(s), addApos, pinyin)) == s
  {
    SegmentJoins(s);
    ConcatPlain(SegmentOf(s));
    PlainPieces(SegmentOf(s), addApos, pinyin);
  }

  /** Text without any zhuyin symbol comes out as it went in, with ・ read as a space. */
  lemma {:induction false} NoZhuyinPassesThrough(text: string, o: Z2pOptions)
    requires forall i :: 0 <= i < |text| ==> !IsZhuyinChar(text[i])
    ensures Z2pNumbers(text, o) == SubstChar(text, '・', " ")
  {
    SubstCharKeeps(text, '・', " ");
    PlainTextKept(SubstChar(text, '・', " "), AddApostrophes(o), Pinyin(SyllableOpts(o)));
  }

  /** Substituting a space for ・ adds no zhuyin symbol. */
  lemma {:induction false} SubstCharKeeps(s: string, c: char, rep: string)
    requires forall i :: 0 <= i < |s| ==> !IsZhuyinChar(s[i])
    requires rep == " "
    ensures forall i :: 0 <= i < |SubstChar(s, c, rep)| ==> !IsZhuyinChar(SubstChar(s, c, rep)[i])
    decreases |s|
  {
    if s != [] {
      SubstCharKeeps(s[1..], c, rep);
      assert !IsZhuyinChar(s[0]);
      var head := if s[0] == c then rep else [s[0]];
      var r := SubstChar(s, c, rep);
      assert r == head + SubstChar(s[1..], c, rep);
      assert forall i :: 0 <= i < |head| ==> r[i] == head[i];
      assert forall i :: |head| <= i < |r| ==> r[i] == SubstChar(s[1..], c, rep)[i - |head|];
    }
  }
}
