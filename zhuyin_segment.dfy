/**
 * The zhuyin tokenizer of pinyin-to-zhuyin.js: the `syllableMatcher` pattern
 * as a scanner that follows the regular expression's backtracking order,
 * `segmentBpmf`'s `exec` loop, which keeps the text between syllables as
 * tokens of its own, and `applyErhua`, which merges a bare ㄦ into the
 * syllable before it.
 */
module ZhuyinSegment {
  import opened Common

  // ---------------------------------------------------------------------
  // The syllable pattern `(?:(?:[initials]?finals)|[syllabic])[tones]?`
  // ---------------------------------------------------------------------

  /**
   * `bpmfFinals`: ten finals after ㄧ, eight after ㄨ and four after ㄩ, all
   * listed before the fifteen single symbols, so that at one position the
   * alternation tries the two-symbol final before the single one.
   */
  predicate IsCompoundFinal(x: char, y: char)
  {
    (x == 'ㄧ' && (y == 'ㄞ' || y == 'ㄠ' || y == 'ㄡ' || y == 'ㄚ' || y == 'ㄛ'
                   || y == 'ㄝ' || y == 'ㄢ' || y == 'ㄣ' || y == 'ㄤ' || y == 'ㄥ'))
    || (x == 'ㄨ' && (y == 'ㄣ' || y == 'ㄞ' || y == 'ㄟ' || y == 'ㄛ' || y == 'ㄚ'
                      || y == 'ㄢ' || y == 'ㄥ' || y == 'ㄤ'))
    || (x == 'ㄩ' && (y == 'ㄥ' || y == 'ㄣ' || y == 'ㄝ' || y == 'ㄢ'))
  }

  predicate IsSingleFinal(c: char)
  {
    c == 'ㄤ' || c == 'ㄥ' || c == 'ㄢ' || c == 'ㄣ' || c == 'ㄞ' || c == 'ㄟ' || c == 'ㄠ' || c == 'ㄡ'
    || c == 'ㄚ' || c == 'ㄛ' || c == 'ㄜ' || c == 'ㄦ' || c == 'ㄧ' || c == 'ㄨ' || c == 'ㄩ'
  }

  predicate IsFinal(t: string)
  {
    (|t| == 2 && IsCompoundFinal(t[0], t[1])) || (|t| == 1 && IsSingleFinal(t[0]))
  }

  /** `bpmfInitials`: ㄅ through ㄙ, which are consecutive code points. */
  predicate IsInitial(c: char) { 'ㄅ' <= c <= 'ㄙ' }

  /** `bpmfSyllabicOnly`: ㄓ through ㄙ. */
  predicate IsSyllabicOnly(c: char) { 'ㄓ' <= c <= 'ㄙ' }

  /** `bpmfTones`: the neutral dot and the marks of tones 2, 3 and 4. */
  predicate IsBpmfTone(c: char) { c == '˙' || c == 'ˊ' || c == 'ˇ' || c == 'ˋ' }

  /** A core the pattern accepts before its optional tone. */
  predicate IsCore(t: string)
  {
    IsFinal(t)
    || (|t| >= 2 && IsInitial(t[0]) && IsFinal(t[1..]))
    || (|t| == 1 && IsSyllabicOnly(t[0]))
  }

  /** A whole syllable: a core, then at most one tone glyph. */
  predicate IsSyllable(t: string)
  {
    exists c :: 0 < c <= |t| && IsCore(t[..c]) && (c == |t| || (c == |t| - 1 && IsBpmfTone(t[c])))
  }

  /** The ends of the finals that occur at `i`, in the alternation's order. */
  function FinalEnds(s: string, i: nat): (ends: seq<nat>)
    ensures forall e :: e in ends ==> i < e <= |s| && IsFinal(s[i..e])
  {
    (if i + 2 <= |s| && IsCompoundFinal(s[i], s[i + 1]) then [i + 2] else [])
    + (if i < |s| && IsSingleFinal(s[i]) then [i + 1] else [])
  }

  /** `[tones]?` after a core ending at `e`: greedy, so with the tone first. */
  function WithTone(s: string, e: nat): seq<nat>
  {
    if e < |s| && IsBpmfTone(s[e]) then [e + 1, e] else [e]
  }

  /** Each core end followed by its tone options, in order. */
  function ToneOptions(s: string, ends: seq<nat>): seq<nat>
  {
    if ends == [] then [] else WithTone(s, ends[0]) + ToneOptions(s, ends[1..])
  }

  /**
   * Every end position the pattern can reach from `p`, most preferred first:
   * an initial and a final, then a final alone, then a syllabic consonant,
   * each with and then without a tone.
   */
  function SyllableEnds(s: string, p: nat): seq<nat>
  {
    (if p < |s| && IsInitial(s[p]) then ToneOptions(s, FinalEnds(s, p + 1)) else [])
    + ToneOptions(s, FinalEnds(s, p))
    + (if p < |s| && IsSyllabicOnly(s[p]) then WithTone(s, p + 1) else [])
  }

  lemma {:induction false} ToneOptionsSyllables(s: string, p: nat, ends: seq<nat>, initial: bool)
    requires forall e :: e in ends ==> p + (if initial then 1 else 0) < e <= |s|
    requires forall e :: e in ends ==> IsCore(s[p..e])
    ensures forall e :: e in ToneOptions(s, ends) ==> p < e <= |s| && IsSyllable(s[p..e])
    decreases |ends|
  {
    if ends != [] {
      var e := ends[0];
      assert e in ends;
      assert s[p..e][..e - p] == s[p..e];
      assert IsSyllable(s[p..e]);
      if e < |s| && IsBpmfTone(s[e]) {
        assert s[p..e + 1][..e - p] == s[p..e];
        assert IsSyllable(s[p..e + 1]);
      }
      assert forall x :: x in ends[1..] ==> x in ends;
      ToneOptionsSyllables(s, p, ends[1..], initial);
    }
  }

  /** Every end the pattern can reach lies past `p`, and what it spans is a syllable. */
  lemma {:induction false} SyllableEndsShape(s: string, p: nat)
    ensures forall e :: e in SyllableEnds(s, p) ==> p < e <= |s| && IsSyllable(s[p..e])
  {
    var a := if p < |s| && IsInitial(s[p]) then ToneOptions(s, FinalEnds(s, p + 1)) else [];
    var b := ToneOptions(s, FinalEnds(s, p));
    var c := if p < |s| && IsSyllabicOnly(s[p]) then WithTone(s, p + 1) else [];
    var all := SyllableEnds(s, p);
    assert all == a + b + c;
    assert forall e :: e in a ==> p < e <= |s| && IsSyllable(s[p..e]) by {
      if p < |s| && IsInitial(s[p]) {
        var ends := FinalEnds(s, p + 1);
        forall e | e in ends
          ensures IsCore(s[p..e])
        {
          assert s[p..e][1..] == s[p + 1..e];
        }
        ToneOptionsSyllables(s, p, ends, true);
      }
    }
    assert forall e :: e in b ==> p < e <= |s| && IsSyllable(s[p..e]) by {
      ToneOptionsSyllables(s, p, FinalEnds(s, p), false);
    }
    assert forall e :: e in c ==> p < e <= |s| && IsSyllable(s[p..e]) by {
      if p < |s| && IsSyllabicOnly(s[p]) {
        assert IsCore(s[p..p + 1]) by {
          assert |s[p..p + 1]| == 1 && s[p..p + 1][0] == s[p];
        }
        ToneOptionsSyllables(s, p, [p + 1], false);
        assert ToneOptions(s, [p + 1]) == WithTone(s, p + 1) + ToneOptions(s, []);
        assert c == ToneOptions(s, [p + 1]);
      }
    }
    forall e | e in all
      ensures p < e <= |s| && IsSyllable(s[p..e])
    {
      assert e in a || e in b || e in c;
    }
  }

  /** Every tone option of every core end is on the list. */
  lemma {:induction false} ToneOptionsReach(s: string, ends: seq<nat>, e: nat)
    requires e in ends
    ensures forall x :: x in WithTone(s, e) ==> x in ToneOptions(s, ends)
    decreases |ends|
  {
    if ends[0] != e {
      assert e in ends[1..];
      ToneOptionsReach(s, ends[1..], e);
    }
  }

  /**
   * The converse of `SyllableEndsShape` at the start of the text: the end of
   * any syllable the text begins with is among the ends the pattern reaches.
   */
  lemma SyllableEndReached(s: string, t: string)
    requires IsSyllable(t) && t <= s
    ensures |t| in SyllableEnds(s, 0)
  {
    var c :| 0 < c <= |t| && IsCore(t[..c]) && (c == |t| || (c == |t| - 1 && IsBpmfTone(t[c])));
    assert s[..c] == t[..c];
    assert |t| in WithTone(s, c);
    if IsFinal(t[..c]) {
      assert s[0..c] == t[..c];
      assert c in FinalEnds(s, 0);
      ToneOptionsReach(s, FinalEnds(s, 0), c);
    } else if |t[..c]| >= 2 && IsInitial(t[0]) && IsFinal(t[..c][1..]) {
      assert s[1..c] == t[..c][1..];
      assert c in FinalEnds(s, 1);
      ToneOptionsReach(s, FinalEnds(s, 1), c);
    } else {
      assert c == 1 && IsSyllabicOnly(s[0]);
    }
  }

  /** A syllable holds zhuyin symbols (ㄅ to ㄩ) and tone glyphs only. */
  lemma SyllableSymbols(t: string)
    requires IsSyllable(t)
    ensures forall i :: 0 <= i < |t| ==> 'ㄅ' <= t[i] <= 'ㄩ' || IsBpmfTone(t[i])
  {
    var c :| 0 < c <= |t| && IsCore(t[..c]) && (c == |t| || (c == |t| - 1 && IsBpmfTone(t[c])));
    forall i | 0 <= i < c
      ensures 'ㄅ' <= t[i] <= 'ㄩ'
    {
      assert t[i] == t[..c][i];
    }
  }

  // ---------------------------------------------------------------------
  // segmentBpmf
  // ---------------------------------------------------------------------

  /** Where one `exec` of the global pattern matched. */
  datatype Found = Found(start: nat, end: nat)

  /** The end of the pattern's first successful path at `p`, if it has one. */
  function MatchEnd(s: string, p: nat): (e: Option<nat>)
    ensures e.Some? ==> p < e.value <= |s|
  {
    if SyllableEnds(s, p) == [] then None
    else
      SyllableEndsBounds(s, p);
      Some(SyllableEnds(s, p)[0])
  }

  lemma SyllableEndsBounds(s: string, p: nat)
    requires SyllableEnds(s, p) != []
    ensures p < SyllableEnds(s, p)[0] <= |s|
  {
    SyllableEndsShape(s, p);
    assert SyllableEnds(s, p)[0] in SyllableEnds(s, p);
  }

  /** The pattern as `exec` uses it: from a position to the end of the match there. */
  function Pattern(s: string): nat -> Option<nat>
  {
    (p: nat) => MatchEnd(s, p)
  }

  /**
   * `exec` from `lastIndex == from` in a text of length `n`: the first
   * position at which `at` matches (a reach outside the text is no match).
   */
  function Search(n: nat, at: nat -> Option<nat>, from: nat): (m: Option<Found>)
    ensures m.Some? ==> from <= m.value.start < m.value.end <= n
    decreases n - from
  {
    if from >= n then None
    else match at(from)
      case Some(e) => if from < e <= n then Some(Found(from, e)) else Search(n, at, from + 1)
      case None => Search(n, at, from + 1)
  }

  function NextMatch(s: string, from: nat): Option<Found>
  {
    Search(|s|, Pattern(s), from)
  }

  lemma {:induction false} SearchIsFirst(n: nat, at: nat -> Option<nat>, from: nat)
    ensures Search(n, at, from).Some? ==>
      var m := Search(n, at, from).value;
      at(m.start) == Some(m.end) && forall q :: from <= q < m.start ==> !(at(q).Some? && q < at(q).value <= n)
    ensures Search(n, at, from).None? ==> forall q :: from <= q < n ==> !(at(q).Some? && q < at(q).value <= n)
    decreases n - from
  {
    if from < n && !(at(from).Some? && from < at(from).value <= n) {
      SearchIsFirst(n, at, from + 1);
    }
  }

  /**
   * `exec` finds the first position where the pattern matches and a
   * syllable there; when it finds none, the pattern matches nowhere ahead.
   */
  lemma NextMatchIsFirst(s: string, from: nat)
    ensures NextMatch(s, from).Some? ==>
      var m := NextMatch(s, from).value;
      IsSyllable(s[m.start..m.end]) && forall q :: from <= q < m.start ==> SyllableEnds(s, q) == []
    ensures NextMatch(s, from).None? ==> forall q :: from <= q < |s| ==> SyllableEnds(s, q) == []
  {
    var at := Pattern(s);
    SearchIsFirst(|s|, at, from);
    var hi := if NextMatch(s, from).Some? then NextMatch(s, from).value.start else |s|;
    forall q | from <= q < hi
      ensures SyllableEnds(s, q) == []
    {
      assert at(q) == MatchEnd(s, q);
    }
    if NextMatch(s, from).Some? {
      var m := NextMatch(s, from).value;
      assert at(m.start) == MatchEnd(s, m.start);
      SyllableEndsShape(s, m.start);
      assert SyllableEnds(s, m.start)[0] in SyllableEnds(s, m.start);
    }
  }

  /** What one match pushes: the gap before it, if any, then the match. */
  function Piece(s: string, i: nat, m: Found): seq<string>
    requires i <= m.start <= m.end <= |s|
  {
    (if m.start > i then [s[i..m.start]] else []) + [s[m.start..m.end]]
  }

  /** The tokens `exec` leads to from position `i` on, before the erhua merge. */
  function Tokens(s: string, at: nat -> Option<nat>, i: nat): seq<string>
    requires i <= |s|
    decreases |s| - i
  {
    match Search(|s|, at, i)
    case None => if i < |s| then [s[i..]] else []
    case Some(m) => Piece(s, i, m) + Tokens(s, at, m.end)
  }

  lemma TokensStep(s: string, at: nat -> Option<nat>, i: nat, before: seq<string>)
    requires i <= |s| && Search(|s|, at, i).Some?
    ensures var m := Search(|s|, at, i).value;
      before + Tokens(s, at, i) == (before + Piece(s, i, m)) + Tokens(s, at, m.end)
  {
  }

  function Tokenize(s: string, i: nat): seq<string>
    requires i <= |s|
  {
    Tokens(s, Pattern(s), i)
  }

  /** Tokenizing loses nothing and makes no empty token. */
  lemma {:induction false} TokensJoin(s: string, at: nat -> Option<nat>, i: nat)
    requires i <= |s|
    ensures Concat(Tokens(s, at, i)) == s[i..]
    ensures forall k :: 0 <= k < |Tokens(s, at, i)| ==> Tokens(s, at, i)[k] != ""
    decreases |s| - i
  {
    match Search(|s|, at, i)
    case None =>
      if i < |s| { ConcatSingle(s[i..]); }
    case Some(m) =>
      var gap := if m.start > i then [s[i..m.start]] else [];
      var rest := Tokens(s, at, m.end);
      TokensJoin(s, at, m.end);
      assert Tokens(s, at, i) == gap + [s[m.start..m.end]] + rest;
      ConcatAppend(gap + [s[m.start..m.end]], rest);
      ConcatAppend(gap, [s[m.start..m.end]]);
      ConcatSingle(s[m.start..m.end]);
      if m.start > i { ConcatSingle(s[i..m.start]); }
      SliceSplit(s, i, m.start);
      SliceSplit(s, m.start, m.end);
      JoinAssoc(s[i..m.start], s[m.start..m.end], s[m.end..]);
  }

  lemma SliceSplit(s: string, a: nat, b: nat)
    requires a <= b <= |s|
    ensures s[a..] == s[a..b] + s[b..]
  {
  }

  lemma JoinAssoc(a: string, b: string, c: string)
    ensures (a + b) + c == a + (b + c)
  {
  }

  /** The exec loop of `segmentBpmf`, before `applyErhua`. */
  method SplitSyllables(str: string) returns (out: seq<string>)
    ensures out == Tokenize(str, 0)
  {
    out := [];
    var i := 0;
    var m := NextMatch(str, i);
    ghost var whole := Tokenize(str, 0);
    assert out + whole == whole;
    while m.Some?
      invariant i <= |str| && m == Search(|str|, Pattern(str), i)
      invariant out + Tokenize(str, i) == whole
      decreases |str| - i
    {
      var found := m.value;
      ghost var before := out;
      if found.start > i {
        out := out + [str[i..found.start]];
      }
      out := out + [str[found.start..found.end]];
      assert out + Tokenize(str, found.end) == before + Tokenize(str, i) by {
        assert out == before + Piece(str, i, found);
        TokensStep(str, Pattern(str), i, before);
      }
      i := found.end;
      m := NextMatch(str, i);
    }
    ghost var rest := Tokenize(str, i);
    if i < |str| {
      assert rest == [str[i..]];
      out := out + [str[i..]];
    } else {
      assert rest == [];
      assert out + [] == out;
    }
  }

  /** `segmentBpmf`: tokenize, then merge bare ㄦ. */
  method SegmentBpmf(str: string) returns (tokens: seq<string>)
    ensures tokens == SegmentOf(str)
  {
    var out := SplitSyllables(str);
    tokens := ApplyErhua(out);
  }

  function SegmentOf(str: string): seq<string>
  {
    ErhuaFold(Tokenize(str, 0))
  }

  /** Segmenting gives back the text when joined, in non-empty tokens. */
  lemma SegmentJoins(str: string)
    ensures Concat(SegmentOf(str)) == str
    ensures forall k :: 0 <= k < |SegmentOf(str)| ==> SegmentOf(str)[k] != ""
  {
    TokensJoin(str, Pattern(str), 0);
    ErhuaKeepsText(Tokenize(str, 0));
    ErhuaKeepsNonEmpty(Tokenize(str, 0));
  }

  // ---------------------------------------------------------------------
  // applyErhua
  // ---------------------------------------------------------------------

  /** `/ㄦ(?:[˙ˊˇˋ])?$/`: the token already ends in ㄦ, toned or not. */
  predicate EndsWithEr(t: string)
  {
    (|t| >= 1 && t[|t| - 1] == 'ㄦ') || (|t| >= 2 && t[|t| - 2] == 'ㄦ' && IsBpmfTone(t[|t| - 1]))
  }

  /** The reducer: a bare ㄦ joins a non-empty previous token that does not end in ㄦ. */
  predicate Merges(acc: seq<string>, t: string)
  {
    t == "ㄦ" && |acc| > 0 && acc[|acc| - 1] != "" && !EndsWithEr(acc[|acc| - 1])
  }

  function MergeErhua(acc: seq<string>, t: string): seq<string>
  {
    if Merges(acc, t) then acc[..|acc| - 1] + [acc[|acc| - 1] + "ㄦ"] else acc + [t]
  }

  function ErhuaFold(tokens: seq<string>): seq<string>
  {
    if tokens == [] then []
    else MergeErhua(ErhuaFold(tokens[..|tokens| - 1]), tokens[|tokens| - 1])
  }

  method ApplyErhua(tokens: seq<string>) returns (acc: seq<string>)
    ensures acc == ErhuaFold(tokens)
  {
    acc := [];
    for k := 0 to |tokens|
      invariant acc == ErhuaFold(tokens[..k])
    {
      assert tokens[..k + 1][..k] == tokens[..k];
      var t := tokens[k];
      if t == "ㄦ" && |acc| > 0 {
        var prev := acc[|acc| - 1];
        if prev != "" && !EndsWithEr(prev) {
          acc := acc[|acc| - 1 := prev + "ㄦ"];
          assert acc == MergeErhua(ErhuaFold(tokens[..k]), t);
          continue;
        }
      }
      acc := acc + [t];
    }
    assert tokens[..|tokens|] == tokens;
  }

  lemma MergeKeepsText(acc: seq<string>, t: string)
    ensures Concat(MergeErhua(acc, t)) == Concat(acc) + t
  {
    if Merges(acc, t) {
      var n := |acc|;
      assert acc == acc[..n - 1] + [acc[n - 1]];
      ConcatAppend(acc[..n - 1], [acc[n - 1]]);
      ConcatAppend(acc[..n - 1], [acc[n - 1] + "ㄦ"]);
      ConcatSingle(acc[n - 1]);
      ConcatSingle(acc[n - 1] + "ㄦ");
    } else {
      ConcatAppend(acc, [t]);
      ConcatSingle(t);
    }
  }

  /** Merging only joins neighbours: the text is unchanged. */
  lemma {:induction false} ErhuaKeepsText(tokens: seq<string>)
    ensures Concat(ErhuaFold(tokens)) == Concat(tokens)
  {
    if tokens != [] {
      var n := |tokens|;
      ErhuaKeepsText(tokens[..n - 1]);
      MergeKeepsText(ErhuaFold(tokens[..n - 1]), tokens[n - 1]);
      assert tokens == tokens[..n - 1] + [tokens[n - 1]];
      ConcatAppend(tokens[..n - 1], [tokens[n - 1]]);
      ConcatSingle(tokens[n - 1]);
    }
  }

  /** Merging never makes an empty token out of non-empty ones. */
  lemma {:induction false} ErhuaKeepsNonEmpty(tokens: seq<string>)
    requires forall k :: 0 <= k < |tokens| ==> tokens[k] != ""
    ensures forall k :: 0 <= k < |ErhuaFold(tokens)| ==> ErhuaFold(tokens)[k] != ""
  {
    if tokens != [] {
      var n := |tokens|;
      ErhuaKeepsNonEmpty(tokens[..n - 1]);
    }
  }

  /**
   * A bare ㄦ is folded into the token before it exactly when that token is
   * non-empty and does not already end in ㄦ; otherwise it is kept as a token.
   */
  lemma BareErMerges(tokens: seq<string>)
    ensures var before := ErhuaFold(tokens);
      var after := ErhuaFold(tokens + ["ㄦ"]);
      if before != [] && before[|before| - 1] != "" && !EndsWithEr(before[|before| - 1])
      then |after| == |before| && after[|after| - 1] == before[|before| - 1] + "ㄦ"
           && after[..|after| - 1] == before[..|before| - 1]
      else after == before + ["ㄦ"]
  {
    assert (tokens + ["ㄦ"])[..|tokens|] == tokens;
  }

  /** A toned ㄦ always stays a syllable of its own. */
  lemma TonedErStays(tokens: seq<string>, tone: char)
    requires IsBpmfTone(tone)
    ensures ErhuaFold(tokens + ["ㄦ" + [tone]]) == ErhuaFold(tokens) + ["ㄦ" + [tone]]
  {
    assert (tokens + ["ㄦ" + [tone]])[..|tokens|] == tokens;
    assert "ㄦ" + [tone] != "ㄦ" by { assert |"ㄦ" + [tone]| == 2; }
  }
}
