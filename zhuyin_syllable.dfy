/**
 * `bpmfSyllableToPinyin` in pinyin-to-zhuyin.js: one segmented zhuyin
 * syllable to pinyin with a tone number, by the bucketed transform rules.
 */
module ZhuyinSyllable {
  import opened Common
  import opened ToneTable
  import opened ZhuyinSegment
  import opened Rules
  import opened ZhuyinToPinyin

  /** The options `z2p` passes down for one syllable. */
  datatype SyllableOptions = SyllableOptions(markNeutralTone: bool, erhuaTone: string, umlautMode: string)

  /** The first tone glyph of the syllable, as `zh.match(/[˙ˊˇˋ]/)` finds it. */
  function FirstTone(zh: string): (t: Option<char>)
    ensures t.Some? ==> IsBpmfTone(t.value) && t.value in zh
    ensures t.None? ==> forall i :: 0 <= i < |zh| ==> !IsBpmfTone(zh[i])
  {
    if zh == [] then None
    else if IsBpmfTone(zh[0]) then Some(zh[0])
    else FirstTone(zh[1..])
  }

  /** `toneMarkToNumber`, with no mark meaning the first tone. */
  function ToneNumber(t: Option<char>): (n: string)
    ensures |n| == 1 && IsToneDigit(n[0])
    ensures (n == "1") == (t.None? || !IsBpmfTone(t.value))
  {
    match t
    case None => "1"
    case Some(c) =>
      if c == 'ˊ' then "2" else if c == 'ˇ' then "3" else if c == 'ˋ' then "4" else if c == '˙' then "5" else "1"
  }

  /** The tone number as written in the output: `5` disappears when the neutral tone is hidden. */
  function ShownTone(n: string, markNeutralTone: bool): string
  {
    if n == "5" && !markNeutralTone then "" else n
  }

  /** The syllable's tone as written in the output. */
  function ToneString(zh: string, markNeutralTone: bool): string
  {
    ShownTone(ToneNumber(FirstTone(zh)), markNeutralTone)
  }

  /** `zh.replace(/[˙ˊˇˋ]/g, "")`. */
  function StripTones(s: string): (r: string)
    ensures forall i :: 0 <= i < |r| ==> !IsBpmfTone(r[i])
    ensures |r| <= |s|
  {
    if s == [] then [] else (if IsBpmfTone(s[0]) then [] else [s[0]]) + StripTones(s[1..])
  }

  /** The syllabic consonants that stand alone, with their spelled-out pinyin. */
  function SyllabicBase(core: string): Option<string>
  {
    if core == "ㄓ" then Some("zhi") else if core == "ㄔ" then Some("chi")
    else if core == "ㄕ" then Some("shi") else if core == "ㄖ" then Some("ri")
    else if core == "ㄗ" then Some("zi") else if core == "ㄘ" then Some("ci")
    else if core == "ㄙ" then Some("si") else None
  }

  /** `hasInitial`. */
  predicate HasInitial(core: string)
  {
    |core| > 0 && IsInitial(core[0])
  }

  /** The transform-driven mapping of a toneless core, with the optional n/l collapse. */
  function CorePinyin(core: string, umlautMode: string): string
  {
    var py :=
      if HasInitial(core) then ApplyAll(ApplyAll(core, FinalRules), InitialRules)
      else ApplyAll(ApplyAll(core, NoInitialRules), FinalRules);
    if umlautMode == "collapse-nl-uan" then ApplyAll(py, CollapseRules) else py
  }

  /** Appends the tone and, for an erhua syllable, the `r` on the chosen side of it. */
  function Attach(py: string, tone: string, hasErhua: bool, erhuaTone: string): string
  {
    if !hasErhua then py + tone
    else if erhuaTone == "after-r" then py + "r" + tone
    else py + tone + "r"
  }

  /** A trailing ㄦ marks erhua. */
  predicate EndsInEr(letters: string)
  {
    |letters| > 0 && letters[|letters| - 1] == 'ㄦ'
  }

  /** The core the mapping sees: the toneless letters without an erhua ㄦ. */
  function DropEr(letters: string): string
  {
    if EndsInEr(letters) then letters[..|letters| - 1] else letters
  }

  /** The pinyin of the core, before tone and erhua are attached. */
  function Stem(letters: string, umlautMode: string): string
  {
    match SyllabicBase(DropEr(letters))
    case Some(base) => base
    case None => CorePinyin(DropEr(letters), umlautMode)
  }

  /** The body of `bpmfSyllableToPinyin` once the tone and the toneless letters are known. */
  function FromParts(tone: string, letters: string, opts: SyllableOptions): string
  {
    if letters == "ㄦ" then "er" + tone
    else Attach(Stem(letters, opts.umlautMode), tone, EndsInEr(letters), opts.erhuaTone)
  }

  /** `bpmfSyllableToPinyin`. */
  function SyllableToPinyin(zh: string, opts: SyllableOptions): string
  {
    FromParts(ToneString(zh, opts.markNeutralTone), StripTones(zh), opts)
  }

  // ---------------------------------------------------------------------
  // Tones
  // ---------------------------------------------------------------------

  lemma {:induction false} FirstToneAppend(a: string, b: string)
    requires forall i :: 0 <= i < |a| ==> !IsBpmfTone(a[i])
    ensures FirstTone(a + b) == FirstTone(b)
    decreases |a|
  {
    if a == [] {
      assert a + b == b;
    } else {
      assert (a + b)[0] == a[0] && !IsBpmfTone(a[0]);
      assert (a + b)[1..] == a[1..] + b;
      assert forall i :: 0 <= i < |a[1..]| ==> a[1..][i] == a[i + 1];
      FirstToneAppend(a[1..], b);
    }
  }

  lemma {:induction false} StripTonesAppend(a: string, b: string)
    ensures StripTones(a + b) == StripTones(a) + StripTones(b)
    decreases |a|
  {
    if a == [] {
      assert a + b == b;
    } else {
      assert (a + b)[0] == a[0];
      assert (a + b)[1..] == a[1..] + b;
      StripTonesAppend(a[1..], b);
    }
  }

  lemma {:induction false} StripTonesPlain(s: string)
    requires forall i :: 0 <= i < |s| ==> !IsBpmfTone(s[i])
    ensures StripTones(s) == s
    decreases |s|
  {
    if s != [] {
      StripTonesPlain(s[1..]);
      assert s == [s[0]] + s[1..];
    }
  }

  /** When several tone glyphs occur, the first one decides the tone. */
  lemma {:induction false} FirstGlyphWins(a: string, g: char, b: string)
    requires forall i :: 0 <= i < |a| ==> !IsBpmfTone(a[i])
    requires IsBpmfTone(g)
    ensures FirstTone(a + [g] + b) == Some(g)
  {
    assert a + [g] + b == a + ([g] + b);
    FirstToneAppend(a, [g] + b);
  }

  /** Where the tone glyph stands in the syllable does not change the pinyin. */
  lemma {:induction false} ToneGlyphAnywhere(a: string, g: char, b: string, opts: SyllableOptions)
    requires forall i :: 0 <= i < |a| ==> !IsBpmfTone(a[i])
    requires forall i :: 0 <= i < |b| ==> !IsBpmfTone(b[i])
    requires IsBpmfTone(g)
    ensures SyllableToPinyin(a + [g] + b, opts) == SyllableToPinyin(a + b + [g], opts)
  {
    var x, y := a + [g] + b, a + b + [g];
    assert FirstTone(x) == Some(g) by {
      FirstGlyphWins(a, g, b);
    }
    assert FirstTone(y) == Some(g) by {
      assert y == a + (b + [g]);
      FirstToneAppend(a, b + [g]);
      FirstGlyphWins(b, g, []);
      assert b + [g] + [] == b + [g];
    }
    assert StripTones(x) == StripTones(y) by {
      assert StripTones([g]) == [];
      calc {
        StripTones(x);
        { StripTonesAppend(a + [g], b); }
        StripTones(a + [g]) + StripTones(b);
        { StripTonesAppend(a, [g]); }
        StripTones(a) + StripTones(b);
        { StripTonesAppend(a, b); }
        StripTones(a + b);
        { StripTonesAppend(a + b, [g]); }
        StripTones(y);
      }
    }
  }

  /**
   * Hiding the neutral tone only drops its `5`: the hidden form is the
   * marked form with that one digit taken out, and no other tone is touched.
   */
  lemma {:induction false} NeutralHidden(zh: string, opts: SyllableOptions)
    ensures var marked := SyllableToPinyin(zh, opts.(markNeutralTone := true));
            var hidden := SyllableToPinyin(zh, opts.(markNeutralTone := false));
            if FirstTone(zh) == Some('˙')
            then exists x, y :: marked == x + "5" + y && hidden == x + y && (y == "" || y == "r")
            else marked == hidden
  {
    var letters := StripTones(zh);
    var o1, o0 := opts.(markNeutralTone := true), opts.(markNeutralTone := false);
    if FirstTone(zh) == Some('˙') {
      assert ToneString(zh, true) == "5" && ToneString(zh, false) == "";
      assert Stem(letters, o1.umlautMode) == Stem(letters, o0.umlautMode);
      if letters == "ㄦ" {
        assert FromParts("5", letters, o1) == "er" + "5" + "";
        assert FromParts("", letters, o0) == "er" + "";
      } else {
        AttachHidden(Stem(letters, opts.umlautMode), EndsInEr(letters), opts.erhuaTone);
      }
    } else {
      assert ToneString(zh, true) == ToneString(zh, false);
    }
  }

  /** Attaching no tone instead of `5` drops that one digit, before an erhua `r` or at the end. */
  lemma AttachHidden(py: string, hasErhua: bool, erhuaTone: string)
    ensures exists x, y :: Attach(py, "5", hasErhua, erhuaTone) == x + "5" + y
                           && Attach(py, "", hasErhua, erhuaTone) == x + y && (y == "" || y == "r")
  {
    if !hasErhua {
      assert Attach(py, "5", hasErhua, erhuaTone) == py + "5" + "";
      assert Attach(py, "", hasErhua, erhuaTone) == py + "";
    } else if erhuaTone == "after-r" {
      assert Attach(py, "5", hasErhua, erhuaTone) == (py + "r") + "5" + "";
      assert Attach(py, "", hasErhua, erhuaTone) == (py + "r") + "";
    } else {
      assert Attach(py, "5", hasErhua, erhuaTone) == py + "5" + "r";
      assert Attach(py, "", hasErhua, erhuaTone) == py + "r";
    }
  }

  /** `ㄦ` with each tone glyph: `er1` to `er4`, and `er5` or bare `er` for the neutral tone. */
  lemma {:induction false} StandaloneEr(g: char, opts: SyllableOptions)
    requires IsBpmfTone(g)
    ensures SyllableToPinyin("ㄦ", opts) == "er1"
    ensures SyllableToPinyin("ㄦ" + [g], opts)
            == "er" + (if g == 'ˊ' then "2" else if g == 'ˇ' then "3" else if g == 'ˋ' then "4"
                       else if opts.markNeutralTone then "5" else "")
  {
    StripTonesPlain("ㄦ");
    StripTonesAppend("ㄦ", [g]);
    assert StripTones([g]) == [];
    FirstGlyphWins("ㄦ", g, []);
    assert "ㄦ" + [g] + [] == "ㄦ" + [g];
  }

  /**
   * Erhua: adding a bare ㄦ to a syllable adds an `r` to its pinyin, in front
   * of the tone number under `"after-r"` (the default of `z2p`) and after it
   * under any other `erhuaTone`.
   */
  lemma {:induction false} ErhuaAddsR(zh: string, opts: SyllableOptions)
    requires StripTones(zh) != "" && !EndsInEr(StripTones(zh))
    ensures var plain := SyllableToPinyin(zh, opts);
            var er := SyllableToPinyin(zh + "ㄦ", opts);
            var tone := ToneString(zh, opts.markNeutralTone);
            |tone| <= |plain| && plain[|plain| - |tone|..] == tone
            && er == if opts.erhuaTone == "after-r" then plain[..|plain| - |tone|] + "r" + tone else plain + "r"
  {
    var letters := StripTones(zh);
    StripTonesAppend(zh, "ㄦ");
    StripTonesPlain("ㄦ");
    assert StripTones(zh + "ㄦ") == letters + "ㄦ";
    assert (letters + "ㄦ")[..|letters + "ㄦ"| - 1] == letters;
    assert DropEr(letters + "ㄦ") == letters == DropEr(letters);
    FirstToneOfErhua(zh);
    var stem, tone := Stem(letters, opts.umlautMode), ToneString(zh, opts.markNeutralTone);
    assert Stem(letters + "ㄦ", opts.umlautMode) == stem;
    var plain := SyllableToPinyin(zh, opts);
    assert plain == stem + tone;
    assert plain[..|plain| - |tone|] == stem;
  }

  lemma {:induction false} FirstToneOfErhua(zh: string)
    ensures FirstTone(zh + "ㄦ") == FirstTone(zh)
    decreases |zh|
  {
    if zh == [] {
      assert FirstTone("ㄦ") == FirstTone("ㄦ"[1..]);
    } else {
      assert (zh + "ㄦ")[0] == zh[0];
      assert (zh + "ㄦ")[1..] == zh[1..] + "ㄦ";
      FirstToneOfErhua(zh[1..]);
    }
  }

  // ---------------------------------------------------------------------
  // Umlauts
  // ---------------------------------------------------------------------

  /** Begins with j, q or x followed by ü, which pinyin spells with u. */
  predicate JqxUmlautStart(py: string)
  {
    2 <= |py| && IsJqx(py[0]) && py[1] == 'ü'
  }

  /** Begins with n or l followed by `üan`, which the collapse mode spells `uan`. */
  predicate NlUanStart(py: string)
  {
    4 <= |py| && IsNl(py[0]) && py[1] == 'ü' && py[2] == 'a' && py[3] == 'n'
  }

  /** The collapse rule never creates either spelling it or the j/q/x rule removes. */
  lemma {:induction false} CollapseKeeps(py: string, mode: string)
    ensures var out := if mode == "collapse-nl-uan" then ApplyAll(py, CollapseRules) else py;
            (mode == "collapse-nl-uan" ==> !NlUanStart(out))
            && (!JqxUmlautStart(py) ==> !JqxUmlautStart(out))
  {
    if mode == "collapse-nl-uan" {
      assert CollapseRules[..0] == [];
      UmlautRewrite(py, CollapseRules[0]);
    }
  }

  /** With an initial, the core's pinyin never spells ü after j, q or x. */
  lemma {:induction false} CoreNoJqxUmlaut(core: string, mode: string)
    requires HasInitial(core)
    ensures !JqxUmlautStart(CorePinyin(core, mode))
  {
    var py := ApplyAll(ApplyAll(core, FinalRules), InitialRules);
    assert !JqxUmlautStart(py) by {
      InitialTable();
      var front := SyllabicSection + InitialSection;
      assert InitialRules[..|InitialRules| - 1] == front;
      JqxRuleClears(ApplyAll(ApplyAll(core, FinalRules), front));
    }
    CollapseKeeps(py, mode);
  }

  /** After the j/q/x rule, the text does not begin with j, q or x and ü. */
  lemma JqxRuleClears(s: string)
    ensures !JqxUmlautStart(Replace(s, JqxRule))
  {
    UmlautRewrite(s, JqxRule);
  }

  /** In the collapse mode the core's pinyin never begins with n or l and `üan`. */
  lemma {:induction false} CoreNoNlUan(core: string, mode: string)
    requires mode == "collapse-nl-uan"
    ensures !NlUanStart(CorePinyin(core, mode))
  {
    var py :=
      if HasInitial(core) then ApplyAll(ApplyAll(core, FinalRules), InitialRules)
      else ApplyAll(ApplyAll(core, NoInitialRules), FinalRules);
    CollapseKeeps(py, mode);
  }

  /** What follows the stem: the tone number and the erhua `r`. */
  function Tail(tone: string, hasErhua: bool, erhuaTone: string): string
  {
    if !hasErhua then tone else if erhuaTone == "after-r" then "r" + tone else tone + "r"
  }

  lemma {:induction false} AttachTail(py: string, tone: string, hasErhua: bool, erhuaTone: string)
    requires |tone| <= 1 && forall i :: 0 <= i < |tone| ==> IsToneDigit(tone[i])
    ensures Attach(py, tone, hasErhua, erhuaTone) == py + Tail(tone, hasErhua, erhuaTone)
    ensures forall i :: 0 <= i < |Tail(tone, hasErhua, erhuaTone)| ==>
              var c := Tail(tone, hasErhua, erhuaTone)[i]; IsToneDigit(c) || c == 'r'
  {
  }

  /**
   * A syllable with an initial (other than a lone syllabic consonant) never
   * comes out with ü after j, q or x, and in the collapse mode never with
   * n or l and `üan`, whatever tone and erhua follow.
   */
  lemma {:induction false} SyllableUmlauts(zh: string, opts: SyllableOptions)
    requires HasInitial(DropEr(StripTones(zh))) && SyllabicBase(DropEr(StripTones(zh))).None?
    ensures !JqxUmlautStart(SyllableToPinyin(zh, opts))
    ensures opts.umlautMode == "collapse-nl-uan" ==> !NlUanStart(SyllableToPinyin(zh, opts))
  {
    var letters := StripTones(zh);
    var core := DropEr(letters);
    var py := CorePinyin(core, opts.umlautMode);
    var tone := ToneString(zh, opts.markNeutralTone);
    assert letters != "ㄦ";
    CoreNoJqxUmlaut(core, opts.umlautMode);
    if opts.umlautMode == "collapse-nl-uan" {
      CoreNoNlUan(core, opts.umlautMode);
    }
    AttachTail(py, tone, EndsInEr(letters), opts.erhuaTone);
    PrefixKept(py, Tail(tone, EndsInEr(letters), opts.erhuaTone));
  }

  /** A tail of tone digits and `r` cannot complete either umlaut spelling. */
  lemma {:induction false} PrefixKept(py: string, tail: string)
    requires forall i :: 0 <= i < |tail| ==> IsToneDigit(tail[i]) || tail[i] == 'r'
    ensures !JqxUmlautStart(py) ==> !JqxUmlautStart(py + tail)
    ensures !NlUanStart(py) ==> !NlUanStart(py + tail)
  {
    var r := py + tail;
    assert forall i :: 0 <= i < |py| ==> r[i] == py[i];
    assert forall i :: |py| <= i < |r| ==> r[i] == tail[i - |py|];
  }
}
