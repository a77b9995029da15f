/**
 * The `pinyinTransforms` table of pinyin-to-zhuyin.js, which spells a zhuyin
 * syllable in pinyin, and its bucketing into no-initial, initial and final
 * rules, which `bpmfSyllableToPinyin` applies.
 */
module ZhuyinToPinyin {
  import opened Rules

  // ---------------------------------------------------------------------
  // pinyinTransforms, section by section
  // ---------------------------------------------------------------------

  /** The zero-initial y-, w- and yu- forms, anchored at the start. */
  const ZeroInitialSection: seq<Rule> :=
    [Rule(AtStart("ㄧㄞ"), "yai"), Rule(AtStart("ㄧㄠ"), "yao"), Rule(AtStart("ㄧㄡ"), "you"),
     Rule(AtStart("ㄧㄢ"), "yan"), Rule(AtStart("ㄧㄣ"), "yin"), Rule(AtStart("ㄧㄤ"), "yang"),
     Rule(AtStart("ㄧㄥ"), "ying"), Rule(AtStart("ㄧㄚ"), "ya"), Rule(AtStart("ㄧㄛ"), "yo"),
     Rule(AtStart("ㄧㄝ"), "ye"), Rule(AtStart("ㄧ"), "yi"),
     Rule(AtStart("ㄨㄚ"), "wa"), Rule(AtStart("ㄨㄛ"), "wo"), Rule(AtStart("ㄨㄞ"), "wai"),
     Rule(AtStart("ㄨㄟ"), "wei"), Rule(AtStart("ㄨㄢ"), "wan"), Rule(AtStart("ㄨㄣ"), "wen"),
     Rule(AtStart("ㄨㄤ"), "wang"), Rule(AtStart("ㄨㄥ"), "weng"), Rule(AtStart("ㄨ"), "wu"),
     Rule(AtStart("ㄩㄝ"), "yue"), Rule(AtStart("ㄩㄢ"), "yuan"), Rule(AtStart("ㄩㄣ"), "yun"),
     Rule(AtStart("ㄩㄥ"), "yong"), Rule(AtStart("ㄩ"), "yu")]

  /** The syllabic consonants, when they are the whole syllable. */
  const SyllabicSection: seq<Rule> :=
    [Rule(Whole("ㄓ"), "zhi"), Rule(Whole("ㄔ"), "chi"), Rule(Whole("ㄕ"), "shi"),
     Rule(Whole("ㄖ"), "ri"), Rule(Whole("ㄗ"), "zi"), Rule(Whole("ㄘ"), "ci"), Rule(Whole("ㄙ"), "si")]

  /** The finals after an initial: the compound ones first, then the single ones. */
  const FinalSection: seq<Rule> :=
    [Rule(Literal("ㄩㄥ"), "iong"), Rule(Literal("ㄨㄥ"), "ong"), Rule(Literal("ㄨㄤ"), "uang"),
     Rule(Literal("ㄧㄥ"), "ing"), Rule(Literal("ㄧㄤ"), "iang"), Rule(Literal("ㄩㄣ"), "ün"),
     Rule(Literal("ㄩㄝ"), "üe"), Rule(Literal("ㄩㄢ"), "üan"), Rule(Literal("ㄨㄣ"), "un"),
     Rule(Literal("ㄨㄞ"), "uai"), Rule(Literal("ㄨㄟ"), "ui"), Rule(Literal("ㄨㄛ"), "uo"),
     Rule(Literal("ㄨㄚ"), "ua"), Rule(Literal("ㄧㄡ"), "iu"), Rule(Literal("ㄧㄠ"), "iao"),
     Rule(Literal("ㄧㄢ"), "ian"), Rule(Literal("ㄧㄣ"), "in"), Rule(Literal("ㄧㄝ"), "ie"),
     Rule(Literal("ㄤ"), "ang"), Rule(Literal("ㄥ"), "eng"), Rule(Literal("ㄢ"), "an"),
     Rule(Literal("ㄣ"), "en"), Rule(Literal("ㄞ"), "ai"), Rule(Literal("ㄟ"), "ei"),
     Rule(Literal("ㄠ"), "ao"), Rule(Literal("ㄡ"), "ou"), Rule(Literal("ㄚ"), "a"),
     Rule(Literal("ㄛ"), "o"), Rule(Literal("ㄜ"), "e"), Rule(Literal("ㄝ"), "ê"),
     Rule(Literal("ㄧ"), "i"), Rule(Literal("ㄨ"), "u"), Rule(Literal("ㄩ"), "ü")]

  /** The initials, anchored at the start of the syllable. */
  const InitialSection: seq<Rule> :=
    [Rule(AtStart("ㄓ"), "zh"), Rule(AtStart("ㄔ"), "ch"), Rule(AtStart("ㄕ"), "sh"),
     Rule(AtStart("ㄖ"), "r"), Rule(AtStart("ㄗ"), "z"), Rule(AtStart("ㄘ"), "c"),
     Rule(AtStart("ㄙ"), "s"), Rule(AtStart("ㄅ"), "b"), Rule(AtStart("ㄆ"), "p"),
     Rule(AtStart("ㄇ"), "m"), Rule(AtStart("ㄈ"), "f"), Rule(AtStart("ㄉ"), "d"),
     Rule(AtStart("ㄊ"), "t"), Rule(AtStart("ㄋ"), "n"), Rule(AtStart("ㄌ"), "l"),
     Rule(AtStart("ㄍ"), "g"), Rule(AtStart("ㄎ"), "k"), Rule(AtStart("ㄏ"), "h"),
     Rule(AtStart("ㄐ"), "j"), Rule(AtStart("ㄑ"), "q"), Rule(AtStart("ㄒ"), "x")]

  /** j, q and x write ü as u. */
  const JqxRule: Rule := Rule(JqxUmlaut, "$1u")

  const PinyinTransforms: seq<Rule> :=
    ZeroInitialSection + SyllabicSection + FinalSection + InitialSection + [JqxRule]

  /** `pinyinPostTransformsCollapse`: n and l write ü as u before `an`. */
  const CollapseRules: seq<Rule> := [Rule(NlUmlautBeforeAn, "$1u")]

  // ---------------------------------------------------------------------
  // Bucketing by the shape of the pattern
  // ---------------------------------------------------------------------

  datatype Bucket = NoInitialBucket | InitialBucket | FinalBucket

  /** The test on a pattern's source text: `^ㄧ`, `^ㄨ` or `^ㄩ` first; then any other `^`; the rest are finals. */
  function SourceBucket(pat: string): Bucket
  {
    if |pat| >= 2 && pat[0] == '^' && (pat[1] == 'ㄧ' || pat[1] == 'ㄨ' || pat[1] == 'ㄩ') then NoInitialBucket
    else if |pat| >= 1 && pat[0] == '^' then InitialBucket
    else FinalBucket
  }

  /** The bucket of a rule, read off the shape of its pattern rather than its text. */
  function BucketOf(r: Rule): Bucket
  {
    match r.pattern
    case Literal(t) => SourceBucket(t)
    case AtStart(t) => if |t| >= 1 && (t[0] == 'ㄧ' || t[0] == 'ㄨ' || t[0] == 'ㄩ') then NoInitialBucket else InitialBucket
    case Whole(_) => InitialBucket
    case JqxUmlaut => InitialBucket
    case NlUmlautBeforeAn => InitialBucket
    case _ => FinalBucket
  }

  /** The shape-based bucket is the one the source-text test picks. */
  lemma BucketBySource(r: Rule)
    ensures SourceBucket(Source(r.pattern)) == BucketOf(r)
  {
    match r.pattern
    case Literal(t) =>
    case AtStart(t) =>
      assert Source(r.pattern) == "^" + t;
    case Whole(t) =>
      assert Source(r.pattern)[..2] == "^(";
    case SyllableThen(d) =>
      assert Source(r.pattern)[0] == '(';
    case _ =>
  }

  /** The rules of one bucket, in table order. */
  function Select(rules: seq<Rule>, b: Bucket): seq<Rule>
  {
    if rules == [] then []
    else Select(rules[..|rules| - 1], b) + (if BucketOf(rules[|rules| - 1]) == b then [rules[|rules| - 1]] else [])
  }

  /** The loop that pushes each rule of the table into its bucket. */
  method BucketRules(rules: seq<Rule>) returns (noInitial: seq<Rule>, initial: seq<Rule>, final: seq<Rule>)
    ensures noInitial == Select(rules, NoInitialBucket)
    ensures initial == Select(rules, InitialBucket)
    ensures final == Select(rules, FinalBucket)
  {
    noInitial, initial, final := [], [], [];
    for k := 0 to |rules|
      invariant noInitial == Select(rules[..k], NoInitialBucket)
      invariant initial == Select(rules[..k], InitialBucket)
      invariant final == Select(rules[..k], FinalBucket)
    {
      assert rules[..k + 1][..k] == rules[..k];
      var pat := Source(rules[k].pattern);
      BucketBySource(rules[k]);
      if |pat| >= 2 && pat[0] == '^' && (pat[1] == 'ㄧ' || pat[1] == 'ㄨ' || pat[1] == 'ㄩ') {
        noInitial := noInitial + [rules[k]];
      } else if |pat| >= 1 && pat[0] == '^' {
        initial := initial + [rules[k]];
      } else {
        final := final + [rules[k]];
      }
    }
    assert rules[..|rules|] == rules;
  }

  const NoInitialRules: seq<Rule> := Select(PinyinTransforms, NoInitialBucket)
  const InitialRules: seq<Rule> := Select(PinyinTransforms, InitialBucket)
  const FinalRules: seq<Rule> := Select(PinyinTransforms, FinalBucket)

  /** No rule is lost or duplicated: the three buckets together are as long as the table. */
  lemma {:induction false} BucketSizes(rules: seq<Rule>)
    ensures |Select(rules, NoInitialBucket)| + |Select(rules, InitialBucket)| + |Select(rules, FinalBucket)| == |rules|
  {
    if rules != [] {
      BucketSizes(rules[..|rules| - 1]);
    }
  }

  /** A bucket holds exactly the table's rules that belong to it. */
  lemma {:induction false} BucketMembers(rules: seq<Rule>, k: Bucket)
    ensures forall r :: r in Select(rules, k) <==> r in rules && BucketOf(r) == k
  {
    if rules != [] {
      BucketMembers(rules[..|rules| - 1], k);
      assert rules == rules[..|rules| - 1] + [rules[|rules| - 1]];
    }
  }

  lemma {:induction false} SelectAppend(a: seq<Rule>, b: seq<Rule>, k: Bucket)
    ensures Select(a + b, k) == Select(a, k) + Select(b, k)
    decreases |b|
  {
    if b == [] {
      assert a + b == a;
    } else {
      assert (a + b)[..|a + b| - 1] == a + b[..|b| - 1];
      SelectAppend(a, b[..|b| - 1], k);
    }
  }

  lemma {:induction false} SelectAll(rules: seq<Rule>, k: Bucket)
    requires forall i :: 0 <= i < |rules| ==> BucketOf(rules[i]) == k
    ensures Select(rules, k) == rules
  {
    if rules != [] {
      SelectAll(rules[..|rules| - 1], k);
    }
  }

  lemma {:induction false} SelectNone(rules: seq<Rule>, k: Bucket)
    requires forall i :: 0 <= i < |rules| ==> BucketOf(rules[i]) != k
    ensures Select(rules, k) == []
  {
    if rules != [] {
      SelectNone(rules[..|rules| - 1], k);
    }
  }

  lemma ZeroInitialBuckets()
    ensures forall i :: 0 <= i < |ZeroInitialSection| ==> BucketOf(ZeroInitialSection[i]) == NoInitialBucket
  {
  }

  lemma SyllabicBuckets()
    ensures forall i :: 0 <= i < |SyllabicSection| ==> BucketOf(SyllabicSection[i]) == InitialBucket
  {
  }

  lemma FinalBuckets()
    ensures forall i :: 0 <= i < |FinalSection| ==> BucketOf(FinalSection[i]) == FinalBucket
  {
  }

  lemma InitialBuckets()
    ensures forall i :: 0 <= i < |InitialSection| ==> BucketOf(InitialSection[i]) == InitialBucket
  {
  }

  /** Selecting from the table is selecting from each section in turn. */
  lemma {:induction false} SelectSections(z: seq<Rule>, y: seq<Rule>, f: seq<Rule>, i: seq<Rule>, k: Bucket)
    ensures Select(z + y + f + i + [JqxRule], k)
            == Select(z, k) + Select(y, k) + Select(f, k) + Select(i, k) + Select([JqxRule], k)
  {
    SelectAppend(z + y + f + i, [JqxRule], k);
    SelectAppend(z + y + f, i, k);
    SelectAppend(z + y, f, k);
    SelectAppend(z, y, k);
  }

  lemma JqxBucket(k: Bucket)
    ensures Select([JqxRule], k) == if k == InitialBucket then [JqxRule] else []
  {
    assert [JqxRule][..0] == [];
  }

  /** Joining the selections from the sections, where some of them are empty. */
  lemma JoinParts(a: seq<Rule>, b: seq<Rule>, c: seq<Rule>, d: seq<Rule>, e: seq<Rule>, whole: seq<Rule>)
    requires (a == [] && b == [] && d == [] && e == [] && whole == c)
          || (a == [] && c == [] && whole == b + d + e)
          || (b == [] && c == [] && d == [] && e == [] && whole == a)
    ensures a + b + c + d + e == whole
  {
    if a == [] && c == [] && whole == b + d + e {
      assert a + b == b;
      assert b + c == b;
    } else {
      assert a + b + c + d + e == a + c;
    }
  }

  /** The no-initial bucket of `pinyinTransforms` is the zero-initial section. */
  lemma NoInitialTable()
    ensures NoInitialRules == ZeroInitialSection
  {
    var k := NoInitialBucket;
    assert Select(ZeroInitialSection, k) == ZeroInitialSection by {
      ZeroInitialBuckets();
      SelectAll(ZeroInitialSection, k);
    }
    assert Select(SyllabicSection, k) == [] by {
      SyllabicBuckets();
      SelectNone(SyllabicSection, k);
    }
    assert Select(FinalSection, k) == [] by {
      FinalBuckets();
      SelectNone(FinalSection, k);
    }
    assert Select(InitialSection, k) == [] by {
      InitialBuckets();
      SelectNone(InitialSection, k);
    }
    JqxBucket(k);
    SelectSections(ZeroInitialSection, SyllabicSection, FinalSection, InitialSection, k);
    JoinParts(Select(ZeroInitialSection, k), Select(SyllabicSection, k), Select(FinalSection, k),
              Select(InitialSection, k), Select([JqxRule], k), ZeroInitialSection);
  }

  /** The initial bucket: the syllabic consonants, the initials, then the j/q/x rule. */
  lemma InitialTable()
    ensures InitialRules == SyllabicSection + InitialSection + [JqxRule]
  {
    var k := InitialBucket;
    assert Select(ZeroInitialSection, k) == [] by {
      ZeroInitialBuckets();
      SelectNone(ZeroInitialSection, k);
    }
    assert Select(SyllabicSection, k) == SyllabicSection by {
      SyllabicBuckets();
      SelectAll(SyllabicSection, k);
    }
    assert Select(FinalSection, k) == [] by {
      FinalBuckets();
      SelectNone(FinalSection, k);
    }
    assert Select(InitialSection, k) == InitialSection by {
      InitialBuckets();
      SelectAll(InitialSection, k);
    }
    JqxBucket(k);
    SelectSections(ZeroInitialSection, SyllabicSection, FinalSection, InitialSection, k);
    JoinParts(Select(ZeroInitialSection, k), Select(SyllabicSection, k), Select(FinalSection, k),
              Select(InitialSection, k), Select([JqxRule], k), SyllabicSection + InitialSection + [JqxRule]);
  }

  /** The final bucket is the final section, compound finals first. */
  lemma FinalTable()
    ensures FinalRules == FinalSection
  {
    var k := FinalBucket;
    assert Select(ZeroInitialSection, k) == [] by {
      ZeroInitialBuckets();
      SelectNone(ZeroInitialSection, k);
    }
    assert Select(SyllabicSection, k) == [] by {
      SyllabicBuckets();
      SelectNone(SyllabicSection, k);
    }
    assert Select(FinalSection, k) == FinalSection by {
      FinalBuckets();
      SelectAll(FinalSection, k);
    }
    assert Select(InitialSection, k) == [] by {
      InitialBuckets();
      SelectNone(InitialSection, k);
    }
    JqxBucket(k);
    SelectSections(ZeroInitialSection, SyllabicSection, FinalSection, InitialSection, k);
    JoinParts(Select(ZeroInitialSection, k), Select(SyllabicSection, k), Select(FinalSection, k),
              Select(InitialSection, k), Select([JqxRule], k), FinalSection);
  }
}
