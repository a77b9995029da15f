/**
 * The ordered rewrite rules of pinyin-to-zhuyin.js and how they are applied.
 * A rule is a global regular expression with its replacement;
 * `String.prototype.replace` rewrites every non-overlapping match from left to
 * right, and `applyRules` (like the loops over `bpmfTransforms` and over the
 * tone numbers in `p2z`) applies the rules one after the other.
 *
 * Only the patterns that occur in the tables are modelled, each as a matcher
 * written out by hand.
 */
module Rules {
  import opened Common
  import opened ToneTable
  import ZhuyinSegment

  datatype Pattern =
    | Literal(text: string)        // the text itself, e.g. `ㄩㄥ` or `yuan`
    | AtStart(text: string)        // `^text`
    | Whole(text: string)          // `^(text)$`
    | JqxUmlaut                    // `^([jqx])ü`
    | NlUmlautBeforeAn             // `^([nl])ü(?=an)`
    | ErTone                       // `er([1-5])`
    | RTone                        // `r([1-5])`
    | RBeforeBoundary              // `r(?=(?:$|[^a-zü'1-5]))`
    | RAtEnd                       // `r$`
    | JqxWu                        // `(ㄐ|ㄑ|ㄒ)ㄨ`
    | SyllableThen(digit: char)    // `(<syllableMatcher>)digit`

  datatype Rule = Rule(pattern: Pattern, replacement: string)

  /** The source of `syllableMatcher`, as `p2z` splices it into its tone patterns. */
  const SyllableSource: string :=
    "(?:(?:[ㄅㄆㄇㄈㄉㄊㄋㄌㄍㄎㄏㄐㄑㄒㄓㄔㄕㄖㄗㄘㄙ]?(?:ㄧㄞ|ㄧㄠ|ㄧㄡ|ㄧㄚ|ㄧㄛ|ㄧㄝ|ㄧㄢ|ㄧㄣ|ㄧㄤ|ㄧㄥ|ㄨㄣ|ㄨㄞ|ㄨㄟ|ㄨㄛ|ㄨㄚ|ㄨㄢ|ㄨㄥ|ㄨㄤ|ㄩㄥ|ㄩㄣ|ㄩㄝ|ㄩㄢ|ㄤ|ㄥ|ㄢ|ㄣ|ㄞ|ㄟ|ㄠ|ㄡ|ㄚ|ㄛ|ㄜ|ㄦ|ㄧ|ㄨ|ㄩ))|[ㄓㄔㄕㄖㄗㄘㄙ])[˙ˊˇˋ]?"

  /** The pattern as written in the tables (the key of its rule object). */
  function Source(pat: Pattern): string
  {
    match pat
    case Literal(t) => t
    case AtStart(t) => "^" + t
    case Whole(t) => "^(" + t + ")$"
    case JqxUmlaut => "^([jqx])ü"
    case NlUmlautBeforeAn => "^([nl])ü(?=an)"
    case ErTone => "er([1-5])"
    case RTone => "r([1-5])"
    case RBeforeBoundary => "r(?=(?:$|[^a-zü'1-5]))"
    case RAtEnd => "r$"
    case JqxWu => "(ㄐ|ㄑ|ㄒ)ㄨ"
    case SyllableThen(d) => "(" + SyllableSource + ")" + [d]
  }

  /** A match: how many characters it consumes, and where its first group lies. */
  datatype Hit = Hit(len: nat, groupStart: nat, groupEnd: nat)

  predicate IsJqx(c: char) { c == 'j' || c == 'q' || c == 'x' }

  predicate IsNl(c: char) { c == 'n' || c == 'l' }

  predicate IsZhuyinJqx(c: char) { c == 'ㄐ' || c == 'ㄑ' || c == 'ㄒ' }

  /** The class `[a-zü'1-5]` (these patterns carry no `i` flag). */
  predicate InPinyinClass(c: char) { 'a' <= c <= 'z' || c == 'ü' || c == '\'' || IsToneDigit(c) }

  /** The first reachable end that the character `d` follows. */
  function FirstFollowedBy(s: string, ends: seq<nat>, d: char): (e: Option<nat>)
    ensures e.Some? ==> e.value in ends && e.value < |s| && s[e.value] == d
  {
    if ends == [] then None
    else if ends[0] < |s| && s[ends[0]] == d then Some(ends[0])
    else FirstFollowedBy(s, ends[1..], d)
  }

  /** The match of `pat` that starts at `p`, if any, with the regular expression's choice. */
  function MatchAt(s: string, p: nat, pat: Pattern): (h: Option<Hit>)
    requires p < |s|
    ensures h.Some? ==> 0 < h.value.len && p + h.value.len <= |s|
                        && p <= h.value.groupStart <= h.value.groupEnd <= p + h.value.len
  {
    match pat
    case Literal(t) =>
      if 0 < |t| && p + |t| <= |s| && s[p..p + |t|] == t then Some(Hit(|t|, p, p)) else None
    case AtStart(t) =>
      if p == 0 && 0 < |t| <= |s| && s[..|t|] == t then Some(Hit(|t|, 0, 0)) else None
    case Whole(t) =>
      if p == 0 && s == t then Some(Hit(|t|, 0, |t|)) else None
    case JqxUmlaut =>
      if p == 0 && 2 <= |s| && IsJqx(s[0]) && s[1] == 'ü' then Some(Hit(2, 0, 1)) else None
    case NlUmlautBeforeAn =>
      if p == 0 && 4 <= |s| && IsNl(s[0]) && s[1] == 'ü' && s[2] == 'a' && s[3] == 'n'
      then Some(Hit(2, 0, 1)) else None
    case ErTone =>
      if p + 3 <= |s| && s[p] == 'e' && s[p + 1] == 'r' && IsToneDigit(s[p + 2])
      then Some(Hit(3, p + 2, p + 3)) else None
    case RTone =>
      if p + 2 <= |s| && s[p] == 'r' && IsToneDigit(s[p + 1]) then Some(Hit(2, p + 1, p + 2)) else None
    case RBeforeBoundary =>
      if s[p] == 'r' && (p + 1 == |s| || !InPinyinClass(s[p + 1])) then Some(Hit(1, p, p)) else None
    case RAtEnd =>
      if s[p] == 'r' && p + 1 == |s| then Some(Hit(1, p, p)) else None
    case JqxWu =>
      if p + 2 <= |s| && IsZhuyinJqx(s[p]) && s[p + 1] == 'ㄨ' then Some(Hit(2, p, p + 1)) else None
    case SyllableThen(d) =>
      ZhuyinSegment.SyllableEndsShape(s, p);
      match FirstFollowedBy(s, ZhuyinSegment.SyllableEnds(s, p), d)
      case Some(e) => Some(Hit(e + 1 - p, p, e))
      case None => None
  }

  /** The replacement text with each `$1` standing for the first group. */
  function Expand(rep: string, group: string): string
  {
    if rep == [] then []
    else if |rep| >= 2 && rep[0] == '$' && rep[1] == '1' then group + Expand(rep[2..], group)
    else [rep[0]] + Expand(rep[1..], group)
  }

  /** `replace` with a global pattern, from position `p` on. */
  function Rewrite(s: string, r: Rule, p: nat): string
    requires p <= |s|
    decreases |s| - p
  {
    if p == |s| then ""
    else match MatchAt(s, p, r.pattern)
      case Some(h) => Expand(r.replacement, s[h.groupStart..h.groupEnd]) + Rewrite(s, r, p + h.len)
      case None => [s[p]] + Rewrite(s, r, p + 1)
  }

  function Replace(s: string, r: Rule): string
  {
    Rewrite(s, r, 0)
  }

  /** The rules applied in order, each to the result of the ones before. */
  function ApplyAll(s: string, rules: seq<Rule>): string
  {
    if rules == [] then s else Replace(ApplyAll(s, rules[..|rules| - 1]), rules[|rules| - 1])
  }

  /** `applyRules`. */
  method ApplyRules(s: string, rules: seq<Rule>) returns (r: string)
    ensures r == ApplyAll(s, rules)
  {
    r := s;
    for k := 0 to |rules|
      invariant r == ApplyAll(s, rules[..k])
    {
      assert rules[..k + 1][..k] == rules[..k];
      r := Replace(r, rules[k]);
    }
    assert rules[..|rules|] == rules;
  }

  // ---------------------------------------------------------------------
  // What replacing does
  // ---------------------------------------------------------------------

  lemma {:induction false} ApplyAllAppend(s: string, a: seq<Rule>, b: seq<Rule>)
    ensures ApplyAll(s, a + b) == ApplyAll(ApplyAll(s, a), b)
    decreases |b|
  {
    if b == [] {
      assert a + b == a;
    } else {
      assert (a + b)[..|a + b| - 1] == a + b[..|b| - 1];
      ApplyAllAppend(s, a, b[..|b| - 1]);
    }
  }

  /** Where the pattern matches nowhere, `replace` changes nothing. */
  lemma {:induction false} RewriteWithoutMatch(s: string, r: Rule, p: nat)
    requires p <= |s|
    requires forall q :: p <= q < |s| ==> MatchAt(s, q, r.pattern).None?
    ensures Rewrite(s, r, p) == s[p..]
    decreases |s| - p
  {
    if p < |s| {
      RewriteWithoutMatch(s, r, p + 1);
      assert s[p..] == [s[p]] + s[p + 1..];
    }
  }

  lemma {:induction false} ExpandAvoids(rep: string, group: string, c: char)
    requires c !in rep && c !in group
    ensures c !in Expand(rep, group)
    decreases |rep|
  {
    if rep != [] {
      if |rep| >= 2 && rep[0] == '$' && rep[1] == '1' {
        ExpandAvoids(rep[2..], group, c);
      } else {
        ExpandAvoids(rep[1..], group, c);
      }
    }
  }

  /** A character neither in the text nor in the replacement never appears. */
  lemma {:induction false} RewriteAvoids(s: string, r: Rule, p: nat, c: char)
    requires p <= |s| && c !in r.replacement
    requires forall k :: p <= k < |s| ==> s[k] != c
    ensures c !in Rewrite(s, r, p)
    decreases |s| - p
  {
    if p < |s| {
      match MatchAt(s, p, r.pattern)
      case Some(h) =>
        var head := Expand(r.replacement, s[h.groupStart..h.groupEnd]);
        var tail := Rewrite(s, r, p + h.len);
        assert c !in head by {
          ExpandAvoids(r.replacement, s[h.groupStart..h.groupEnd], c);
        }
        assert c !in tail by {
          RewriteAvoids(s, r, p + h.len, c);
        }
        assert Rewrite(s, r, p) == head + tail;
      case None =>
        var tail := Rewrite(s, r, p + 1);
        assert c !in tail by {
          RewriteAvoids(s, r, p + 1, c);
        }
        assert Rewrite(s, r, p) == [s[p]] + tail;
    }
  }

  /** Replacing a single character by text without it removes every occurrence. */
  lemma {:induction false} RewriteRemoves(s: string, c: char, rep: string, p: nat)
    requires p <= |s| && c !in rep
    ensures c !in Rewrite(s, Rule(Literal([c]), rep), p)
    decreases |s| - p
  {
    if p < |s| {
      RewriteRemoves(s, c, rep, p + 1);
      LiteralCharHit(s, p, c);
      if s[p] == c {
        ExpandAvoids(rep, s[p..p], c);
      }
    }
  }

  /** A one-character literal matches exactly where that character stands. */
  lemma LiteralCharHit(s: string, p: nat, c: char)
    requires p < |s|
    ensures MatchAt(s, p, Literal([c])) == if s[p] == c then Some(Hit(1, p, p)) else None
  {
    if s[p] == c {
      assert s[p..p + 1] == [c];
    } else {
      assert s[p..p + 1][0] != c;
    }
  }

  /** Replacing a single character, one character at a time: the reference for `replace`. */
  function SubstChar(s: string, c: char, rep: string): string
  {
    if s == [] then [] else (if s[0] == c then rep else [s[0]]) + SubstChar(s[1..], c, rep)
  }

  lemma {:induction false} ExpandPlain(rep: string, group: string)
    requires '$' !in rep
    ensures Expand(rep, group) == rep
    decreases |rep|
  {
    if rep != [] {
      ExpandPlain(rep[1..], group);
    }
  }

  /** `replace` with a one-character literal agrees with the reference. */
  lemma {:induction false} CharRewrite(s: string, c: char, rep: string, p: nat)
    requires p <= |s| && '$' !in rep
    ensures Rewrite(s, Rule(Literal([c]), rep), p) == SubstChar(s[p..], c, rep)
    decreases |s| - p
  {
    if p < |s| {
      CharRewrite(s, c, rep, p + 1);
      assert s[p..][1..] == s[p + 1..];
      assert s[p..][0] == s[p];
      if s[p] == c {
        assert s[p..p + 1] == [c];
        ExpandPlain(rep, s[p..p]);
        assert Rewrite(s, Rule(Literal([c]), rep), p) == rep + Rewrite(s, Rule(Literal([c]), rep), p + 1);
      } else {
        assert s[p..p + 1] != [c];
      }
    }
  }

  lemma {:induction false} SubstCharBack(s: string, c: char, d: char)
    requires c != d && d !in s
    ensures SubstChar(SubstChar(s, c, [d]), d, [c]) == s
    decreases |s|
  {
    if s != [] {
      assert s[0] in s;
      assert forall x :: x in s[1..] ==> x in s;
      SubstCharBack(s[1..], c, d);
      var head := if s[0] == c then [d] else [s[0]];
      var t := SubstChar(s, c, [d]);
      assert t == head + SubstChar(s[1..], c, [d]);
      assert t[0] == head[0] && t[1..] == SubstChar(s[1..], c, [d]);
    }
  }

  /**
   * Replacing one character by another is undone by the opposite
   * replacement, when the second character did not occur before.
   */
  lemma SwapBack(s: string, c: char, d: char)
    requires c != d && d !in s && c != '$' && d != '$'
    ensures Replace(Replace(s, Rule(Literal([c]), [d])), Rule(Literal([d]), [c])) == s
  {
    CharRewrite(s, c, [d], 0);
    var t := Replace(s, Rule(Literal([c]), [d]));
    CharRewrite(t, d, [c], 0);
    assert s[0..] == s && t[0..] == t;
    SubstCharBack(s, c, d);
  }

  /** The patterns that are anchored at the start of the text. */
  predicate Anchored(pat: Pattern)
  {
    pat.AtStart? || pat.Whole? || pat.JqxUmlaut? || pat.NlUmlautBeforeAn?
  }

  /** With an anchored pattern, `replace` leaves everything after the first character alone. */
  lemma AnchoredTail(s: string, r: Rule)
    requires Anchored(r.pattern) && 1 <= |s|
    ensures Rewrite(s, r, 1) == s[1..]
  {
    RewriteWithoutMatch(s, r, 1);
  }

  /**
   * `^([jqx])ü` and `^([nl])ü(?=an)` with the replacement `$1u`: the only
   * change turns the leading ü into u, and only where the pattern matches.
   */
  lemma UmlautRewrite(s: string, r: Rule)
    requires (r.pattern.JqxUmlaut? || r.pattern.NlUmlautBeforeAn?) && r.replacement == "$1u"
    ensures s == [] ==> Replace(s, r) == s
    ensures s != [] && MatchAt(s, 0, r.pattern).Some? ==> 2 <= |s| && Replace(s, r) == [s[0]] + "u" + s[2..]
    ensures s != [] && MatchAt(s, 0, r.pattern).None? ==> Replace(s, r) == s
  {
    if s != [] {
      if MatchAt(s, 0, r.pattern).Some? {
        RewriteWithoutMatch(s, r, 2);
        assert "$1u"[2..] == "u";
        assert Expand("u", s[0..1]) == "u";
        assert s[0..1] == [s[0]];
      } else {
        AnchoredTail(s, r);
        assert s == [s[0]] + s[1..];
      }
    }
  }
}
