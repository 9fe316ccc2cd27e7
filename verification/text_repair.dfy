/** `cleanText` (src/lib/utils.ts): repairs UTF-8 text that was decoded as
    Windows-1252, then collapses whitespace runs and trims.

    The repair is an ordered chain of literal replace-all rules. Seven rules
    turn the three-character mojibake of curly quotes, dashes and the bullet
    into one ASCII character; then a stray U+00C2 is deleted and NBSP becomes
    a space. Because the U+00C2 deletion runs after the quote and dash
    rules, it can splice a new mojibake sequence together, so "no marker
    survives" and idempotence hold only for inputs without U+00C2. */
module TextRepair {
  import opened Wrappers
  import opened Strings

  /** One `replaceAll(pattern, replacement)` step. */
  datatype Rule = Rule(pattern: string, replacement: string)

  const RightSingleQuote: string := "\U{00E2}\U{20AC}\U{2122}"
  const LeftSingleQuote: string := "\U{00E2}\U{20AC}\U{02DC}"
  const LeftDoubleQuote: string := "\U{00E2}\U{20AC}\U{0153}"
  const RightDoubleQuote: string := "\U{00E2}\U{20AC}\U{009D}"
  const EnDash: string := "\U{00E2}\U{20AC}\U{201C}"
  const EmDash: string := "\U{00E2}\U{20AC}\U{201D}"
  const Bullet: string := "\U{00E2}\U{20AC}\U{00A2}"

  /** The stray "Â" left by a mis-decoded NBSP or Latin-1 character. */
  const Artifact: char := '\U{00C2}'
  const Nbsp: char := '\U{00A0}'

  /** The seven quote and dash rules, in the order `cleanText` applies them. */
  const QuoteDashRules: seq<Rule> := [
    Rule(RightSingleQuote, "'"),
    Rule(LeftSingleQuote, "'"),
    Rule(LeftDoubleQuote, "\""),
    Rule(RightDoubleQuote, "\""),
    Rule(EnDash, "-"),
    Rule(EmDash, "-"),
    Rule(Bullet, "-")
  ]

  const ArtifactRule: Rule := Rule([Artifact], "")
  const NbspRule: Rule := Rule([Nbsp], " ")

  /** The whole replacement chain of `cleanText`, in order. */
  const Rules: seq<Rule> := QuoteDashRules + [ArtifactRule, NbspRule]

  /** The seven quote and dash markers. */
  const Markers: seq<string> := [RightSingleQuote, LeftSingleQuote, LeftDoubleQuote,
                                 RightDoubleQuote, EnDash, EmDash, Bullet]

  predicate ValidRules(rules: seq<Rule>) {
    forall k :: 0 <= k < |rules| ==> |rules[k].pattern| > 0
  }

  /** Every replacement is one ASCII character, and every pattern is
      non-ASCII: the rules a later rule cannot undo. */
  predicate AsciiRules(rules: seq<Rule>) {
    forall k :: 0 <= k < |rules| ==>
      && |rules[k].pattern| > 0 && NoAscii(rules[k].pattern)
      && |rules[k].replacement| == 1 && AllAscii(rules[k].replacement)
  }

  /** Apply each rule's replace-all in order. */
  function ApplyRules(s: string, rules: seq<Rule>): string
    requires ValidRules(rules)
    decreases |rules|
  {
    if rules == [] then s
    else ApplyRules(ReplaceAll(s, rules[0].pattern, rules[0].replacement), rules[1..])
  }

  /** No whitespace except single spaces, each between two non-whitespace
      characters: the shape `cleanText` output always has. */
  predicate Normalized(s: string) {
    forall i :: 0 <= i < |s| && IsJsSpace(s[i]) ==>
      && s[i] == ' '
      && 0 < i < |s| - 1
      && !IsJsSpace(s[i - 1]) && !IsJsSpace(s[i + 1])
  }

  /** Every whitespace character is a space and is not followed by more
      whitespace. */
  predicate SingleSpaced(s: string) {
    forall i :: 0 <= i < |s| && IsJsSpace(s[i]) ==>
      s[i] == ' ' && (i + 1 < |s| ==> !IsJsSpace(s[i + 1]))
  }

  /** `s.replace(/\s+/g, " ")`: every maximal whitespace run becomes one
      space. */
  function Collapse(s: string): (r: string)
    ensures SingleSpaced(r)
    ensures |s| > 0 ==> |r| > 0
    ensures |s| > 0 && IsJsSpace(s[0]) ==> r[0] == ' '
    ensures |s| > 0 && !IsJsSpace(s[0]) ==> r[0] == s[0]
    decreases |s|
  {
    if |s| == 0 then []
    else if IsJsSpace(s[0]) then
      assert TrimStart(s) == TrimStart(s[1..]);
      var t := TrimStart(s);
      SingleSpacedCons(' ', Collapse(t));
      [' '] + Collapse(t)
    else
      SingleSpacedCons(s[0], Collapse(s[1..]));
      [s[0]] + Collapse(s[1..])
  }

  lemma SingleSpacedCons(c: char, t: string)
    requires SingleSpaced(t)
    requires IsJsSpace(c) ==> c == ' ' && (|t| > 0 ==> !IsJsSpace(t[0]))
    ensures SingleSpaced([c] + t)
  {
    var s := [c] + t;
    forall i | 0 <= i < |s| && IsJsSpace(s[i])
      ensures s[i] == ' ' && (i + 1 < |s| ==> !IsJsSpace(s[i + 1]))
    {
      if i > 0 {
        assert s[i] == t[i - 1];
        if i + 1 < |s| {
          assert s[i + 1] == t[i];
        }
      }
    }
  }

  /** `cleanText(input)`: `None` stands for `null` / `undefined`. */
  function CleanText(input: Option<string>): (r: string)
    ensures input.None? ==> r == ""
    ensures Normalized(r)
    ensures Artifact !in r && Nbsp !in r
  {
    var s := input.GetOr("");
    var replaced := ApplyRules(s, Rules);
    ApplyRulesEmpty();
    var collapsed := Collapse(replaced);
    ArtifactAndNbspRemoved(s);
    CollapseNoNewChar(replaced, Artifact);
    CollapseNoNewChar(replaced, Nbsp);
    TrimNoNewChar(collapsed, Artifact);
    TrimNoNewChar(collapsed, Nbsp);
    TrimNormalizes(collapsed);
    Trim(collapsed)
  }

  // ---------------------------------------------------------------------
  // The rule table

  /** Every replacement is a single ASCII character or empty, and every
      pattern is non-empty and free of ASCII (utils.ts keeps the replacements
      ASCII-safe). */
  lemma RuleTableShape()
    ensures ValidRules(Rules)
    ensures forall k :: 0 <= k < |Rules| ==>
      |Rules[k].replacement| <= 1 && AllAscii(Rules[k].replacement) && NoAscii(Rules[k].pattern)
    ensures AsciiRules(QuoteDashRules)
    ensures forall k :: 0 <= k < |Markers| ==> Markers[k] == QuoteDashRules[k].pattern
  {
  }

  /** A quote or dash rule cannot create an occurrence of any of the nine
      patterns, since it writes one ASCII character where a non-ASCII
      sequence was. */
  lemma QuoteDashCannotCreateMarker(s: string, k: nat, j: nat)
    requires k < |QuoteDashRules| && j < |Rules|
    requires !Contains(s, Rules[j].pattern)
    ensures !Contains(ReplaceAll(s, QuoteDashRules[k].pattern, QuoteDashRules[k].replacement), Rules[j].pattern)
  {
    RuleTableShape();
    if Contains(ReplaceAll(s, QuoteDashRules[k].pattern, QuoteDashRules[k].replacement), Rules[j].pattern) {
      ReplaceAllNoNewOccurrence(s, QuoteDashRules[k].pattern, QuoteDashRules[k].replacement, Rules[j].pattern);
    }
  }

  // ---------------------------------------------------------------------
  // Lemmas about ApplyRules

  lemma {:induction false} ApplyRulesAppend(s: string, a: seq<Rule>, b: seq<Rule>)
    requires ValidRules(a) && ValidRules(b)
    ensures ValidRules(a + b)
    ensures ApplyRules(s, a + b) == ApplyRules(ApplyRules(s, a), b)
    decreases |a|
  {
    if a != [] {
      assert (a + b)[1..] == a[1..] + b;
      ApplyRulesAppend(ReplaceAll(s, a[0].pattern, a[0].replacement), a[1..], b);
    } else {
      assert a + b == b;
    }
  }

  /** Rules whose patterns are all absent leave the text alone. */
  lemma {:induction false} ApplyRulesAbsent(s: string, rules: seq<Rule>)
    requires ValidRules(rules)
    requires forall k :: 0 <= k < |rules| ==> !Contains(s, rules[k].pattern)
    ensures ApplyRules(s, rules) == s
    decreases |rules|
  {
    if rules != [] {
      ReplaceAllAbsent(s, rules[0].pattern, rules[0].replacement);
      ApplyRulesAbsent(s, rules[1..]);
    }
  }

  /** A character absent from the text and from every replacement stays
      absent. */
  lemma {:induction false} ApplyRulesNoNewChar(s: string, rules: seq<Rule>, c: char)
    requires ValidRules(rules)
    requires c !in s
    requires forall k :: 0 <= k < |rules| ==> c !in rules[k].replacement
    ensures c !in ApplyRules(s, rules)
    decreases |rules|
  {
    if rules != [] {
      ReplaceAllNoNewChar(s, rules[0].pattern, rules[0].replacement, c);
      ApplyRulesNoNewChar(ReplaceAll(s, rules[0].pattern, rules[0].replacement), rules[1..], c);
    }
  }

  /** ASCII rules cannot create an occurrence of a non-ASCII text. */
  lemma {:induction false} ApplyRulesKeepsAbsent(s: string, rules: seq<Rule>, m: string)
    requires AsciiRules(rules)
    requires |m| > 0 && NoAscii(m)
    requires !Contains(s, m)
    ensures ValidRules(rules)
    ensures !Contains(ApplyRules(s, rules), m)
    decreases |rules|
  {
    if rules != [] {
      var t := ReplaceAll(s, rules[0].pattern, rules[0].replacement);
      if Contains(t, m) {
        ReplaceAllNoNewOccurrence(s, rules[0].pattern, rules[0].replacement, m);
      }
      ApplyRulesKeepsAbsent(t, rules[1..], m);
    }
  }

  /** After a chain of ASCII rules none of their patterns is left. */
  lemma {:induction false} ApplyRulesRemovesPatterns(s: string, rules: seq<Rule>, j: nat)
    requires AsciiRules(rules)
    requires j < |rules|
    ensures ValidRules(rules)
    ensures !Contains(ApplyRules(s, rules), rules[j].pattern)
    decreases |rules|
  {
    var t := ReplaceAll(s, rules[0].pattern, rules[0].replacement);
    if j == 0 {
      ReplaceAllRemovesPattern(s, rules[0].pattern, rules[0].replacement);
      ApplyRulesKeepsAbsent(t, rules[1..], rules[0].pattern);
    } else {
      ApplyRulesRemovesPatterns(t, rules[1..], j - 1);
    }
  }

  lemma ApplyRulesEmpty()
    ensures ValidRules(Rules)
    ensures ApplyRules("", Rules) == ""
  {
    RuleTableShape();
    ApplyRulesAbsent("", Rules);
  }

  /** The chain is the quote and dash rules, then the U+00C2 deletion, then
      the NBSP rule. */
  lemma ChainSplit(s: string)
    ensures ValidRules(Rules) && ValidRules(QuoteDashRules)
    ensures ApplyRules(s, Rules)
         == ReplaceAll(ReplaceAll(ApplyRules(s, QuoteDashRules), [Artifact], ""), [Nbsp], " ")
  {
    RuleTableShape();
    ApplyRulesAppend(s, QuoteDashRules, [ArtifactRule, NbspRule]);
    var t := ApplyRules(s, QuoteDashRules);
    assert [ArtifactRule, NbspRule][1..] == [NbspRule];
    assert ApplyRules(t, [ArtifactRule, NbspRule])
        == ApplyRules(ReplaceAll(t, [Artifact], ""), [NbspRule]);
  }

  /** The chain always ends with no U+00C2 and no NBSP. */
  lemma ArtifactAndNbspRemoved(s: string)
    ensures ValidRules(Rules)
    ensures Artifact !in ApplyRules(s, Rules) && Nbsp !in ApplyRules(s, Rules)
  {
    ChainSplit(s);
    var t := ApplyRules(s, QuoteDashRules);
    var u := ReplaceAll(t, [Artifact], "");
    ReplaceAllRemovesChar(t, Artifact, "");
    ReplaceAllNoNewChar(u, [Nbsp], " ", Artifact);
    ReplaceAllRemovesChar(u, Nbsp, " ");
  }

  // ---------------------------------------------------------------------
  // Lemmas about Collapse and Trim

  /** Collapsing introduces no character except the space. */
  lemma {:induction false} CollapseNoNewChar(s: string, c: char)
    requires c != ' ' && c !in s
    ensures c !in Collapse(s)
    decreases |s|
  {
    if |s| > 0 {
      if IsJsSpace(s[0]) {
        var t := TrimStart(s);
        assert c !in t by {
          assert t == s[|s| - |t|..];
        }
        CollapseNoNewChar(t, c);
      } else {
        CollapseNoNewChar(s[1..], c);
      }
    }
  }

  /** A collapsed prefix free of whitespace was already a prefix. */
  lemma {:induction false} CollapsePrefix(s: string, m: string)
    requires |m| > 0 && NoJsSpace(m)
    requires StartsWith(Collapse(s), m)
    ensures StartsWith(s, m)
    decreases |s|
  {
    var out := Collapse(s);
    assert out[..|m|][0] == m[0];
    if IsJsSpace(s[0]) {
      assert false;
    } else {
      var t := Collapse(s[1..]);
      assert out == [s[0]] + t;
      if |m| > 1 {
        assert t[..|m| - 1] == m[1..] by { assert out[..|m|] == [s[0]] + t[..|m| - 1]; }
        CollapsePrefix(s[1..], m[1..]);
        assert s[..|m|] == [s[0]] + s[1..][..|m| - 1];
      } else {
        assert s[..1] == [s[0]];
      }
    }
  }

  /** Collapsing cannot create an occurrence of a whitespace-free text. */
  lemma {:induction false} CollapseNoNewOccurrence(s: string, m: string)
    requires |m| > 0 && NoJsSpace(m)
    requires Contains(Collapse(s), m)
    ensures Contains(s, m)
    decreases |s|
  {
    var out := Collapse(s);
    if StartsWith(out, m) {
      CollapsePrefix(s, m);
    } else if IsJsSpace(s[0]) {
      var t := TrimStart(s);
      assert out[1..] == Collapse(t);
      CollapseNoNewOccurrence(t, m);
      ContainsSuffix(s, |s| - |t|, m);
    } else {
      assert out[1..] == Collapse(s[1..]);
      CollapseNoNewOccurrence(s[1..], m);
      ContainsSuffix(s, 1, m);
    }
  }

  lemma SingleSpacedTail(s: string)
    requires |s| > 0 && SingleSpaced(s)
    ensures SingleSpaced(s[1..])
  {
    forall i | 0 <= i < |s[1..]| && IsJsSpace(s[1..][i])
      ensures s[1..][i] == ' ' && (i + 1 < |s[1..]| ==> !IsJsSpace(s[1..][i + 1]))
    {
      assert s[1..][i] == s[i + 1];
      if i + 1 < |s[1..]| {
        assert s[1..][i + 1] == s[i + 2];
      }
    }
  }

  /** In a single-spaced text a leading space is the whole leading run. */
  lemma SingleSpacedLeadingRun(s: string)
    requires |s| > 0 && IsJsSpace(s[0]) && SingleSpaced(s)
    ensures TrimStart(s) == s[1..]
  {
    assert TrimStart(s) == TrimStart(s[1..]);
    if |s| > 1 {
      assert !IsJsSpace(s[1]);
      assert s[1..][0] == s[1];
    }
  }

  /** A single-spaced text collapses to itself. */
  lemma {:induction false} CollapseSingleSpaced(s: string)
    requires SingleSpaced(s)
    ensures Collapse(s) == s
    decreases |s|
  {
    if |s| > 0 {
      SingleSpacedTail(s);
      CollapseSingleSpaced(s[1..]);
      CollapseStep(s);
    }
  }

  lemma CollapseStep(s: string)
    requires |s| > 0 && SingleSpaced(s)
    requires Collapse(s[1..]) == s[1..]
    ensures Collapse(s) == s
  {
    if IsJsSpace(s[0]) {
      SingleSpacedLeadingRun(s);
      assert s[0] == ' ';
      assert Collapse(s) == [' '] + Collapse(s[1..]);
    } else {
      assert Collapse(s) == [s[0]] + Collapse(s[1..]);
    }
    assert s == [s[0]] + s[1..];
  }

  lemma TrimNoNewChar(s: string, c: char)
    requires c !in s
    ensures c !in Trim(s)
  {
  }

  lemma TrimNoNewOccurrence(s: string, m: string)
    requires Contains(Trim(s), m)
    ensures Contains(s, m)
  {
    var a := |s| - |TrimStart(s)|;
    ContainsSlice(s, a, a + |Trim(s)|, m);
  }

  /** Trimming a single-spaced text leaves each space between two
      non-whitespace characters. */
  lemma TrimNormalizes(s: string)
    requires SingleSpaced(s)
    ensures Normalized(Trim(s))
  {
    var r := Trim(s);
    var a := |s| - |TrimStart(s)|;
    forall i | 0 <= i < |r| && IsJsSpace(r[i])
      ensures r[i] == ' ' && 0 < i < |r| - 1 && !IsJsSpace(r[i - 1]) && !IsJsSpace(r[i + 1])
    {
      assert r[i] == s[a + i];
      assert 0 < i < |r| - 1;
      assert r[i + 1] == s[a + i + 1];
      assert r[i - 1] == s[a + i - 1];
    }
  }

  // ---------------------------------------------------------------------
  // Properties of CleanText

  /** A normalized text is single spaced and has no surrounding
      whitespace. */
  lemma NormalizedShape(s: string)
    requires Normalized(s)
    ensures SingleSpaced(s)
    ensures |s| > 0 ==> !IsJsSpace(s[0]) && !IsJsSpace(s[|s| - 1])
  {
  }

  /** Already-clean text: no pattern of the chain, whitespace already
      collapsed to single interior spaces. */
  predicate IsClean(s: string) {
    && (forall k :: 0 <= k < |Markers| ==> !Contains(s, Markers[k]))
    && Artifact !in s && Nbsp !in s
    && Normalized(s)
  }

  /** `cleanText` is the identity on clean text. */
  lemma CleanTextIdentity(s: string)
    requires IsClean(s)
    ensures CleanText(Some(s)) == s
  {
    RuleTableShape();
    ContainsChar(s, Artifact);
    ContainsChar(s, Nbsp);
    ApplyRulesAbsent(s, Rules);
    CollapseSingleSpaced(s);
    TrimNoEdges(s);
  }

  /** `cleanText` spelled out stage by stage. */
  lemma CleanTextStages(s: string)
    ensures ValidRules(QuoteDashRules)
    ensures CleanText(Some(s))
         == Trim(Collapse(ReplaceAll(ReplaceAll(ApplyRules(s, QuoteDashRules), [Artifact], ""), [Nbsp], " ")))
  {
    ChainSplit(s);
  }

  /** Without U+00C2 in the input, no quote or dash marker survives. */
  lemma CleanTextRemovesMarkers(s: string, k: nat)
    requires Artifact !in s
    requires k < |Markers|
    ensures !Contains(CleanText(Some(s)), Markers[k])
  {
    RuleTableShape();
    var m := Markers[k];
    var t := ApplyRules(s, QuoteDashRules);
    assert !Contains(t, m) by {
      ApplyRulesRemovesPatterns(s, QuoteDashRules, k);
    }
    ApplyRulesNoNewChar(s, QuoteDashRules, Artifact);
    MarkerShape(k);
    LaterStagesKeepAbsent(t, m);
    CleanTextStages(s);
  }

  /** Every marker is non-empty, non-ASCII and free of whitespace. */
  lemma MarkerShape(k: nat)
    requires k < |Markers|
    ensures |Markers[k]| > 0 && NoAscii(Markers[k]) && NoJsSpace(Markers[k])
  {
    RuleTableShape();
    assert Markers[k] == QuoteDashRules[k].pattern;
    assert |Markers[k]| == 3 && Markers[k][0] == '\U{00E2}' && Markers[k][1] == '\U{20AC}';
  }

  /** The stages after the quote and dash rules create no new occurrence of
      a marker in text without U+00C2. */
  lemma LaterStagesKeepAbsent(t: string, m: string)
    requires |m| > 0 && NoAscii(m) && NoJsSpace(m)
    requires Artifact !in t && !Contains(t, m)
    ensures !Contains(Trim(Collapse(ReplaceAll(ReplaceAll(t, [Artifact], ""), [Nbsp], " "))), m)
  {
    // no U+00C2 appears, so deleting it changes nothing
    assert ReplaceAll(t, [Artifact], "") == t by {
      ContainsChar(t, Artifact);
      ReplaceAllAbsent(t, [Artifact], "");
    }
    // the NBSP rule writes ASCII
    var u := ReplaceAll(t, [Nbsp], " ");
    assert !Contains(u, m) by {
      if Contains(u, m) {
        ReplaceAllNoNewOccurrence(t, [Nbsp], " ", m);
      }
    }
    var c := Collapse(u);
    assert !Contains(c, m) by {
      if Contains(c, m) {
        CollapseNoNewOccurrence(u, m);
      }
    }
    assert !Contains(Trim(c), m) by {
      if Contains(Trim(c), m) {
        TrimNoNewOccurrence(c, m);
      }
    }
  }

  /** Without U+00C2 in the input, `cleanText` is idempotent. */
  lemma CleanTextIdempotent(s: string)
    requires Artifact !in s
    ensures CleanText(Some(CleanText(Some(s)))) == CleanText(Some(s))
  {
    var r := CleanText(Some(s));
    forall k | 0 <= k < |Markers|
      ensures !Contains(r, Markers[k])
    {
      CleanTextRemovesMarkers(s, k);
    }
    CleanTextIdentity(r);
  }

  /** The input that shows why U+00C2 must be excluded: deleting it joins
      "â" and "€™" into the apostrophe marker after the apostrophe rule has
      already run. */
  const SplicedInput: string := "\U{00E2}\U{00C2}\U{20AC}\U{2122}"

  lemma SplicedHasNoQuoteDash(k: nat)
    requires k < |QuoteDashRules|
    ensures !Contains(SplicedInput, QuoteDashRules[k].pattern)
  {
    var s := SplicedInput;
    var p := QuoteDashRules[k].pattern;
    assert |p| == 3 && p[0] == '\U{00E2}' && p[1] == '\U{20AC}';
    ContainsAt(s, p);
    assert !exists i :: OccursAt(s, p, i);
  }

  lemma SplicedDeletion()
    ensures ReplaceAll(SplicedInput, [Artifact], "") == RightSingleQuote
  {
    var s := SplicedInput;
    assert s[1..][1..] == [s[2], s[3]];
    assert ReplaceAll(s, [Artifact], "") == [s[0]] + ReplaceAll(s[1..], [Artifact], "");
    assert ReplaceAll(s[1..], [Artifact], "") == ReplaceAll([s[2], s[3]], [Artifact], "");
    assert ReplaceAll([s[2], s[3]], [Artifact], "") == [s[2]] + ReplaceAll([s[3]], [Artifact], "");
    assert ReplaceAll([s[3]], [Artifact], "") == [s[3]] + ReplaceAll([], [Artifact], "");
  }

  /** `cleanText` of the spliced input is exactly the apostrophe marker, so
      a marker survives and a second call changes the text. */
  lemma SplicedMarkerSurvives()
    ensures CleanText(Some(SplicedInput)) == RightSingleQuote
    ensures Contains(CleanText(Some(SplicedInput)), RightSingleQuote)
    ensures CleanText(Some(CleanText(Some(SplicedInput)))) != CleanText(Some(SplicedInput))
  {
    var q := RightSingleQuote;
    SplicedCleansToQuote();
    assert StartsWith(q, q);
    RuleTableShape();
    CleanTextRemovesMarkers(q, 0);
  }

  lemma SplicedCleansToQuote()
    ensures CleanText(Some(SplicedInput)) == RightSingleQuote
  {
    RuleTableShape();
    var s := SplicedInput;
    SplicedQuoteDashStage();
    SplicedDeletion();
    SplicedQuoteStable();
    CleanTextStages(s);
  }

  lemma SplicedQuoteDashStage()
    ensures ApplyRules(SplicedInput, QuoteDashRules) == SplicedInput
  {
    RuleTableShape();
    forall k | 0 <= k < |QuoteDashRules|
      ensures !Contains(SplicedInput, QuoteDashRules[k].pattern)
    {
      SplicedHasNoQuoteDash(k);
    }
    ApplyRulesAbsent(SplicedInput, QuoteDashRules);
  }

  /** The apostrophe marker passes the NBSP rule, collapsing and trimming
      unchanged. */
  lemma SplicedQuoteStable()
    ensures ReplaceAll(RightSingleQuote, [Nbsp], " ") == RightSingleQuote
    ensures Collapse(RightSingleQuote) == RightSingleQuote
    ensures Trim(RightSingleQuote) == RightSingleQuote
  {
    var q := RightSingleQuote;
    ContainsChar(q, Nbsp);
    ReplaceAllAbsent(q, [Nbsp], " ");
    assert NoJsSpace(q);
    CollapseSingleSpaced(q);
    TrimNoEdges(q);
  }

  /** A lone U+00C2 cleans to nothing: text that looks non-blank before
      cleaning can be empty after it. */
  lemma ArtifactOnlyCleansToEmpty()
    ensures CleanText(Some([Artifact])) == ""
  {
    RuleTableShape();
    var s: string := [Artifact];
    assert ApplyRules(s, QuoteDashRules) == s by {
      forall k | 0 <= k < |QuoteDashRules|
        ensures !Contains(s, QuoteDashRules[k].pattern)
      {
        var p := QuoteDashRules[k].pattern;
        assert |p| == 3;
        ContainsAt(s, p);
      }
      ApplyRulesAbsent(s, QuoteDashRules);
    }
    assert ReplaceAll(s, [Artifact], "") == "" by {
      assert s[1..] == [];
    }
    CleanTextStages(s);
  }

  /** `cleanText` of a string-valued form field or column. Its result is
      already trimmed, so the pages' extra `.trim()` and their blank tests
      reduce to comparing with "". */
  function Clean(x: string): (r: string)
    ensures Normalized(r)
    ensures Trim(r) == r
    ensures IsBlank(r) <==> r == ""
  {
    var r := CleanText(Some(x));
    NormalizedTrimmed(r);
    r
  }

  /** Normalized text is its own trim, and blank only when empty. */
  lemma NormalizedTrimmed(s: string)
    requires Normalized(s)
    ensures Trim(s) == s
    ensures IsBlank(s) <==> s == ""
  {
    NormalizedShape(s);
    TrimNoEdges(s);
  }
}
