/**
  `generate_suggestions` of main.py: three rules (short content,
  likes/follows, more than 100 words) and a fallback tip. Built like the
  app.py variant: the method performs the source's guarded appends, the rule
  table `MainRules` read through `Rules.Suggest` is the reference it is
  proved against, and the lemmas state what the list holds for every text.
 */
module MainSuggestions {
  import opened PyStrings
  import opened Rules

  const ShortContentTip := "Add more content to increase engagement."
  const LikesFollowsTip := "Avoid asking directly for likes/follows."
  const TooLongTip := "Make the content short and clean."
  const HookTip := "Add a hook in first 2 lines to catch attention."

  /** Texts with more words than this are "too long". */
  const MaxWords := 100
  /** Texts whose stripped length is below this are "too short". */
  const MinChars := 10

  const ShortContentRule := Rule(StrippedShorterThan(MinChars), ShortContentTip)
  const LikesFollowsRule := Rule(MentionsAny(["follow", "like"]), LikesFollowsTip)
  const TooLongRule := Rule(MoreWordsThan(MaxWords), TooLongTip)

  /** The three rules of main.py, in the order the source tests them. */
  const MainRules: seq<Rule> := [ShortContentRule, LikesFollowsRule, TooLongRule]

  /** The suggestion list main.py returns for `text`. */
  function Suggestions(text: string): seq<string> {
    Suggest(MainRules, HookTip, text)
  }

  /** The table's entries, one by one. */
  lemma MainRulesAt()
    ensures |MainRules| == 3
    ensures MainRules[0] == ShortContentRule
    ensures MainRules[1] == LikesFollowsRule
    ensures MainRules[2] == TooLongRule
  {
  }

  // Each guarded append of the source, stated on its own: given the tips of
  // the rules before it, the `if` extends them to the tips of one rule more.

  lemma AppendShortContent(text: string, before: seq<string>, after: seq<string>)
    requires before == Fired(MainRules, Tests(MainRules, text), 0)
    requires after == if |Strip(text)| < MinChars then before + [ShortContentTip] else before
    ensures after == Fired(MainRules, Tests(MainRules, text), 1)
  {
    MainRulesAt();
    FiredStep(MainRules, text, 0, ShortContentTip, |Strip(text)| < MinChars);
  }

  lemma AppendLikesFollows(text: string, before: seq<string>, after: seq<string>)
    requires before == Fired(MainRules, Tests(MainRules, text), 1)
    requires after == if Contains(Lower(text), "follow") || Contains(Lower(text), "like") then before + [LikesFollowsTip] else before
    ensures after == Fired(MainRules, Tests(MainRules, text), 2)
  {
    MainRulesAt();
    MentionsTwo(text, "follow", "like");
    FiredStep(MainRules, text, 1, LikesFollowsTip, Contains(Lower(text), "follow") || Contains(Lower(text), "like"));
  }

  lemma AppendTooLong(text: string, before: seq<string>, after: seq<string>)
    requires before == Fired(MainRules, Tests(MainRules, text), 2)
    requires after == if |Split(text)| > MaxWords then before + [TooLongTip] else before
    ensures after == Fired(MainRules, Tests(MainRules, text), 3)
  {
    MainRulesAt();
    FiredStep(MainRules, text, 2, TooLongTip, |Split(text)| > MaxWords);
  }

  lemma FallbackStep(text: string, before: seq<string>, after: seq<string>)
    requires before == Fired(MainRules, Tests(MainRules, text), 3)
    requires after == if before == [] then before + [HookTip] else before
    ensures after == Suggestions(text)
  {
  }

  /** main.py's `generate_suggestions`: the guarded appends in source order,
      then the fallback when nothing was appended. Its result is the rule
      table's reading of `text`. */
  method GenerateSuggestions(text: string) returns (tips: seq<string>)
    ensures tips == Suggestions(text)
  {
    tips := [];
    ghost var before: seq<string>;
    var t := Lower(text);

    before := tips;
    if |Strip(text)| < MinChars {
      tips := tips + [ShortContentTip];
    }
    AppendShortContent(text, before, tips);
    before := tips;
    if Contains(t, "follow") || Contains(t, "like") {
      tips := tips + [LikesFollowsTip];
    }
    AppendLikesFollows(text, before, tips);
    before := tips;
    if |Split(text)| > MaxWords {
      tips := tips + [TooLongTip];
    }
    AppendTooLong(text, before, tips);
    before := tips;
    if tips == [] {
      tips := tips + [HookTip];
    }
    FallbackStep(text, before, tips);
  }

  lemma MainRulesWellFormed()
    ensures WellFormed(MainRules, HookTip)
  {
  }

  /** The list is never empty, holds at most three tips, and repeats none. */
  lemma ShapeOfSuggestions(text: string)
    ensures 1 <= |Suggestions(text)| <= 3
    ensures NoDuplicates(Suggestions(text))
  {
    MainRulesWellFormed();
    SuggestShape(MainRules, HookTip, text);
  }

  /** Tips come in rule order: short content, likes/follows, too long. */
  lemma OrderOfSuggestions(text: string, i: nat, j: nat, a: nat, b: nat)
    requires i < j < |Suggestions(text)|
    requires a < 3 && b < 3
    requires Suggestions(text)[i] == MainRules[a].tip && Suggestions(text)[j] == MainRules[b].tip
    ensures a < b
  {
    MainRulesWellFormed();
    SuggestInRuleOrder(MainRules, HookTip, text, i, j, a, b);
  }

  /** The list holds nothing but the three rule tips and the fallback. */
  lemma OnlyKnownTips(text: string)
    ensures forall t :: t in Suggestions(text) ==>
      t == ShortContentTip || t == LikesFollowsTip || t == TooLongTip || t == HookTip
  {
    var allowed := [ShortContentTip, LikesFollowsTip, TooLongTip, HookTip];
    assert MainRules[0].tip == allowed[0] && MainRules[1].tip == allowed[1] && MainRules[2].tip == allowed[2];
    SuggestWithin(MainRules, HookTip, text, allowed);
  }

  /** The short-content tip appears exactly when the stripped text has
      fewer than ten characters. */
  lemma ShortContentIff(text: string)
    ensures ShortContentTip in Suggestions(text) <==> |Strip(text)| < 10
  {
    MainRulesWellFormed();
    SuggestRule(MainRules, HookTip, text, 0);
    MainRulesAt();
  }

  /** The likes/follows tip appears exactly when the lowered text contains
      "follow" or "like" anywhere, even inside a longer word. */
  lemma LikesFollowsIff(text: string)
    ensures LikesFollowsTip in Suggestions(text) <==>
            Contains(Lower(text), "follow") || Contains(Lower(text), "like")
  {
    MainRulesWellFormed();
    MainRulesAt();
    MentionsTwo(text, "follow", "like");
    SuggestRule(MainRules, HookTip, text, 1);
  }

  /** The too-long tip appears exactly when `split()` finds more than 100
      words. */
  lemma TooLongIff(text: string)
    ensures TooLongTip in Suggestions(text) <==> |Split(text)| > 100
  {
    MainRulesWellFormed();
    SuggestRule(MainRules, HookTip, text, 2);
    MainRulesAt();
  }

  /** The fallback appears exactly when none of the three rule tips does. */
  lemma HookTipIffNoRuleTip(text: string)
    ensures HookTip in Suggestions(text) <==>
      && ShortContentTip !in Suggestions(text)
      && LikesFollowsTip !in Suggestions(text)
      && TooLongTip !in Suggestions(text)
  {
    MainRulesWellFormed();
    SuggestFallbackByTips(MainRules, HookTip, text);
    assert MainRules[0].tip == ShortContentTip;
    assert MainRules[1].tip == LikesFollowsTip;
    assert MainRules[2].tip == TooLongTip;
  }

  /** The fallback appears exactly when none of the three rules fires, and
      is then the only tip. */
  lemma HookTipIffNoRule(text: string)
    ensures HookTip in Suggestions(text) <==>
      && |Strip(text)| >= 10
      && !Contains(Lower(text), "follow") && !Contains(Lower(text), "like")
      && |Split(text)| <= 100
    ensures HookTip in Suggestions(text) ==> Suggestions(text) == [HookTip]
  {
    MainRulesWellFormed();
    SuggestFallback(MainRules, HookTip, text);
    HookTipIffNoRuleTip(text);
    ShortContentIff(text);
    LikesFollowsIff(text);
    TooLongIff(text);
  }

  /** The empty text gets the short-content tip and nothing else. */
  lemma EmptyText()
    ensures Suggestions("") == [ShortContentTip]
  {
    assert Lower("") == "";
    assert |Strip("")| == 0;
    assert Split("") == [];
    var tips := [ShortContentTip];
    AppendShortContent("", [], tips);
    AppendLikesFollows("", tips, tips);
    AppendTooLong("", tips, tips);
    FallbackStep("", tips, tips);
  }

  /** More than 100 words need at least 201 stripped characters, so a text
      is never both too short and too long. */
  lemma ShortAndLongExclusive(text: string)
    ensures !(ShortContentTip in Suggestions(text) && TooLongTip in Suggestions(text))
  {
    ShortContentIff(text);
    TooLongIff(text);
    WordsFitStripped(text);
  }

  /** Texts that lower-case to the same string get the same list. */
  lemma CaseInsensitive(x: string, y: string)
    requires Lower(x) == Lower(y)
    ensures Suggestions(x) == Suggestions(y)
  {
    SuggestCaseInsensitive(MainRules, HookTip, x, y);
  }
}
