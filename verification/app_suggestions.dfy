/**
  `generate_suggestions` of app.py: six rules and a fallback tip. The
  method follows the source step by step (a local list extended by guarded
  appends); the rule table `AppRules` read through `Rules.Suggest` is the
  reference it is proved against, and the lemmas state what the list holds
  for every text.
 */
module AppSuggestions {
  import opened PyStrings
  import opened Rules

  const ShortContentTip := "Add more meaningful content to engage users."
  const LikesFollowsTip := "Avoid asking for likes or follows directly; use value-based CTA."
  const TooLongTip := "Make the content shorter and more readable."
  const MotivationTip := "Add a personal story to increase emotional engagement."
  const BusinessTip := "Use a hook line to capture attention early."
  const FriendTip := "Use well-lit images to improve post quality."
  const HookTip := "Try adding a strong hook in the first 2 lines for high engagement."

  /** Texts with more words than this are "too long". */
  const MaxWords := 150
  /** Texts whose stripped length is below this are "too short". */
  const MinChars := 10

  const ShortContentRule := Rule(StrippedShorterThan(MinChars), ShortContentTip)
  const LikesFollowsRule := Rule(MentionsAny(["follow", "like"]), LikesFollowsTip)
  const TooLongRule := Rule(MoreWordsThan(MaxWords), TooLongTip)
  const MotivationRule := Rule(MentionsAny(["motivation"]), MotivationTip)
  const BusinessRule := Rule(MentionsAny(["business", "startup"]), BusinessTip)
  const FriendRule := Rule(MentionsAny(["friend", "selfie"]), FriendTip)

  /** The six rules of app.py, in the order the source tests them. */
  const AppRules: seq<Rule> :=
    [ShortContentRule, LikesFollowsRule, TooLongRule, MotivationRule, BusinessRule, FriendRule]

  /** The suggestion list app.py returns for `text`. */
  function Suggestions(text: string): seq<string> {
    Suggest(AppRules, HookTip, text)
  }

  /** The table's entries, one by one. */
  lemma AppRulesAt()
    ensures |AppRules| == 6
    ensures AppRules[0] == ShortContentRule
    ensures AppRules[1] == LikesFollowsRule
    ensures AppRules[2] == TooLongRule
    ensures AppRules[3] == MotivationRule
    ensures AppRules[4] == BusinessRule
    ensures AppRules[5] == FriendRule
  {
  }

  // Each guarded append of the source, stated on its own: given the tips of
  // the rules before it, the `if` extends them to the tips of one rule more.

  lemma AppendShortContent(text: string, before: seq<string>, after: seq<string>)
    requires before == Fired(AppRules, Tests(AppRules, text), 0)
    requires after == if |Strip(text)| < MinChars then before + [ShortContentTip] else before
    ensures after == Fired(AppRules, Tests(AppRules, text), 1)
  {
    AppRulesAt();
    FiredStep(AppRules, text, 0, ShortContentTip, |Strip(text)| < MinChars);
  }

  lemma AppendLikesFollows(text: string, before: seq<string>, after: seq<string>)
    requires before == Fired(AppRules, Tests(AppRules, text), 1)
    requires after == if Contains(Lower(text), "follow") || Contains(Lower(text), "like") then before + [LikesFollowsTip] else before
    ensures after == Fired(AppRules, Tests(AppRules, text), 2)
  {
    AppRulesAt();
    MentionsTwo(text, "follow", "like");
    FiredStep(AppRules, text, 1, LikesFollowsTip, Contains(Lower(text), "follow") || Contains(Lower(text), "like"));
  }

  lemma AppendTooLong(text: string, before: seq<string>, after: seq<string>)
    requires before == Fired(AppRules, Tests(AppRules, text), 2)
    requires after == if |Split(text)| > MaxWords then before + [TooLongTip] else before
    ensures after == Fired(AppRules, Tests(AppRules, text), 3)
  {
    AppRulesAt();
    FiredStep(AppRules, text, 2, TooLongTip, |Split(text)| > MaxWords);
  }

  lemma AppendMotivation(text: string, before: seq<string>, after: seq<string>)
    requires before == Fired(AppRules, Tests(AppRules, text), 3)
    requires after == if Contains(Lower(text), "motivation") then before + [MotivationTip] else before
    ensures after == Fired(AppRules, Tests(AppRules, text), 4)
  {
    AppRulesAt();
    MentionsOne(text, "motivation");
    FiredStep(AppRules, text, 3, MotivationTip, Contains(Lower(text), "motivation"));
  }

  lemma AppendBusiness(text: string, before: seq<string>, after: seq<string>)
    requires before == Fired(AppRules, Tests(AppRules, text), 4)
    requires after == if Contains(Lower(text), "business") || Contains(Lower(text), "startup") then before + [BusinessTip] else before
    ensures after == Fired(AppRules, Tests(AppRules, text), 5)
  {
    AppRulesAt();
    MentionsTwo(text, "business", "startup");
    FiredStep(AppRules, text, 4, BusinessTip, Contains(Lower(text), "business") || Contains(Lower(text), "startup"));
  }

  lemma AppendFriend(text: string, before: seq<string>, after: seq<string>)
    requires before == Fired(AppRules, Tests(AppRules, text), 5)
    requires after == if Contains(Lower(text), "friend") || Contains(Lower(text), "selfie") then before + [FriendTip] else before
    ensures after == Fired(AppRules, Tests(AppRules, text), 6)
  {
    AppRulesAt();
    MentionsTwo(text, "friend", "selfie");
    FiredStep(AppRules, text, 5, FriendTip, Contains(Lower(text), "friend") || Contains(Lower(text), "selfie"));
  }

  lemma FallbackStep(text: string, before: seq<string>, after: seq<string>)
    requires before == Fired(AppRules, Tests(AppRules, text), 6)
    requires after == if before == [] then before + [HookTip] else before
    ensures after == Suggestions(text)
  {
  }

  /** app.py's `generate_suggestions`: the guarded appends in source order,
      then the fallback when nothing was appended. Its result is the rule
      table's reading of `text`. */
  method GenerateSuggestions(text: string) returns (tips: seq<string>)
    ensures tips == Suggestions(text)
  {
    var textLower := Lower(text);
    tips := [];
    ghost var before: seq<string>;

    before := tips;
    if |Strip(text)| < MinChars {
      tips := tips + [ShortContentTip];
    }
    AppendShortContent(text, before, tips);
    before := tips;
    if Contains(textLower, "follow") || Contains(textLower, "like") {
      tips := tips + [LikesFollowsTip];
    }
    AppendLikesFollows(text, before, tips);
    before := tips;
    if |Split(text)| > MaxWords {
      tips := tips + [TooLongTip];
    }
    AppendTooLong(text, before, tips);
    before := tips;
    if Contains(textLower, "motivation") {
      tips := tips + [MotivationTip];
    }
    AppendMotivation(text, before, tips);
    before := tips;
    if Contains(textLower, "business") || Contains(textLower, "startup") {
      tips := tips + [BusinessTip];
    }
    AppendBusiness(text, before, tips);
    before := tips;
    if Contains(textLower, "friend") || Contains(textLower, "selfie") {
      tips := tips + [FriendTip];
    }
    AppendFriend(text, before, tips);
    before := tips;
    if tips == [] {
      tips := tips + [HookTip];
    }
    FallbackStep(text, before, tips);
  }

  lemma AppRulesWellFormed()
    ensures WellFormed(AppRules, HookTip)
  {
  }

  /** The list is never empty, holds at most six tips, and repeats none. */
  lemma ShapeOfSuggestions(text: string)
    ensures 1 <= |Suggestions(text)| <= 6
    ensures NoDuplicates(Suggestions(text))
  {
    AppRulesWellFormed();
    SuggestShape(AppRules, HookTip, text);
  }

  /** Tips come in rule order: short content, likes/follows, too long,
      motivation, business/startup, friend/selfie. */
  lemma OrderOfSuggestions(text: string, i: nat, j: nat, a: nat, b: nat)
    requires i < j < |Suggestions(text)|
    requires a < 6 && b < 6
    requires Suggestions(text)[i] == AppRules[a].tip && Suggestions(text)[j] == AppRules[b].tip
    ensures a < b
  {
    AppRulesWellFormed();
    SuggestInRuleOrder(AppRules, HookTip, text, i, j, a, b);
  }

  /** The list holds nothing but the six rule tips and the fallback. */
  lemma OnlyKnownTips(text: string)
    ensures forall t :: t in Suggestions(text) ==>
      || t == ShortContentTip || t == LikesFollowsTip || t == TooLongTip
      || t == MotivationTip || t == BusinessTip || t == FriendTip || t == HookTip
  {
    var allowed := [ShortContentTip, LikesFollowsTip, TooLongTip, MotivationTip, BusinessTip, FriendTip, HookTip];
    assert AppRules[0].tip == allowed[0] && AppRules[1].tip == allowed[1] && AppRules[2].tip == allowed[2];
    assert AppRules[3].tip == allowed[3] && AppRules[4].tip == allowed[4] && AppRules[5].tip == allowed[5];
    SuggestWithin(AppRules, HookTip, text, allowed);
  }

  /** The short-content tip appears exactly when the stripped text has
      fewer than ten characters. */
  lemma ShortContentIff(text: string)
    ensures ShortContentTip in Suggestions(text) <==> |Strip(text)| < 10
  {
    AppRulesWellFormed();
    SuggestRule(AppRules, HookTip, text, 0);
    AppRulesAt();
  }

  /** The likes/follows tip appears exactly when the lowered text contains
      "follow" or "like" anywhere, even inside a longer word. */
  lemma LikesFollowsIff(text: string)
    ensures LikesFollowsTip in Suggestions(text) <==>
            Contains(Lower(text), "follow") || Contains(Lower(text), "like")
  {
    AppRulesWellFormed();
    AppRulesAt();
    MentionsTwo(text, "follow", "like");
    SuggestRule(AppRules, HookTip, text, 1);
  }

  /** The too-long tip appears exactly when `split()` finds more than 150
      words. */
  lemma TooLongIff(text: string)
    ensures TooLongTip in Suggestions(text) <==> |Split(text)| > 150
  {
    AppRulesWellFormed();
    SuggestRule(AppRules, HookTip, text, 2);
    AppRulesAt();
  }

  /** The motivation tip appears exactly when the lowered text contains
      "motivation". */
  lemma MotivationIff(text: string)
    ensures MotivationTip in Suggestions(text) <==> Contains(Lower(text), "motivation")
  {
    AppRulesWellFormed();
    AppRulesAt();
    MentionsOne(text, "motivation");
    SuggestRule(AppRules, HookTip, text, 3);
  }

  /** The hook-line tip appears exactly when the lowered text contains
      "business" or "startup". */
  lemma BusinessIff(text: string)
    ensures BusinessTip in Suggestions(text) <==>
            Contains(Lower(text), "business") || Contains(Lower(text), "startup")
  {
    AppRulesWellFormed();
    AppRulesAt();
    MentionsTwo(text, "business", "startup");
    SuggestRule(AppRules, HookTip, text, 4);
  }

  /** The lighting tip appears exactly when the lowered text contains
      "friend" or "selfie". */
  lemma FriendIff(text: string)
    ensures FriendTip in Suggestions(text) <==>
            Contains(Lower(text), "friend") || Contains(Lower(text), "selfie")
  {
    AppRulesWellFormed();
    AppRulesAt();
    MentionsTwo(text, "friend", "selfie");
    SuggestRule(AppRules, HookTip, text, 5);
  }

  /** The fallback appears exactly when none of the six rule tips does. */
  lemma HookTipIffNoRuleTip(text: string)
    ensures HookTip in Suggestions(text) <==>
      && ShortContentTip !in Suggestions(text)
      && LikesFollowsTip !in Suggestions(text)
      && TooLongTip !in Suggestions(text)
      && MotivationTip !in Suggestions(text)
      && BusinessTip !in Suggestions(text)
      && FriendTip !in Suggestions(text)
  {
    AppRulesWellFormed();
    SuggestFallbackByTips(AppRules, HookTip, text);
    assert AppRules[0].tip == ShortContentTip;
    assert AppRules[1].tip == LikesFollowsTip;
    assert AppRules[2].tip == TooLongTip;
    assert AppRules[3].tip == MotivationTip;
    assert AppRules[4].tip == BusinessTip;
    assert AppRules[5].tip == FriendTip;
  }

  /** The fallback appears exactly when none of the six rules fires, and is
      then the only tip. */
  lemma HookTipIffNoRule(text: string)
    ensures HookTip in Suggestions(text) <==>
      && |Strip(text)| >= 10
      && !Contains(Lower(text), "follow") && !Contains(Lower(text), "like")
      && |Split(text)| <= 150
      && !Contains(Lower(text), "motivation")
      && !Contains(Lower(text), "business") && !Contains(Lower(text), "startup")
      && !Contains(Lower(text), "friend") && !Contains(Lower(text), "selfie")
    ensures HookTip in Suggestions(text) ==> Suggestions(text) == [HookTip]
  {
    AppRulesWellFormed();
    SuggestFallback(AppRules, HookTip, text);
    HookTipIffNoRuleTip(text);
    ShortContentIff(text);
    LikesFollowsIff(text);
    TooLongIff(text);
    MotivationIff(text);
    BusinessIff(text);
    FriendIff(text);
  }

  /** The empty text gets the short-content tip and nothing else. */
  lemma EmptyText()
    ensures Suggestions("") == [ShortContentTip]
  {
    assert Lower("") == "";
    assert |Strip("")| == 0;
    assert Split("") == [];
    var tips := [ShortContentTip];
    AppendShortContent("", [], tips);
    AppendLikesFollows("", tips, tips);
    AppendTooLong("", tips, tips);
    AppendMotivation("", tips, tips);
    AppendBusiness("", tips, tips);
    AppendFriend("", tips, tips);
    FallbackStep("", tips, tips);
  }

  /** "unlikely" is not a request for likes, yet the substring test fires. */
  lemma UnlikelyMentionsLike()
    ensures LikesFollowsTip in Suggestions("unlikely")
  {
    assert OccursAt(Lower("unlikely"), "like", 2);
    LikesFollowsIff("unlikely");
  }

  /** Case does not hide a keyword: "FOLLOW" lowers to "follow" and gets
      the likes/follows tip. */
  lemma UpperCaseFollow()
    ensures LikesFollowsTip in Suggestions("FOLLOW")
  {
    assert Lower("FOLLOW") == "follow";
    assert OccursAt(Lower("FOLLOW"), "follow", 0);
    LikesFollowsIff("FOLLOW");
  }

  /** More than 150 words need at least 301 stripped characters, so a text
      is never both too short and too long. */
  lemma ShortAndLongExclusive(text: string)
    ensures !(ShortContentTip in Suggestions(text) && TooLongTip in Suggestions(text))
  {
    ShortContentIff(text);
    TooLongIff(text);
    WordsFitStripped(text);
  }

  /** Texts that lower-case to the same string get the same list. */
  lemma CaseInsensitive(x: string, y: string)
    requires Lower(x) == Lower(y)
    ensures Suggestions(x) == Suggestions(y)
  {
    SuggestCaseInsensitive(AppRules, HookTip, x, y);
  }
}
