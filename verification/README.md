# Post suggestions: a Dafny model of `generate_suggestions`

The service is an OCR endpoint for social-media posts. It reads the text out
of an uploaded image and returns a list of advisory tips for that text. The
tips come from `generate_suggestions`, a fixed sequence of guarded appends
to a local list, followed by a fallback tip when nothing was appended. The
repository has two near-identical copies:

- `app.py` has six rules: short content, likes/follows, more than 150
  words, "motivation", "business"/"startup" and "friend"/"selfie".
- `main.py` has three rules: short content, likes/follows and more than
  100 words. Its tip wording is different.

The project has five modules:

- `PyStrings` (`py_strings.dfy`) models the four Python string operations
  the rules use: `str.lower()`, `str.strip()`, `str.split()` with no
  argument, and the substring test `p in s`. A string holds any Unicode
  character.
  - Whitespace is what `str.isspace()` accepts among the ASCII
    characters: codes 9 to 13 and 28 to 32. Every non-ASCII character
    counts as non-whitespace, and `Lower` leaves it unchanged.
  - The contracts of `strip()` say what it drops and what it keeps. The
    contract of `p in s` says it holds exactly when `p` occurs at some
    position.
  - For `split()`, the lemmas fix three things. The number of words
    equals a one-pass count of word starts. The words glued together are
    the text with its whitespace removed. Every word occurs in the text
    with whitespace or a text end on both sides.
- `Rules` (`rules.dfy`) describes the common shape once.
  - A `Rule` is a condition and a tip.
  - `Tests` gives each rule's test outcome on the text, in rule order.
  - `Fired` gives the tips of the first `k` rules whose test passed.
  - `Suggest` adds the fallback when no rule fires.
  - Its lemmas hold for any table with distinct tips: membership,
    order, no duplicates, the fallback, and case-insensitivity.
- `AppSuggestions` (`app_suggestions.dfy`) and `MainSuggestions`
  (`main_suggestions.dfy`) each model one variant.
  - `GenerateSuggestions` performs the source's guarded appends in source
    order. It is proved equal to the variant's rule table read through
    `Suggest`.
  - Each `if` is justified by an `Append…` lemma. That lemma says that,
    given the tips of the rules before it, the list after the `if` holds
    the tips of one more rule.
  - Per-variant lemmas state which tip appears under which condition.
    They use the source's own constants: stripped length below 10, and
    more than 150 words (app.py) or more than 100 words (main.py).
- `Variants` (`variants.dfy`) compares the two copies.

Python's list becomes a Dafny `seq<string>` extended by concatenation. The
list is local and freshly created, so there is no aliasing to model. As in
the source, the keyword tests read the lowered text, and the strip and
split tests read the original text.

## Model

| member | source | states |
|---|---|---|
| PyStrings.LowerChar | app.py:10 | one character lowered: never upper-case afterwards, unchanged unless it was upper-case, a space exactly when it was one |
| PyStrings.Lower | app.py:10 | `text.lower()`: same length, each character lowered on its own, so no upper-case letter is left, every other character is unchanged and whitespace stays in the same places |
| PyStrings.LowerUpperCase | app.py:10 | each of `A`..`Z` in the text becomes its own lower-case letter, 32 code points up |
| PyStrings.LowerIdempotent | app.py:10 | lowering an already lowered text changes nothing |
| PyStrings.SameLowerSameMask | app.py:10 | two texts with the same lower-case form have whitespace at the same positions |
| PyStrings.LStrip | app.py:13 | leading whitespace removed: a suffix of the text, only whitespace dropped, does not start with whitespace |
| PyStrings.RStrip | app.py:13 | trailing whitespace removed: a prefix of the text, only whitespace dropped, does not end with whitespace |
| PyStrings.Strip | app.py:13 | `text.strip()` is the slice between the leading and the trailing whitespace; both ends are non-space |
| PyStrings.StripLengthByMask | app.py:13 | `len(text.strip())` depends only on where the whitespace is |
| PyStrings.WordLen | app.py:17 | the leading run of non-space characters is maximal: it holds no whitespace and is followed by whitespace or the end |
| PyStrings.Split | app.py:17 | every word `text.split()` yields is non-empty and holds no whitespace |
| PyStrings.SplitCountsWordStarts | app.py:17 | `len(text.split())` equals the number of word starts found by one left-to-right scan |
| PyStrings.SplitWordsAreRuns | app.py:17 | every word `text.split()` yields is a maximal run of non-whitespace characters: it occurs in the text with whitespace or a text end on each side |
| PyStrings.SplitKeepsNonSpace | app.py:17 | the words glued together are exactly the text's non-whitespace characters, in order |
| PyStrings.SplitOfLStrip | app.py:17 | leading whitespace does not change the words |
| PyStrings.SplitAppendSpace | app.py:17 | trailing whitespace does not change the words |
| PyStrings.SplitFits | app.py:17 | `k` words need at least `2k - 1` characters, and one more when the text starts with whitespace |
| PyStrings.WordsFitStripped | app.py:13-17 | `k` words need a stripped length of at least `2k - 1` |
| PyStrings.WordCountByMask | app.py:17 | `len(text.split())` depends only on where the whitespace is |
| PyStrings.Contains | app.py:15 | `p in s` holds exactly when `p` occurs in `s` at some position |
| PyStrings.OccursShift | app.py:15 | when `p` is not a prefix of `s`, its occurrences in `s` are those in `s[1:]`, shifted by one |
| Rules.MentionsOne | app.py:19 | a one-keyword condition is the source's `kw in text_lower` |
| Rules.MentionsTwo | app.py:15 | a two-keyword condition is the source's `a in text_lower or b in text_lower` |
| Rules.Suggest | app.py:25-26 | the list is never empty |
| Rules.FiredMember | app.py:13-24 | a tip is in the list built by the first `k` appends exactly when one of those rules has that tip and its test passed |
| Rules.FiredLength | app.py:13-24 | `k` guarded appends add at most `k` tips |
| Rules.FiredNoDuplicates | app.py:13-24 | with distinct rule tips, no tip is appended twice |
| Rules.FiredInRuleOrder | app.py:13-24 | tips appear in the order their rules are tested |
| Rules.HoldsCaseInsensitive | app.py:10-24 | each condition gives the same answer for two texts with the same ASCII lower-case form |
| Rules.SuggestCaseInsensitive | app.py:10-26 | the same ASCII lower-case form gives the same list |
| Rules.SuggestFallback | app.py:25-26 | the fallback is present exactly when no condition holds, and is then the only tip |
| Rules.SuggestMember | app.py:11-26 | a string is in the list exactly when it is the tip of a rule whose condition holds, or it is the fallback and no condition holds |
| Rules.SuggestWithin | app.py:11-26 | when all rule tips and the fallback are among a given set of strings, every element of the list is too |
| Rules.SuggestFallbackByTips | app.py:25-26 | the fallback is present exactly when no rule's tip is |
| Rules.SuggestRule | app.py:13-24 | a rule's tip is present exactly when its condition holds |
| Rules.SuggestShape | app.py:11-26 | the list has between 1 and (number of rules) tips, none repeated |
| Rules.SuggestInRuleOrder | app.py:13-26 | the final list keeps rule order |
| AppSuggestions.GenerateSuggestions | app.py:9-28 | the method's list equals the six-rule table's reading of the text |
| AppSuggestions.AppendShortContent | app.py:13-14 | the short-content append extends the empty list to the tips of rule 1 |
| AppSuggestions.AppendLikesFollows | app.py:15-16 | the likes/follows append extends the list to the tips of rules 1-2 |
| AppSuggestions.AppendTooLong | app.py:17-18 | the too-long append extends the list to the tips of rules 1-3 |
| AppSuggestions.AppendMotivation | app.py:19-20 | the motivation append extends the list to the tips of rules 1-4 |
| AppSuggestions.AppendBusiness | app.py:21-22 | the business/startup append extends the list to the tips of rules 1-5 |
| AppSuggestions.AppendFriend | app.py:23-24 | the friend/selfie append extends the list to the tips of all six rules |
| AppSuggestions.FallbackStep | app.py:25-26 | adding the fallback only to an empty list gives the final list |
| AppSuggestions.AppRulesWellFormed | app.py:13-26 | the six tips and the fallback are pairwise distinct |
| AppSuggestions.ShapeOfSuggestions | app.py:11-26 | never empty, at most six tips, none repeated |
| AppSuggestions.OrderOfSuggestions | app.py:13-24 | tips come in the order short content, likes/follows, too long, motivation, business/startup, friend/selfie |
| AppSuggestions.OnlyKnownTips | app.py:11-26 | every element of the list is one of the six rule tips or the fallback |
| AppSuggestions.ShortContentIff | app.py:13-14 | the short-content tip is present exactly when the stripped text has fewer than 10 characters |
| AppSuggestions.LikesFollowsIff | app.py:15-16 | the likes/follows tip is present exactly when the lowered text contains "follow" or "like" |
| AppSuggestions.TooLongIff | app.py:17-18 | the too-long tip is present exactly when `split()` finds more than 150 words |
| AppSuggestions.MotivationIff | app.py:19-20 | the personal-story tip is present exactly when the lowered text contains "motivation" |
| AppSuggestions.BusinessIff | app.py:21-22 | the hook-line tip is present exactly when the lowered text contains "business" or "startup" |
| AppSuggestions.FriendIff | app.py:23-24 | the well-lit-images tip is present exactly when the lowered text contains "friend" or "selfie" |
| AppSuggestions.HookTipIffNoRuleTip | app.py:25-26 | the fallback is present exactly when none of the six rule tips is |
| AppSuggestions.HookTipIffNoRule | app.py:25-26 | the fallback is present exactly when all six conditions fail, and is then the only tip |
| AppSuggestions.EmptyText | app.py:13-14 | the empty text gets exactly the short-content tip |
| AppSuggestions.UnlikelyMentionsLike | app.py:15-16 | "unlikely" gets the likes/follows tip: the test is on substrings, not words |
| AppSuggestions.UpperCaseFollow | app.py:10-16 | "FOLLOW" gets the likes/follows tip: the keyword test reads the lowered text |
| AppSuggestions.ShortAndLongExclusive | app.py:13-18 | the short-content and too-long tips are never both present |
| AppSuggestions.CaseInsensitive | app.py:10-26 | texts with the same ASCII lower-case form get the same list |
| MainSuggestions.GenerateSuggestions | main.py:10-18 | the method's list equals the three-rule table's reading of the text |
| MainSuggestions.AppendShortContent | main.py:14 | the short-content append extends the empty list to the tips of rule 1 |
| MainSuggestions.AppendLikesFollows | main.py:15 | the likes/follows append extends the list to the tips of rules 1-2 |
| MainSuggestions.AppendTooLong | main.py:16 | the too-long append extends the list to the tips of all three rules |
| MainSuggestions.FallbackStep | main.py:17 | adding the fallback only to an empty list gives the final list |
| MainSuggestions.MainRulesWellFormed | main.py:14-17 | the three tips and the fallback are pairwise distinct |
| MainSuggestions.ShapeOfSuggestions | main.py:11-17 | never empty, at most three tips, none repeated |
| MainSuggestions.OrderOfSuggestions | main.py:14-16 | tips come in the order short content, likes/follows, too long |
| MainSuggestions.OnlyKnownTips | main.py:11-17 | every element of the list is one of the three rule tips or the fallback |
| MainSuggestions.ShortContentIff | main.py:14 | the short-content tip is present exactly when the stripped text has fewer than 10 characters |
| MainSuggestions.LikesFollowsIff | main.py:12-15 | the likes/follows tip is present exactly when the lowered text contains "follow" or "like" |
| MainSuggestions.TooLongIff | main.py:16 | the too-long tip is present exactly when `split()` finds more than 100 words |
| MainSuggestions.HookTipIffNoRuleTip | main.py:17 | the fallback is present exactly when none of the three rule tips is |
| MainSuggestions.HookTipIffNoRule | main.py:17 | the fallback is present exactly when all three conditions fail, and is then the only tip |
| MainSuggestions.EmptyText | main.py:14 | the empty text gets exactly the short-content tip |
| MainSuggestions.ShortAndLongExclusive | main.py:14-16 | the short-content and too-long tips are never both present |
| MainSuggestions.CaseInsensitive | main.py:12-17 | texts with the same ASCII lower-case form get the same list |
| Variants.SharedRules | main.py:14-16 | the two copies agree on the short-content and likes/follows tips, and main.py's too-long tip is present whenever app.py's is |

## Left out

- The HTTP layer is not modelled: the FastAPI endpoints (`home` and `extract` in app.py, `extract` in main.py), reading the request body, and the mapping of failures to `HTTPException` (app.py:31-56, main.py:20-38). This is I/O.
- Image decoding with `PIL.Image.open` is not modelled. It is a foreign library.
- OCR with `pytesseract.image_to_string` is not modelled. It is an external engine.
- main.py's grayscale conversion and binarisation (`cv2.cvtColor`, `cv2.threshold` at 140) are not modelled. Their meaning lives in OpenCV, and the conversion uses floating-point weights.
- PyStrings.Lower: only ASCII letters are case-mapped. Python's `lower()` also maps non-ASCII letters, and can change a string's length (for example "İ"). The model leaves every non-ASCII character unchanged.
- Rules.SuggestCaseInsensitive (and HoldsCaseInsensitive and both variants' CaseInsensitive): they hold under the ASCII model only. In Python, "İİİİİ" and "i̇i̇i̇i̇i̇" have the same lower-case form but stripped lengths 5 and 10, so their tip lists differ.
- PyStrings.Strip: whitespace is only the ASCII part of what `isspace()` accepts. Python also strips non-ASCII whitespace such as U+0085, U+00A0 and U+2028.
- PyStrings.Split: words are separated by ASCII whitespace only, for the same reason as PyStrings.Strip.
