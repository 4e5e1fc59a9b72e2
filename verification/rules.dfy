/**
  Both variants of `generate_suggestions` share one shape: a fixed list of
  rules, each a condition on the text and the tip appended when it holds,
  checked in order, followed by a fallback tip appended only when no rule
  fired. This module states that shape once, as a rule table and a pure
  reading of it, and proves the properties every such table has.
 */
module Rules {
  import opened PyStrings

  /** The three kinds of test the rules perform on the input `text`. */
  datatype Cond =
    | StrippedShorterThan(limit: nat)      // len(text.strip()) < limit
    | MentionsAny(keywords: seq<string>)   // kw in text.lower(), for some kw
    | MoreWordsThan(limit: nat)            // len(text.split()) > limit

  datatype Rule = Rule(cond: Cond, tip: string)

  predicate Holds(c: Cond, text: string) {
    match c
    case StrippedShorterThan(n) => |Strip(text)| < n
    case MentionsAny(ks) => ContainsAny(Lower(text), ks)
    case MoreWordsThan(n) => |Split(text)| > n
  }

  /** Each rule's test on `text`, in rule order. */
  function Tests(rules: seq<Rule>, text: string): (tests: seq<bool>)
    ensures |tests| == |rules|
    ensures forall k {:trigger tests[k]} :: 0 <= k < |rules| ==> tests[k] == Holds(rules[k].cond, text)
  {
    seq(|rules|, k requires 0 <= k < |rules| => Holds(rules[k].cond, text))
  }

  /** The tips of the first `k` rules whose test passed, in rule order:
      what the guarded appends have put in the list after `k` of them. */
  function Fired(rules: seq<Rule>, tests: seq<bool>, k: nat): seq<string>
    requires |tests| == |rules| && k <= |rules|
  {
    if k == 0 then []
    else Fired(rules, tests, k - 1) + (if tests[k - 1] then [rules[k - 1].tip] else [])
  }

  /** One more guarded append: rule `k`'s tip joins the fired tips exactly
      when its test `b` passes. */
  lemma FiredStep(rules: seq<Rule>, text: string, k: nat, tip: string, b: bool)
    requires k < |rules| && rules[k].tip == tip && Holds(rules[k].cond, text) == b
    ensures Fired(rules, Tests(rules, text), k + 1) == Fired(rules, Tests(rules, text), k) + (if b then [tip] else [])
  {
  }

  /** A one-keyword condition is the source's test `a in t` on the lowered
      text. */
  lemma MentionsOne(text: string, a: string)
    ensures Holds(MentionsAny([a]), text) <==> Contains(Lower(text), a)
  {
    var l := Lower(text);
    assert [a][1..] == [];
    assert ContainsAny(l, [a]) == (Contains(l, a) || ContainsAny(l, []));
  }

  /** A two-keyword condition is the source's test `a in t or b in t` on the
      lowered text. */
  lemma MentionsTwo(text: string, a: string, b: string)
    ensures Holds(MentionsAny([a, b]), text) <==> Contains(Lower(text), a) || Contains(Lower(text), b)
  {
    var l := Lower(text);
    assert [b][1..] == [];
    assert ContainsAny(l, [b]) == Contains(l, b);
    assert [a, b][1..] == [b];
    assert ContainsAny(l, [a, b]) == (Contains(l, a) || ContainsAny(l, [b]));
  }

  /** The whole suggestion list: the fired tips, or the fallback alone when
      none fired. Never empty. */
  function Suggest(rules: seq<Rule>, fallback: string, text: string): (tips: seq<string>)
    ensures tips != []
  {
    var fired := Fired(rules, Tests(rules, text), |rules|);
    if fired == [] then [fallback] else fired
  }

  predicate NoDuplicates(xs: seq<string>) {
    forall i, j :: 0 <= i < j < |xs| ==> xs[i] != xs[j]
  }

  /** No two rules share a tip, and the fallback is not a rule's tip. */
  predicate WellFormed(rules: seq<Rule>, fallback: string) {
    && (forall a, b :: 0 <= a < b < |rules| ==> rules[a].tip != rules[b].tip)
    && (forall a :: 0 <= a < |rules| ==> rules[a].tip != fallback)
  }

  /** A tip is among the first `k` fired exactly when one of the first `k`
      rules has that tip and its test passed. */
  lemma {:induction false} FiredMember(rules: seq<Rule>, tests: seq<bool>, k: nat, t: string)
    requires |tests| == |rules| && k <= |rules|
    ensures t in Fired(rules, tests, k) <==> exists j :: 0 <= j < k && rules[j].tip == t && tests[j]
  {
    if k > 0 {
      FiredMember(rules, tests, k - 1, t);
    }
  }

  /** Each rule contributes at most one tip. */
  lemma {:induction false} FiredLength(rules: seq<Rule>, tests: seq<bool>, k: nat)
    requires |tests| == |rules| && k <= |rules|
    ensures |Fired(rules, tests, k)| <= k
  {
    if k > 0 {
      FiredLength(rules, tests, k - 1);
    }
  }

  /** With distinct rule tips, no tip is fired twice. */
  lemma {:induction false} FiredNoDuplicates(rules: seq<Rule>, fallback: string, tests: seq<bool>, k: nat)
    requires WellFormed(rules, fallback) && |tests| == |rules| && k <= |rules|
    ensures NoDuplicates(Fired(rules, tests, k))
  {
    if k > 0 {
      FiredNoDuplicates(rules, fallback, tests, k - 1);
      if tests[k - 1] {
        FiredMember(rules, tests, k - 1, rules[k - 1].tip);
        assert rules[k - 1].tip !in Fired(rules, tests, k - 1);
      }
    }
  }

  /** Fired tips keep rule order: a tip earlier in the list belongs to an
      earlier rule. */
  lemma {:induction false} FiredInRuleOrder(rules: seq<Rule>, fallback: string, tests: seq<bool>, k: nat,
                                            i: nat, j: nat, a: nat, b: nat)
    requires WellFormed(rules, fallback) && |tests| == |rules| && k <= |rules|
    requires i < j < |Fired(rules, tests, k)|
    requires a < |rules| && b < |rules|
    requires Fired(rules, tests, k)[i] == rules[a].tip && Fired(rules, tests, k)[j] == rules[b].tip
    ensures a < b
  {
    var f := Fired(rules, tests, k - 1);
    FiredLength(rules, tests, k - 1);
    assert Fired(rules, tests, k)[i] == f[i];
    // The tip at position i was already fired by one of the first k - 1
    // rules, and tips are distinct, so that rule is rule a.
    FiredMember(rules, tests, k - 1, f[i]);
    if j < |f| {
      assert Fired(rules, tests, k)[j] == f[j];
      FiredInRuleOrder(rules, fallback, tests, k - 1, i, j, a, b);
    } else {
      assert Fired(rules, tests, k)[j] == rules[k - 1].tip;
    }
  }

  /** Two texts with the same lower-case form pass the same tests: keyword
      tests read the lowered text only, and strip and split look only at
      where the whitespace is. */
  lemma HoldsCaseInsensitive(c: Cond, x: string, y: string)
    requires Lower(x) == Lower(y)
    ensures Holds(c, x) == Holds(c, y)
  {
    SameLowerSameMask(x, y);
    match c
    case StrippedShorterThan(_) => StripLengthByMask(x, y);
    case MentionsAny(_) =>
    case MoreWordsThan(_) => WordCountByMask(x, y);
  }

  /** The same lower-case form gives the same suggestion list. */
  lemma SuggestCaseInsensitive(rules: seq<Rule>, fallback: string, x: string, y: string)
    requires Lower(x) == Lower(y)
    ensures Suggest(rules, fallback, x) == Suggest(rules, fallback, y)
  {
    forall j | 0 <= j < |rules| ensures Holds(rules[j].cond, x) == Holds(rules[j].cond, y) {
      HoldsCaseInsensitive(rules[j].cond, x, y);
    }
    assert Tests(rules, x) == Tests(rules, y);
  }

  /** The fallback appears exactly when no rule holds, and then it is the
      only tip. */
  lemma SuggestFallback(rules: seq<Rule>, fallback: string, text: string)
    requires WellFormed(rules, fallback)
    ensures fallback in Suggest(rules, fallback, text) <==>
            forall k :: 0 <= k < |rules| ==> !Holds(rules[k].cond, text)
    ensures fallback in Suggest(rules, fallback, text) ==> Suggest(rules, fallback, text) == [fallback]
  {
    var tests := Tests(rules, text);
    var fired := Fired(rules, tests, |rules|);
    FiredMember(rules, tests, |rules|, fallback);
    if fired != [] {
      FiredMember(rules, tests, |rules|, fired[0]);
    } else {
      forall k | 0 <= k < |rules| ensures !Holds(rules[k].cond, text) {
        FiredMember(rules, tests, |rules|, rules[k].tip);
      }
    }
  }

  /** The list holds nothing but the tips of rules whose condition holds,
      or else the fallback alone. */
  lemma SuggestMember(rules: seq<Rule>, fallback: string, text: string, t: string)
    ensures t in Suggest(rules, fallback, text) <==>
            || (exists k :: 0 <= k < |rules| && rules[k].tip == t && Holds(rules[k].cond, text))
            || (t == fallback && forall k :: 0 <= k < |rules| ==> !Holds(rules[k].cond, text))
  {
    var tests := Tests(rules, text);
    var fired := Fired(rules, tests, |rules|);
    FiredMember(rules, tests, |rules|, t);
    if fired == [] {
      forall k | 0 <= k < |rules| ensures !Holds(rules[k].cond, text) {
        FiredMember(rules, tests, |rules|, rules[k].tip);
      }
    } else {
      FiredMember(rules, tests, |rules|, fired[0]);
    }
  }

  /** When every rule tip and the fallback are among `allowed`, so is every
      tip in the list. */
  lemma SuggestWithin(rules: seq<Rule>, fallback: string, text: string, allowed: seq<string>)
    requires fallback in allowed
    requires forall k :: 0 <= k < |rules| ==> rules[k].tip in allowed
    ensures forall t :: t in Suggest(rules, fallback, text) ==> t in allowed
  {
    forall t | t in Suggest(rules, fallback, text) ensures t in allowed {
      FiredMember(rules, Tests(rules, text), |rules|, t);
    }
  }

  /** The fallback appears exactly when no rule's tip does. */
  lemma SuggestFallbackByTips(rules: seq<Rule>, fallback: string, text: string)
    requires WellFormed(rules, fallback)
    ensures fallback in Suggest(rules, fallback, text) <==>
            forall k :: 0 <= k < |rules| ==> rules[k].tip !in Suggest(rules, fallback, text)
  {
    SuggestFallback(rules, fallback, text);
    forall k | 0 <= k < |rules|
      ensures rules[k].tip in Suggest(rules, fallback, text) <==> Holds(rules[k].cond, text)
    {
      SuggestRule(rules, fallback, text, k);
    }
  }

  /** A rule's tip is suggested exactly when its condition holds. */
  lemma SuggestRule(rules: seq<Rule>, fallback: string, text: string, k: nat)
    requires WellFormed(rules, fallback) && k < |rules|
    ensures rules[k].tip in Suggest(rules, fallback, text) <==> Holds(rules[k].cond, text)
  {
    var tests := Tests(rules, text);
    var t := rules[k].tip;
    FiredMember(rules, tests, |rules|, t);
    assert t != fallback;
    if t in Fired(rules, tests, |rules|) {
      // The rule that appended `t` is rule k, since tips are distinct.
      var j :| 0 <= j < |rules| && rules[j].tip == t && tests[j];
      assert j == k;
    }
  }

  /** The whole list: at least one tip, at most one per rule, none
      repeated. */
  lemma SuggestShape(rules: seq<Rule>, fallback: string, text: string)
    requires WellFormed(rules, fallback)
    ensures 1 <= |Suggest(rules, fallback, text)| <= if rules == [] then 1 else |rules|
    ensures NoDuplicates(Suggest(rules, fallback, text))
  {
    FiredLength(rules, Tests(rules, text), |rules|);
    FiredNoDuplicates(rules, fallback, Tests(rules, text), |rules|);
  }

  /** The list is in rule order. */
  lemma SuggestInRuleOrder(rules: seq<Rule>, fallback: string, text: string,
                           i: nat, j: nat, a: nat, b: nat)
    requires WellFormed(rules, fallback)
    requires i < j < |Suggest(rules, fallback, text)|
    requires a < |rules| && b < |rules|
    requires Suggest(rules, fallback, text)[i] == rules[a].tip
    requires Suggest(rules, fallback, text)[j] == rules[b].tip
    ensures a < b
  {
    FiredInRuleOrder(rules, fallback, Tests(rules, text), |rules|, i, j, a, b);
  }
}
