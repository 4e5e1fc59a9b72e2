/**
  The four Python `str` primitives the suggestion rules rely on, over an
  ASCII model of characters:

  - `s.lower()`           -> Lower(s)
  - `s.strip()`           -> Strip(s)
  - `s.split()`           -> Split(s)  (no separator argument: runs of whitespace)
  - `p in s`              -> Contains(s, p)

  Whitespace is what `str.isspace()` accepts among the ASCII characters; case
  folding maps `A`..`Z` to `a`..`z` and leaves every other character alone.
 */
module PyStrings {

  /** `c.isspace()` for ASCII: tab, line feed, vertical tab, form feed,
      carriage return (9..13), the file/group/record/unit separators
      (28..31) and the space (32). */
  predicate IsSpace(c: char) {
    (9 <= c as int <= 13) || (28 <= c as int <= 32)
  }

  predicate IsUpper(c: char) {
    'A' <= c <= 'Z'
  }

  /** Every character of `s` is whitespace (also true of the empty string). */
  predicate AllSpace(s: string) {
    forall i :: 0 <= i < |s| ==> IsSpace(s[i])
  }

  /** `s` contains no whitespace at all. */
  predicate NoSpace(s: string) {
    forall i :: 0 <= i < |s| ==> !IsSpace(s[i])
  }

  /** `a` and `b` have whitespace at exactly the same positions. Stripping and
      splitting only look at this mask, never at the characters themselves. */
  predicate SameMask(a: string, b: string) {
    |a| == |b| && forall i :: 0 <= i < |a| ==> IsSpace(a[i]) == IsSpace(b[i])
  }

  // ---------------------------------------------------------------- lower()

  /** `c.lower()` for ASCII: `A`..`Z` become `a`..`z` (see
      `LowerUpperCase`), every other character is kept. */
  function LowerChar(c: char): (r: char)
    ensures !IsUpper(r)
    ensures IsSpace(r) == IsSpace(c)
    ensures !IsUpper(c) ==> r == c
  {
    if IsUpper(c) then (c as int + 32) as char else c
  }

  /** `s.lower()`: same length, each character lowered on its own, so no
      upper-case letter is left, every other character is kept (see
      `LowerChar`, `LowerUpperCase`) and the whitespace is where it was. */
  function Lower(s: string): (r: string)
    ensures |r| == |s|
    ensures forall i :: 0 <= i < |s| ==> r[i] == LowerChar(s[i])
    ensures SameMask(r, s)
  {
    seq(|s|, i requires 0 <= i < |s| => LowerChar(s[i]))
  }

  /** Each upper-case letter becomes its own lower-case letter, 32 code
      points up: `A` to `a`, ..., `Z` to `z`. */
  lemma LowerUpperCase(s: string)
    ensures forall i :: 0 <= i < |s| && IsUpper(s[i]) ==> Lower(s)[i] as int == s[i] as int + 32
  {
  }

  /** Lowering twice is lowering once. */
  lemma LowerIdempotent(s: string)
    ensures Lower(Lower(s)) == Lower(s)
  {
    var l := Lower(s);
    assert forall i :: 0 <= i < |s| ==> Lower(l)[i] == l[i];
  }

  /** Texts with the same lower-case form have whitespace in the same places. */
  lemma {:induction false} SameLowerSameMask(a: string, b: string)
    requires Lower(a) == Lower(b)
    ensures SameMask(a, b)
  {
    forall i | 0 <= i < |a|
      ensures IsSpace(a[i]) == IsSpace(b[i])
    {
      assert Lower(a)[i] == LowerChar(a[i]);
      assert Lower(b)[i] == LowerChar(b[i]);
    }
  }

  // ---------------------------------------------------------------- strip()

  /** Leading whitespace removed: a suffix of `s`, everything dropped is
      whitespace, and it is empty or starts with a non-space. */
  function LStrip(s: string): (r: string)
    ensures |r| <= |s| && r == s[|s| - |r|..]
    ensures AllSpace(s[..|s| - |r|])
    ensures r == [] || !IsSpace(r[0])
  {
    if s != [] && IsSpace(s[0]) then
      var r := LStrip(s[1..]);
      LStripStep(s, r);
      r
    else s
  }

  /** One step of `LStrip`: dropping a leading whitespace character keeps
      the suffix facts. */
  lemma LStripStep(s: string, r: string)
    requires s != [] && IsSpace(s[0])
    requires |r| <= |s| - 1 && r == s[1..][|s| - 1 - |r|..] && AllSpace(s[1..][..|s| - 1 - |r|])
    ensures r == s[|s| - |r|..] && AllSpace(s[..|s| - |r|])
  {
    assert s[1..][|s| - 1 - |r|..] == s[|s| - |r|..];
    forall i | 0 <= i < |s| - |r| ensures IsSpace(s[i]) {
      if i > 0 {
        assert s[i] == s[1..][..|s| - 1 - |r|][i - 1];
      }
    }
  }

  /** Trailing whitespace removed: a prefix of `s`, everything dropped is
      whitespace, and it is empty or ends with a non-space. */
  function RStrip(s: string): (r: string)
    ensures |r| <= |s| && r == s[..|r|]
    ensures AllSpace(s[|r|..])
    ensures r == [] || !IsSpace(r[|r| - 1])
  {
    if s != [] && IsSpace(s[|s| - 1]) then
      var r := RStrip(s[..|s| - 1]);
      RStripStep(s, r);
      r
    else s
  }

  /** Dropping one more trailing space keeps `r` a prefix of `s` followed
      only by whitespace. */
  lemma RStripStep(s: string, r: string)
    requires s != [] && IsSpace(s[|s| - 1])
    requires |r| <= |s| - 1 && r == s[..|s| - 1][..|r|] && AllSpace(s[..|s| - 1][|r|..])
    ensures r == s[..|r|] && AllSpace(s[|r|..])
  {
    assert s[..|s| - 1][..|r|] == s[..|r|];
    forall j | 0 <= j < |s| - |r| ensures IsSpace(s[|r|..][j]) {
      if j < |s| - 1 - |r| {
        assert s[|r|..][j] == s[..|s| - 1][|r|..][j];
      }
    }
  }

  /** `r` is `s` with its leading `i` and its trailing whitespace removed, and
      neither end of `r` is whitespace. */
  predicate StrippedAt(s: string, r: string, i: nat) {
    && i + |r| <= |s|
    && r == s[i..i + |r|]
    && AllSpace(s[..i])
    && AllSpace(s[i + |r|..])
    && (r == [] || (!IsSpace(r[0]) && !IsSpace(r[|r| - 1])))
  }

  /** `s.strip()`: the part of `s` between its leading and trailing
      whitespace. */
  function Strip(s: string): (r: string)
    ensures StrippedAt(s, r, |s| - |LStrip(s)|)
  {
    StripOfEnds(s);
    RStrip(LStrip(s))
  }

  lemma StripOfEnds(s: string)
    ensures StrippedAt(s, RStrip(LStrip(s)), |s| - |LStrip(s)|)
  {
    var l := LStrip(s);
    StripEnds(s, |s| - |l|, l, RStrip(l));
  }

  /** Gluing the two halves of `strip()`: `l` is `s` from `k` on, with only
      whitespace before `k`, and `r` is `l` with trailing whitespace cut. */
  lemma StripEnds(s: string, k: nat, l: string, r: string)
    requires k <= |s| && l == s[k..] && AllSpace(s[..k]) && (l == [] || !IsSpace(l[0]))
    requires |r| <= |l| && r == l[..|r|] && AllSpace(l[|r|..]) && (r == [] || !IsSpace(r[|r| - 1]))
    ensures StrippedAt(s, r, k)
  {
    assert s[k + |r|..] == l[|r|..];
  }

  /** Only the whitespace mask decides how many characters `strip()` keeps,
      so texts with the same lower-case form strip to the same length. */
  lemma {:induction false} StripLengthByMask(a: string, b: string)
    requires SameMask(a, b)
    ensures |Strip(a)| == |Strip(b)|
  {
    LStripByMask(a, b);
    var la, lb := LStrip(a), LStrip(b);
    MaskSuffix(a, b, |a| - |la|);
    RStripByMask(la, lb);
  }

  /** Equal masks stay equal after dropping the same prefix. */
  lemma MaskSuffix(a: string, b: string, k: nat)
    requires SameMask(a, b) && k <= |a|
    ensures SameMask(a[k..], b[k..])
  {
    forall i | 0 <= i < |a| - k ensures IsSpace(a[k..][i]) == IsSpace(b[k..][i]) {
      assert a[k..][i] == a[k + i] && b[k..][i] == b[k + i];
    }
  }

  lemma {:induction false} LStripByMask(a: string, b: string)
    requires SameMask(a, b)
    ensures |LStrip(a)| == |LStrip(b)|
    decreases |a|
  {
    if a != [] && IsSpace(a[0]) {
      LStripByMask(a[1..], b[1..]);
    }
  }

  lemma {:induction false} RStripByMask(a: string, b: string)
    requires SameMask(a, b)
    ensures |RStrip(a)| == |RStrip(b)|
    decreases |a|
  {
    if a != [] && IsSpace(a[|a| - 1]) {
      RStripByMask(a[..|a| - 1], b[..|b| - 1]);
    }
  }

  // ---------------------------------------------------------------- split()

  /** Length of the run of non-whitespace characters at the start of `s`. */
  function WordLen(s: string): (n: nat)
    ensures n <= |s|
    ensures NoSpace(s[..n])
    ensures n == |s| || IsSpace(s[n])
  {
    if s == [] || IsSpace(s[0]) then 0 else 1 + WordLen(s[1..])
  }

  /** `s.split()`: the maximal runs of non-whitespace characters of `s`, in
      order; every word is non-empty and holds no whitespace. */
  function Split(s: string): (words: seq<string>)
    ensures forall k :: 0 <= k < |words| ==> words[k] != [] && NoSpace(words[k])
    decreases |s|
  {
    var t := LStrip(s);
    if t == [] then []
    else
      var n := WordLen(t);
      var rest := Split(t[n..]);
      WordsCons(t[..n], rest);
      [t[..n]] + rest
  }

  /** A non-empty word without whitespace in front of such words gives such
      words. */
  lemma WordsCons(w: string, ws: seq<string>)
    requires w != [] && NoSpace(w)
    requires forall k :: 0 <= k < |ws| ==> ws[k] != [] && NoSpace(ws[k])
    ensures forall k :: 0 <= k < |[w] + ws| ==> ([w] + ws)[k] != [] && NoSpace(([w] + ws)[k])
  {
    forall k | 0 <= k < |[w] + ws| ensures ([w] + ws)[k] != [] && NoSpace(([w] + ws)[k]) {
      if k > 0 {
        assert ([w] + ws)[k] == ws[k - 1];
      }
    }
  }

  /** `w` sits in `s` at position `b` as a whole word: whitespace (or an end
      of `s`) on both sides. */
  predicate WordAt(s: string, w: string, b: nat) {
    && OccursAt(s, w, b)
    && (b == 0 || IsSpace(s[b - 1]))
    && (b + |w| == |s| || IsSpace(s[b + |w|]))
  }

  /** `w` is a whole word of `s`, somewhere. */
  ghost predicate IsWholeWord(s: string, w: string) {
    exists b: nat :: WordAt(s, w, b)
  }

  /** Every word of `ws` is a whole word of `s`. */
  ghost predicate WordsAreRuns(s: string, ws: seq<string>) {
    forall k :: 0 <= k < |ws| ==> IsWholeWord(s, ws[k])
  }

  /** Each word of `s.split()` is a maximal run of non-whitespace characters
      of `s`: it occurs in `s` with whitespace or an end of `s` on each side. */
  lemma {:induction false} SplitWordsAreRuns(s: string)
    ensures WordsAreRuns(s, Split(s))
    decreases |s|
  {
    if Split(s) != [] {
      var i, n := SplitFirst(s);
      var rest := s[i..][n..];
      SplitWordsAreRuns(rest);
      RunsCons(s, i, n, Split(rest));
    }
  }

  /** A text with words: leading whitespace up to `i`, then the first word
      `s[i..][..n]`, then the rest, which `split()` continues on. */
  lemma SplitFirst(s: string) returns (i: nat, n: nat)
    requires Split(s) != []
    ensures i + n <= |s| && 0 < n
    ensures AllSpace(s[..i])
    ensures i + n == |s| || IsSpace(s[i..][n])
    ensures Split(s) == [s[i..][..n]] + Split(s[i..][n..])
  {
    var t := LStrip(s);
    assert t != [] && !IsSpace(t[0]);
    i := |s| - |t|;
    n := WordLen(t);
    assert n == 1 + WordLen(t[1..]);
    assert t == s[i..];
    SplitCons(s, t, n);
  }

  /** Whole words of what follows the first word `s[i..][..n]` are whole
      words of `s`, and so is that first word. */
  lemma RunsCons(s: string, i: nat, n: nat, ws: seq<string>)
    requires i + n <= |s| && AllSpace(s[..i])
    requires i + n == |s| || IsSpace(s[i..][n])
    requires forall k :: 0 <= k < |ws| ==> ws[k] != [] && NoSpace(ws[k])
    requires WordsAreRuns(s[i..][n..], ws)
    ensures WordsAreRuns(s, [s[i..][..n]] + ws)
  {
    var all := [s[i..][..n]] + ws;
    forall k | 0 <= k < |all| ensures IsWholeWord(s, all[k]) {
      if k == 0 {
        FirstWordAt(s, i, s[i..], n, all[0]);
      } else {
        assert all[k] == ws[k - 1];
        assert IsWholeWord(s[i..][n..], ws[k - 1]);
        var c: nat :| WordAt(s[i..][n..], ws[k - 1], c);
        var b := LaterWordAt(s, i, s[i..], n, ws[k - 1], c);
      }
    }
  }

  lemma DropTwice(s: string, i: nat, j: nat)
    requires i + j <= |s|
    ensures s[i..][j..] == s[i + j..]
  {
  }

  /** The first word `split()` takes is a whole word of `s`, found where
      the leading whitespace ends. */
  lemma FirstWordAt(s: string, off: nat, t: string, n: nat, w: string)
    requires off + |t| == |s| && t == s[off..] && AllSpace(s[..off])
    requires n <= |t| && (n == |t| || IsSpace(t[n])) && w == t[..n]
    ensures WordAt(s, w, off)
  {
    assert s[off..off + n] == w;
    if off > 0 {
      assert s[off - 1] == s[..off][off - 1];
    }
    if n < |t| {
      assert s[off + n] == t[n];
    }
  }

  /** A whole word of what follows the first word `t[..n]` is a whole word
      of `s`. */
  lemma LaterWordAt(s: string, i: nat, t: string, n: nat, w: string, c: nat) returns (b: nat)
    requires i + |t| == |s| && t == s[i..]
    requires n <= |t| && (n == |t| || IsSpace(t[n]))
    requires w != [] && NoSpace(w) && WordAt(t[n..], w, c)
    ensures b == i + n + c && WordAt(s, w, b)
  {
    b := i + n + c;
    DropTwice(s, i, n);
    assert t[n..] == s[i + n..];
    if n < |t| {
      assert s[i + n] == t[n];
    }
    WordAfterSpace(s, i + n, w, c);
  }

  /** A whole non-empty word of the text after a whitespace character at
      `off` (or after the end of `s`) is a whole word of `s`. */
  lemma WordAfterSpace(s: string, off: nat, w: string, b: nat)
    requires off <= |s| && (off == |s| || IsSpace(s[off]))
    requires w != [] && NoSpace(w) && WordAt(s[off..], w, b)
    ensures WordAt(s, w, off + b)
  {
    var r := s[off..];
    assert s[off + b..off + b + |w|] == r[b..b + |w|];
    assert b > 0;
    assert s[off + b - 1] == r[b - 1];
    if off + b + |w| < |s| {
      assert s[off + b + |w|] == r[b + |w|];
    }
  }

  /** Every word takes at least one character and consecutive words are
      separated by at least one whitespace character, so `k` words need at
      least `2k - 1` characters; one more when `s` starts with whitespace. */
  lemma {:induction false} SplitFits(s: string)
    ensures 2 * |Split(s)| <= |s| + 1
    ensures s != [] && IsSpace(s[0]) ==> 2 * |Split(s)| <= |s|
    decreases |s|
  {
    if s != [] && IsSpace(s[0]) {
      assert LStrip(s) == LStrip(s[1..]);
      SplitFits(s[1..]);
    } else if s != [] {
      assert LStrip(s) == s;
      var n := WordLen(s);
      var rest := s[n..];
      assert Split(s) == [s[..n]] + Split(rest);
      if rest != [] {
        SplitFits(rest);
      }
    }
  }

  /** Leading whitespace never changes the words. */
  lemma {:induction false} SplitOfLStrip(s: string)
    ensures Split(LStrip(s)) == Split(s)
    decreases |s|
  {
    if s != [] && IsSpace(s[0]) {
      assert LStrip(s) == LStrip(s[1..]);
      assert Split(s) == Split(s[1..]) by {
        assert LStrip(s[1..]) == LStrip(s);
      }
      SplitOfLStrip(s[1..]);
    }
  }

  /** Appending whitespace to a string with a non-space prefix run does not
      change its leading run. */
  lemma {:induction false} WordLenAppendSpace(t: string, sp: string)
    requires AllSpace(sp)
    ensures WordLen(t + sp) == WordLen(t)
    decreases |t|
  {
    if t == [] {
      assert sp == [] || IsSpace(sp[0]);
    } else if !IsSpace(t[0]) {
      assert (t + sp)[1..] == t[1..] + sp;
      WordLenAppendSpace(t[1..], sp);
    }
  }

  /** Stripping leading whitespace from `t + sp`, for `sp` all whitespace. */
  lemma {:induction false} LStripAppendSpace(t: string, sp: string)
    requires AllSpace(sp)
    ensures LStrip(t) == [] ==> LStrip(t + sp) == []
    ensures LStrip(t) != [] ==> LStrip(t + sp) == LStrip(t) + sp
    decreases |t|
  {
    if t == [] {
      LStripAllSpace(sp);
    } else if IsSpace(t[0]) {
      assert (t + sp)[1..] == t[1..] + sp;
      LStripAppendSpace(t[1..], sp);
    }
  }

  lemma {:induction false} LStripAllSpace(s: string)
    requires AllSpace(s)
    ensures LStrip(s) == []
    decreases |s|
  {
    if s != [] {
      LStripAllSpace(s[1..]);
    }
  }

  /** Trailing whitespace never changes the words. */
  lemma {:induction false} SplitAppendSpace(t: string, sp: string)
    requires AllSpace(sp)
    ensures Split(t + sp) == Split(t)
    decreases |t|
  {
    LStripAppendSpace(t, sp);
    var l := LStrip(t);
    if l != [] {
      var n := WordLen(l);
      WordLenAppendSpace(l, sp);
      SplitAppendSpace(l[n..], sp);
      SplitAppendSpaceStep(t, sp, l, n);
    }
  }

  /** The inductive step of `SplitAppendSpace`: the first word is the same,
      and the rest has the same words by the induction hypothesis. */
  lemma SplitAppendSpaceStep(t: string, sp: string, l: string, n: nat)
    requires l == LStrip(t) && l != [] && LStrip(t + sp) == l + sp
    requires n == WordLen(l) && WordLen(l + sp) == n
    requires Split(l[n..] + sp) == Split(l[n..])
    ensures Split(t + sp) == Split(t)
  {
    SplitCons(t + sp, l + sp, n);
    SplitCons(t, l, n);
    AppendSlices(l, sp, n);
  }

  lemma AppendSlices(l: string, sp: string, n: nat)
    requires n <= |l|
    ensures (l + sp)[..n] == l[..n] && (l + sp)[n..] == l[n..] + sp
  {
    assert (l + sp)[..n] == l[..n];
  }

  /** `Split` of a text with a word: that word, then the words after it. */
  lemma SplitCons(s: string, l: string, n: nat)
    requires l == LStrip(s) && l != [] && n == WordLen(l)
    ensures Split(s) == [l[..n]] + Split(l[n..])
  {
  }

  lemma PrefixSuffix(x: string, n: nat)
    requires n <= |x|
    ensures x == x[..n] + x[n..]
  {
  }

  /** The word count of `s.split()` fits in what `s.strip()` keeps:
      `k` words need a stripped length of at least `2k - 1`. */
  lemma WordsFitStripped(s: string)
    ensures 2 * |Split(s)| <= |Strip(s)| + 1
  {
    var l := LStrip(s);
    var r := RStrip(l);
    assert Strip(s) == r;
    SplitOfLStrip(s);
    var sp := l[|r|..];
    PrefixSuffix(l, |r|);
    SplitAppendSpace(r, sp);
    SplitFits(r);
  }

  lemma {:induction false} WordLenByMask(a: string, b: string)
    requires SameMask(a, b)
    ensures WordLen(a) == WordLen(b)
    decreases |a|
  {
    if a != [] && !IsSpace(a[0]) {
      WordLenByMask(a[1..], b[1..]);
    }
  }

  /** Only the whitespace mask decides how many words `split()` finds. */
  lemma {:induction false} WordCountByMask(a: string, b: string)
    requires SameMask(a, b)
    ensures |Split(a)| == |Split(b)|
    decreases |a|
  {
    LStripByMask(a, b);
    var la, lb := LStrip(a), LStrip(b);
    MaskSuffix(a, b, |a| - |la|);
    if la != [] {
      WordLenByMask(la, lb);
      var n := WordLen(la);
      MaskSuffix(la, lb, n);
      WordCountByMask(la[n..], lb[n..]);
      assert |Split(a)| == 1 + |Split(la[n..])|;
      assert |Split(b)| == 1 + |Split(lb[n..])|;
    }
  }

  /** Word count by a single left-to-right scan: the positions holding a
      non-space character whose predecessor is whitespace or absent.
      `afterSpace` says whether the character before `s` was whitespace. */
  function WordStarts(s: string, afterSpace: bool): (n: nat)
    ensures n <= |s|
  {
    if s == [] then 0
    else (if afterSpace && !IsSpace(s[0]) then 1 else 0) + WordStarts(s[1..], IsSpace(s[0]))
  }

  /** Scanning a leading run of non-space characters finds at most its first
      character as a word start. */
  lemma {:induction false} WordStartsSkipWord(t: string, afterSpace: bool)
    ensures WordStarts(t, afterSpace) ==
            WordStarts(t[WordLen(t)..], WordLen(t) == 0 && afterSpace) + (if WordLen(t) > 0 && afterSpace then 1 else 0)
    decreases |t|
  {
    if t != [] && !IsSpace(t[0]) {
      WordStartsSkipWord(t[1..], false);
      assert t[1..][WordLen(t[1..])..] == t[WordLen(t)..];
    }
  }

  /** Scanning leading whitespace finds no word start. */
  lemma {:induction false} WordStartsOfLStrip(s: string)
    ensures WordStarts(s, true) == WordStarts(LStrip(s), true)
    decreases |s|
  {
    if s != [] && IsSpace(s[0]) {
      WordStartsOfLStrip(s[1..]);
    }
  }

  /** `len(s.split())` is the number of word starts in `s`. */
  lemma {:induction false} SplitCountsWordStarts(s: string)
    ensures |Split(s)| == WordStarts(s, true)
    decreases |s|
  {
    WordStartsOfLStrip(s);
    var t := LStrip(s);
    if t != [] {
      var n := WordLen(t);
      WordStartsSkipWord(t, true);
      var rest := t[n..];
      assert rest == [] || IsSpace(rest[0]);
      assert WordStarts(rest, false) == WordStarts(rest, true);
      SplitCountsWordStarts(rest);
    }
  }

  /** The words glued back together, with nothing between them. */
  function Concat(words: seq<string>): string {
    if words == [] then [] else words[0] + Concat(words[1..])
  }

  /** The non-whitespace characters of `s`, in order. */
  function Squeeze(s: string): (r: string)
    ensures |r| <= |s|
  {
    if s == [] then [] else (if IsSpace(s[0]) then [] else [s[0]]) + Squeeze(s[1..])
  }

  lemma {:induction false} SqueezeAppend(a: string, b: string)
    ensures Squeeze(a + b) == Squeeze(a) + Squeeze(b)
    decreases |a|
  {
    if a == [] {
      assert a + b == b;
    } else {
      assert (a + b)[1..] == a[1..] + b;
      SqueezeAppend(a[1..], b);
    }
  }

  lemma {:induction false} SqueezeAllSpace(s: string)
    requires AllSpace(s)
    ensures Squeeze(s) == []
    decreases |s|
  {
    if s != [] {
      SqueezeAllSpace(s[1..]);
    }
  }

  lemma {:induction false} SqueezeNoSpace(s: string)
    requires NoSpace(s)
    ensures Squeeze(s) == s
    decreases |s|
  {
    if s != [] {
      SqueezeNoSpace(s[1..]);
    }
  }

  /** `s.split()` loses no character but whitespace: its words, glued
      together, are the non-whitespace characters of `s` in order. */
  lemma {:induction false} SplitKeepsNonSpace(s: string)
    ensures Concat(Split(s)) == Squeeze(s)
    decreases |s|
  {
    var t := LStrip(s);
    var k := |s| - |t|;
    PrefixSuffix(s, k);
    SqueezeAppend(s[..k], t);
    SqueezeAllSpace(s[..k]);
    if t != [] {
      var n := WordLen(t);
      PrefixSuffix(t, n);
      SqueezeAppend(t[..n], t[n..]);
      SqueezeNoSpace(t[..n]);
      SplitKeepsNonSpace(t[n..]);
      assert Split(s) == [t[..n]] + Split(t[n..]);
      assert ([t[..n]] + Split(t[n..]))[1..] == Split(t[n..]);
    }
  }

  // ---------------------------------------------------------------- p in s

  /** `p` occurs in `s` starting at position `i`. */
  predicate OccursAt(s: string, p: string, i: nat) {
    i + |p| <= |s| && s[i..i + |p|] == p
  }

  /** `p in s`: `p` occurs in `s` as a contiguous substring, at some position
      (a substring test, not a word test). */
  function Contains(s: string, p: string): (b: bool)
    ensures b <==> exists i: nat :: OccursAt(s, p, i)
    decreases |s|
  {
    if p <= s then
      assert OccursAt(s, p, 0);
      true
    else if s == [] then
      assert forall i: nat :: !OccursAt(s, p, i);
      false
    else
      OccursShift(s, p);
      Contains(s[1..], p)
  }

  /** When `p` is not a prefix of `s`, its occurrences in `s` are those in
      `s[1..]`, shifted by one position. */
  lemma OccursShift(s: string, p: string)
    requires s != [] && !(p <= s)
    ensures (exists i: nat :: OccursAt(s, p, i)) <==> (exists j: nat :: OccursAt(s[1..], p, j))
  {
    assert OccursAt(s, p, 0) ==> p <= s;
    forall i: nat | OccursAt(s, p, i)
      ensures OccursAt(s[1..], p, i - 1)
    {
      assert s[1..][i - 1..i - 1 + |p|] == s[i..i + |p|];
    }
    forall j: nat | OccursAt(s[1..], p, j)
      ensures OccursAt(s, p, j + 1)
    {
      assert s[1..][j..j + |p|] == s[j + 1..j + 1 + |p|];
    }
  }

  /** Some keyword of `ps` occurs in `s` (the `or` of several `in` tests). */
  predicate ContainsAny(s: string, ps: seq<string>) {
    if ps == [] then false
    else Contains(s, ps[0]) || ContainsAny(s, ps[1..])
  }
}
