/**
 * Substring search and replace-all over strings: case_find, which scans for
 * a pattern ignoring ASCII case, the exact search std::string::find performs
 * with an explicit pattern length, and the replace_all loop together with
 * the overloads that reach it.  A string is a value, so the overloads that
 * modify their argument in place and the ones that return a modified copy
 * are the same function here.
 */
module Replace {
  import opened Basics

  /** ASCII lower-casing, the folding the case-insensitive compare applies. */
  function Lower(c: char): (d: char)
    ensures 'A' <= c <= 'Z' ==> d as int == c as int + 32
    ensures !('A' <= c <= 'Z') ==> d == c
  {
    if 'A' <= c <= 'Z' then (c as int + 32) as char else c
  }

  /**
   * ASCII folding is idempotent, never yields an upper-case letter, leaves
   * every non-letter and lower-case letter alone, and identifies two
   * different characters only when one is the upper-case form of the other.
   */
  lemma LowerFolds(c: char, d: char)
    ensures Lower(Lower(c)) == Lower(c)
    ensures !('A' <= Lower(c) <= 'Z')
    ensures !('A' <= c <= 'Z') ==> Lower(c) == c
    ensures c != d && Lower(c) == Lower(d) ==>
              ('A' <= c <= 'Z' && d as int == c as int + 32) || ('A' <= d <= 'Z' && c as int == d as int + 32)
  {
  }

  /** Two characters compared exactly or ignoring ASCII case. */
  predicate SameChar(a: char, b: char, ignoreCase: bool) {
    if ignoreCase then Lower(a) == Lower(b) else a == b
  }

  /** The pattern's characters from index j on agree with the text at q, up to case. */
  predicate MatchFrom(s: string, q: nat, w: string, j: nat, ignoreCase: bool)
    requires q + |w| <= |s|
    decreases |w| - j
  {
    j >= |w| || (SameChar(s[q + j], w[j], ignoreCase) && MatchFrom(s, q, w, j + 1, ignoreCase))
  }

  /** `w` occurs at position q of s. */
  predicate Matches(s: string, q: nat, w: string, ignoreCase: bool) {
    q + |w| <= |s| && MatchFrom(s, q, w, 0, ignoreCase)
  }

  lemma {:induction false} MatchFromChars(s: string, q: nat, w: string, j: nat, ignoreCase: bool)
    requires q + |w| <= |s|
    ensures MatchFrom(s, q, w, j, ignoreCase) <==> forall x :: j <= x < |w| ==> SameChar(s[q + x], w[x], ignoreCase)
    decreases |w| - j
  {
    if j < |w| {
      MatchFromChars(s, q, w, j + 1, ignoreCase);
    }
  }

  /** An occurrence is a run of characters each equal to the pattern's, up to case. */
  lemma MatchChars(s: string, q: nat, w: string, ignoreCase: bool)
    ensures Matches(s, q, w, ignoreCase)
      <==> (q + |w| <= |s| && forall x :: 0 <= x < |w| ==> SameChar(s[q + x], w[x], ignoreCase))
  {
    if q + |w| <= |s| {
      MatchFromChars(s, q, w, 0, ignoreCase);
    }
  }

  /** The first position at or after `from` where `w` occurs, scanning forwards. */
  function Scan(s: string, w: string, from: nat, ignoreCase: bool): (r: Option<nat>)
    ensures r.Some? ==> from <= r.value && Matches(s, r.value, w, ignoreCase)
    ensures r.Some? ==> forall q: nat :: from <= q < r.value ==> !Matches(s, q, w, ignoreCase)
    ensures r.None? ==> forall q: nat :: from <= q ==> !Matches(s, q, w, ignoreCase)
    decreases |s| - from
  {
    if from + |w| > |s| then None
    else if Matches(s, from, w, ignoreCase) then Some(from)
    else Scan(s, w, from + 1, ignoreCase)
  }

  /**
   * case_find(s, what, len, offset); None is npos.  A null `what` or fewer
   * than `len` characters after `offset` give npos.  An offset beyond the
   * end makes the unsigned `s.size() - offset` wrap, so the first test
   * passes, but the scan then starts past its last candidate and finds
   * nothing.  With `len` 0 the first candidate matches at once.
   */
  function CaseFind(s: string, what: Option<string>, len: nat, offset: nat): (r: Option<nat>)
    requires what.Some? ==> len <= |what.value|
    ensures what.None? || offset > |s| || |s| - offset < len ==> r.None?
    ensures r.Some? ==> (offset <= r.value && r.value + len <= |s|
      && Matches(s, r.value, what.value[..len], true)
      && forall q: nat :: offset <= q < r.value ==> !Matches(s, q, what.value[..len], true))
    ensures r.None? && what.Some? ==> forall q: nat :: offset <= q ==> !Matches(s, q, what.value[..len], true)
    ensures what.Some? && len == 0 && offset <= |s| ==> r == Some(offset)
  {
    if offset <= |s| && |s| - offset < len then None
    else if what.None? then None
    else if offset > |s| then None
    else Scan(s, what.value[..len], offset, true)
  }

  /**
   * std::string::find(what, pos, n) with `what` holding exactly n
   * characters: the first exact occurrence at or after pos; an empty
   * pattern is found at pos itself while pos is within the string.
   */
  function StdFind(s: string, what: string, pos: nat): (r: Option<nat>)
    ensures r.Some? ==> (pos <= r.value && Matches(s, r.value, what, false)
      && forall q: nat :: pos <= q < r.value ==> !Matches(s, q, what, false))
    ensures r.None? ==> forall q: nat :: pos <= q ==> !Matches(s, q, what, false)
    ensures |what| == 0 ==> (r.Some? <==> pos <= |s|)
  {
    if pos > |s| then None else Scan(s, what, pos, false)
  }

  /** `s` with the n characters at p replaced by `with`. */
  function Splice(s: string, p: nat, n: nat, with: string): (r: string)
    requires p + n <= |s|
    ensures |r| == |s| - n + |with|
    ensures r[..p] == s[..p] && r[p..p + |with|] == with && r[p + |with|..] == s[p + n..]
  {
    s[..p] + with + s[p + n..]
  }

  /** The search replace_all runs: case_find when the flag is true, std::string::find otherwise. */
  function Find(s: string, offset: nat, what: string, casesensitive: bool): (r: Option<nat>)
    ensures r.Some? ==> offset <= r.value && r.value + |what| <= |s| && Matches(s, r.value, what, casesensitive)
    ensures r.Some? ==> forall q: nat :: offset <= q < r.value ==> !Matches(s, q, what, casesensitive)
    ensures r.None? ==> forall q: nat :: offset <= q ==> !Matches(s, q, what, casesensitive)
  {
    assert what[..|what|] == what;
    if casesensitive then CaseFind(s, Some(what), |what|, offset) else StdFind(s, what, offset)
  }

  /**
   * The replace_all loop as written: find the next occurrence at or after
   * `offset`, splice `with` in, and resume at p + |with| + 1.  It keeps the
   * text before `offset` and computes the skipping replacement of the rest,
   * folding case exactly when `casesensitive` is true.
   */
  function ReplaceLoop(s: string, offset: nat, what: string, with: string, casesensitive: bool): (r: string)
    ensures offset <= |s| ==> r == s[..offset] + SkipFrom(s, offset, what, with, casesensitive)
    ensures offset > |s| ==> r == s
    decreases |s| + 1 - offset
  {
    match Find(s, offset, what, casesensitive)
    case None =>
      if offset <= |s| then
        SkipNoMatch(s, offset, what, with, casesensitive);
        SliceJoin(s, offset, |s|);
        s
      else s
    case Some(p) =>
      SkipFirst(s, offset, p, what, with, casesensitive);
      var s1 := Splice(s, p, |what|, with);
      var next := p + |with| + 1;
      if p + |what| < |s| then
        SpliceStep(s, offset, p, what, with, casesensitive);
        ReplaceLoop(s1, next, what, with, casesensitive)
      else
        SpliceLast(s, offset, p, what, with, casesensitive);
        ReplaceLoop(s1, next, what, with, casesensitive)
  }

  /**
   * replace_all(s, offset, what, whatlen, with, withlen, casesensitive) and
   * its copying twin, with whatlen = |what| and withlen = |with|.
   */
  function ReplaceAll(s: string, offset: nat, what: string, with: string, casesensitive: bool): (r: string)
    ensures offset <= |s| ==> r == s[..offset] + SkipFrom(s, offset, what, with, casesensitive)
    ensures offset > |s| ==> r == s
  {
    ReplaceLoop(s, offset, what, with, casesensitive)
  }

  /** With no occurrence at or after `offset` the string comes back unchanged. */
  lemma NoMatchUnchanged(s: string, offset: nat, what: string, with: string, casesensitive: bool)
    requires forall q: nat :: offset <= q ==> !Matches(s, q, what, casesensitive)
    ensures ReplaceAll(s, offset, what, with, casesensitive) == s
  {
  }

  /** The overload taking one character searches for that character as a one-character pattern. */
  function ReplaceChar(s: string, offset: nat, what: char, with: string, casesensitive: bool): (r: string)
    ensures offset <= |s| ==> s[..offset] <= r
    ensures offset <= |s| ==> r == s[..offset] + SkipFrom(s, offset, [what], with, casesensitive)
    ensures (forall q: nat :: offset <= q < |s| ==> !SameChar(s[q], what, casesensitive)) ==> r == s
  {
    CharNoMatch(s, offset, what, with, casesensitive);
    ReplaceAll(s, offset, [what], with, casesensitive)
  }

  lemma CharNoMatch(s: string, offset: nat, what: char, with: string, casesensitive: bool)
    ensures (forall q: nat :: offset <= q < |s| ==> !SameChar(s[q], what, casesensitive))
      ==> ReplaceAll(s, offset, [what], with, casesensitive) == s
  {
    var w := [what];
    forall q: nat | Matches(s, q, w, casesensitive) ensures q < |s| && SameChar(s[q], what, casesensitive) {
      MatchChars(s, q, w, casesensitive);
      assert SameChar(s[q + 0], w[0], casesensitive);
    }
    if forall q: nat :: offset <= q < |s| ==> !SameChar(s[q], what, casesensitive) {
      NoMatchUnchanged(s, offset, w, with, casesensitive);
    }
  }

  /** The overloads without an offset start at 0 and so may change any character. */
  function ReplaceAllFromStart(s: string, what: string, with: string, casesensitive: bool): (r: string)
    ensures r == SkipFrom(s, 0, what, with, casesensitive)
    ensures (forall q: nat :: !Matches(s, q, what, casesensitive)) ==> r == s
  {
    assert s[..0] == [];
    FromStartNoMatch(s, what, with, casesensitive);
    ReplaceAll(s, 0, what, with, casesensitive)
  }

  lemma FromStartNoMatch(s: string, what: string, with: string, casesensitive: bool)
    ensures (forall q: nat :: !Matches(s, q, what, casesensitive)) ==> ReplaceAll(s, 0, what, with, casesensitive) == s
  {
    if forall q: nat :: !Matches(s, q, what, casesensitive) {
      NoMatchUnchanged(s, 0, what, with, casesensitive);
    }
  }

  /** The flag as written: true folds case, false compares exactly, so an upper-case letter is replaced only when it is true. */
  lemma FlagInverted(c: char, with: string)
    requires 'A' <= c <= 'Z'
    ensures ReplaceAll([c], 0, [Lower(c)], with, true) == with
    ensures ReplaceAll([c], 0, [Lower(c)], with, false) == [c]
  {
    var s := [c];
    var w := [Lower(c)];
    MatchChars(s, 0, w, true);
    MatchChars(s, 0, w, false);
    assert SameChar(s[0 + 0], w[0], true);
    assert Matches(s, 0, w, true);
    assert Find(s, 0, w, true) == Some(0);
    assert Splice(s, 0, 1, with) == with;
    assert ReplaceLoop(with, |with| + 1, w, with, true) == with;
    assert !SameChar(s[0 + 0], w[0], false);
    NoMatchUnchanged(s, 0, w, with, false);
  }

  /**
   * Resuming one character past the inserted text skips a match that
   * starts right there: a doubled character loses only its first copy.
   */
  lemma SkipsAdjacent(c: char, d: char)
    ensures ReplaceAll([c, c], 0, [c], [d], false) == [d, c]
  {
    var s := [c, c];
    assert s[0..1] == [c];
    assert Matches(s, 0, [c], false);
    assert Find(s, 0, [c], false) == Some(0);
    var s1 := Splice(s, 0, 1, [d]);
    assert s1 == [d, c];
    assert Find(s1, 2, [c], false) == None;
    assert ReplaceLoop(s1, 2, [c], [d], false) == s1;
  }

  /**
   * What the loop as written computes from position i on: each leftmost
   * occurrence is replaced, with the flag selecting case folding, and the
   * character right after it is copied without being searched.  An empty
   * pattern matches everywhere, so `with` goes in front of every other
   * character.
   */
  function SkipFrom(t: string, i: nat, w: string, with: string, ignoreCase: bool): string
    requires i <= |t|
  {
    Skip(t[i..], w, with, ignoreCase)
  }

  /** The skipping replacement of a whole remainder `u`. */
  function Skip(u: string, w: string, with: string, ignoreCase: bool): string
    decreases |u|
  {
    if |w| > |u| then u
    else if Matches(u, 0, w, ignoreCase) then
      with + (if |w| < |u| then [u[|w|]] + Skip(u[|w| + 1..], w, with, ignoreCase) else [])
    else [u[0]] + Skip(u[1..], w, with, ignoreCase)
  }

  /** The pattern occurs at the start of a remainder exactly when it occurs there in the text. */
  lemma MatchShift(t: string, i: nat, w: string, ic: bool)
    requires i <= |t|
    ensures Matches(t[i..], 0, w, ic) == Matches(t, i, w, ic)
  {
    MatchChars(t[i..], 0, w, ic);
    MatchChars(t, i, w, ic);
    if i + |w| <= |t| {
      forall x | 0 <= x < |w| ensures t[i..][x] == t[i + x] {
      }
    }
  }

  /** Where the pattern does not occur, the reference copies one character and moves on. */
  lemma SkipMiss(t: string, i: nat, w: string, with: string, ic: bool)
    requires i + |w| <= |t| && !Matches(t, i, w, ic)
    ensures i < |t| && SkipFrom(t, i, w, with, ic) == [t[i]] + SkipFrom(t, i + 1, w, with, ic)
  {
    MatchChars(t, i, w, ic);
    MatchShift(t, i, w, ic);
    assert t[i..][1..] == t[i + 1..];
  }

  lemma {:induction false} SkipNoMatch(t: string, i: nat, w: string, with: string, ic: bool)
    requires i <= |t| && forall q: nat :: i <= q ==> !Matches(t, q, w, ic)
    ensures SkipFrom(t, i, w, with, ic) == t[i..]
    decreases |t| - i
  {
    if i + |w| <= |t| {
      SkipMiss(t, i, w, with, ic);
      SkipNoMatch(t, i + 1, w, with, ic);
      SliceCons(t, i, |t|);
    }
  }

  lemma {:induction false} SkipFirst(t: string, i: nat, k: nat, w: string, with: string, ic: bool)
    requires i <= k && Matches(t, k, w, ic)
    requires forall q: nat :: i <= q < k ==> !Matches(t, q, w, ic)
    ensures SkipFrom(t, i, w, with, ic) == t[i..k] + SkipFrom(t, k, w, with, ic)
    decreases k - i
  {
    if i == k {
      assert t[i..k] == [];
    } else {
      SkipMiss(t, i, w, with, ic);
      SkipFirst(t, i + 1, k, w, with, ic);
      SliceCons(t, i, k);
      ConsAssoc([t[i]], t[i + 1..k], SkipFrom(t, k, w, with, ic));
    }
  }

  lemma SliceCons<T>(s: seq<T>, i: nat, k: nat)
    requires i < k <= |s|
    ensures [s[i]] + s[i + 1..k] == s[i..k]
  {
  }

  lemma ConsAssoc<T>(x: seq<T>, a: seq<T>, b: seq<T>)
    ensures x + (a + b) == (x + a) + b
  {
  }

  /** At an occurrence followed by text, the reference emits `with` and copies the next character. */
  lemma SkipAt(t: string, k: nat, w: string, with: string, ic: bool)
    requires k + |w| < |t| && Matches(t, k, w, ic)
    ensures SkipFrom(t, k, w, with, ic) == with + [t[k + |w|]] + SkipFrom(t, k + |w| + 1, w, with, ic)
  {
    MatchShift(t, k, w, ic);
    assert t[k..][|w| + 1..] == t[k + |w| + 1..];
    assert t[k..][|w|] == t[k + |w|];
  }

  /** Splicing at p leaves the text after the occurrence's next character in place. */
  lemma SpliceSlices(s: string, p: nat, n: nat, with: string)
    requires p + n < |s|
    ensures var s1 := Splice(s, p, n, with);
      p + |with| + 1 <= |s1|
      && s1[p + |with| + 1..] == s[p + n + 1..]
      && s1[..p + |with| + 1] == s[..p] + with + [s[p + n]]
  {
    var s1 := Splice(s, p, n, with);
    assert s1[p + |with|..] == s[p + n..];
    assert s1[p + |with| + 1..] == s[p + n..][1..];
  }

  /** One round of the loop when text follows the occurrence at p. */
  lemma SpliceStep(s: string, offset: nat, p: nat, what: string, with: string, ic: bool)
    requires offset <= p && p + |what| < |s| && Matches(s, p, what, ic)
    ensures var s1 := Splice(s, p, |what|, with);
      var next := p + |with| + 1;
      next <= |s1|
      && s1[..next] + SkipFrom(s1, next, what, with, ic)
         == s[..offset] + (s[offset..p] + SkipFrom(s, p, what, with, ic))
  {
    var s1 := Splice(s, p, |what|, with);
    var next := p + |with| + 1;
    SpliceSlices(s, p, |what|, with);
    assert SkipFrom(s1, next, what, with, ic) == SkipFrom(s, p + |what| + 1, what, with, ic);
    SkipAt(s, p, what, with, ic);
    var head, mid, c := s[..offset], s[offset..p], [s[p + |what|]];
    var tail := SkipFrom(s, p + |what| + 1, what, with, ic);
    SliceJoin(s, offset, p);
    ConcatRegroup(head, mid, with, c, tail);
  }

  lemma SliceJoin<T>(s: seq<T>, i: nat, j: nat)
    requires i <= j <= |s|
    ensures s[..i] + s[i..j] == s[..j]
  {
  }

  lemma ConcatRegroup<T>(a: seq<T>, b: seq<T>, c: seq<T>, d: seq<T>, e: seq<T>)
    ensures (a + b + c + d) + e == a + (b + (c + d + e))
  {
  }

  /** The last round of the loop, when the occurrence at p ends the text. */
  lemma SpliceLast(s: string, offset: nat, p: nat, what: string, with: string, ic: bool)
    requires offset <= p && p + |what| == |s| && Matches(s, p, what, ic)
    ensures Splice(s, p, |what|, with) == s[..offset] + (s[offset..p] + SkipFrom(s, p, what, with, ic))
  {
    MatchShift(s, p, what, ic);
    assert SkipFrom(s, p, what, with, ic) == with;
    assert s[..offset] + s[offset..p] == s[..p];
  }

  // ------------------------------------------------------------ intended form

  /**
   * The reference meaning of "replace every occurrence" in the text from
   * position i on: scan left to right, replacing each leftmost
   * non-overlapping occurrence of a nonempty pattern.
   */
  function RefFrom(t: string, i: nat, w: string, with: string, ignoreCase: bool): string
    requires |w| > 0 && i <= |t|
  {
    Ref(t[i..], w, with, ignoreCase)
  }

  /** The reference replacement of a whole remainder `u`. */
  function Ref(u: string, w: string, with: string, ignoreCase: bool): string
    requires |w| > 0
    decreases |u|
  {
    if |w| > |u| then u
    else if Matches(u, 0, w, ignoreCase) then with + Ref(u[|w|..], w, with, ignoreCase)
    else [u[0]] + Ref(u[1..], w, with, ignoreCase)
  }

  /**
   * The loop as evidently intended: `casesensitive` selects the exact
   * search, the search resumes right after the inserted text, and an empty
   * pattern replaces nothing.  It keeps the text before `offset` and
   * computes the reference replacement of the rest.
   */
  function FixedLoop(s: string, offset: nat, what: string, with: string, casesensitive: bool): (r: string)
    requires |what| > 0 && offset <= |s|
    ensures r == s[..offset] + RefFrom(s, offset, what, with, !casesensitive)
    decreases |s| - offset
  {
    var ic := !casesensitive;
    match Scan(s, what, offset, ic)
    case None =>
      RefNoMatch(s, offset, what, with, ic);
      assert s[..offset] + s[offset..] == s;
      s
    case Some(p) =>
      FixedStep(s, offset, p, what, with, ic);
      FixedLoop(Splice(s, p, |what|, with), p + |with|, what, with, casesensitive)
  }

  /** replace_all as evidently intended. */
  function ReplaceAllFixed(s: string, offset: nat, what: string, with: string, casesensitive: bool): (r: string)
    ensures |what| == 0 || offset > |s| ==> r == s
    ensures |what| > 0 && offset <= |s| ==> r == s[..offset] + RefFrom(s, offset, what, with, !casesensitive)
  {
    if |what| == 0 || offset > |s| then s else FixedLoop(s, offset, what, with, casesensitive)
  }

  /** Where the pattern does not occur, the reference copies one character and moves on. */
  lemma RefMiss(t: string, i: nat, w: string, with: string, ic: bool)
    requires |w| > 0 && i + |w| <= |t| && !Matches(t, i, w, ic)
    ensures RefFrom(t, i, w, with, ic) == [t[i]] + RefFrom(t, i + 1, w, with, ic)
  {
    MatchShift(t, i, w, ic);
    assert t[i..][1..] == t[i + 1..];
  }

  /** At an occurrence, the reference emits `with` and resumes right after it. */
  lemma RefHit(t: string, i: nat, w: string, with: string, ic: bool)
    requires |w| > 0 && Matches(t, i, w, ic)
    ensures RefFrom(t, i, w, with, ic) == with + RefFrom(t, i + |w|, w, with, ic)
  {
    MatchShift(t, i, w, ic);
    assert t[i..][|w|..] == t[i + |w|..];
  }

  /** Without occurrences from i on, the reference copies the rest of the text. */
  lemma {:induction false} RefNoMatch(t: string, i: nat, w: string, with: string, ic: bool)
    requires |w| > 0 && i <= |t| && forall q: nat :: i <= q ==> !Matches(t, q, w, ic)
    ensures RefFrom(t, i, w, with, ic) == t[i..]
    decreases |t| - i
  {
    if i + |w| <= |t| {
      RefMiss(t, i, w, with, ic);
      RefNoMatch(t, i + 1, w, with, ic);
      SliceCons(t, i, |t|);
    }
  }

  /** The reference copies the text up to the first occurrence at k, then replaces it. */
  lemma {:induction false} RefFirst(t: string, i: nat, k: nat, w: string, with: string, ic: bool)
    requires |w| > 0 && i <= k && Matches(t, k, w, ic)
    requires forall q: nat :: i <= q < k ==> !Matches(t, q, w, ic)
    ensures RefFrom(t, i, w, with, ic) == t[i..k] + with + RefFrom(t, k + |w|, w, with, ic)
    decreases k - i
  {
    var tail := with + RefFrom(t, k + |w|, w, with, ic);
    RefHit(t, k, w, with, ic);
    if i == k {
      assert t[i..k] == [];
    } else {
      RefMiss(t, i, w, with, ic);
      RefFirst(t, i + 1, k, w, with, ic);
      SliceCons(t, i, k);
      ConsAssoc([t[i]], t[i + 1..k], tail);
    }
    ConsAssoc(t[i..k], with, RefFrom(t, k + |w|, w, with, ic));
  }

  /** One round of the corrected loop: the spliced text, kept up to the inserted text, continues the reference. */
  lemma FixedStep(s: string, offset: nat, p: nat, what: string, with: string, ic: bool)
    requires |what| > 0 && offset <= p && Matches(s, p, what, ic)
    requires forall q: nat :: offset <= q < p ==> !Matches(s, q, what, ic)
    ensures var s1 := Splice(s, p, |what|, with);
      p + |with| <= |s1|
      && s1[..p + |with|] + RefFrom(s1, p + |with|, what, with, ic)
         == s[..offset] + RefFrom(s, offset, what, with, ic)
  {
    var s1 := Splice(s, p, |what|, with);
    assert RefFrom(s1, p + |with|, what, with, ic) == RefFrom(s, p + |what|, what, with, ic);
    RefFirst(s, offset, p, what, with, ic);
    SpliceRegroup(s, offset, p, |what|, with, RefFrom(s, p + |what|, what, with, ic));
  }

  /** Splicing at p and keeping everything up to the inserted text regroups around `offset`. */
  lemma SpliceRegroup(s: string, offset: nat, p: nat, n: nat, with: string, rest: string)
    requires offset <= p && p + n <= |s|
    ensures Splice(s, p, n, with)[..p + |with|] + rest == s[..offset] + (s[offset..p] + with + rest)
  {
    assert Splice(s, p, n, with)[..p + |with|] == s[..p] + with;
    assert s[..p] == s[..offset] + s[offset..p];
  }

  /** The corrected loop replaces both characters of a doubled one. */
  lemma FixedReplacesAdjacent(c: char, d: char)
    ensures ReplaceAllFixed([c, c], 0, [c], [d], true) == [d, d]
  {
    var s := [c, c];
    var w := [c];
    assert s[0..1] == w && s[1..2] == w;
    assert Matches(s, 0, w, false) && Matches(s, 1, w, false);
    RefHit(s, 0, w, [d], false);
    RefHit(s, 1, w, [d], false);
    assert RefFrom(s, 2, w, [d], false) == [];
  }

  /** In the corrected loop `casesensitive` true compares exactly and false folds case. */
  lemma FixedFlagRespected(c: char, with: string)
    requires 'A' <= c <= 'Z'
    ensures ReplaceAllFixed([c], 0, [Lower(c)], with, true) == [c]
    ensures ReplaceAllFixed([c], 0, [Lower(c)], with, false) == with
  {
    var s := [c];
    var w := [Lower(c)];
    MatchChars(s, 0, w, true);
    MatchChars(s, 0, w, false);
    assert SameChar(s[0 + 0], w[0], true);
    assert !SameChar(s[0 + 0], w[0], false);
    assert RefFrom(s, 1, w, with, true) == [];
    assert RefFrom(s, 1, w, with, false) == [];
  }
}
