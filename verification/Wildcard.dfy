/** StringUtil::WildcardMatch: a greedy two-pointer matcher for '*' and '?'.

    Strings are the characters before the terminating NUL.  The two branches of the
    source differ only in how two characters are compared, so the comparison is chosen
    by a flag here as it is there; `case_sensitive == true` is the branch that folds case. */
module Wildcard {

  /** tolower of the "C" locale. */
  function ToLower(c: char): char {
    if 'A' <= c <= 'Z' then c + ('a' - 'A') else c
  }

  predicate SameChar(caseSensitive: bool, a: char, b: char) {
    if caseSensitive then ToLower(a) == ToLower(b) else a == b
  }

  /** One mask character other than '*' against one subject character. */
  predicate Accepts(cs: bool, pattern: char, c: char) {
    pattern == '?' || SameChar(cs, pattern, c)
  }

  /** The meaning of a mask: '*' stands for any string, '?' for any one character. */
  ghost predicate Glob(cs: bool, s: string, m: string)
    decreases |m|, |s|
  {
    if m == [] then s == []
    else if m[0] == '*' then Glob(cs, s, m[1..]) || (s != [] && Glob(cs, s[1..], m))
    else s != [] && Accepts(cs, m[0], s[0]) && Glob(cs, s[1..], m[1..])
  }

  /** No '*' among the first n characters of a mask. */
  ghost predicate StarFree(m: string, n: nat) {
    n <= |m| && forall i | 0 <= i < n :: m[i] != '*'
  }

  // ---------------------------------------------------------------- the relation

  /** A mask that begins with '*' also matches every longer subject ending the same way. */
  lemma {:induction false} StarAbsorbs(cs: bool, s: string, m: string, j: nat)
    requires j <= |s| && m != [] && m[0] == '*' && Glob(cs, s[j..], m)
    ensures Glob(cs, s, m)
  {
    if j > 0 {
      assert s[1..][j - 1..] == s[j..];
      StarAbsorbs(cs, s[1..], m, j - 1);
    } else {
      assert s[0..] == s;
    }
  }

  /** A star-free stretch of n mask characters consumes exactly n subject characters. */
  lemma {:induction false} StarFreePrefix(cs: bool, s: string, m: string, n: nat)
    requires StarFree(m, n) && Glob(cs, s, m)
    ensures n <= |s| && Glob(cs, s[n..], m[n..])
  {
    if n > 0 {
      StarFreePrefix(cs, s[1..], m[1..], n - 1);
      assert s[1..][n - 1..] == s[n..] && m[1..][n - 1..] == m[n..];
    } else {
      assert s[0..] == s && m[0..] == m;
    }
  }

  /** Where a match behind a '*' resumes. */
  lemma {:induction false} StarWitness(cs: bool, s: string, m: string) returns (k: nat)
    requires m != [] && m[0] == '*' && Glob(cs, s, m)
    ensures k <= |s| && Glob(cs, s[k..], m[1..])
    decreases |s|
  {
    if Glob(cs, s, m[1..]) {
      k := 0;
      assert s[0..] == s;
    } else {
      var j := StarWitness(cs, s[1..], m);
      k := j + 1;
      assert s[1..][j..] == s[k..];
    }
  }

  /** The empty string matches exactly the masks made of stars. */
  lemma {:induction false} StarsMatchEmpty(cs: bool, m: string)
    ensures Glob(cs, [], m) <==> forall i | 0 <= i < |m| :: m[i] == '*'
  {
    if m != [] {
      StarsMatchEmpty(cs, m[1..]);
      assert m == [m[0]] + m[1..];
    }
  }

  /** Concatenating masks concatenates their languages: with the three lemmas below this
      fixes Glob on every mask, and shows that '*' and '?' mean what they should. */
  lemma {:induction false} GlobConcat(cs: bool, s: string, a: string, b: string)
    ensures Glob(cs, s, a + b) <==> exists i | 0 <= i <= |s| :: Glob(cs, s[..i], a) && Glob(cs, s[i..], b)
    decreases |a|, |s|
  {
    if Glob(cs, s, a + b) {
      var i := GlobSplit(cs, s, a, b);
    }
    if i :| 0 <= i <= |s| && Glob(cs, s[..i], a) && Glob(cs, s[i..], b) {
      GlobJoin(cs, s[..i], s[i..], a, b);
      assert s[..i] + s[i..] == s;
    }
  }

  lemma {:induction false} GlobSplit(cs: bool, s: string, a: string, b: string) returns (i: nat)
    requires Glob(cs, s, a + b)
    ensures i <= |s| && Glob(cs, s[..i], a) && Glob(cs, s[i..], b)
    decreases |a|, |s|
  {
    if a == [] {
      i := 0;
      assert a + b == b && s[0..] == s;
    } else {
      assert (a + b)[0] == a[0] && (a + b)[1..] == a[1..] + b;
      if a[0] == '*' && Glob(cs, s, a[1..] + b) {
        i := GlobSplit(cs, s, a[1..], b);
      } else {
        var j := GlobSplit(cs, s[1..], if a[0] == '*' then a else a[1..], b);
        i := j + 1;
        assert s[..i][1..] == s[1..][..j] && s[i..] == s[1..][j..];
      }
    }
  }

  lemma {:induction false} GlobJoin(cs: bool, s: string, t: string, a: string, b: string)
    requires Glob(cs, s, a) && Glob(cs, t, b)
    ensures Glob(cs, s + t, a + b)
    decreases |a|, |s|
  {
    if a == [] {
      assert s + t == t && a + b == b;
    } else {
      assert (a + b)[0] == a[0] && (a + b)[1..] == a[1..] + b;
      if a[0] == '*' && Glob(cs, s, a[1..]) {
        GlobJoin(cs, s, t, a[1..], b);
      } else {
        assert (s + t)[1..] == s[1..] + t;
        GlobJoin(cs, s[1..], t, if a[0] == '*' then a else a[1..], b);
      }
    }
  }

  /** The languages of the one-character masks and of the empty mask.  A letter accepts itself and, with
      the flag set, the letter 0x20 away. */
  lemma GlobAtoms(cs: bool, s: string, c: char)
    ensures Glob(cs, s, []) <==> s == []
    ensures Glob(cs, s, "*")
    ensures Glob(cs, s, "?") <==> |s| == 1
    ensures c != '*' && c != '?' ==> (Glob(false, s, [c]) <==> s == [c])
    ensures c != '*' && c != '?' ==>
              (Glob(true, s, [c]) <==>
                 && |s| == 1
                 && (s[0] == c
                     || ('A' <= c <= 'Z' && s[0] as int == c as int + 0x20)
                     || ('a' <= c <= 'z' && s[0] as int == c as int - 0x20)))
  {
    AnyString(cs, s);
    if |s| == 1 {
      assert s == [s[0]];
    }
  }

  lemma {:induction false} AnyString(cs: bool, s: string)
    ensures Glob(cs, s, "*")
  {
    if s != [] {
      AnyString(cs, s[1..]);
    }
  }

  /** The flag is inverted: with `case_sensitive` set, the case of the subject is ignored. */
  lemma {:induction false} FlagFoldsCase(s: string, t: string, m: string)
    requires |s| == |t| && forall i | 0 <= i < |s| :: ToLower(s[i]) == ToLower(t[i])
    ensures Glob(true, s, m) <==> Glob(true, t, m)
    decreases |m|, |s|
  {
    if m != [] {
      if m[0] == '*' {
        FlagFoldsCase(s, t, m[1..]);
        if s != [] { FlagFoldsCase(s[1..], t[1..], m); }
      } else if s != [] {
        FlagFoldsCase(s[1..], t[1..], m[1..]);
      }
    }
  }

  predicate IsLetter(c: char) { 'A' <= c <= 'Z' || 'a' <= c <= 'z' }

  predicate HasLetter(m: string) { exists i | 0 <= i < |m| :: IsLetter(m[i]) }

  function SwapCase(c: char): char {
    if 'A' <= c <= 'Z' then c + ('a' - 'A') else if 'a' <= c <= 'z' then c - ('a' - 'A') else c
  }

  /** The mask without its stars, and with the case of its letters swapped: a subject on which the two
      settings of the flag disagree. */
  function Swapped(m: string): string {
    if m == [] then [] else if m[0] == '*' then Swapped(m[1..]) else [SwapCase(m[0])] + Swapped(m[1..])
  }

  /** Without letters the two comparisons are one. */
  lemma {:induction false} LetterFreeAgrees(s: string, m: string)
    requires !HasLetter(m)
    ensures Glob(true, s, m) <==> Glob(false, s, m)
    decreases |m|, |s|
  {
    if m != [] {
      assert !IsLetter(m[0]);
      assert forall i | 0 <= i < |m[1..]| :: m[1..][i] == m[i + 1];
      LetterFreeAgrees(s, m[1..]);
      if s != [] {
        if m[0] == '*' { LetterFreeAgrees(s[1..], m); } else { LetterFreeAgrees(s[1..], m[1..]); }
      }
    }
  }

  lemma {:induction false} SwappedFolds(m: string)
    ensures Glob(true, Swapped(m), m)
  {
    if m != [] {
      SwappedFolds(m[1..]);
    }
  }

  /** A subject is at least as long as the mask without its stars. */
  lemma {:induction false} LongEnough(cs: bool, s: string, m: string)
    requires Glob(cs, s, m)
    ensures |s| >= |Swapped(m)|
    decreases |m|, |s|
  {
    if m != [] {
      if m[0] == '*' && !Glob(cs, s, m[1..]) { LongEnough(cs, s[1..], m); }
      else { LongEnough(cs, if m[0] == '*' then s else s[1..], m[1..]); }
    }
  }

  lemma {:induction false} SwappedDiffers(m: string)
    requires HasLetter(m)
    ensures !Glob(false, Swapped(m), m)
  {
    var i :| 0 <= i < |m| && IsLetter(m[i]);
    if i > 0 {
      assert IsLetter(m[1..][i - 1]);
    }
    if m[0] == '*' {
      SwappedDiffers(m[1..]);
      if Swapped(m) != [] && Glob(false, Swapped(m)[1..], m) {
        LongEnough(false, Swapped(m)[1..], m);
      }
    } else if !IsLetter(m[0]) {
      SwappedDiffers(m[1..]);
    }
  }

  /** So the flag does the opposite of what its name says on every mask with a letter, and on no
      other: the two settings accept the same subjects exactly when no letter occurs in the mask. */
  lemma FlagMattersExactly(m: string)
    ensures (forall s: string :: Glob(true, s, m) <==> Glob(false, s, m)) <==> !HasLetter(m)
  {
    if HasLetter(m) {
      SwappedFolds(m);
      SwappedDiffers(m);
    } else {
      forall s: string ensures Glob(true, s, m) <==> Glob(false, s, m) {
        LetterFreeAgrees(s, m);
      }
    }
  }

  lemma FlagIsInverted()
    ensures Glob(true, "a", "A") && !Glob(false, "a", "A")
  {
  }

  // ---------------------------------------------------------------- the matcher

  /** Invariant of the main loop.  si and mi are the positions of `subject` and `mask`; mp and
      cp those of the backtrack point, -1 standing for nullptr.  The star the current
      attempt belongs to stands just before mp, and everything since is star free. */
  ghost predicate Attempt(subject: string, mask: string, si: nat, mi: nat, cp: int, mp: int) {
    && si <= |subject| && mi <= |mask|
    && (mp < 0 ==> si < |subject| && mi < |mask| && mask[mi] == '*')
    && (mp >= 0 ==>
         && 1 <= mp <= mi && 1 <= cp <= si + 1
         && mask[mp - 1] == '*'
         && mi - mp == si - (cp - 1)
         && StarFree(mask[mp..], mi - mp))
  }

  /** Some match resumes at the backtrack point. */
  ghost predicate CanBacktrack(cs: bool, subject: string, mask: string, cp: int, mp: int)
  {
    0 <= cp <= |subject| && 1 <= mp <= |mask| && Glob(cs, subject[cp..], mask[mp - 1..])
  }

  /** A new '*' may forget the previous backtrack point: whatever that one could still find,
      this one finds too. */
  lemma {:induction false} NewStarLosesNothing(cs: bool, subject: string, mask: string, si: nat, mi: nat, cp: int, mp: int)
    requires Attempt(subject, mask, si, mi, cp, mp) && mi < |mask| && mask[mi] == '*'
    requires CanBacktrack(cs, subject, mask, cp, mp)
    ensures Glob(cs, subject[si..], mask[mi..])
  {
    var rest := ResumePoint(cs, subject, mask, mi, cp, mp);
    assert subject[rest..] == subject[si..][rest - si..];
    StarAbsorbs(cs, subject[si..], mask[mi..], rest - si);
  }

  /** A match found from the backtrack point must run through the star-free stretch. */
  lemma {:induction false} ResumePoint(cs: bool, subject: string, mask: string, mi: nat, cp: int, mp: int) returns (rest: nat)
    requires CanBacktrack(cs, subject, mask, cp, mp) && mask[mp - 1] == '*'
    requires mp <= mi <= |mask| && StarFree(mask[mp..], mi - mp)
    ensures cp + (mi - mp) <= rest <= |subject| && Glob(cs, subject[rest..], mask[mi..])
  {
    var k := StarWitness(cs, subject[cp..], mask[mp - 1..]);
    assert mask[mp - 1..][1..] == mask[mp..] && subject[cp..][k..] == subject[cp + k..];
    StarFreePrefix(cs, subject[cp + k..], mask[mp..], mi - mp);
    rest := cp + k + (mi - mp);
    assert subject[cp + k..][mi - mp..] == subject[rest..] && mask[mp..][mi - mp..] == mask[mi..];
  }

  /** What a '*' at mi offers: match nothing now, or leave a backtrack point one further on. */
  lemma StarStep(cs: bool, subject: string, mask: string, si: nat, mi: nat)
    requires si < |subject| && mi < |mask| && mask[mi] == '*'
    ensures Glob(cs, subject[si..], mask[mi..]) <==>
            Glob(cs, subject[si..], mask[mi + 1..]) || CanBacktrack(cs, subject, mask, si + 1, mi + 1)
  {
  }

  /** Nothing is lost: the answer sought, `goal`, is true iff the current attempt
      succeeds or some later one does. */
  ghost predicate Exact(goal: bool, cs: bool, subject: string, mask: string, si: nat, mi: nat, cp: int, mp: int)
    requires si <= |subject| && mi <= |mask|
  {
    goal <==> Glob(cs, subject[si..], mask[mi..]) || CanBacktrack(cs, subject, mask, cp, mp)
  }

  lemma StepStar(goal: bool, cs: bool, subject: string, mask: string, si: nat, mi: nat, cp: int, mp: int)
    requires Attempt(subject, mask, si, mi, cp, mp) && Exact(goal, cs, subject, mask, si, mi, cp, mp)
    requires si < |subject| && mi < |mask| && mask[mi] == '*'
    ensures Attempt(subject, mask, si, mi + 1, si + 1, mi + 1)
    ensures Exact(goal, cs, subject, mask, si, mi + 1, si + 1, mi + 1)
    ensures mi + 1 == |mask| ==> goal
  {
    if CanBacktrack(cs, subject, mask, cp, mp) {
      NewStarLosesNothing(cs, subject, mask, si, mi, cp, mp);
    }
    StarStep(cs, subject, mask, si, mi);
    if mi + 1 == |mask| {
      GlobAtoms(cs, subject[si..], '?');
      assert mask[mi..] == "*";
    }
  }

  lemma StepAccept(goal: bool, cs: bool, subject: string, mask: string, si: nat, mi: nat, cp: int, mp: int)
    requires Attempt(subject, mask, si, mi, cp, mp) && Exact(goal, cs, subject, mask, si, mi, cp, mp)
    requires si < |subject| && mi < |mask| && mask[mi] != '*' && Accepts(cs, mask[mi], subject[si])
    ensures Attempt(subject, mask, si + 1, mi + 1, cp, mp)
    ensures Exact(goal, cs, subject, mask, si + 1, mi + 1, cp, mp)
  {
  }

  lemma StepBacktrack(goal: bool, cs: bool, subject: string, mask: string, si: nat, mi: nat, cp: int, mp: int)
    requires Attempt(subject, mask, si, mi, cp, mp) && Exact(goal, cs, subject, mask, si, mi, cp, mp)
    requires si < |subject| && (mi == |mask| || (mask[mi] != '*' && !Accepts(cs, mask[mi], subject[si])))
    ensures mp >= 0 && cp <= |subject|
    ensures Attempt(subject, mask, cp, mp, cp + 1, mp)
    ensures Exact(goal, cs, subject, mask, cp, mp, cp + 1, mp)
  {
  }

  /** Once the subject is used up no later attempt can succeed. */
  lemma SubjectExhausted(cs: bool, subject: string, mask: string, mi: nat, cp: int, mp: int)
    requires mp >= 0 && Attempt(subject, mask, |subject|, mi, cp, mp)
    ensures !CanBacktrack(cs, subject, mask, cp, mp)
  {
    if CanBacktrack(cs, subject, mask, cp, mp) {
      var rest := ResumePoint(cs, subject, mask, mi, cp, mp);
      assert false;
    }
  }

  lemma TrailingStars(cs: bool, mask: string, start: nat, stop: nat)
    requires start <= stop <= |mask| && forall i | start <= i < stop :: mask[i] == '*'
    requires stop < |mask| ==> mask[stop] != '*'
    ensures Glob(cs, [], mask[start..]) <==> stop == |mask|
  {
    StarsMatchEmpty(cs, mask[start..]);
    if stop < |mask| {
      assert mask[start..][stop - start] == mask[stop];
    }
  }

  /** The matcher decides the glob relation. */
  method WildcardMatch(subject: string, mask: string, caseSensitive: bool) returns (matched: bool)
    ensures matched <==> Glob(caseSensitive, subject, mask)
  {
    var si, mi := 0, 0;
    ghost var goal := Glob(caseSensitive, subject, mask);
    assert subject[0..] == subject && mask[0..] == mask;
    while si < |subject| && (mi == |mask| || mask[mi] != '*')
      invariant si <= |subject| && mi <= |mask|
      invariant goal <==> Glob(caseSensitive, subject[si..], mask[mi..])
    {
      if mi == |mask| || !Accepts(caseSensitive, mask[mi], subject[si]) {
        return false;
      }
      assert mask[mi..][1..] == mask[mi + 1..] && subject[si..][1..] == subject[si + 1..];
      mi, si := mi + 1, si + 1;
    }
    matched := MatchStars(subject, mask, caseSensitive, si, mi, goal);
  }

  /** The second loop of the source, entered at a '*' or at the subject's end. */
  method MatchStars(subject: string, mask: string, caseSensitive: bool, subjectStart: nat, maskStart: nat, ghost goal: bool)
    returns (matched: bool)
    requires subjectStart <= |subject| && maskStart <= |mask|
    requires subjectStart < |subject| ==> maskStart < |mask| && mask[maskStart] == '*'
    requires goal <==> Glob(caseSensitive, subject[subjectStart..], mask[maskStart..])
    ensures matched <==> goal
  {
    var si, mi := subjectStart, maskStart;
    var cp, mp := -1, -1;
    while si < |subject|
      invariant 0 <= si <= |subject| && 0 <= mi <= |mask|
      invariant si < |subject| || mp >= 0 ==> Attempt(subject, mask, si, mi, cp, mp)
      invariant Exact(goal, caseSensitive, subject, mask, si, mi, cp, mp)
      decreases |mask| - mp, |subject| + 1 - cp, |subject| - si
    {
      if mi < |mask| && mask[mi] == '*' {
        StepStar(goal, caseSensitive, subject, mask, si, mi, cp, mp);
        mi := mi + 1;
        if mi == |mask| {
          return true;
        }
        mp, cp := mi, si + 1;
      } else if mi < |mask| && Accepts(caseSensitive, mask[mi], subject[si]) {
        StepAccept(goal, caseSensitive, subject, mask, si, mi, cp, mp);
        mi, si := mi + 1, si + 1;
      } else {
        StepBacktrack(goal, caseSensitive, subject, mask, si, mi, cp, mp);
        mi := mp;
        si, cp := cp, cp + 1;
      }
    }

    if mp >= 0 {
      SubjectExhausted(caseSensitive, subject, mask, mi, cp, mp);
    }
    assert subject[si..] == [];
    matched := SkipStars(caseSensitive, mask, mi);
  }

  /** The third loop of the source: the rest of the mask must be stars. */
  method SkipStars(ghost cs: bool, mask: string, start: nat) returns (atEnd: bool)
    requires start <= |mask|
    ensures atEnd <==> Glob(cs, [], mask[start..])
  {
    var mi := start;
    while mi < |mask| && mask[mi] == '*'
      invariant start <= mi <= |mask|
      invariant forall i | start <= i < mi :: mask[i] == '*'
    {
      mi := mi + 1;
    }
    TrailingStars(cs, mask, start, mi);
    return mi == |mask|;
  }
}
