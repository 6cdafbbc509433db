/** Victim profiles and their weighted comparison (funcoes_auxiliares.py). */
module Victims {
  import opened Common

  /** A raw table cell as pandas hands it over: missing (NaN) or a string. */
  datatype Cell = Missing | Text(text: string)

  /** A victim profile; `None` marks an absent attribute. */
  datatype Profile = Profile(age: Option<int>, sex: Option<string>, descent: Option<string>)

  const AgeWeight: real := 0.40
  const SexWeight: real := 0.30
  const DescentWeight: real := 0.30

  /** Score of a component when either side is absent. */
  const AbsentScore: real := 0.5

  /** Builds a profile from the raw columns: age 0 is the "unknown" sentinel
      and becomes absent, a missing sex or descent becomes absent, and every
      other value passes through unchanged. */
  function GenerateProfile(age: int, sex: Cell, descent: Cell): (p: Profile)
    ensures p.age.None? <==> age == 0
    ensures p.age.Some? ==> p.age.value == age
    ensures p.sex.None? <==> sex.Missing?
    ensures sex.Text? ==> p.sex == Some(sex.text)
    ensures p.descent.None? <==> descent.Missing?
    ensures descent.Text? ==> p.descent == Some(descent.text)
  {
    Profile(
      if age == 0 then None else Some(age),
      if sex.Missing? then None else Some(sex.text),
      if descent.Missing? then None else Some(descent.text))
  }

  /** The characters Python's `str.isspace` accepts, which `str.strip()` removes. */
  const Whitespace: set<char> := {
    '\U{9}', '\U{a}', '\U{b}', '\U{c}', '\U{d}', '\U{1c}', '\U{1d}', '\U{1e}', '\U{1f}',
    '\U{20}', '\U{85}', '\U{a0}', '\U{1680}', '\U{2000}', '\U{2001}', '\U{2002}', '\U{2003}',
    '\U{2004}', '\U{2005}', '\U{2006}', '\U{2007}', '\U{2008}', '\U{2009}', '\U{200a}',
    '\U{2028}', '\U{2029}', '\U{202f}', '\U{205f}', '\U{3000}'
  }

  predicate IsSpace(c: char) {
    c in Whitespace
  }

  predicate AllSpace(s: string) {
    forall i :: 0 <= i < |s| ==> IsSpace(s[i])
  }

  /** The length of the longest all-whitespace prefix. */
  function LeadingSpaces(s: string): (n: nat)
    ensures n <= |s| && AllSpace(s[..n])
    ensures n < |s| ==> !IsSpace(s[n])
  {
    if |s| == 0 || !IsSpace(s[0]) then 0
    else
      var n := 1 + LeadingSpaces(s[1..]);
      assert s[..n] == [s[0]] + s[1..][..n - 1];
      n
  }

  /** The length of the longest all-whitespace suffix. */
  function TrailingSpaces(s: string): (n: nat)
    ensures n <= |s| && AllSpace(s[|s| - n..])
    ensures n < |s| ==> !IsSpace(s[|s| - n - 1])
  {
    if |s| == 0 || !IsSpace(s[|s| - 1]) then 0
    else
      var t := s[..|s| - 1];
      var m := TrailingSpaces(t);
      assert s[|s| - (1 + m)..] == t[|t| - m..] + [s[|s| - 1]];
      assert m < |t| ==> s[|s| - (1 + m) - 1] == t[|t| - m - 1];
      1 + m
  }

  /** `r` is `s` with the all-whitespace prefix `s[..i]` and an all-whitespace
      suffix removed, and `r` neither starts nor ends with whitespace. */
  ghost predicate IsStripOf(s: string, r: string, i: int) {
    && 0 <= i && i + |r| <= |s|
    && r == s[i..i + |r|]
    && AllSpace(s[..i]) && AllSpace(s[i + |r|..])
    && (|r| > 0 ==> !IsSpace(r[0]) && !IsSpace(r[|r| - 1]))
  }

  /** Python's `str.lstrip()`. */
  function StripLeft(s: string): string {
    s[LeadingSpaces(s)..]
  }

  /** Python's `str.rstrip()`. */
  function StripRight(s: string): string {
    s[..|s| - TrailingSpaces(s)]
  }

  /** Python's `str.strip()`: removes leading and trailing whitespace. */
  function Strip(s: string): (r: string)
    ensures exists i :: IsStripOf(s, r, i)
  {
    var lead := LeadingSpaces(s);
    var rest := StripLeft(s);
    var r := StripRight(rest);
    assert s[lead..lead + |r|] == r;
    assert s[lead + |r|..] == rest[|rest| - TrailingSpaces(rest)..];
    assert IsStripOf(s, r, lead);
    r
  }

  lemma StripIdempotent(s: string)
    ensures Strip(Strip(s)) == Strip(s)
  {
    var r := Strip(s);
    var i :| IsStripOf(s, r, i);
    assert LeadingSpaces(r) == 0;
    assert StripLeft(r) == r;
    assert TrailingSpaces(r) == 0;
    assert StripRight(r) == r;
  }

  lemma {:induction false} LeadingSpacesAfterSpace(pre: string, x: string)
    requires AllSpace(pre)
    ensures LeadingSpaces(pre + x) == |pre| + LeadingSpaces(x)
    decreases |pre|
  {
    if |pre| == 0 {
      assert pre + x == x;
    } else {
      assert (pre + x)[1..] == pre[1..] + x;
      LeadingSpacesAfterSpace(pre[1..], x);
    }
  }

  lemma {:induction false} TrailingSpacesBeforeSpace(x: string, post: string)
    requires AllSpace(post)
    ensures TrailingSpaces(x + post) == TrailingSpaces(x) + |post|
    decreases |post|
  {
    if |post| == 0 {
      assert x + post == x;
    } else {
      var post' := post[..|post| - 1];
      assert (x + post)[..|x + post| - 1] == x + post';
      TrailingSpacesBeforeSpace(x, post');
    }
  }

  lemma LeadingSpacesOfAllSpace(x: string)
    requires AllSpace(x)
    ensures LeadingSpaces(x) == |x|
  {
    LeadingSpacesAfterSpace(x, "");
    assert x + "" == x;
  }

  /** Text after the first non-space character does not affect the count. */
  lemma LeadingSpacesExtend(x: string, y: string)
    requires LeadingSpaces(x) < |x|
    ensures LeadingSpaces(x + y) == LeadingSpaces(x)
  {
    var lead := LeadingSpaces(x);
    assert x + y == x[..lead] + (x[lead..] + y);
    LeadingSpacesAfterSpace(x[..lead], x[lead..] + y);
    assert (x[lead..] + y)[0] == x[lead];
  }

  lemma DropMiddle<T>(pre: seq<T>, s: seq<T>, post: seq<T>, n: nat, k: nat)
    requires k <= |s| && n == |pre| + k
    ensures (pre + s + post)[n..] == s[k..] + post
  {
  }

  lemma LeadingSpacesPadded(pre: string, s: string, post: string)
    requires AllSpace(pre) && LeadingSpaces(s) < |s|
    ensures LeadingSpaces(pre + s + post) == |pre| + LeadingSpaces(s)
  {
    assert pre + s + post == pre + (s + post);
    LeadingSpacesAfterSpace(pre, s + post);
    LeadingSpacesExtend(s, post);
  }

  lemma StripLeftPadded(pre: string, s: string, post: string)
    requires AllSpace(pre) && LeadingSpaces(s) < |s|
    ensures StripLeft(pre + s + post) == StripLeft(s) + post
  {
    LeadingSpacesPadded(pre, s, post);
    DropMiddle(pre, s, post, LeadingSpaces(pre + s + post), LeadingSpaces(s));
  }

  lemma StripLeftBlank(pre: string, s: string, post: string)
    requires AllSpace(pre) && AllSpace(post) && LeadingSpaces(s) == |s|
    ensures StripLeft(pre + s + post) == ""
  {
    var whole := pre + s + post;
    assert AllSpace(s) by { assert s[..|s|] == s; }
    assert AllSpace(whole) by {
      forall i | 0 <= i < |whole| ensures IsSpace(whole[i]) {
        if i < |pre| {
          assert whole[i] == pre[i];
        } else if i < |pre| + |s| {
          assert whole[i] == s[i - |pre|];
        } else {
          assert whole[i] == post[i - |pre| - |s|];
        }
      }
    }
    LeadingSpacesOfAllSpace(whole);
  }

  /** Surrounding whitespace never changes the stripped value. */
  lemma StripBothPadded(pre: string, s: string, post: string)
    requires AllSpace(pre) && AllSpace(post)
    ensures StripRight(StripLeft(pre + s + post)) == StripRight(StripLeft(s))
  {
    if LeadingSpaces(s) < |s| {
      StripLeftPadded(pre, s, post);
      TrailingSpacesBeforeSpace(StripLeft(s), post);
    } else {
      StripLeftBlank(pre, s, post);
      assert StripLeft(s) == "";
    }
  }

  lemma StripIgnoresPadding(pre: string, s: string, post: string)
    requires AllSpace(pre) && AllSpace(post)
    ensures Strip(pre + s + post) == Strip(s)
  {
    StripBothPadded(pre, s, post);
  }

  /** Age component: 0.5 when either age is absent, else one minus the age gap
      in hundreds of years. There is no clamp: a gap above 100 years gives a
      negative score. */
  function AgeScore(a1: Option<int>, a2: Option<int>): (r: real)
    ensures a1.None? || a2.None? ==> r == AbsentScore
    ensures a1.Some? && a2.Some? ==> (r == 1.0 <==> a1 == a2)
    ensures a1.Some? && a2.Some? ==> (0.0 <= r <==> Abs(a1.value - a2.value) <= 100)
    ensures r <= 1.0
  {
    if a1.None? || a2.None? then AbsentScore
    else 1.0 - (Abs(a1.value - a2.value) as real) / 100.0
  }

  /** Between two known age pairs, the closer pair never scores lower, and
      a strictly closer pair scores strictly higher. */
  lemma AgeScoreAntitone(x1: int, x2: int, y1: int, y2: int)
    ensures Abs(x1 - x2) <= Abs(y1 - y2) <==> AgeScore(Some(x1), Some(x2)) >= AgeScore(Some(y1), Some(y2))
  {
  }

  /** Sex or descent component: 0.5 when either side is absent, else 1 when
      the stripped values are equal and 0 when they differ. */
  function TextScore(x1: Option<string>, x2: Option<string>): (r: real)
    ensures x1.None? || x2.None? ==> r == AbsentScore
    ensures x1.Some? && x2.Some? ==> (r == 1.0 <==> Strip(x1.value) == Strip(x2.value))
    ensures x1.Some? && x2.Some? ==> (r == 0.0 <==> Strip(x1.value) != Strip(x2.value))
    ensures r in {0.0, AbsentScore, 1.0}
  {
    if x1.None? || x2.None? then AbsentScore
    else if Strip(x1.value) == Strip(x2.value) then 1.0
    else 0.0
  }

  /** Both profiles agree on every attribute: ages present and equal, sex and
      descent present and equal after stripping. */
  predicate FullMatch(v1: Profile, v2: Profile) {
    && v1.age.Some? && v1.age == v2.age
    && v1.sex.Some? && v2.sex.Some? && Strip(v1.sex.value) == Strip(v2.sex.value)
    && v1.descent.Some? && v2.descent.Some? && Strip(v1.descent.value) == Strip(v2.descent.value)
  }

  /** The age gap is within the range the age formula was built for (or an
      age is absent). */
  predicate AgeGapWithinCentury(v1: Profile, v2: Profile) {
    v1.age.None? || v2.age.None? || Abs(v1.age.value - v2.age.value) <= 100
  }

  /** The victim-profile score as written: 0.40 age + 0.30 sex + 0.30 descent. */
  function CompareVictims(v1: Profile, v2: Profile): (r: real)
    ensures r <= 1.0
    ensures r == 1.0 <==> FullMatch(v1, v2)
    ensures AgeGapWithinCentury(v1, v2) ==> 0.0 <= r
  {
    AgeWeight * AgeScore(v1.age, v2.age)
    + SexWeight * TextScore(v1.sex, v2.sex)
    + DescentWeight * TextScore(v1.descent, v2.descent)
  }

  lemma CompareVictimsSymmetric(v1: Profile, v2: Profile)
    ensures CompareVictims(v1, v2) == CompareVictims(v2, v1)
  {
  }

  /** Two fully unknown victims score the neutral 0.5. */
  lemma CompareVictimsUnknown()
    ensures CompareVictims(Profile(None, None, None), Profile(None, None, None)) == AbsentScore
  {
  }

  /** An age gap of 199 years gives a negative victim score, here with sex
      and descent unknown. */
  lemma CompareVictimsNegative()
    ensures CompareVictims(Profile(Some(1), None, None), Profile(Some(200), None, None)) < 0.0
  {
  }

  /** Age component with the clamp evidently intended: one minus the gap in
      hundreds of years, never below 0. */
  function AgeScoreClamped(a1: Option<int>, a2: Option<int>): (r: real)
    ensures 0.0 <= r <= 1.0
    ensures a1.None? || a2.None? || Abs(a1.value - a2.value) <= 100 ==> r == AgeScore(a1, a2)
    ensures a1.Some? && a2.Some? && Abs(a1.value - a2.value) > 100 ==> r == 0.0
  {
    if a1.None? || a2.None? then AbsentScore
    else
      var gap := (Abs(a1.value - a2.value) as real) / 100.0;
      1.0 - (if gap < 1.0 then gap else 1.0)
  }

  /** The victim-profile score with the clamped age component: always in [0,1],
      and equal to the as-written score whenever the age gap is at most 100. */
  function CompareVictimsClamped(v1: Profile, v2: Profile): (r: real)
    ensures 0.0 <= r <= 1.0
    ensures AgeGapWithinCentury(v1, v2) ==> r == CompareVictims(v1, v2)
    ensures r == 1.0 <==> FullMatch(v1, v2)
  {
    AgeWeight * AgeScoreClamped(v1.age, v2.age)
    + SexWeight * TextScore(v1.sex, v2.sex)
    + DescentWeight * TextScore(v1.descent, v2.descent)
  }

  lemma CompareVictimsClampedSymmetric(v1: Profile, v2: Profile)
    ensures CompareVictimsClamped(v1, v2) == CompareVictimsClamped(v2, v1)
  {
  }
}
