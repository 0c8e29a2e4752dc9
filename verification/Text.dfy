/** Substring search, as Rust's `contains`, `rfind` and `rsplit_once` do it. */
module Text {
  import opened Wrappers

  predicate OccursAt(s: string, pattern: string, i: nat) {
    i + |pattern| <= |s| && s[i..i + |pattern|] == pattern
  }

  predicate Contains(s: string, pattern: string) {
    exists i | 0 <= i <= |s| :: OccursAt(s, pattern, i)
  }

  predicate EndsWith(s: string, suffix: string) {
    |suffix| <= |s| && s[|s| - |suffix|..] == suffix
  }

  /** Where the pattern last starts. */
  function LastIndexOf(s: string, pattern: string): (r: Option<nat>)
    ensures r.Some? ==> OccursAt(s, pattern, r.value) && forall j: nat | OccursAt(s, pattern, j) :: j <= r.value
    ensures r.None? <==> !Contains(s, pattern)
  {
    LastUpTo(s, pattern, |s|)
  }

  /** Where the pattern last starts, at `i` or before. */
  function LastUpTo(s: string, pattern: string, i: nat): (r: Option<nat>)
    ensures r.Some? ==> r.value <= i && OccursAt(s, pattern, r.value) && forall j: nat | r.value < j <= i :: !OccursAt(s, pattern, j)
    ensures r.None? ==> forall j: nat | j <= i :: !OccursAt(s, pattern, j)
  {
    if OccursAt(s, pattern, i) then Some(i)
    else if i == 0 then None
    else LastUpTo(s, pattern, i - 1)
  }

  /** The last occurrence is the only position that is one with none after it. */
  lemma LastIndexIs(s: string, pattern: string, i: nat)
    requires OccursAt(s, pattern, i) && forall j: nat | OccursAt(s, pattern, j) :: j <= i
    ensures LastIndexOf(s, pattern) == Some(i)
  {
  }

  lemma OccursInPrefix(a: string, b: string, pattern: string, i: nat)
    requires i + |pattern| <= |a|
    ensures OccursAt(a + b, pattern, i) <==> OccursAt(a, pattern, i)
  {
    assert (a + b)[i..i + |pattern|] == a[i..i + |pattern|];
  }

  lemma OccursInSuffix(a: string, b: string, pattern: string, i: nat)
    requires |a| <= i
    ensures OccursAt(a + b, pattern, i) <==> OccursAt(b, pattern, i - |a|)
  {
    if i + |pattern| <= |a + b| {
      assert (a + b)[i..i + |pattern|] == b[i - |a|..i - |a| + |pattern|];
    }
  }

  lemma CharOfOccurrence(s: string, pattern: string, i: nat, k: nat)
    requires OccursAt(s, pattern, i) && i <= k < i + |pattern|
    ensures s[k] == pattern[k - i]
  {
    assert s[i..i + |pattern|][k - i] == s[k];
  }

  /** A string without some character of the pattern, or with another one in its place, has no occurrence. */
  lemma NoOccurrence(s: string, pattern: string, i: nat, k: nat)
    requires k < |pattern|
    requires pattern[k] !in s || (i + k < |s| && s[i + k] != pattern[k])
    ensures !OccursAt(s, pattern, i)
  {
    if OccursAt(s, pattern, i) {
      CharOfOccurrence(s, pattern, i, i + k);
    }
  }

  /** What is in the suffix is found there, whatever is in front of it. */
  lemma LastIndexInSuffix(a: string, b: string, pattern: string)
    requires Contains(b, pattern)
    ensures LastIndexOf(a + b, pattern) == Some(|a| + LastIndexOf(b, pattern).value)
  {
    var i := |a| + LastIndexOf(b, pattern).value;
    OccursInSuffix(a, b, pattern, i);
    forall j: nat | OccursAt(a + b, pattern, j)
      ensures j <= i
    {
      if i < j {
        OccursInSuffix(a, b, pattern, j);
      }
    }
    LastIndexIs(a + b, pattern, i);
  }

  const SEPARATOR := ": "

  /** Across the separator only a pattern with a colon, or one that starts with the space, can occur. */
  lemma NoneAcrossSeparator(m: string, c: string, pattern: string, i: nat)
    requires ':' !in pattern && |pattern| > 0 && pattern[0] != ' '
    requires OccursAt(m + SEPARATOR + c, pattern, i)
    ensures i + |pattern| <= |m| || |m| + 2 <= i
  {
    var s := m + SEPARATOR + c;
    assert s[|m|] == ':' && s[|m| + 1] == ' ';
    if i <= |m| < i + |pattern| {
      CharOfOccurrence(s, pattern, i, |m|);
    } else if i == |m| + 1 {
      CharOfOccurrence(s, pattern, i, i);
    }
  }

  /** A pattern that cannot lie across the separator is last found in the second part, or else in the first. */
  lemma LastIndexInJoin(m: string, c: string, pattern: string)
    requires ':' !in pattern && |pattern| > 0 && pattern[0] != ' '
    ensures LastIndexOf(m + SEPARATOR + c, pattern) ==
              if Contains(c, pattern) then Some(|m| + 2 + LastIndexOf(c, pattern).value) else LastIndexOf(m, pattern)
    ensures Contains(m + SEPARATOR + c, pattern) <==> Contains(m, pattern) || Contains(c, pattern)
  {
    var s := m + SEPARATOR + c;
    if Contains(c, pattern) {
      LastIndexInSuffix(m + SEPARATOR, c, pattern);
    } else {
      forall j: nat | OccursAt(s, pattern, j)
        ensures j + |pattern| <= |m| && OccursAt(m, pattern, j)
      {
        NoneAcrossSeparator(m, c, pattern, j);
        if |m| + 2 <= j {
          OccursInSuffix(m + SEPARATOR, c, pattern, j);
        } else {
          assert s == m + (SEPARATOR + c);
          OccursInPrefix(m, SEPARATOR + c, pattern, j);
        }
      }
      if Contains(m, pattern) {
        var i := LastIndexOf(m, pattern).value;
        assert s == m + (SEPARATOR + c);
        OccursInPrefix(m, SEPARATOR + c, pattern, i);
        LastIndexIs(s, pattern, i);
      }
    }
  }
}
