/** Ordinal string search as used by the launcher: `IndexOf`, `Contains` and `Replace(pat, "")`. */
module Text {

  /** `pat` occurs in `s` starting at position `i`. */
  predicate OccursAt(s: string, pat: string, i: int)
  {
    0 <= i && i + |pat| <= |s| && s[i..i + |pat|] == pat
  }

  /** `i` is the first position of `s` at which `pat` occurs. */
  predicate FirstAt(s: string, pat: string, i: int)
  {
    OccursAt(s, pat, i) && forall j :: 0 <= j < i ==> !OccursAt(s, pat, j)
  }

  /** Ordinal `s.IndexOf(pat, from)`: the first occurrence at or after `from`, or -1. */
  function IndexOf(s: string, pat: string, from: nat): (r: int)
    requires from <= |s|
    ensures r == -1 || (from <= r && OccursAt(s, pat, r))
    ensures r == -1 <==> forall i :: from <= i ==> !OccursAt(s, pat, i)
    ensures r != -1 ==> forall i :: from <= i < r ==> !OccursAt(s, pat, i)
    decreases |s| - from
  {
    if OccursAt(s, pat, from) then from
    else if from == |s| then -1
    else IndexOf(s, pat, from + 1)
  }

  /** Ordinal `s.Contains(pat)`. */
  function Contains(s: string, pat: string): (b: bool)
    ensures b <==> exists i :: OccursAt(s, pat, i)
  {
    IndexOf(s, pat, 0) != -1
  }

  /** An occurrence inside a prefix `t` of `t + rest` is an occurrence in `t`, and back. */
  lemma OccursInPrefix(t: string, rest: string, pat: string, j: int)
    requires j + |pat| <= |t|
    ensures OccursAt(t + rest, pat, j) <==> OccursAt(t, pat, j)
  {
    if 0 <= j {
      assert (t + rest)[j..j + |pat|] == t[j..j + |pat|];
    }
  }

  /** Occurrences in `s[1..]` are the occurrences in `s` shifted by one. */
  lemma OccursInTail(s: string, pat: string, i: nat)
    requires |s| > 0
    ensures OccursAt(s[1..], pat, i) <==> OccursAt(s, pat, i + 1)
  {
    if i + 1 + |pat| <= |s| {
      assert s[1..][i..i + |pat|] == s[i + 1..i + 1 + |pat|];
    }
  }

  /** Ordinal `s.Replace(pat, "")`: every non-overlapping occurrence of `pat`, found left
      to right, is removed. */
  function Remove(s: string, pat: string): (r: string)
    requires pat != []
    ensures |r| <= |s|
    ensures Contains(s, pat) ==> |r| < |s|
    ensures !Contains(s, pat) ==> r == s
    decreases |s|
  {
    if |s| < |pat| then
      s
    else if s[..|pat|] == pat then
      assert OccursAt(s, pat, 0);
      Remove(s[|pat|..], pat)
    else
      var rest := Remove(s[1..], pat);
      assert Contains(s, pat) ==> Contains(s[1..], pat) by {
        if Contains(s, pat) {
          var i :| OccursAt(s, pat, i);
          assert i != 0;
          OccursInTail(s, pat, i - 1);
        }
      }
      assert !Contains(s, pat) ==> !Contains(s[1..], pat) by {
        if Contains(s[1..], pat) {
          var i :| OccursAt(s[1..], pat, i);
          OccursInTail(s, pat, i);
        }
      }
      [s[0]] + rest
  }

  /** `Replace` works left to right: when the first occurrence of `pat` in `p + pat + rest`
      is the one after `p`, the result is `p` followed by the replacement of `rest`. With
      `!Contains(s, pat) ==> Remove(s, pat) == s` this determines `Remove` on every input. */
  lemma {:induction false} RemoveFirst(p: string, pat: string, rest: string)
    requires pat != []
    requires FirstAt(p + pat, pat, |p|)
    ensures Remove(p + pat + rest, pat) == p + Remove(rest, pat)
    decreases |p|
  {
    if p == [] {
      assert p + pat + rest == pat + rest;
      RemoveLeading(pat, rest);
    } else {
      ShiftFirst(p, pat, rest);
      RemoveSkips(p + pat + rest, pat);
      RemoveFirst(p[1..], pat, rest);
      ConsSplit(p, Remove(rest, pat));
    }
  }

  /** A leading occurrence is removed and the replacement goes on after it. */
  lemma RemoveLeading(pat: string, rest: string)
    requires pat != []
    ensures Remove(pat + rest, pat) == Remove(rest, pat)
  {
    var s := pat + rest;
    assert s[..|pat|] == pat;
    assert s[|pat|..] == rest;
  }

  /** Before the first occurrence, the first character starts no occurrence, and dropping it
      moves the first occurrence one place to the left. */
  lemma ShiftFirst(p: string, pat: string, rest: string)
    requires p != [] && FirstAt(p + pat, pat, |p|)
    ensures |pat| <= |p + pat + rest| && !OccursAt(p + pat + rest, pat, 0)
    ensures (p + pat + rest)[0] == p[0] && (p + pat + rest)[1..] == p[1..] + pat + rest
    ensures FirstAt(p[1..] + pat, pat, |p| - 1)
  {
    TailKeepsFirst(p, pat);
    OccursInPrefix(p + pat, rest, pat, 0);
  }

  /** Putting the first character of `p` back in front of the rest of `p`. */
  lemma ConsSplit(p: string, t: string)
    requires p != []
    ensures [p[0]] + (p[1..] + t) == p + t
  {
    assert [p[0]] + p[1..] == p;
  }

  /** When the only occurrence of `pat` in `p + pat` is the trailing one, removing `pat`
      gives back `p`. */
  lemma RemoveTrailing(p: string, pat: string)
    requires pat != []
    requires FirstAt(p + pat, pat, |p|)
    ensures Remove(p + pat, pat) == p
  {
    RemoveFirst(p, pat, []);
    assert p + pat + [] == p + pat;
    assert p + [] == p;
  }

  /** Dropping the first character of `p` keeps the trailing `pat` the first occurrence. */
  lemma TailKeepsFirst(p: string, pat: string)
    requires p != [] && FirstAt(p + pat, pat, |p|)
    ensures !OccursAt(p + pat, pat, 0)
    ensures (p + pat)[1..] == p[1..] + pat
    ensures FirstAt(p[1..] + pat, pat, |p| - 1)
  {
    var s := p + pat;
    assert s[1..] == p[1..] + pat;
    forall j | 0 <= j < |p| - 1
      ensures !OccursAt(p[1..] + pat, pat, j)
    {
      OccursInTail(s, pat, j);
    }
    OccursInTail(s, pat, |p| - 1);
  }

  /** Where `pat` does not occur at the start, `Replace` keeps the first character. */
  lemma RemoveSkips(s: string, pat: string)
    requires pat != [] && |pat| <= |s| && !OccursAt(s, pat, 0)
    ensures Remove(s, pat) == [s[0]] + Remove(s[1..], pat)
  {
  }

  /** A one-character pattern occurs at `j` exactly when `s[j]` is that character. */
  lemma CharOccursAt(s: string, c: char, j: int)
    ensures OccursAt(s, [c], j) <==> 0 <= j < |s| && s[j] == c
  {
    if 0 <= j < |s| {
      assert s[j..j + 1] == [s[j]];
    }
  }

  /** No occurrence of a character at or after `from` means the character is absent from `s[from..]`. */
  lemma CharAbsentAfter(s: string, c: char, from: nat)
    requires from <= |s|
    ensures (forall j :: from <= j ==> !OccursAt(s, [c], j)) <==> c !in s[from..]
  {
    if c in s[from..] {
      var k :| 0 <= k < |s[from..]| && s[from..][k] == c;
      CharOccursAt(s, c, from + k);
    } else {
      forall j | from <= j
        ensures !OccursAt(s, [c], j)
      {
        CharOccursAt(s, c, j);
        if j < |s| {
          assert s[j] == s[from..][j - from];
        }
      }
    }
  }

  /** A pattern has at most one first occurrence. */
  lemma FirstAtUnique(s: string, pat: string, i: int, j: int)
    requires FirstAt(s, pat, i) && FirstAt(s, pat, j)
    ensures i == j
  {
  }

  /** `IndexOf` finds the first occurrence at or after `from`. */
  lemma IndexOfIs(s: string, pat: string, from: nat, i: int)
    requires from <= |s| && from <= i && OccursAt(s, pat, i)
    requires forall j :: from <= j < i ==> !OccursAt(s, pat, j)
    ensures IndexOf(s, pat, from) == i
  {
  }

  /** An occurrence fixes each character it covers. */
  lemma OccursAtChar(s: string, pat: string, j: int, k: int)
    requires OccursAt(s, pat, j) && 0 <= k < |pat|
    ensures s[j + k] == pat[k]
  {
    assert s[j..j + |pat|][k] == s[j + k];
  }
}
