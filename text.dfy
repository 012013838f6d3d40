/**
 * The string primitives the JavaScript code relies on: `String.prototype.indexOf`
 * with a start position, and global single-character `replace` (`s.replace(/[..]/g, r)`).
 */
module Text {

  /** The pattern `pat` occurs in `s` starting at index `k`. */
  predicate OccursAt(s: string, pat: string, k: int)
  {
    0 <= k && k + |pat| <= |s| && s[k..k + |pat|] == pat
  }

  /** `s.indexOf(pat, from)`: the first occurrence of `pat` at or after `from`, or -1. */
  function IndexOf(s: string, pat: string, from: nat): (r: int)
    requires pat != ""
    ensures r == -1 || (from <= r && OccursAt(s, pat, r))
    decreases |s| - from
  {
    if |s| < from + |pat| then -1
    else if s[from..from + |pat|] == pat then from
    else IndexOf(s, pat, from + 1)
  }

  /** `indexOf` finds the first occurrence: none lies between `from` and the result (or after `from`, when it is -1). */
  lemma {:induction false} IndexOfFirst(s: string, pat: string, from: nat)
    requires pat != ""
    ensures var r := IndexOf(s, pat, from);
            forall k :: from <= k && (r == -1 || k < r) ==> !OccursAt(s, pat, k)
    decreases |s| - from
  {
    if |s| >= from + |pat| && s[from..from + |pat|] != pat {
      IndexOfFirst(s, pat, from + 1);
    }
  }

  /** `s.replace(/[cs]/g, r)`: every character of `s` that is in `cs` becomes `r`. */
  function ReplaceAll(s: string, cs: set<char>, r: string): string
  {
    if s == [] then []
    else (if s[0] in cs then r else [s[0]]) + ReplaceAll(s[1..], cs, r)
  }

  /** Every character of the result comes from the replacement or is a character of `s` outside `cs`. */
  lemma {:induction false} ReplaceAllChars(s: string, cs: set<char>, r: string)
    ensures forall c :: c in ReplaceAll(s, cs, r) ==> c in r || (c in s && c !in cs)
  {
    if s != [] {
      ReplaceAllChars(s[1..], cs, r);
      assert forall c :: c in s[1..] ==> c in s;
    }
  }

  /** A string with no character from `cs` is left as it is. */
  lemma {:induction false} ReplaceAllNoop(s: string, cs: set<char>, r: string)
    requires forall i :: 0 <= i < |s| ==> s[i] !in cs
    ensures ReplaceAll(s, cs, r) == s
  {
    if s != [] {
      assert forall i :: 0 <= i < |s| - 1 ==> s[1..][i] == s[i + 1];
      ReplaceAllNoop(s[1..], cs, r);
    }
  }

  /** The first occurrence at or after `from` is at `r`. */
  lemma IndexOfIs(s: string, pat: string, from: nat, r: int)
    requires pat != "" && from <= r && OccursAt(s, pat, r)
    requires forall k :: from <= k < r ==> !OccursAt(s, pat, k)
    ensures IndexOf(s, pat, from) == r
  {
    IndexOfFirst(s, pat, from);
  }

  /** No occurrence at or after `from`. */
  lemma IndexOfNone(s: string, pat: string, from: nat)
    requires pat != ""
    requires forall k :: from <= k ==> !OccursAt(s, pat, k)
    ensures IndexOf(s, pat, from) == -1
  {
    IndexOfFirst(s, pat, from);
  }

  /** A global replace distributes over concatenation. */
  lemma {:induction false} ReplaceAllConcat(a: string, b: string, cs: set<char>, r: string)
    ensures ReplaceAll(a + b, cs, r) == ReplaceAll(a, cs, r) + ReplaceAll(b, cs, r)
  {
    if a != [] {
      assert (a + b)[1..] == a[1..] + b;
      ReplaceAllConcat(a[1..], b, cs, r);
    } else {
      assert a + b == b;
    }
  }

  /** Replacing in a one-character string. */
  lemma ReplaceAllSingle(c: char, cs: set<char>, r: string)
    ensures ReplaceAll([c], cs, r) == (if c in cs then r else [c])
  {
    assert [c][1..] == [];
  }

  /** `s` contains `pat` somewhere. */
  ghost predicate Contains(s: string, pat: string)
  {
    exists j :: OccursAt(s, pat, j)
  }

  /** Two adjacent occurrences make an occurrence of the concatenation. */
  lemma OccursAtConcat(s: string, x: string, y: string, i: int)
    requires OccursAt(s, x, i) && OccursAt(s, y, i + |x|)
    ensures OccursAt(s, x + y, i)
  {
    assert s[i..i + |x + y|] == s[i..i + |x|] + s[i + |x|..i + |x| + |y|];
  }

  /** Inside a window of `s`, occurrences are those of the window, shifted. */
  lemma OccursAtWithin(s: string, lo: int, hi: int, pat: string, j: int)
    requires 0 <= lo <= hi <= |s| && 0 <= j && j + |pat| <= hi - lo
    ensures OccursAt(s, pat, lo + j) <==> OccursAt(s[lo..hi], pat, j)
  {
    var t := s[lo..hi];
    assert forall k :: j <= k < j + |pat| ==> t[k] == s[lo + k];
    assert t[j..j + |pat|] == s[lo + j..lo + j + |pat|];
  }

  /** The middle operand of a three-way concatenation, sliced back out. */
  lemma SliceMiddle(a: string, b: string, c: string)
    ensures (a + b + c)[|a|..|a| + |b|] == b
    ensures (a + b + c)[|a| + |b|..] == c
  {
  }

  /** An occurrence of `x` at `i` and of `y` at `e` make one of `x`, the text between them, and `y`. */
  lemma OccursAtAround(w: string, x: string, y: string, i: int, e: int)
    requires 0 <= i && i + |x| <= e
    requires OccursAt(w, x, i) && OccursAt(w, y, e)
    ensures OccursAt(w, x + (w[i + |x|..e] + y), i)
  {
    var mid := w[i + |x|..e];
    assert OccursAt(w, mid, i + |x|);
    OccursAtConcat(w, mid, y, i + |x|);
    OccursAtConcat(w, x, mid + y, i);
  }
}
