/**
 * The three java.lang.String operations the to-do store relies on:
 * `trim`, `toLowerCase` (as ASCII case folding) and `contains`.
 */
module JavaText {

  /** `String.trim` strips every character whose code is at most U+0020. */
  predicate IsTrimmable(c: char) {
    c <= ' '
  }

  predicate AllTrimmable(s: string) {
    forall i :: 0 <= i < |s| ==> IsTrimmable(s[i])
  }

  /** `s` starts and ends with a character `trim` keeps (or is empty). */
  predicate IsTrimmed(s: string) {
    s == [] || (!IsTrimmable(s[0]) && !IsTrimmable(s[|s| - 1]))
  }

  /** The first loop of `String.trim`: from `i`, skip trimmable characters; the index of the first kept one. */
  function FirstKept(s: string, i: nat): (st: nat)
    requires i <= |s|
    ensures i <= st <= |s|
    ensures forall j :: i <= j < st ==> IsTrimmable(s[j])
    ensures st < |s| ==> !IsTrimmable(s[st])
    decreases |s| - i
  {
    if i < |s| && IsTrimmable(s[i]) then FirstKept(s, i + 1) else i
  }

  /** The second loop of `String.trim`: from `len`, drop trimmable characters back to `st`; the new end. */
  function LastKept(s: string, st: nat, len: nat): (end: nat)
    requires st <= len <= |s|
    ensures st <= end <= len
    ensures forall j :: end <= j < len ==> IsTrimmable(s[j])
    ensures end > st ==> !IsTrimmable(s[end - 1])
  {
    if st < len && IsTrimmable(s[len - 1]) then LastKept(s, st, len - 1) else len
  }

  /** Every character of `s` outside positions `lo` to `hi` (exclusive) is trimmable. */
  predicate TrimmableOutside(s: string, lo: int, hi: int) {
    forall i :: 0 <= i < |s| && !(lo <= i < hi) ==> IsTrimmable(s[i])
  }

  /**
   * `String.trim`: the slice of `s` left after removing the trimmable prefix
   * and suffix; what is removed is trimmable and what is left is trimmed.
   */
  function Trim(s: string): (r: string)
    ensures IsTrimmed(r)
    ensures var st := FirstKept(s, 0);
      st + |r| <= |s| && r == s[st..st + |r|] && TrimmableOutside(s, st, st + |r|)
  {
    var st := FirstKept(s, 0);
    s[st..LastKept(s, st, |s|)]
  }

  /**
   * `Trim` is determined by its contract: whenever `s` splits into a
   * trimmable prefix, a trimmed core and a trimmable suffix, the core is
   * what `Trim` returns.
   */
  lemma TrimUnique(pre: string, core: string, post: string)
    requires AllTrimmable(pre) && AllTrimmable(post) && IsTrimmed(core)
    ensures Trim(pre + core + post) == core
  {
    var s := pre + core + post;
    var r := Trim(s);
    var k := FirstKept(s, 0);
    var lo, hi := |pre|, |pre| + |core|;
    assert TrimmableOutside(s, lo, hi) by {
      forall i | 0 <= i < |s| && !(lo <= i < hi) ensures IsTrimmable(s[i]) {
        if i < lo { assert s[i] == pre[i]; } else { assert s[i] == post[i - hi]; }
      }
    }
    if core != [] {
      assert s[lo] == core[0] && s[hi - 1] == core[|core| - 1];
      assert k <= lo < hi <= k + |r|;
      assert s[k] == r[0] && s[k + |r| - 1] == r[|r| - 1];
      assert k == lo && k + |r| == hi;
      assert r == core;
    }
  }

  /** Trimming twice is trimming once. */
  lemma TrimIdempotent(s: string)
    ensures Trim(Trim(s)) == Trim(s)
  {
    var r := Trim(s);
    assert r == [] + r + [];
    TrimUnique([], r, []);
  }

  /** A text trims to the empty string exactly when it is blank. */
  lemma TrimEmptyIff(s: string)
    ensures Trim(s) == [] <==> AllTrimmable(s)
  {
    var k := FirstKept(s, 0);
    if Trim(s) != [] {
      assert s[k] == Trim(s)[0];
    }
  }

  predicate IsAsciiUpper(c: char) {
    'A' <= c <= 'Z'
  }

  /** `Character.toLowerCase` restricted to ASCII. */
  function LowerChar(c: char): (r: char)
    ensures !IsAsciiUpper(r)
    ensures IsAsciiUpper(c) ==> r as int == c as int + 32
    ensures !IsAsciiUpper(c) ==> r == c
  {
    if IsAsciiUpper(c) then (c as int + 32) as char else c
  }

  /** `String.toLowerCase`, folding ASCII letters only, character by character. */
  function ToLower(s: string): (r: string)
    ensures |r| == |s|
    ensures forall i :: 0 <= i < |s| ==> r[i] == LowerChar(s[i])
  {
    if s == [] then [] else [LowerChar(s[0])] + ToLower(s[1..])
  }

  /** `p` occurs in `s` starting at position `k`. */
  predicate OccursAt(s: string, p: string, k: int) {
    0 <= k && k + |p| <= |s| && s[k..k + |p|] == p
  }

  predicate IsPrefix(p: string, s: string) {
    |p| <= |s| && s[..|p|] == p
  }

  /** `String.contains`: `p` is a prefix of some suffix of `s`. */
  function Contains(s: string, p: string): (b: bool)
    ensures IsPrefix(p, s) ==> b
    ensures b ==> |p| <= |s|
    decreases |s|
  {
    IsPrefix(p, s) || (s != [] && Contains(s[1..], p))
  }

  /** `Contains` holds exactly when `p` occurs somewhere in `s`. */
  lemma {:induction false} ContainsIff(s: string, p: string)
    ensures Contains(s, p) <==> exists k :: OccursAt(s, p, k)
    decreases |s|
  {
    if IsPrefix(p, s) {
      assert OccursAt(s, p, 0);
    }
    if s != [] {
      ContainsIff(s[1..], p);
      if Contains(s[1..], p) {
        var k :| OccursAt(s[1..], p, k);
        assert s[k + 1..k + 1 + |p|] == s[1..][k..k + |p|];
        assert OccursAt(s, p, k + 1);
      }
      if !IsPrefix(p, s) && exists k :: OccursAt(s, p, k) {
        var k :| OccursAt(s, p, k);
        assert k != 0;
        assert s[1..][k - 1..k - 1 + |p|] == s[k..k + |p|];
        assert OccursAt(s[1..], p, k - 1);
      }
    } else if exists k :: OccursAt(s, p, k) {
      var k :| OccursAt(s, p, k);
      assert k == 0 && |p| == 0;
      assert IsPrefix(p, s);
    }
  }

  /** Every text contains the empty text. */
  lemma ContainsEmpty(s: string)
    ensures Contains(s, [])
  {
    assert IsPrefix([], s);
  }
}
