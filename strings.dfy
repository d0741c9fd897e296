/**
 * The two JavaScript string operations the guess check relies on:
 * `String.prototype.toLowerCase` (over ASCII letters) and
 * `String.prototype.trim` (over the characters ECMAScript counts as
 * WhiteSpace or LineTerminator).
 */
module Strings {

  /** ECMAScript WhiteSpace and LineTerminator code points, which `trim` removes. */
  predicate IsSpace(c: char) {
    var n := c as int;
    n == 0x09 || n == 0x0A || n == 0x0B || n == 0x0C || n == 0x0D || n == 0x20
    || n == 0xA0 || n == 0x1680 || (0x2000 <= n <= 0x200A) || n == 0x2028
    || n == 0x2029 || n == 0x202F || n == 0x205F || n == 0x3000 || n == 0xFEFF
  }

  predicate IsUpper(c: char) {
    'A' <= c <= 'Z'
  }

  predicate AllSpace(s: string) {
    forall i :: 0 <= i < |s| ==> IsSpace(s[i])
  }

  /** Every character of `s` from index `lo` up to (not including) `hi` is white space. */
  predicate SpaceBetween(s: string, lo: nat, hi: nat)
    requires lo <= hi <= |s|
  {
    forall i :: lo <= i < hi ==> IsSpace(s[i])
  }

  /** `s` is what `trim` returns for some input: empty, or neither end is white space. */
  predicate NoOuterSpace(s: string) {
    s == [] || (!IsSpace(s[0]) && !IsSpace(s[|s| - 1]))
  }

  /** Lower-cases an ASCII letter; `A`..`Z` map to `a`..`z`, every other character is kept. */
  function LowerChar(c: char): (r: char)
    ensures !IsUpper(r)
    ensures !IsUpper(c) ==> r == c
  {
    if IsUpper(c) then (c as int + 32) as char else c
  }

  /** Lower-casing never turns white space into something else or back. */
  lemma LowerCharKeepsSpace(c: char)
    ensures IsSpace(LowerChar(c)) == IsSpace(c)
  {
  }

  /** `toLowerCase`: every upper-case letter becomes lower case, everything else stays. */
  function Lower(s: string): (r: string)
    ensures |r| == |s|
    ensures forall i :: 0 <= i < |s| ==> !IsUpper(r[i]) && LowerChar(s[i]) == r[i]
  {
    seq(|s|, i requires 0 <= i < |s| => LowerChar(s[i]))
  }

  /** Number of white-space characters at the front of `s`. */
  function LeadingSpaces(s: string): (k: nat)
    ensures k <= |s|
    ensures SpaceBetween(s, 0, k)
    ensures k < |s| ==> !IsSpace(s[k])
  {
    if |s| > 0 && IsSpace(s[0]) then
      var k := LeadingSpaces(s[1..]);
      assert forall i :: 1 <= i < k + 1 ==> s[i] == s[1..][i - 1];
      1 + k
    else
      0
  }

  /** Number of white-space characters at the back of `s`. */
  function TrailingSpaces(s: string): (k: nat)
    ensures k <= |s|
    ensures SpaceBetween(s, |s| - k, |s|)
    ensures k < |s| ==> !IsSpace(s[|s| - 1 - k])
  {
    if |s| > 0 && IsSpace(s[|s| - 1]) then
      var k := TrailingSpaces(s[..|s| - 1]);
      assert forall i :: 0 <= i < |s| - 1 ==> s[i] == s[..|s| - 1][i];
      1 + k
    else
      0
  }

  /**
   * `trim`: the middle part of `s` left once the white space at both ends is
   * removed. `s` is that white space, then `r`, then more white space.
   */
  function Trim(s: string): (r: string)
    ensures NoOuterSpace(r)
    ensures LeadingSpaces(s) + |r| <= |s|
    ensures r == s[LeadingSpaces(s)..LeadingSpaces(s) + |r|]
    ensures SpaceBetween(s, LeadingSpaces(s) + |r|, |s|)
  {
    var lo := LeadingSpaces(s);
    if lo == |s| then []
    else
      var hi := |s| - TrailingSpaces(s);
      assert lo < hi;
      s[lo..hi]
  }

  lemma LowerOfAllSpace(s: string)
    requires AllSpace(s)
    ensures Lower(s) == s
  {
  }

  lemma LowerAppend(a: string, b: string)
    ensures Lower(a + b) == Lower(a) + Lower(b)
  {
  }

  lemma LowerKeepsOuterSpace(s: string)
    ensures NoOuterSpace(Lower(s)) <==> NoOuterSpace(s)
  {
    if s != [] {
      LowerCharKeepsSpace(s[0]);
      LowerCharKeepsSpace(s[|s| - 1]);
    }
  }

  /** The characterisation of `trim`: it strips exactly the white-space padding. */
  lemma TrimOfPadded(p: string, t: string, q: string)
    requires AllSpace(p) && AllSpace(q) && NoOuterSpace(t)
    ensures Trim(p + t + q) == t
  {
    var s := p + t + q;
    if t == [] {
      assert s == p + q;
      assert LeadingSpaces(s) == |s|;
    } else {
      assert s[|p|] == t[0];
      assert LeadingSpaces(s) == |p|;
      assert s[|p| + |t| - 1] == t[|t| - 1];
      assert TrailingSpaces(s) == |q|;
      assert s[|p|..|p| + |t|] == t;
    }
  }

  lemma TrimIdempotent(s: string)
    ensures Trim(Trim(s)) == Trim(s)
  {
    var t := Trim(s);
    assert [] + t + [] == t;
    TrimOfPadded([], t, []);
  }

  /** Lower-casing and trimming commute, so `toLowerCase().trim()` equals `trim().toLowerCase()`. */
  lemma LowerTrimCommute(s: string)
    ensures Trim(Lower(s)) == Lower(Trim(s))
  {
    var lo := LeadingSpaces(s);
    var t := Trim(s);
    var p, q := s[..lo], s[lo + |t|..];
    assert s == p + t + q;
    assert AllSpace(p) && AllSpace(q);
    LowerAppend(p + t, q);
    LowerAppend(p, t);
    LowerOfAllSpace(p);
    LowerOfAllSpace(q);
    LowerKeepsOuterSpace(t);
    TrimOfPadded(p, Lower(t), q);
  }
}
