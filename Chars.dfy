/**
 * Character classes and the string helpers of the .NET base library that the
 * modelled code relies on (char.IsDigit, char.IsLetter, char.IsUpper,
 * char.IsLower, char.IsWhiteSpace, string.Trim, string.ToLower), restricted
 * to ASCII.
 */
module Chars {

  predicate IsDigit(c: char) { '0' <= c <= '9' }
  predicate IsUpper(c: char) { 'A' <= c <= 'Z' }
  predicate IsLower(c: char) { 'a' <= c <= 'z' }
  predicate IsLetter(c: char) { IsUpper(c) || IsLower(c) }
  predicate IsLetterOrDigit(c: char) { IsLetter(c) || IsDigit(c) }

  /** The characters char.IsWhiteSpace accepts. */
  const WhiteSpace: set<char> := {' ', '\t', '\n', '\r', '\U{B}', '\U{C}'}

  predicate IsWhiteSpace(c: char) {
    c in WhiteSpace
  }

  /** char.ToLower: upper-case letters map to their lower-case form, every other character to itself. */
  function ToLower(c: char): (r: char)
    ensures !IsUpper(r)
    ensures IsUpper(c) ==> IsLower(r)
    ensures !IsUpper(c) ==> r == c
  {
    if IsUpper(c) then (c as int - 'A' as int + 'a' as int) as char else c
  }

  /** string.ToLower, character by character. */
  function LowerAll(s: string): (r: string)
    ensures |r| == |s|
    ensures forall i :: 0 <= i < |s| ==> r[i] == ToLower(s[i])
  {
    if s == [] then [] else [ToLower(s[0])] + LowerAll(s[1..])
  }

  /** Where the first character not in `drop` sits (`|s|` when there is none). */
  function SkipStart(s: string, drop: set<char>): (k: nat)
    ensures k <= |s|
    ensures forall i :: 0 <= i < k ==> s[i] in drop
    ensures k < |s| ==> s[k] !in drop
  {
    if s == [] || s[0] !in drop then 0 else 1 + SkipStart(s[1..], drop)
  }

  /** Where the trailing run of characters in `drop` starts (0 when every character is in it). */
  function SkipEnd(s: string, drop: set<char>): (m: nat)
    ensures m <= |s|
    ensures forall i :: m <= i < |s| ==> s[i] in drop
    ensures 0 < m ==> s[m - 1] !in drop
  {
    if s == [] || s[|s| - 1] !in drop then |s| else SkipEnd(s[..|s| - 1], drop)
  }

  /**
   * string.Trim(chars): the characters in `drop` removed from both ends.
   * What is left is `s[SkipStart..SkipEnd]`, or nothing when every
   * character is in `drop`.
   */
  function Strip(s: string, drop: set<char>): (r: string)
    ensures |r| <= |s|
    ensures r != [] ==> r[0] !in drop && r[|r| - 1] !in drop
  {
    var k := SkipStart(s, drop);
    if k == |s| then [] else s[k..SkipEnd(s, drop)]
  }

  /** string.Trim(): white space removed from both ends. */
  function Trim(s: string): (r: string)
    ensures |r| <= |s|
    ensures r != [] ==> !IsWhiteSpace(r[0]) && !IsWhiteSpace(r[|r| - 1])
  {
    Strip(s, WhiteSpace)
  }

  /** Either every character is in `drop` and nothing is left, or what is left runs from `SkipStart` to `SkipEnd`. */
  lemma StripCases(s: string, drop: set<char>)
    ensures var k, m := SkipStart(s, drop), SkipEnd(s, drop);
      || (k == |s| && Strip(s, drop) == [] && forall i :: 0 <= i < |s| ==> s[i] in drop)
      || (k < m && Strip(s, drop) == s[k..m])
  {
  }

  /**
   * When every character before `k` and from `m` on is in `drop`, and
   * `s[k]` and `s[m - 1]` are not, `Strip` returns `s[k..m]`.
   */
  lemma StripIs(s: string, drop: set<char>, k: nat, m: nat)
    requires k < m <= |s| && s[k] !in drop && s[m - 1] !in drop
    requires forall i :: 0 <= i < k ==> s[i] in drop
    requires forall i :: m <= i < |s| ==> s[i] in drop
    ensures Strip(s, drop) == s[k..m]
  {
  }

  /** `LowerAll` character by character: a string whose every character lowers to the matching one of `y` lowers to `y`. */
  lemma LowerAllIs(x: string, y: string)
    requires |x| == |y| && forall i :: 0 <= i < |x| ==> ToLower(x[i]) == y[i]
    ensures LowerAll(x) == y
  {
  }

  /** string.IsNullOrWhiteSpace for a non-null string. */
  predicate IsBlank(s: string) {
    forall i :: 0 <= i < |s| ==> IsWhiteSpace(s[i])
  }

  /** Stripping twice removes nothing more than stripping once. */
  lemma StripIdempotent(s: string, drop: set<char>)
    ensures Strip(Strip(s, drop), drop) == Strip(s, drop)
  {
    var t := Strip(s, drop);
    if t != [] {
      StripIs(t, drop, 0, |t|);
      assert t[0..|t|] == t;
    }
  }

  /** Trim leaves nothing exactly when the string is blank. */
  lemma TrimEmpty(s: string)
    ensures Trim(s) == [] <==> IsBlank(s)
  {
    StripCases(s, WhiteSpace);
  }

  /** string.IndexOf(char): the first position of `c`, or -1 when `c` does not occur. */
  function IndexOf(s: string, c: char): (r: int)
    ensures r == -1 <==> c !in s
    ensures r != -1 ==> 0 <= r < |s| && s[r] == c && c !in s[..r]
  {
    if s == [] then -1
    else if s[0] == c then 0
    else
      var k := IndexOf(s[1..], c);
      assert k != -1 ==> s[..k + 1] == [s[0]] + s[1..][..k];
      if k == -1 then -1 else k + 1
  }
}
