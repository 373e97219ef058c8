/**
 * `ToHyphenCase` (ContentManagement/ExtensionMethods.cs): turns a title into
 * a lower-case, hyphen-separated file name. The string builder is a `string`
 * that the loop extends; `Build(s, n)` is its content once the characters
 * before index `n` have been read.
 */
module Hyphenation {
  import opened Wrappers
  import opened Chars

  /** What the final Trim('-') cuts. */
  const Hyphens: set<char> := {'-'}

  /**
   * Whether a letter or digit `c` read at `index` joins the builder's last
   * character without a hyphen: two lower-case letters, after a hyphen, two
   * capitals, two digits, or a lower-case letter after a capital that starts
   * the string or follows a hyphen.
   */
  predicate Joins(b: string, c: char, index: nat)
    requires |b| >= 1
    requires |b| == 1 && index > 1 ==> b[0] == '-'
  {
    var previous := b[|b| - 1];
    || (IsLower(c) && IsLower(previous))
    || previous == '-'
    || (IsUpper(c) && IsUpper(previous))
    || (IsDigit(c) && IsDigit(previous))
    || (IsLower(c) && IsUpper(previous) && (index == 1 || (index > 1 && b[|b| - 2] == '-')))
  }

  /**
   * What reading `c` at `index` appends to the builder `b`: a separator
   * becomes a hyphen unless one is already there; a letter or digit that
   * joins the last character is appended alone, otherwise after a hyphen.
   */
  function Added(b: string, c: char, index: nat): string
    requires |b| >= 1
    requires |b| == 1 && index > 1 ==> b[0] == '-'
  {
    var gap := if b[|b| - 1] != '-' then ['-'] else [];
    if !IsDigit(c) && !IsLetter(c) then gap
    else if Joins(b, c, index) then [c]
    else gap + [c]
  }

  /** The builder after the character at `index` has been read into `b`. */
  function Step(b: string, s: string, index: nat): string
    requires 1 <= index < |s| && |b| >= 1
    requires |b| == 1 && index > 1 ==> b[0] == '-'
  {
    b + Added(b, s[index], index)
  }

  /**
   * The builder once the first `n` characters are read. Each read adds at
   * most two characters to the one it starts with, and a builder still one
   * character long after index 1 holds a lone hyphen, so looking two
   * characters back is always in range.
   */
  function Build(s: string, n: nat): (b: string)
    requires 1 <= n <= |s|
    ensures 1 <= |b| <= 2 * n - 1
    ensures b[0] == s[0]
    ensures |b| == 1 && n > 1 ==> b[0] == '-'
    decreases n
  {
    if n == 1 then [s[0]] else Step(Build(s, n - 1), s, n - 1)
  }

  /** The result for a non-empty string: hyphens trimmed from both ends, then lower case. */
  function HyphenCase(s: string): string
  {
    if s == [] then s else LowerAll(Strip(Build(s, |s|), Hyphens))
  }

  /** ToHyphenCase: null and the empty string come back as they are. */
  method ToHyphenCase(str: Option<string>) returns (r: Option<string>)
    ensures str.None? || str.value == [] ==> r == str
    ensures str.Some? ==> r == Some(HyphenCase(str.value))
  {
    if str.None? || str.value == [] {
      return str;
    }
    var s := str.value;
    var builder := [s[0]];
    for index := 1 to |s|
      invariant builder == Build(s, index)
    {
      ghost var before := builder;
      var c := s[index];
      var previous := builder[|builder| - 1];
      if !IsDigit(c) && !IsLetter(c) {
        if previous != '-' {
          builder := builder + ['-'];
        }
        assert builder == before + Added(before, c, index);
        continue;
      }
      if || (IsLower(c) && IsLower(previous))
         || previous == '-'
         || (IsUpper(c) && IsUpper(previous))
         || (IsDigit(c) && IsDigit(previous))
         || (IsLower(c) && IsUpper(previous) && (index == 1 || (index > 1 && builder[|builder| - 2] == '-')))
      {
        assert Joins(before, c, index);
        builder := builder + [c];
        assert builder == Step(before, s, index);
        continue;
      }
      assert !Joins(before, c, index);
      if previous != '-' {
        builder := builder + ['-'];
      }
      builder := builder + [c];
      assert builder == Step(before, s, index);
    }
    return Some(LowerAll(Strip(builder, Hyphens)));
  }

  // ---------------------------------------------------------------------------
  // The shape of the result

  predicate NoDoubleHyphen(s: string) {
    forall i :: 0 <= i < |s| - 1 ==> !(s[i] == '-' && s[i + 1] == '-')
  }

  /** Past its first character the builder holds only letters, digits and hyphens, and never two hyphens in a row. */
  lemma {:induction false} BuildShape(s: string, n: nat)
    requires 1 <= n <= |s|
    ensures NoDoubleHyphen(Build(s, n))
    ensures forall i :: 1 <= i < |Build(s, n)| ==> IsLetterOrDigit(Build(s, n)[i]) || Build(s, n)[i] == '-'
    decreases n
  {
    if n > 1 {
      BuildShape(s, n - 1);
    }
  }

  /**
   * Hyphen-separated: no hyphen at either end, never two hyphens in a row,
   * and past the first character only letters, digits and hyphens.
   */
  predicate Hyphenated(t: string) {
    && NoDoubleHyphen(t)
    && (t != [] ==> t[0] != '-' && t[|t| - 1] != '-')
    && (forall i :: 1 <= i < |t| ==> IsLetterOrDigit(t[i]) || t[i] == '-')
  }

  lemma SliceShape(b: string, k: nat, m: nat)
    requires k <= m <= |b|
    requires k < m ==> b[k] != '-' && b[m - 1] != '-'
    requires NoDoubleHyphen(b)
    requires forall i :: 1 <= i < |b| ==> IsLetterOrDigit(b[i]) || b[i] == '-'
    ensures Hyphenated(b[k..m])
  {
    assert forall i :: 0 <= i < m - k ==> b[k..m][i] == b[k + i];
  }

  lemma StripHyphenated(b: string)
    requires NoDoubleHyphen(b)
    requires forall i :: 1 <= i < |b| ==> IsLetterOrDigit(b[i]) || b[i] == '-'
    ensures Hyphenated(Strip(b, Hyphens))
  {
    StripCases(b, Hyphens);
    var k, m := SkipStart(b, Hyphens), SkipEnd(b, Hyphens);
    if k < |b| {
      SliceShape(b, k, m);
    }
  }

  lemma LowerHyphenated(t: string)
    requires Hyphenated(t)
    ensures Hyphenated(LowerAll(t))
    ensures forall i :: 0 <= i < |t| ==> !IsUpper(LowerAll(t)[i])
  {
    var r := LowerAll(t);
    assert forall i :: 0 <= i < |r| ==> (r[i] == '-' <==> t[i] == '-');
    forall i | 1 <= i < |r|
      ensures IsLetterOrDigit(r[i]) || r[i] == '-'
    {
      assert IsLetterOrDigit(t[i]) || t[i] == '-';
    }
  }

  /** The result is hyphen-separated and has no upper-case letter. */
  lemma HyphenCaseShape(s: string)
    ensures Hyphenated(HyphenCase(s))
    ensures forall i :: 0 <= i < |HyphenCase(s)| ==> !IsUpper(HyphenCase(s)[i])
  {
    if s != [] {
      var b := Build(s, |s|);
      BuildShape(s, |s|);
      StripHyphenated(b);
      LowerHyphenated(Strip(b, Hyphens));
    }
  }

  /** Each character read adds at most two characters, so the result is at most twice as long as the input. */
  lemma HyphenCaseLength(s: string)
    ensures |HyphenCase(s)| <= 2 * |s|
  {
    if s != [] {
      var b := Build(s, |s|);
      assert |Strip(b, Hyphens)| <= |b|;
    }
  }

  // ---------------------------------------------------------------------------
  // Letters and digits survive, in order

  /** The letters and digits of `s`, in order. */
  function Keep(s: string): string
  {
    if s == [] then []
    else Keep(s[..|s| - 1]) + (if IsLetterOrDigit(s[|s| - 1]) then [s[|s| - 1]] else [])
  }

  lemma {:induction false} KeepAppend(a: string, b: string)
    ensures Keep(a + b) == Keep(a) + Keep(b)
    decreases |b|
  {
    if b != [] {
      var last := b[|b| - 1];
      assert (a + b)[..|a + b| - 1] == a + b[..|b| - 1];
      KeepAppend(a, b[..|b| - 1]);
    } else {
      assert a + b == a;
    }
  }

  lemma {:induction false} KeepHyphens(s: string)
    requires forall i :: 0 <= i < |s| ==> s[i] == '-'
    ensures Keep(s) == []
    decreases |s|
  {
    if s != [] {
      KeepHyphens(s[..|s| - 1]);
    }
  }

  lemma {:induction false} KeepLower(s: string)
    ensures Keep(LowerAll(s)) == LowerAll(Keep(s))
    decreases |s|
  {
    if s != [] {
      var init := s[..|s| - 1];
      var c := s[|s| - 1];
      assert s == init + [c];
      assert LowerAll(s) == LowerAll(init) + [ToLower(c)];
      assert LowerAll(s)[..|s| - 1] == LowerAll(init);
      KeepLower(init);
      assert IsLetterOrDigit(ToLower(c)) == IsLetterOrDigit(c);
      assert LowerAll(Keep(init) + (if IsLetterOrDigit(c) then [c] else []))
          == LowerAll(Keep(init)) + (if IsLetterOrDigit(c) then [ToLower(c)] else []);
    }
  }

  lemma KeepSnoc(a: string, c: char)
    ensures Keep(a + [c]) == Keep(a) + (if IsLetterOrDigit(c) then [c] else [])
  {
    assert (a + [c])[..|a|] == a;
  }

  lemma KeepHyphen(a: string)
    ensures Keep(a + ['-']) == Keep(a)
  {
    var s := a + ['-'];
    assert s[..|s| - 1] == a;
    assert Keep(s) == Keep(a) + [];
  }

  lemma AddedKeeps(b: string, c: char, index: nat)
    requires |b| >= 1
    requires |b| == 1 && index > 1 ==> b[0] == '-'
    ensures Keep(Added(b, c, index)) == if IsLetterOrDigit(c) then [c] else []
  {
    var gap := if b[|b| - 1] != '-' then ['-'] else [];
    assert Keep(gap) == [] by {
      KeepSnoc([], '-');
      assert [] + ['-'] == ['-'];
    }
    if IsLetterOrDigit(c) {
      var a := if Joins(b, c, index) then [c] else gap + [c];
      assert Added(b, c, index) == a;
      KeepSnoc(gap, c);
      if !Joins(b, c, index) {
        assert Keep(a) == Keep(gap) + [c];
      } else {
        assert Keep([] + [c]) == [c];
        assert [] + [c] == [c];
      }
    }
  }

  /** One read adds to the builder's letters and digits exactly the character read, if it is one. */
  lemma StepKeeps(b: string, s: string, index: nat)
    requires 1 <= index < |s| && |b| >= 1
    requires |b| == 1 && index > 1 ==> b[0] == '-'
    ensures Keep(Step(b, s, index)) == Keep(b) + (if IsLetterOrDigit(s[index]) then [s[index]] else [])
  {
    KeepAppend(b, Added(b, s[index], index));
    AddedKeeps(b, s[index], index);
  }

  lemma KeepPrefixNext(s: string, n: nat)
    requires n < |s|
    ensures Keep(s[..n + 1]) == Keep(s[..n]) + (if IsLetterOrDigit(s[n]) then [s[n]] else [])
  {
    assert s[..n + 1] == s[..n] + [s[n]];
    KeepSnoc(s[..n], s[n]);
  }

  lemma KeepFirst(s: string)
    requires 1 <= |s|
    ensures Keep(Build(s, 1)) == Keep(s[..1])
  {
    assert Build(s, 1) == s[..1];
  }

  lemma {:induction false} BuildKeeps(s: string, n: nat)
    requires 1 <= n <= |s|
    ensures Keep(Build(s, n)) == Keep(s[..n])
    decreases n
  {
    if n == 1 {
      KeepFirst(s);
    } else {
      BuildKeeps(s, n - 1);
      StepKeeps(Build(s, n - 1), s, n - 1);
      KeepPrefixNext(s, n - 1);
    }
  }


  lemma KeepAround(front: string, middle: string, back: string)
    requires Keep(front) == [] && Keep(back) == []
    ensures Keep(front + middle + back) == Keep(middle)
  {
    KeepAppend(front + middle, back);
    KeepAppend(front, middle);
  }

  lemma KeepHyphensBefore(b: string, k: nat)
    requires k <= |b| && forall i :: 0 <= i < k ==> b[i] == '-'
    ensures Keep(b[..k]) == []
  {
    assert forall i :: 0 <= i < k ==> b[..k][i] == b[i];
    KeepHyphens(b[..k]);
  }

  lemma KeepHyphensFrom(b: string, m: nat)
    requires m <= |b| && forall i :: m <= i < |b| ==> b[i] == '-'
    ensures Keep(b[m..]) == []
  {
    assert forall i :: 0 <= i < |b| - m ==> b[m..][i] == b[m + i];
    KeepHyphens(b[m..]);
  }

  lemma ThreeParts(b: string, k: nat, m: nat)
    requires k <= m <= |b|
    ensures b == b[..k] + b[k..m] + b[m..]
  {
    assert b[..m] == b[..k] + b[k..m];
    assert b == b[..m] + b[m..];
  }

  /** Cutting hyphens off both ends of a string loses no letter or digit. */
  lemma KeepMiddle(b: string, k: nat, m: nat)
    requires k <= m <= |b|
    requires forall i :: 0 <= i < k ==> b[i] == '-'
    requires forall i :: m <= i < |b| ==> b[i] == '-'
    ensures Keep(b[k..m]) == Keep(b)
  {
    KeepHyphensBefore(b, k);
    KeepHyphensFrom(b, m);
    ThreeParts(b, k, m);
    KeepAround(b[..k], b[k..m], b[m..]);
  }

  lemma KeepStrip(b: string)
    ensures Keep(Strip(b, Hyphens)) == Keep(b)
  {
    StripCases(b, Hyphens);
    var k, m := SkipStart(b, Hyphens), SkipEnd(b, Hyphens);
    if k == |b| {
      KeepHyphensBefore(b, k);
      assert b[..k] == b;
    } else {
      KeepMiddle(b, k, m);
    }
  }

  /** The letters and digits of the result are exactly those of the input, lower-cased, in input order. */
  lemma HyphenCaseKeeps(s: string)
    ensures Keep(HyphenCase(s)) == LowerAll(Keep(s))
  {
    if s == [] {
      assert LowerAll([]) == [];
    } else {
      var b := Build(s, |s|);
      BuildKeeps(s, |s|);
      assert s[..|s|] == s;
      KeepStrip(b);
      KeepLower(Strip(b, Hyphens));
    }
  }

  // ---------------------------------------------------------------------------
  // Where words split

  /** What the builder ends with after reading index `n - 1`: a letter or digit itself, anything else as a hyphen. */
  lemma BuildLast(s: string, n: nat)
    requires 2 <= n <= |s|
    ensures var b := Build(s, n);
      b[|b| - 1] == if IsLetterOrDigit(s[n - 1]) then s[n - 1] else '-'
  {
  }

  /**
   * Whether the letters or digits at `i - 1` and `i` of the input stay in one
   * word: both lower-case, both capitals, both digits, or a capital followed
   * by a lower-case letter where the capital is the first character or does
   * not itself follow a capital.
   */
  predicate Together(s: string, i: nat)
    requires 1 <= i < |s|
  {
    var previous, c := s[i - 1], s[i];
    || (IsLower(previous) && IsLower(c))
    || (IsUpper(previous) && IsUpper(c))
    || (IsDigit(previous) && IsDigit(c))
    || (IsUpper(previous) && IsLower(c) && (i == 1 || !IsUpper(s[i - 2])))
  }

  /** The builder ends in a capital exactly when the last character read is one. */
  lemma LastUpper(s: string, n: nat)
    requires 1 <= n <= |s|
    ensures var b := Build(s, n);
      IsUpper(b[|b| - 1]) <==> IsUpper(s[n - 1])
  {
    if n >= 2 {
      BuildLast(s, n);
    }
  }

  /** After a capital read at `i - 1`, the builder holds a hyphen just before it exactly when the character before it is not a capital. */
  lemma BeforeCapital(s: string, i: nat)
    requires 2 <= i < |s| && IsUpper(s[i - 1])
    ensures |Build(s, i)| >= 2 && (Build(s, i)[|Build(s, i)| - 2] == '-' <==> !IsUpper(s[i - 2]))
  {
    var b, c := Build(s, i - 1), s[i - 1];
    LastUpper(s, i - 1);
    var a := if b[|b| - 1] == '-' || IsUpper(b[|b| - 1]) then [c] else ['-', c];
    assert Added(b, c, i - 1) == a;
    assert Build(s, i) == b + a;
  }

  /**
   * Two letters or digits in a row: the second is appended alone when the
   * two stay in one word, and after a hyphen otherwise. So "abcDef" and
   * "ABCdef" both split into "abc" and "def", and "abc1" into "abc" and "1".
   */
  lemma WordBoundary(s: string, i: nat)
    requires 1 <= i < |s|
    requires IsLetterOrDigit(s[i - 1]) && IsLetterOrDigit(s[i])
    ensures Added(Build(s, i), s[i], i) == if Together(s, i) then [s[i]] else ['-', s[i]]
  {
    var b := Build(s, i);
    if i >= 2 {
      BuildLast(s, i);
      if IsUpper(s[i - 1]) && IsLower(s[i]) {
        BeforeCapital(s, i);
      }
    }
    assert b[|b| - 1] == s[i - 1];
    assert ['-'] + [s[i]] == ['-', s[i]];
  }

  /** After a separator a letter or digit is appended alone, and another separator adds nothing. */
  lemma AfterSeparator(s: string, i: nat)
    requires 2 <= i < |s| && !IsLetterOrDigit(s[i - 1])
    ensures Added(Build(s, i), s[i], i) == if IsLetterOrDigit(s[i]) then [s[i]] else []
  {
    BuildLast(s, i);
  }

  // ---------------------------------------------------------------------------
  // Reading on from a given builder

  /** The builder `b` once the characters from `from` up to `to` are read into it. */
  function Run(b: string, s: string, from: nat, to: nat): string
    requires 1 <= from <= to <= |s| && |b| >= 1
    requires |b| == 1 && from > 1 ==> b[0] == '-'
    decreases |s| - from
  {
    if from == to then b else Run(Step(b, s, from), s, from + 1, to)
  }

  /** Reading the characters before `n` is reading those before `i`, then the rest. */
  lemma {:induction false} BuildRun(s: string, i: nat, n: nat)
    requires 1 <= i <= n <= |s|
    ensures Build(s, n) == Run(Build(s, i), s, i, n)
    decreases n - i
  {
    if i < n {
      BuildRun(s, i + 1, n);
      assert Run(Build(s, i), s, i, n) == Run(Build(s, i + 1), s, i + 1, n);
    }
  }

  /** A step looks at most at the last two characters of the builder, so what comes before them is carried along. */
  lemma StepLocal(p: string, b: string, s: string, index: nat)
    requires 1 <= index < |s| && p != [] && (b == "-" || |b| >= 2)
    ensures Step(p + b, s, index) == p + Step(b, s, index)
  {
    var pb := p + b;
    assert pb[|pb| - 1] == b[|b| - 1];
    if |b| >= 2 {
      assert pb[|pb| - 2] == b[|b| - 2];
    }
    assert Added(pb, s[index], index) == Added(b, s[index], index);
    assert pb + Added(b, s[index], index) == p + (b + Added(b, s[index], index));
  }

  /** Reading on carries a prefix of the builder along unchanged. */
  lemma {:induction false} RunLocal(p: string, b: string, s: string, from: nat, to: nat)
    requires 1 <= from <= to <= |s| && p != [] && (b == "-" || |b| >= 2)
    ensures Run(p + b, s, from, to) == p + Run(b, s, from, to)
    decreases |s| - from
  {
    if from < to {
      StepLocal(p, b, s, from);
      var t := Step(b, s, from);
      assert t == "-" || |t| >= 2;
      assert Step(p + b, s, from) == p + t;
      RunLocal(p, t, s, from + 1, to);
    }
  }

  /**
   * One character read: when the step turns `b` into `h + c`, the output
   * `h` is finished and reading goes on from `c`.
   */
  lemma Peel(b: string, s: string, i: nat, n: nat, h: string, c: string)
    requires 1 <= i < n <= |s| && |b| >= 1
    requires |b| == 1 && i > 1 ==> b[0] == '-'
    requires Step(b, s, i) == h + c && (c == "-" || |c| == 2)
    ensures Run(b, s, i, n) == h + Run(c, s, i + 1, n)
  {
    if h == [] {
      assert h + c == c;
    } else {
      RunLocal(h, c, s, i + 1, n);
    }
  }

  // ---------------------------------------------------------------------------
  // The cases of UnitTestProject/ExtensionTests.cs

  /** One more character read: `Build` moves one `Step` on. */
  lemma BuildNext(s: string, n: nat, b: string)
    requires 1 <= n < |s| && Build(s, n) == b
    ensures Build(s, n + 1) == Step(b, s, n)
  {
  }

  /** The hyphens cut from both ends of `b` are those before `k` and from `m` on. */
  lemma StripHyphensAt(b: string, k: nat, m: nat)
    requires k < m <= |b| && b[k] != '-' && b[m - 1] != '-'
    requires forall i :: 0 <= i < k ==> b[i] == '-'
    requires forall i :: m <= i < |b| ==> b[i] == '-'
    ensures Strip(b, Hyphens) == b[k..m]
  {
    StripIs(b, Hyphens, k, m);
  }

  lemma LowerSlice(b: string, k: nat, m: nat, r: string)
    requires k <= m <= |b|
    requires |r| == m - k && forall i :: 0 <= i < |r| ==> ToLower(b[k + i]) == r[i]
    ensures LowerAll(b[k..m]) == r
  {
    var t := b[k..m];
    assert forall i :: 0 <= i < |t| ==> t[i] == b[k + i];
    LowerAllIs(t, r);
  }

  /** Cutting the hyphens at both ends of `b` and lowering what is left gives `r`. */
  lemma StripLower(b: string, k: nat, m: nat, r: string)
    requires k < m <= |b| && b[k] != '-' && b[m - 1] != '-'
    requires forall i :: 0 <= i < k ==> b[i] == '-'
    requires forall i :: m <= i < |b| ==> b[i] == '-'
    requires |r| == m - k && forall i :: 0 <= i < |r| ==> ToLower(b[k + i]) == r[i]
    ensures LowerAll(Strip(b, Hyphens)) == r
  {
    StripHyphensAt(b, k, m);
    LowerSlice(b, k, m, r);
  }

  /** The builder for "abc", one character at a time. */
  lemma TracePlainWord(s: string)
    requires |s| == 3 && s[0] == 'a' && s[1] == 'b' && s[2] == 'c'
    ensures Build(s, 3) == "abc"
  {
    assert Build(s, 2) == "ab" by { BuildNext(s, 1, "a"); }
    assert Build(s, 3) == "abc" by { BuildNext(s, 2, "ab"); }
  }

  lemma CutPlainWord()
    ensures LowerAll(Strip("abc", Hyphens)) == "abc"
  {
    StripLower("abc", 0, 3, "abc");
  }

  /** `s` is "abc": a lower-case word comes back unchanged. */
  lemma HyphenCasePlainWord(s: string)
    requires |s| == 3 && s[0] == 'a' && s[1] == 'b' && s[2] == 'c'
    ensures HyphenCase(s) == "abc"
  {
    TracePlainWord(s);
    CutPlainWord();
  }

  /** The builder for "--abc--def--", one character at a time. */
  lemma TraceOuterSeparators(s: string)
    requires |s| == 12 && s[0] == '-' && s[1] == '-' && s[2] == 'a' && s[3] == 'b' && s[4] == 'c'
    requires s[5] == '-' && s[6] == '-' && s[7] == 'd' && s[8] == 'e' && s[9] == 'f' && s[10] == '-'
    requires s[11] == '-'
    ensures Build(s, 12) == "-abc-def-"
  {
    assert Build(s, 2) == "-" by { BuildNext(s, 1, "-"); }
    assert Build(s, 3) == "-a" by { BuildNext(s, 2, "-"); }
    assert Build(s, 4) == "-ab" by { BuildNext(s, 3, "-a"); }
    assert Build(s, 5) == "-abc" by { BuildNext(s, 4, "-ab"); }
    assert Build(s, 6) == "-abc-" by { BuildNext(s, 5, "-abc"); }
    assert Build(s, 7) == "-abc-" by { BuildNext(s, 6, "-abc-"); }
    assert Build(s, 8) == "-abc-d" by { BuildNext(s, 7, "-abc-"); }
    assert Build(s, 9) == "-abc-de" by { BuildNext(s, 8, "-abc-d"); }
    assert Build(s, 10) == "-abc-def" by { BuildNext(s, 9, "-abc-de"); }
    assert Build(s, 11) == "-abc-def-" by { BuildNext(s, 10, "-abc-def"); }
    assert Build(s, 12) == "-abc-def-" by { BuildNext(s, 11, "-abc-def-"); }
  }

  lemma CutOuterSeparators()
    ensures LowerAll(Strip("-abc-def-", Hyphens)) == "abc-def"
  {
    StripLower("-abc-def-", 1, 8, "abc-def");
  }

  /** `s` is "--abc--def--": runs of separators become one hyphen, and none is left at either end. */
  lemma HyphenCaseOuterSeparators(s: string)
    requires |s| == 12 && s[0] == '-' && s[1] == '-' && s[2] == 'a' && s[3] == 'b' && s[4] == 'c'
    requires s[5] == '-' && s[6] == '-' && s[7] == 'd' && s[8] == 'e' && s[9] == 'f' && s[10] == '-'
    requires s[11] == '-'
    ensures HyphenCase(s) == "abc-def"
  {
    TraceOuterSeparators(s);
    CutOuterSeparators();
  }

  /** The builder for "ABC", one character at a time. */
  lemma TraceCapitalWord(s: string)
    requires |s| == 3 && s[0] == 'A' && s[1] == 'B' && s[2] == 'C'
    ensures Build(s, 3) == "ABC"
  {
    assert Build(s, 2) == "AB" by { BuildNext(s, 1, "A"); }
    assert Build(s, 3) == "ABC" by { BuildNext(s, 2, "AB"); }
  }

  lemma CutCapitalWord()
    ensures LowerAll(Strip("ABC", Hyphens)) == "abc"
  {
    StripLower("ABC", 0, 3, "abc");
  }

  /** `s` is "ABC": a word in capitals is lowered. */
  lemma HyphenCaseCapitalWord(s: string)
    requires |s| == 3 && s[0] == 'A' && s[1] == 'B' && s[2] == 'C'
    ensures HyphenCase(s) == "abc"
  {
    TraceCapitalWord(s);
    CutCapitalWord();
  }

  /** The builder for "abcDe", the start of "abcDefGhi". */
  lemma TraceCamelStart(s: string)
    requires |s| == 9 && s[0] == 'a' && s[1] == 'b' && s[2] == 'c' && s[3] == 'D' && s[4] == 'e'
    ensures Build(s, 5) == "abc-De"
  {
    assert Build(s, 2) == "ab" by { BuildNext(s, 1, "a"); }
    assert Build(s, 3) == "abc" by { BuildNext(s, 2, "ab"); }
    assert Build(s, 4) == "abc-D" by { BuildNext(s, 3, "abc"); }
    assert Build(s, 5) == "abc-De" by { BuildNext(s, 4, "abc-D"); }
  }

  /** The builder for "abcDefGhi", one character at a time. */
  lemma TraceCamel(s: string)
    requires |s| == 9 && s[0] == 'a' && s[1] == 'b' && s[2] == 'c' && s[3] == 'D' && s[4] == 'e'
    requires s[5] == 'f' && s[6] == 'G' && s[7] == 'h' && s[8] == 'i'
    ensures Build(s, 9) == "abc-Def-Ghi"
  {
    TraceCamelStart(s);
    assert Build(s, 6) == "abc-Def" by { BuildNext(s, 5, "abc-De"); }
    assert Build(s, 7) == "abc-Def-G" by { BuildNext(s, 6, "abc-Def"); }
    assert Build(s, 8) == "abc-Def-Gh" by { BuildNext(s, 7, "abc-Def-G"); }
    assert Build(s, 9) == "abc-Def-Ghi" by { BuildNext(s, 8, "abc-Def-Gh"); }
  }

  lemma CutCamel()
    ensures LowerAll(Strip("abc-Def-Ghi", Hyphens)) == "abc-def-ghi"
  {
    StripLower("abc-Def-Ghi", 0, 11, "abc-def-ghi");
  }

  /** `s` is "abcDefGhi": a capital after a lower-case letter starts a new word. */
  lemma HyphenCaseCamel(s: string)
    requires |s| == 9 && s[0] == 'a' && s[1] == 'b' && s[2] == 'c' && s[3] == 'D' && s[4] == 'e'
    requires s[5] == 'f' && s[6] == 'G' && s[7] == 'h' && s[8] == 'i'
    ensures HyphenCase(s) == "abc-def-ghi"
  {
    TraceCamel(s);
    CutCamel();
  }

  // Reading "abc,def.ghi;jkl mno", three characters at a time.
  lemma ReadPunctuation1(s: string, i: nat, n: nat)
    requires i == 1 && i + 3 <= n <= |s|
    requires s[i] == 'b' && s[i + 1] == 'c' && s[i + 2] == ','
    ensures Run("a", s, i, n) == "ab" + Run("c-", s, i + 3, n)
  {
    Peel("a", s, i, n, "", "ab");
    Peel("ab", s, i + 1, n, "a", "bc");
    Peel("bc", s, i + 2, n, "b", "c-");
  }

  lemma ReadPunctuation2(s: string, i: nat, n: nat)
    requires 2 <= i && i + 3 <= n <= |s|
    requires s[i] == 'd' && s[i + 1] == 'e' && s[i + 2] == 'f'
    ensures Run("c-", s, i, n) == "c-d" + Run("ef", s, i + 3, n)
  {
    Peel("c-", s, i, n, "c", "-d");
    Peel("-d", s, i + 1, n, "-", "de");
    Peel("de", s, i + 2, n, "d", "ef");
  }

  lemma ReadPunctuation3(s: string, i: nat, n: nat)
    requires 2 <= i && i + 3 <= n <= |s|
    requires s[i] == '.' && s[i + 1] == 'g' && s[i + 2] == 'h'
    ensures Run("ef", s, i, n) == "ef-" + Run("gh", s, i + 3, n)
  {
    Peel("ef", s, i, n, "e", "f-");
    Peel("f-", s, i + 1, n, "f", "-g");
    Peel("-g", s, i + 2, n, "-", "gh");
  }

  lemma ReadPunctuation4(s: string, i: nat, n: nat)
    requires 2 <= i && i + 3 <= n <= |s|
    requires s[i] == 'i' && s[i + 1] == ';' && s[i + 2] == 'j'
    ensures Run("gh", s, i, n) == "ghi" + Run("-j", s, i + 3, n)
  {
    Peel("gh", s, i, n, "g", "hi");
    Peel("hi", s, i + 1, n, "h", "i-");
    Peel("i-", s, i + 2, n, "i", "-j");
  }

  lemma ReadPunctuation5(s: string, i: nat, n: nat)
    requires 2 <= i && i + 3 <= n <= |s|
    requires s[i] == 'k' && s[i + 1] == 'l' && s[i + 2] == ' '
    ensures Run("-j", s, i, n) == "-jk" + Run("l-", s, i + 3, n)
  {
    Peel("-j", s, i, n, "-", "jk");
    Peel("jk", s, i + 1, n, "j", "kl");
    Peel("kl", s, i + 2, n, "k", "l-");
  }

  lemma ReadPunctuation6(s: string, i: nat, n: nat)
    requires 2 <= i && i + 3 == n <= |s|
    requires s[i] == 'm' && s[i + 1] == 'n' && s[i + 2] == 'o'
    ensures Run("l-", s, i, n) == "l-mno"
  {
    Peel("l-", s, i, n, "l", "-m");
    Peel("-m", s, i + 1, n, "-", "mn");
    Peel("mn", s, i + 2, n, "m", "no");
  }

  lemma JoinPunctuation()
    ensures "ab" + ("c-d" + ("ef-" + ("ghi" + ("-jk" + "l-mno")))) == "abc-def-ghi-jkl-mno"
  {
    assert "-jk" + "l-mno" == "-jkl-mno";
    assert "ghi" + "-jkl-mno" == "ghi-jkl-mno";
    assert "ef-" + "ghi-jkl-mno" == "ef-ghi-jkl-mno";
    assert "c-d" + "ef-ghi-jkl-mno" == "c-def-ghi-jkl-mno";
  }

  lemma CutPunctuation()
    ensures LowerAll(Strip("abc-def-ghi-jkl-mno", Hyphens)) == "abc-def-ghi-jkl-mno"
  {
    StripLower("abc-def-ghi-jkl-mno", 0, 19, "abc-def-ghi-jkl-mno");
  }

  /** `s` is "abc,def.ghi;jkl mno": each run of punctuation or white space becomes one hyphen. */
  lemma HyphenCasePunctuation(s: string)
    requires |s| == 19
    requires s[0] == 'a' && s[1] == 'b' && s[2] == 'c' && s[3] == ',' && s[4] == 'd'
    requires s[5] == 'e' && s[6] == 'f' && s[7] == '.' && s[8] == 'g' && s[9] == 'h'
    requires s[10] == 'i' && s[11] == ';' && s[12] == 'j' && s[13] == 'k' && s[14] == 'l'
    requires s[15] == ' ' && s[16] == 'm' && s[17] == 'n' && s[18] == 'o'
    ensures HyphenCase(s) == "abc-def-ghi-jkl-mno"
  {
    BuildRun(s, 1, |s|);
    assert Build(s, 1) == "a";
    ReadPunctuation1(s, 1, |s|);
    ReadPunctuation2(s, 4, |s|);
    ReadPunctuation3(s, 7, |s|);
    ReadPunctuation4(s, 10, |s|);
    ReadPunctuation5(s, 13, |s|);
    ReadPunctuation6(s, 16, |s|);
    JoinPunctuation();
    CutPunctuation();
  }

  // Reading "abc1def2ghi", three characters at a time.
  lemma ReadDigits1(s: string, i: nat, n: nat)
    requires i == 1 && i + 3 <= n <= |s|
    requires s[i] == 'b' && s[i + 1] == 'c' && s[i + 2] == '1'
    ensures Run("a", s, i, n) == "abc" + Run("-1", s, i + 3, n)
  {
    Peel("a", s, i, n, "", "ab");
    Peel("ab", s, i + 1, n, "a", "bc");
    Peel("bc", s, i + 2, n, "bc", "-1");
  }

  lemma ReadDigits2(s: string, i: nat, n: nat)
    requires 2 <= i && i + 3 <= n <= |s|
    requires s[i] == 'd' && s[i + 1] == 'e' && s[i + 2] == 'f'
    ensures Run("-1", s, i, n) == "-1-d" + Run("ef", s, i + 3, n)
  {
    Peel("-1", s, i, n, "-1", "-d");
    Peel("-d", s, i + 1, n, "-", "de");
    Peel("de", s, i + 2, n, "d", "ef");
  }

  lemma ReadDigits3(s: string, i: nat, n: nat)
    requires 2 <= i && i + 3 <= n <= |s|
    requires s[i] == '2' && s[i + 1] == 'g' && s[i + 2] == 'h'
    ensures Run("ef", s, i, n) == "ef-2-" + Run("gh", s, i + 3, n)
  {
    Peel("ef", s, i, n, "ef", "-2");
    Peel("-2", s, i + 1, n, "-2", "-g");
    Peel("-g", s, i + 2, n, "-", "gh");
  }

  lemma ReadDigits4(s: string, i: nat, n: nat)
    requires 2 <= i && i + 1 == n <= |s|
    requires s[i] == 'i'
    ensures Run("gh", s, i, n) == "ghi"
  {
    Peel("gh", s, i, n, "g", "hi");
  }

  lemma JoinDigits()
    ensures "abc" + ("-1-d" + ("ef-2-" + "ghi")) == "abc-1-def-2-ghi"
  {
    assert "ef-2-" + "ghi" == "ef-2-ghi";
    assert "-1-d" + "ef-2-ghi" == "-1-def-2-ghi";
  }

  lemma CutDigits()
    ensures LowerAll(Strip("abc-1-def-2-ghi", Hyphens)) == "abc-1-def-2-ghi"
  {
    StripLower("abc-1-def-2-ghi", 0, 15, "abc-1-def-2-ghi");
  }

  /** `s` is "abc1def2ghi": a digit after a letter, or a letter after a digit, starts a new word. */
  lemma HyphenCaseDigits(s: string)
    requires |s| == 11
    requires s[0] == 'a' && s[1] == 'b' && s[2] == 'c' && s[3] == '1' && s[4] == 'd'
    requires s[5] == 'e' && s[6] == 'f' && s[7] == '2' && s[8] == 'g' && s[9] == 'h'
    requires s[10] == 'i'
    ensures HyphenCase(s) == "abc-1-def-2-ghi"
  {
    BuildRun(s, 1, |s|);
    assert Build(s, 1) == "a";
    ReadDigits1(s, 1, |s|);
    ReadDigits2(s, 4, |s|);
    ReadDigits3(s, 7, |s|);
    ReadDigits4(s, 10, |s|);
    JoinDigits();
    CutDigits();
  }

  // Reading "abc123ghi456", three characters at a time.
  lemma ReadDigitRuns1(s: string, i: nat, n: nat)
    requires i == 1 && i + 3 <= n <= |s|
    requires s[i] == 'b' && s[i + 1] == 'c' && s[i + 2] == '1'
    ensures Run("a", s, i, n) == "abc" + Run("-1", s, i + 3, n)
  {
    Peel("a", s, i, n, "", "ab");
    Peel("ab", s, i + 1, n, "a", "bc");
    Peel("bc", s, i + 2, n, "bc", "-1");
  }

  lemma ReadDigitRuns2(s: string, i: nat, n: nat)
    requires 2 <= i && i + 3 <= n <= |s|
    requires s[i] == '2' && s[i + 1] == '3' && s[i + 2] == 'g'
    ensures Run("-1", s, i, n) == "-123" + Run("-g", s, i + 3, n)
  {
    Peel("-1", s, i, n, "-", "12");
    Peel("12", s, i + 1, n, "1", "23");
    Peel("23", s, i + 2, n, "23", "-g");
  }

  lemma ReadDigitRuns3(s: string, i: nat, n: nat)
    requires 2 <= i && i + 3 <= n <= |s|
    requires s[i] == 'h' && s[i + 1] == 'i' && s[i + 2] == '4'
    ensures Run("-g", s, i, n) == "-ghi" + Run("-4", s, i + 3, n)
  {
    Peel("-g", s, i, n, "-", "gh");
    Peel("gh", s, i + 1, n, "g", "hi");
    Peel("hi", s, i + 2, n, "hi", "-4");
  }

  lemma ReadDigitRuns4(s: string, i: nat, n: nat)
    requires 2 <= i && i + 2 == n <= |s|
    requires s[i] == '5' && s[i + 1] == '6'
    ensures Run("-4", s, i, n) == "-456"
  {
    Peel("-4", s, i, n, "-", "45");
    Peel("45", s, i + 1, n, "4", "56");
  }

  lemma JoinDigitRuns()
    ensures "abc" + ("-123" + ("-ghi" + "-456")) == "abc-123-ghi-456"
  {
    assert "-ghi" + "-456" == "-ghi-456";
    assert "-123" + "-ghi-456" == "-123-ghi-456";
  }

  lemma CutDigitRuns()
    ensures LowerAll(Strip("abc-123-ghi-456", Hyphens)) == "abc-123-ghi-456"
  {
    StripLower("abc-123-ghi-456", 0, 15, "abc-123-ghi-456");
  }

  /** `s` is "abc123ghi456": a run of digits stays one word. */
  lemma HyphenCaseDigitRuns(s: string)
    requires |s| == 12
    requires s[0] == 'a' && s[1] == 'b' && s[2] == 'c' && s[3] == '1' && s[4] == '2'
    requires s[5] == '3' && s[6] == 'g' && s[7] == 'h' && s[8] == 'i' && s[9] == '4'
    requires s[10] == '5' && s[11] == '6'
    ensures HyphenCase(s) == "abc-123-ghi-456"
  {
    BuildRun(s, 1, |s|);
    assert Build(s, 1) == "a";
    ReadDigitRuns1(s, 1, |s|);
    ReadDigitRuns2(s, 4, |s|);
    ReadDigitRuns3(s, 7, |s|);
    ReadDigitRuns4(s, 10, |s|);
    JoinDigitRuns();
    CutDigitRuns();
  }

  // Reading "123abc456ghi", three characters at a time.
  lemma ReadLeadingDigits1(s: string, i: nat, n: nat)
    requires i == 1 && i + 3 <= n <= |s|
    requires s[i] == '2' && s[i + 1] == '3' && s[i + 2] == 'a'
    ensures Run("1", s, i, n) == "123" + Run("-a", s, i + 3, n)
  {
    Peel("1", s, i, n, "", "12");
    Peel("12", s, i + 1, n, "1", "23");
    Peel("23", s, i + 2, n, "23", "-a");
  }

  lemma ReadLeadingDigits2(s: string, i: nat, n: nat)
    requires 2 <= i && i + 3 <= n <= |s|
    requires s[i] == 'b' && s[i + 1] == 'c' && s[i + 2] == '4'
    ensures Run("-a", s, i, n) == "-abc" + Run("-4", s, i + 3, n)
  {
    Peel("-a", s, i, n, "-", "ab");
    Peel("ab", s, i + 1, n, "a", "bc");
    Peel("bc", s, i + 2, n, "bc", "-4");
  }

  lemma ReadLeadingDigits3(s: string, i: nat, n: nat)
    requires 2 <= i && i + 3 <= n <= |s|
    requires s[i] == '5' && s[i + 1] == '6' && s[i + 2] == 'g'
    ensures Run("-4", s, i, n) == "-456" + Run("-g", s, i + 3, n)
  {
    Peel("-4", s, i, n, "-", "45");
    Peel("45", s, i + 1, n, "4", "56");
    Peel("56", s, i + 2, n, "56", "-g");
  }

  lemma ReadLeadingDigits4(s: string, i: nat, n: nat)
    requires 2 <= i && i + 2 == n <= |s|
    requires s[i] == 'h' && s[i + 1] == 'i'
    ensures Run("-g", s, i, n) == "-ghi"
  {
    Peel("-g", s, i, n, "-", "gh");
    Peel("gh", s, i + 1, n, "g", "hi");
  }

  lemma JoinLeadingDigits()
    ensures "123" + ("-abc" + ("-456" + "-ghi")) == "123-abc-456-ghi"
  {
    assert "-456" + "-ghi" == "-456-ghi";
    assert "-abc" + "-456-ghi" == "-abc-456-ghi";
  }

  lemma CutLeadingDigits()
    ensures LowerAll(Strip("123-abc-456-ghi", Hyphens)) == "123-abc-456-ghi"
  {
    StripLower("123-abc-456-ghi", 0, 15, "123-abc-456-ghi");
  }

  /** `s` is "123abc456ghi": digits at the start form a word of their own. */
  lemma HyphenCaseLeadingDigits(s: string)
    requires |s| == 12
    requires s[0] == '1' && s[1] == '2' && s[2] == '3' && s[3] == 'a' && s[4] == 'b'
    requires s[5] == 'c' && s[6] == '4' && s[7] == '5' && s[8] == '6' && s[9] == 'g'
    requires s[10] == 'h' && s[11] == 'i'
    ensures HyphenCase(s) == "123-abc-456-ghi"
  {
    BuildRun(s, 1, |s|);
    assert Build(s, 1) == "1";
    ReadLeadingDigits1(s, 1, |s|);
    ReadLeadingDigits2(s, 4, |s|);
    ReadLeadingDigits3(s, 7, |s|);
    ReadLeadingDigits4(s, 10, |s|);
    JoinLeadingDigits();
    CutLeadingDigits();
  }

  // Reading "abcDEFghiJKL", three characters at a time.
  lemma ReadCapitalRuns1(s: string, i: nat, n: nat)
    requires i == 1 && i + 3 <= n <= |s|
    requires s[i] == 'b' && s[i + 1] == 'c' && s[i + 2] == 'D'
    ensures Run("a", s, i, n) == "abc" + Run("-D", s, i + 3, n)
  {
    Peel("a", s, i, n, "", "ab");
    Peel("ab", s, i + 1, n, "a", "bc");
    Peel("bc", s, i + 2, n, "bc", "-D");
  }

  lemma ReadCapitalRuns2(s: string, i: nat, n: nat)
    requires 2 <= i && i + 3 <= n <= |s|
    requires s[i] == 'E' && s[i + 1] == 'F' && s[i + 2] == 'g'
    ensures Run("-D", s, i, n) == "-DEF" + Run("-g", s, i + 3, n)
  {
    Peel("-D", s, i, n, "-", "DE");
    Peel("DE", s, i + 1, n, "D", "EF");
    Peel("EF", s, i + 2, n, "EF", "-g");
  }

  lemma ReadCapitalRuns3(s: string, i: nat, n: nat)
    requires 2 <= i && i + 3 <= n <= |s|
    requires s[i] == 'h' && s[i + 1] == 'i' && s[i + 2] == 'J'
    ensures Run("-g", s, i, n) == "-ghi" + Run("-J", s, i + 3, n)
  {
    Peel("-g", s, i, n, "-", "gh");
    Peel("gh", s, i + 1, n, "g", "hi");
    Peel("hi", s, i + 2, n, "hi", "-J");
  }

  lemma ReadCapitalRuns4(s: string, i: nat, n: nat)
    requires 2 <= i && i + 2 == n <= |s|
    requires s[i] == 'K' && s[i + 1] == 'L'
    ensures Run("-J", s, i, n) == "-JKL"
  {
    Peel("-J", s, i, n, "-", "JK");
    Peel("JK", s, i + 1, n, "J", "KL");
  }

  lemma JoinCapitalRuns()
    ensures "abc" + ("-DEF" + ("-ghi" + "-JKL")) == "abc-DEF-ghi-JKL"
  {
    assert "-ghi" + "-JKL" == "-ghi-JKL";
    assert "-DEF" + "-ghi-JKL" == "-DEF-ghi-JKL";
  }

  lemma CutCapitalRuns()
    ensures LowerAll(Strip("abc-DEF-ghi-JKL", Hyphens)) == "abc-def-ghi-jkl"
  {
    StripLower("abc-DEF-ghi-JKL", 0, 15, "abc-def-ghi-jkl");
  }

  /** `s` is "abcDEFghiJKL": a run of capitals is one word, and lower-case letters after it start another. */
  lemma HyphenCaseCapitalRuns(s: string)
    requires |s| == 12
    requires s[0] == 'a' && s[1] == 'b' && s[2] == 'c' && s[3] == 'D' && s[4] == 'E'
    requires s[5] == 'F' && s[6] == 'g' && s[7] == 'h' && s[8] == 'i' && s[9] == 'J'
    requires s[10] == 'K' && s[11] == 'L'
    ensures HyphenCase(s) == "abc-def-ghi-jkl"
  {
    BuildRun(s, 1, |s|);
    assert Build(s, 1) == "a";
    ReadCapitalRuns1(s, 1, |s|);
    ReadCapitalRuns2(s, 4, |s|);
    ReadCapitalRuns3(s, 7, |s|);
    ReadCapitalRuns4(s, 10, |s|);
    JoinCapitalRuns();
    CutCapitalRuns();
  }

  // Reading "ABCdefGHIjkl", three characters at a time.
  lemma ReadCapitalStart1(s: string, i: nat, n: nat)
    requires i == 1 && i + 3 <= n <= |s|
    requires s[i] == 'B' && s[i + 1] == 'C' && s[i + 2] == 'd'
    ensures Run("A", s, i, n) == "ABC" + Run("-d", s, i + 3, n)
  {
    Peel("A", s, i, n, "", "AB");
    Peel("AB", s, i + 1, n, "A", "BC");
    Peel("BC", s, i + 2, n, "BC", "-d");
  }

  lemma ReadCapitalStart2(s: string, i: nat, n: nat)
    requires 2 <= i && i + 3 <= n <= |s|
    requires s[i] == 'e' && s[i + 1] == 'f' && s[i + 2] == 'G'
    ensures Run("-d", s, i, n) == "-def" + Run("-G", s, i + 3, n)
  {
    Peel("-d", s, i, n, "-", "de");
    Peel("de", s, i + 1, n, "d", "ef");
    Peel("ef", s, i + 2, n, "ef", "-G");
  }

  lemma ReadCapitalStart3(s: string, i: nat, n: nat)
    requires 2 <= i && i + 3 <= n <= |s|
    requires s[i] == 'H' && s[i + 1] == 'I' && s[i + 2] == 'j'
    ensures Run("-G", s, i, n) == "-GHI" + Run("-j", s, i + 3, n)
  {
    Peel("-G", s, i, n, "-", "GH");
    Peel("GH", s, i + 1, n, "G", "HI");
    Peel("HI", s, i + 2, n, "HI", "-j");
  }

  lemma ReadCapitalStart4(s: string, i: nat, n: nat)
    requires 2 <= i && i + 2 == n <= |s|
    requires s[i] == 'k' && s[i + 1] == 'l'
    ensures Run("-j", s, i, n) == "-jkl"
  {
    Peel("-j", s, i, n, "-", "jk");
    Peel("jk", s, i + 1, n, "j", "kl");
  }

  lemma JoinCapitalStart()
    ensures "ABC" + ("-def" + ("-GHI" + "-jkl")) == "ABC-def-GHI-jkl"
  {
    assert "-GHI" + "-jkl" == "-GHI-jkl";
    assert "-def" + "-GHI-jkl" == "-def-GHI-jkl";
  }

  lemma CutCapitalStart()
    ensures LowerAll(Strip("ABC-def-GHI-jkl", Hyphens)) == "abc-def-ghi-jkl"
  {
    StripLower("ABC-def-GHI-jkl", 0, 15, "abc-def-ghi-jkl");
  }

  /** `s` is "ABCdefGHIjkl": a leading run of capitals is one word, as in the middle. */
  lemma HyphenCaseCapitalStart(s: string)
    requires |s| == 12
    requires s[0] == 'A' && s[1] == 'B' && s[2] == 'C' && s[3] == 'd' && s[4] == 'e'
    requires s[5] == 'f' && s[6] == 'G' && s[7] == 'H' && s[8] == 'I' && s[9] == 'j'
    requires s[10] == 'k' && s[11] == 'l'
    ensures HyphenCase(s) == "abc-def-ghi-jkl"
  {
    BuildRun(s, 1, |s|);
    assert Build(s, 1) == "A";
    ReadCapitalStart1(s, 1, |s|);
    ReadCapitalStart2(s, 4, |s|);
    ReadCapitalStart3(s, 7, |s|);
    ReadCapitalStart4(s, 10, |s|);
    JoinCapitalStart();
    CutCapitalStart();
  }

  // ---------------------------------------------------------------------------
  // The first character

  /**
   * The first character goes into the builder without the test the loop
   * applies to the others, and only hyphens are trimmed afterwards. So the
   * result starts with a letter or a digit, or with the input's own first
   * character; and an input starting with anything but a letter, a digit or
   * a hyphen keeps that character in front.
   */
  lemma LeadingCharacter(s: string)
    ensures HyphenCase(s) != [] ==> IsLetterOrDigit(HyphenCase(s)[0]) || HyphenCase(s)[0] == s[0]
    ensures s != [] && !IsLetterOrDigit(s[0]) && s[0] != '-' ==> HyphenCase(s) != [] && HyphenCase(s)[0] == s[0]
  {
    if s != [] {
      var b := Build(s, |s|);
      StripCases(b, Hyphens);
      var k := SkipStart(b, Hyphens);
      var u := Strip(b, Hyphens);
      if u != [] {
        assert u[0] == b[k];
        assert LowerAll(u)[0] == ToLower(u[0]);
        if k >= 1 {
          BuildShape(s, |s|);
        }
      }
    }
  }

  /** A '/' in the result can only be its first character, copied from an input that starts with one. */
  lemma SlashOnlyFirst(s: string)
    ensures forall i :: 0 <= i < |HyphenCase(s)| && HyphenCase(s)[i] == '/' ==> i == 0 && s != [] && s[0] == '/'
  {
    var r := HyphenCase(s);
    HyphenCaseShape(s);
    LeadingCharacter(s);
    forall i | 1 <= i < |r| ensures r[i] != '/' {
      var c := r[i];
      assert IsLetterOrDigit(c) || c == '-';
    }
  }

  /**
   * A title starting with a punctuation mark keeps it, followed by a hyphen:
   * `s` is "/abc", which gives "/-abc". (Leading white space never gets
   * here: the property setters trim it.)
   */
  lemma LeadingSeparatorKept(s: string)
    requires |s| == 4 && s[0] == '/' && s[1] == 'a' && s[2] == 'b' && s[3] == 'c'
    ensures HyphenCase(s) == "/-abc"
  {
    TraceLeadingSeparator(s);
    CutLeadingSeparator();
  }

  /** The builder for "/abc", one character at a time. */
  lemma TraceLeadingSeparator(s: string)
    requires |s| == 4 && s[0] == '/' && s[1] == 'a' && s[2] == 'b' && s[3] == 'c'
    ensures Build(s, 4) == "/-abc"
  {
    assert Build(s, 2) == "/-a" by { BuildNext(s, 1, "/"); }
    assert Build(s, 3) == "/-ab" by { BuildNext(s, 2, "/-a"); }
    assert Build(s, 4) == "/-abc" by { BuildNext(s, 3, "/-ab"); }
  }

  lemma CutLeadingSeparator()
    ensures LowerAll(Strip("/-abc", Hyphens)) == "/-abc"
  {
    StripLower("/-abc", 0, 5, "/-abc");
  }

  /** The input with a leading separator read as a hyphen, as the loop reads every later one. */
  function Normalized(s: string): (t: string)
    ensures |t| == |s|
    ensures t != [] ==> IsLetterOrDigit(t[0]) || t[0] == '-'
    ensures forall i :: 1 <= i < |s| ==> t[i] == s[i]
  {
    if s != [] && !IsLetterOrDigit(s[0]) then s[0 := '-'] else s
  }

  /**
   * ToHyphenCase with the first character read like the others: every
   * character of the result, the first included, is a lower-case letter, a
   * digit or a hyphen.
   */
  function HyphenCaseFixed(s: string): (r: string)
    ensures Hyphenated(r)
    ensures forall i :: 0 <= i < |r| ==> (IsLetterOrDigit(r[i]) || r[i] == '-') && !IsUpper(r[i])
  {
    var t := Normalized(s);
    HyphenCaseShape(t);
    LeadingCharacter(t);
    HyphenCase(t)
  }

  /** Inputs starting with a letter, a digit or a hyphen come out as before. */
  lemma FixedAgrees(s: string)
    requires s != [] && (IsLetterOrDigit(s[0]) || s[0] == '-')
    ensures HyphenCaseFixed(s) == HyphenCase(s)
  {
    if s[0] == '-' {
      assert s[0 := '-'] == s;
    }
  }

  lemma KeepNormalized(s: string)
    ensures Keep(Normalized(s)) == Keep(s)
  {
    if s != [] && !IsLetterOrDigit(s[0]) {
      var rest := s[1..];
      assert Keep(s) == Keep(rest) by {
        assert s == [s[0]] + rest;
        KeepAppend([s[0]], rest);
        assert Keep([s[0]]) == [];
      }
      assert Keep(Normalized(s)) == Keep(rest) by {
        assert Normalized(s) == ['-'] + rest;
        KeepAppend(['-'], rest);
        assert Keep(['-']) == [];
      }
    }
  }

  /** The corrected result keeps the input's letters and digits, lower-cased, in input order. */
  lemma FixedKeeps(s: string)
    ensures Keep(HyphenCaseFixed(s)) == LowerAll(Keep(s))
  {
    HyphenCaseKeeps(Normalized(s));
    KeepNormalized(s);
  }

  /** `s` is "/abc", which now gives "abc". */
  lemma LeadingSeparatorFixed(s: string)
    requires |s| == 4 && s[0] == '/' && s[1] == 'a' && s[2] == 'b' && s[3] == 'c'
    ensures HyphenCaseFixed(s) == "abc"
  {
    var t := Normalized(s);
    TraceLeadingHyphen(t);
    CutLeadingHyphen();
  }

  lemma TraceLeadingHyphen(s: string)
    requires |s| == 4 && s[0] == '-' && s[1] == 'a' && s[2] == 'b' && s[3] == 'c'
    ensures Build(s, 4) == "-abc"
  {
    assert Build(s, 2) == "-a" by { BuildNext(s, 1, "-"); }
    assert Build(s, 3) == "-ab" by { BuildNext(s, 2, "-a"); }
    assert Build(s, 4) == "-abc" by { BuildNext(s, 3, "-ab"); }
  }

  lemma CutLeadingHyphen()
    ensures LowerAll(Strip("-abc", Hyphens)) == "abc"
  {
    StripLower("-abc", 1, 4, "abc");
  }
}
