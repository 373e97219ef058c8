/**
 * The "Top Right Bottom Left" margin converter (ContentManagement/MarginConverter.cs).
 *
 * The regular expression `\d{1,4}\ \d{1,4}\ \d{1,4}\ \d{1,4}` is modelled
 * twice: `IsMatch` scans for it the way an unanchored regex search does,
 * and `Occurs` says declaratively that four groups of one to four digits
 * separated by single spaces appear somewhere. `MatchSpec` proves them the
 * same. The base `TypeConverter` conversions are not part of this model;
 * reaching them is reported as `DelegatedToBase`.
 */
module Margins {
  import opened Wrappers
  import opened Chars

  const DefaultMargin: string := "0 0 0 0"

  /** The object handed to the converter: null, a string, or some other object. */
  datatype Value = Null | Str(s: string) | NotString

  datatype ConvertError =
    | FormatError          // FormatException: not in the "T R B L" format
    | ArgumentNull         // ArgumentNullException: no destination type
    | DelegatedToBase      // the base TypeConverter decides

  /** The types a conversion may go to or come from. */
  datatype TypeTag = NullType | StringType | OtherType

  // ---------------------------------------------------------------------------
  // The pattern, declaratively

  /** `s[i..i + n]` is a group of `n` digits. */
  predicate Group(s: string, i: nat, n: nat)
  {
    i + n <= |s| && forall k :: i <= k < i + n ==> IsDigit(s[k])
  }

  /** A group of `n` digits, between one and four of them, at `i`, followed by a space. */
  predicate GroupSpace(s: string, i: nat, n: nat)
  {
    1 <= n <= 4 && Group(s, i, n) && i + n < |s| && s[i + n] == ' '
  }

  /** The pattern matches at `i` with groups of `a`, `b`, `c` and `d` digits. */
  predicate MatchesWith(s: string, i: nat, a: nat, b: nat, c: nat, d: nat)
  {
    && GroupSpace(s, i, a)
    && GroupSpace(s, i + a + 1, b)
    && GroupSpace(s, i + a + b + 2, c)
    && 1 <= d <= 4 && Group(s, i + a + b + c + 3, d)
  }

  /** Four groups of one to four digits, separated by single spaces, appear somewhere in `s`. */
  ghost predicate Occurs(s: string)
  {
    exists i: nat, a: nat, b: nat, c: nat, d: nat :: MatchesWith(s, i, a, b, c, d)
  }

  // ---------------------------------------------------------------------------
  // The pattern, as a scan

  /** How many digits follow position `i`. */
  function DigitRun(s: string, i: nat): (n: nat)
    requires i <= |s|
    ensures i + n <= |s|
    decreases |s| - i
  {
    if i == |s| || !IsDigit(s[i]) then 0 else 1 + DigitRun(s, i + 1)
  }

  /** The run is a group of digits, and what follows it is not a digit. */
  lemma {:induction false} DigitRunGroup(s: string, i: nat)
    requires i <= |s|
    ensures Group(s, i, DigitRun(s, i))
    ensures i + DigitRun(s, i) < |s| ==> !IsDigit(s[i + DigitRun(s, i)])
    decreases |s| - i
  {
    if i < |s| && IsDigit(s[i]) {
      DigitRunGroup(s, i + 1);
    }
  }

  /** Where the next group starts once a group of one to four digits and a space are read at `i`. */
  function SkipGroup(s: string, i: nat): Option<nat>
    requires i <= |s|
  {
    var n := DigitRun(s, i);
    if 1 <= n <= 4 && i + n < |s| && s[i + n] == ' ' then Some(i + n + 1) else None
  }

  /** The pattern matches starting at `i`. */
  function MatchAt(s: string, i: nat): bool
    requires i <= |s|
  {
    match SkipGroup(s, i)
    case None => false
    case Some(j) =>
      match SkipGroup(s, j)
      case None => false
      case Some(k) =>
        match SkipGroup(s, k)
        case None => false
        case Some(m) => DigitRun(s, m) >= 1
  }

  /** The pattern matches at `i` or later. */
  function MatchFrom(s: string, i: nat): bool
    requires i <= |s|
    decreases |s| - i
  {
    MatchAt(s, i) || (i < |s| && MatchFrom(s, i + 1))
  }

  /** Regex.IsMatch: the pattern matches somewhere. */
  function IsMatch(s: string): bool
  {
    MatchFrom(s, 0)
  }

  /** A group of digits that no digit follows is the whole run at its start. */
  lemma {:induction false} GroupRun(s: string, i: nat, n: nat)
    requires Group(s, i, n) && (i + n < |s| ==> !IsDigit(s[i + n]))
    ensures DigitRun(s, i) == n
    decreases n
  {
    if n > 0 {
      GroupRun(s, i + 1, n - 1);
    }
  }

  /** A group followed by a space has exactly as many digits as the run at its start. */
  lemma GroupSpaceRun(s: string, i: nat, n: nat)
    requires GroupSpace(s, i, n)
    ensures DigitRun(s, i) == n && SkipGroup(s, i) == Some(i + n + 1)
  {
    GroupRun(s, i, n);
  }

  /** A group the scan skips is a group of one to four digits followed by a space. */
  lemma SkipGroupSound(s: string, i: nat)
    requires i <= |s| && SkipGroup(s, i).Some?
    ensures SkipGroup(s, i).value >= i + 2 && GroupSpace(s, i, SkipGroup(s, i).value - i - 1)
  {
    DigitRunGroup(s, i);
  }

  /** What the scan reads at `i` is a match with the lengths of the digit runs it meets. */
  lemma MatchAtSound(s: string, i: nat) returns (a: nat, b: nat, c: nat)
    requires i <= |s| && MatchAt(s, i)
    ensures MatchesWith(s, i, a, b, c, 1)
  {
    var j := SkipGroup(s, i).value;
    SkipGroupSound(s, i);
    var k := SkipGroup(s, j).value;
    SkipGroupSound(s, j);
    var m := SkipGroup(s, k).value;
    SkipGroupSound(s, k);
    a, b, c := j - i - 1, k - j - 1, m - k - 1;
    assert Group(s, m, 1);
  }

  /** Wherever the pattern matches, the scan at that position finds it. */
  lemma MatchAtComplete(s: string, i: nat, a: nat, b: nat, c: nat, d: nat)
    requires MatchesWith(s, i, a, b, c, d)
    ensures MatchAt(s, i)
  {
    GroupSpaceRun(s, i, a);
    GroupSpaceRun(s, i + a + 1, b);
    GroupSpaceRun(s, i + a + b + 2, c);
    assert IsDigit(s[i + a + b + c + 3]);
  }

  lemma {:induction false} MatchFromSound(s: string, i: nat) returns (j: nat, a: nat, b: nat, c: nat)
    requires i <= |s| && MatchFrom(s, i)
    ensures i <= j <= |s| && MatchesWith(s, j, a, b, c, 1)
    decreases |s| - i
  {
    if MatchAt(s, i) {
      j := i;
      a, b, c := MatchAtSound(s, i);
    } else {
      j, a, b, c := MatchFromSound(s, i + 1);
    }
  }

  lemma {:induction false} MatchFromComplete(s: string, i: nat, j: nat, a: nat, b: nat, c: nat, d: nat)
    requires i <= j <= |s| && MatchesWith(s, j, a, b, c, d)
    ensures MatchFrom(s, i)
    decreases j - i
  {
    if j == i {
      MatchAtComplete(s, i, a, b, c, d);
    } else {
      MatchFromComplete(s, i + 1, j, a, b, c, d);
    }
  }

  /** The scan finds the pattern exactly when it occurs somewhere. */
  lemma MatchSpec(s: string)
    ensures IsMatch(s) <==> Occurs(s)
  {
    if IsMatch(s) {
      var j, a, b, c := MatchFromSound(s, 0);
    }
    if Occurs(s) {
      var j: nat, a: nat, b: nat, c: nat, d: nat :| MatchesWith(s, j, a, b, c, d);
      MatchFromComplete(s, 0, j, a, b, c, d);
    }
  }

  /** A group of digits inside a slice of a string is a group of the string, shifted. */
  lemma GroupInSlice(s: string, k: nat, m: nat, i: nat, n: nat, space: bool)
    requires k <= m <= |s|
    requires if space then GroupSpace(s[k..m], i, n) else Group(s[k..m], i, n)
    ensures if space then GroupSpace(s, k + i, n) else Group(s, k + i, n)
  {
    assert forall p :: i <= p < i + n ==> s[k..m][p] == s[k + p];
  }

  /** An occurrence inside a slice of a string is an occurrence in the string. */
  lemma OccursInSlice(s: string, k: nat, m: nat)
    requires k <= m <= |s| && Occurs(s[k..m])
    ensures Occurs(s)
  {
    var i: nat, a: nat, b: nat, c: nat, d: nat :| MatchesWith(s[k..m], i, a, b, c, d);
    GroupInSlice(s, k, m, i, a, true);
    GroupInSlice(s, k, m, i + a + 1, b, true);
    GroupInSlice(s, k, m, i + a + b + 2, c, true);
    GroupInSlice(s, k, m, i + a + b + c + 3, d, false);
    assert MatchesWith(s, k + i, a, b, c, d);
  }

  /** The default margin has the format. */
  lemma DefaultMatches()
    ensures IsMatch(DefaultMargin) && Occurs(DefaultMargin)
  {
    assert MatchesWith(DefaultMargin, 0, 1, 1, 1, 1);
    MatchSpec(DefaultMargin);
  }

  /** The default margin is not blank and has nothing to trim. */
  lemma DefaultTrimmed()
    ensures !IsBlank(DefaultMargin) && Trim(DefaultMargin) == DefaultMargin
  {
    var m := DefaultMargin;
    assert !IsWhiteSpace(m[0]) && !IsWhiteSpace(m[6]);
    StripIs(m, WhiteSpace, 0, 7);
    assert m[0..7] == m;
  }

  // ---------------------------------------------------------------------------
  // The converter

  function CanConvertFrom(source: TypeTag, baseAnswer: bool): (r: bool)
    ensures source == StringType ==> r
    ensures source != StringType ==> r == baseAnswer
  {
    source == StringType || baseAnswer
  }

  /**
   * ConvertFrom: a string that is blank becomes the default margin; a
   * string whose trimmed form contains the pattern comes back as it was,
   * untrimmed; any other string is a format error. Null and objects that
   * are not strings go to the base converter.
   */
  function ConvertFrom(value: Value): (r: Result<Value, ConvertError>)
    ensures !value.Str? <==> r == Err(DelegatedToBase)
    ensures value.Str? && IsBlank(value.s) ==> r == Ok(Str(DefaultMargin))
    ensures value.Str? && !IsBlank(value.s) ==> (r == Ok(value) <==> Occurs(Trim(value.s)))
    ensures value.Str? && !IsBlank(value.s) ==> (r == Err(FormatError) <==> !Occurs(Trim(value.s)))
  {
    MatchSpec(if value.Str? then Trim(value.s) else []);
    match value
    case Str(s) =>
      if IsBlank(s) then Ok(Str(DefaultMargin))
      else if !IsMatch(Trim(s)) then Err(FormatError)
      else Ok(value)
    case _ => Err(DelegatedToBase)
  }

  function ConvertTo(value: Value, destination: TypeTag): (r: Result<Value, ConvertError>)
    ensures destination == NullType <==> r == Err(ArgumentNull)
    ensures destination == StringType <==> r == Ok(value)
    ensures destination == OtherType <==> r == Err(DelegatedToBase)
  {
    match destination
    case NullType => Err(ArgumentNull)
    case StringType => Ok(value)
    case OtherType => Err(DelegatedToBase)
  }

  /** Trimming keeps an occurrence, so whatever the trimmed string contains the original contains too. */
  lemma TrimKeepsOccurs(s: string)
    requires Occurs(Trim(s))
    ensures Occurs(s)
  {
    StripCases(s, WhiteSpace);
    var k, m := SkipStart(s, WhiteSpace), SkipEnd(s, WhiteSpace);
    if k == |s| {
      assert false;
    }
    OccursInSlice(s, k, m);
  }

  /** Every string ConvertFrom accepts contains a margin in the "T R B L" format. */
  lemma AcceptedHasFormat(value: Value)
    requires ConvertFrom(value).Ok?
    ensures ConvertFrom(value).value.Str? && Occurs(ConvertFrom(value).value.s)
  {
    var s := value.s;
    if IsBlank(s) {
      DefaultMatches();
    } else {
      TrimKeepsOccurs(s);
    }
  }

  /** Converting what ConvertFrom accepted a second time gives it back unchanged. */
  lemma ConvertFromIdempotent(value: Value)
    requires ConvertFrom(value).Ok?
    ensures ConvertFrom(ConvertFrom(value).value) == ConvertFrom(value)
  {
    var s := value.s;
    if IsBlank(s) {
      DefaultMatches();
      DefaultTrimmed();
    }
  }
}
