/**
 * The version check of the package validator: `is_valid_semver` accepts a
 * string that splits on `.` into exactly three pieces, each of which
 * `str::parse::<u32>` accepts. This is a loose form of the MAJOR.MINOR.PATCH
 * "normal version" of Semantic Versioning 2.0.0, section 2: leading zeros and a
 * leading `+` are accepted, pre-release and build suffixes are not.
 */
module Semver {
  import opened Wrappers
  import opened Strings

  /** `u32::MAX`. */
  const U32Max: nat := 4294967295

  predicate AllDigits(s: string) { forall i :: 0 <= i < |s| ==> IsAsciiDigit(s[i]) }

  function Pow10(k: nat): nat
  {
    if k == 0 then 1 else 10 * Pow10(k - 1)
  }

  /** The value of a decimal numeral, most significant digit first, leading zeros allowed. */
  function NumeralValue(d: string): nat
    requires AllDigits(d)
  {
    if d == [] then 0 else 10 * NumeralValue(d[..|d| - 1]) + DigitValue(d[|d| - 1])
  }

  /**
   * `p.parse::<u32>().ok()`: an optional `+`, then at least one ASCII digit and
   * nothing else, with a value that fits in 32 bits. A lone `+`, a `-` sign and
   * the empty string are rejected.
   */
  function ParseU32(p: string): (r: Option<nat>)
    ensures r.Some? ==> r.value <= U32Max
    ensures r.Some? ==> p != [] && IsAsciiDigit(p[|p| - 1])
    ensures r.Some? ==> forall i :: 0 <= i < |p| ==> IsAsciiDigit(p[i]) || (i == 0 && p[i] == '+')
    ensures r.Some? ==> '.' !in p && ':' !in p
    // On a plain numeral the outcome is decided by its decimal value alone.
    ensures p != [] && AllDigits(p) ==> (r.Some? <==> NumeralValue(p) <= U32Max)
    ensures p != [] && AllDigits(p) && r.Some? ==> r.value == NumeralValue(p)
  {
    var digits := if |p| > 0 && p[0] == '+' then p[1..] else p;
    if digits == [] || !AllDigits(digits) then None
    else
      var n := NumeralValue(digits);
      assert '.' !in digits by {
        forall i | 0 <= i < |digits| ensures digits[i] != '.' { assert IsAsciiDigit(digits[i]); }
      }
      assert ':' !in digits by {
        forall i | 0 <= i < |digits| ensures digits[i] != ':' { assert IsAsciiDigit(digits[i]); }
      }
      if n <= U32Max then Some(n) else None
  }

  /** `is_valid_semver`: exactly three dot-separated pieces, each a `u32`. */
  predicate IsValidSemver(v: string)
    ensures IsValidSemver(v) ==> Occurrences(v, '.') == 2
  {
    var parts := Split(v, '.');
    |parts| == 3 && forall i :: 0 <= i < 3 ==> ParseU32(parts[i]).Some?
  }

  /** The canonical decimal rendering of `n`: digits only, no leading zero. */
  function Decimal(n: nat): (s: string)
    ensures AllDigits(s) && s != []
    ensures |s| > 1 ==> s[0] != '0'
    decreases n
  {
    if n < 10 then [DigitChar(n)] else Decimal(n / 10) + [DigitChar(n % 10)]
  }

  // ---------------------------------------------------------------- numerals

  lemma {:induction false} DecimalValue(n: nat)
    ensures NumeralValue(Decimal(n)) == n
    decreases n
  {
    if n >= 10 {
      DecimalValue(n / 10);
      var s := Decimal(n);
      assert s[..|s| - 1] == Decimal(n / 10);
    }
  }

  /** Every value of a `u32` is read back from its decimal rendering. */
  lemma ParseDecimal(n: nat)
    requires n <= U32Max
    ensures ParseU32(Decimal(n)) == Some(n)
  {
    DecimalValue(n);
  }

  lemma {:induction false} NumeralBelowPow(d: string)
    requires AllDigits(d)
    ensures NumeralValue(d) < Pow10(|d|)
    decreases |d|
  {
    if d != [] {
      NumeralBelowPow(d[..|d| - 1]);
    }
  }

  lemma {:induction false} NumeralAtLeastPow(d: string)
    requires AllDigits(d) && d != [] && d[0] != '0'
    ensures NumeralValue(d) >= Pow10(|d| - 1)
    decreases |d|
  {
    if |d| > 1 {
      NumeralAtLeastPow(d[..|d| - 1]);
    }
  }

  lemma {:induction false} Pow10Monotone(j: nat, k: nat)
    requires j <= k
    ensures Pow10(j) <= Pow10(k)
    decreases k
  {
    if j < k {
      Pow10Monotone(j, k - 1);
    }
  }

  lemma {:induction false} NumeralLeadingZero(d: string)
    requires AllDigits(d)
    ensures AllDigits(['0'] + d) && NumeralValue(['0'] + d) == NumeralValue(d)
    decreases |d|
  {
    if d != [] {
      var z := ['0'] + d;
      assert z[..|z| - 1] == ['0'] + d[..|d| - 1];
      NumeralLeadingZero(d[..|d| - 1]);
    }
  }

  // ------------------------------------------------------------ digit bounds

  /** Every numeral of one to nine digits is accepted: it is below 10^9. */
  lemma UpToNineDigitsFit(d: string)
    requires AllDigits(d) && 1 <= |d| <= 9
    ensures ParseU32(d) == Some(NumeralValue(d))
  {
    NumeralBelowPow(d);
    Pow10Monotone(|d|, 9);
    assert Pow10(9) == 1000000000;
  }

  /** A numeral of eleven or more digits without a leading zero overflows 32 bits. */
  lemma ElevenSignificantDigitsOverflow(d: string)
    requires AllDigits(d) && |d| >= 11 && d[0] != '0'
    ensures ParseU32(d) == None
  {
    NumeralAtLeastPow(d);
    Pow10Monotone(10, |d| - 1);
    assert Pow10(10) == 10000000000;
  }

  /** Leading zeros never change what is parsed. */
  lemma LeadingZeroIgnored(d: string)
    requires AllDigits(d) && d != []
    ensures ParseU32(['0'] + d) == ParseU32(d)
  {
    NumeralLeadingZero(d);
  }

  /** One leading `+` is accepted and ignored when digits follow it. */
  lemma LeadingPlusIgnored(d: string)
    requires AllDigits(d)
    ensures ParseU32(['+'] + d) == ParseU32(d)
  {
  }

  /** A piece made of a numeral, with or without one `+` in front, parses to the numeral's value exactly when that value fits in 32 bits. */
  lemma ParseU32OfNumeral(d: string, plus: bool)
    requires d != [] && AllDigits(d)
    ensures var p := if plus then ['+'] + d else d;
      (ParseU32(p).Some? <==> NumeralValue(d) <= U32Max) &&
      (ParseU32(p).Some? ==> ParseU32(p).value == NumeralValue(d))
  {
  }

  lemma NumeralStep(d: string, k: nat)
    requires AllDigits(d) && 0 < k <= |d|
    ensures NumeralValue(d[..k]) == 10 * NumeralValue(d[..k - 1]) + DigitValue(d[k - 1])
  {
    assert d[..k][..k - 1] == d[..k - 1];
  }

  /** The first five digits of `u32::MAX`. */
  lemma FiveDigitPrefixValue()
    ensures NumeralValue("42949") == 42949
  {
    var s := "42949";
    assert s[..0] == [];
    NumeralStep(s, 1);
    assert NumeralValue(s[..1]) == 4;
    NumeralStep(s, 2);
    assert NumeralValue(s[..2]) == 42;
    NumeralStep(s, 3);
    assert NumeralValue(s[..3]) == 429;
    NumeralStep(s, 4);
    assert NumeralValue(s[..4]) == 4294;
    NumeralStep(s, 5);
    assert NumeralValue(s[..5]) == 42949;
    assert s[..5] == s;
  }

  /** The first nine digits of `u32::MAX`. */
  lemma NineDigitPrefixValue()
    ensures NumeralValue("429496729") == 429496729
  {
    FiveDigitPrefixValue();
    var s := "429496729";
    assert s[..5] == "42949";
    NumeralStep(s, 6);
    assert NumeralValue(s[..6]) == 429496;
    NumeralStep(s, 7);
    assert NumeralValue(s[..7]) == 4294967;
    NumeralStep(s, 8);
    assert NumeralValue(s[..8]) == 42949672;
    NumeralStep(s, 9);
    assert NumeralValue(s[..9]) == 429496729;
    assert s[..9] == s;
  }

  /** The exact range bound: `u32::MAX` is accepted and one more is rejected. */
  lemma RangeBoundary()
    ensures ParseU32("4294967295") == Some(U32Max)
    ensures ParseU32("4294967296") == None
  {
    NineDigitPrefixValue();
    var s, t := "4294967295", "4294967296";
    assert s[..9] == "429496729" && s[..10] == s;
    NumeralStep(s, 10);
    assert t[..9] == "429496729" && t[..10] == t;
    NumeralStep(t, 10);
  }

  // ------------------------------------------------------ the version check

  /** Three numerals joined by dots always pass the check. */
  lemma SemverFromNumerals(major: string, minor: string, patch: string)
    requires ParseU32(major).Some? && ParseU32(minor).Some? && ParseU32(patch).Some?
    ensures IsValidSemver(major + "." + minor + "." + patch)
  {
    var v := major + "." + minor + "." + patch;
    assert v == major + ['.'] + (minor + ['.'] + patch);
    SplitAfterPrefix(major, '.', minor + ['.'] + patch);
    SplitAfterPrefix(minor, '.', patch);
    SplitWithoutSeparator(patch, '.');
    assert Split(v, '.') == [major, minor, patch];
  }

  /** A version that passes is three numerals joined by exactly two dots. */
  lemma SemverIsThreeNumerals(v: string)
    requires IsValidSemver(v)
    ensures Occurrences(v, '.') == 2
    ensures var p := Split(v, '.');
      v == p[0] + "." + p[1] + "." + p[2] &&
      ParseU32(p[0]).Some? && ParseU32(p[1]).Some? && ParseU32(p[2]).Some?
  {
    var p := Split(v, '.');
    JoinSplit(v, '.');
    JoinThree(p, ".");
  }

  lemma JoinThree(p: seq<string>, sep: string)
    requires |p| == 3
    ensures Join(p, sep) == p[0] + sep + p[1] + sep + p[2]
  {
    var last := p[2..];
    assert last == [p[2]];
    assert Join(last, sep) == p[2];
    assert p[1..][1..] == last;
    assert Join(p[1..], sep) == p[1] + sep + p[2];
  }

  /** A version that passes holds no `:`, so it cannot shift a field boundary
      in the `name:version:image_uri` checksum content. */
  lemma SemverHasNoColon(v: string)
    requires IsValidSemver(v)
    ensures ':' !in v
  {
    SemverIsThreeNumerals(v);
  }

  /** A piece count other than three is rejected, whatever the pieces are. */
  lemma SemverNeedsTwoDots(v: string)
    requires Occurrences(v, '.') != 2
    ensures !IsValidSemver(v)
  {
  }

  /** Unlike strict SemVer 2.0.0, leading zeros and a leading `+` are accepted. */
  lemma AcceptsLeadingZeroAndPlus()
    ensures IsValidSemver("1.0.0")
    ensures IsValidSemver("01.0.0")
    ensures IsValidSemver("+1.0.0")
  {
    assert ParseU32("1") == Some(1) && ParseU32("0") == Some(0);
    SemverFromNumerals("1", "0", "0");
    assert "1" + "." + "0" + "." + "0" == "1.0.0";
    assert ParseU32("01") == Some(1);
    SemverFromNumerals("01", "0", "0");
    assert "01" + "." + "0" + "." + "0" == "01.0.0";
    assert ParseU32("+1") == Some(1);
    SemverFromNumerals("+1", "0", "0");
    assert "+1" + "." + "0" + "." + "0" == "+1.0.0";
  }

  /** A missing patch number is rejected. */
  lemma RejectsTwoPieces()
    ensures !IsValidSemver("1.0")
  {
  }

  /** Three dot-free pieces are rejected as soon as one of them is not a `u32`. */
  lemma RejectsNonNumeralPiece(major: string, minor: string, patch: string)
    requires '.' !in major && '.' !in minor && '.' !in patch
    requires ParseU32(major).None? || ParseU32(minor).None? || ParseU32(patch).None?
    ensures !IsValidSemver(major + "." + minor + "." + patch)
  {
    var v := major + "." + minor + "." + patch;
    assert v == major + ['.'] + (minor + ['.'] + patch);
    SplitAfterPrefix(major, '.', minor + ['.'] + patch);
    SplitAfterPrefix(minor, '.', patch);
    SplitWithoutSeparator(patch, '.');
    var p := Split(v, '.');
    assert p == [major, minor, patch];
    assert !ParseU32(p[0]).Some? || !ParseU32(p[1]).Some? || !ParseU32(p[2]).Some?;
  }

  /** As in strict SemVer 2.0.0 section 2, a pre-release suffix is not part of a normal version. */
  lemma RejectsPreRelease()
    ensures !IsValidSemver("1.0.0-alpha")
  {
    var patch := "0-alpha";
    assert !IsAsciiDigit(patch[1]);
    assert ParseU32(patch) == None;
    RejectsNonNumeralPiece("1", "0", patch);
    assert "1" + "." + "0" + "." + patch == "1.0.0-alpha";
  }

  /** The empty string is one empty piece, so it is rejected. */
  lemma RejectsEmpty()
    ensures !IsValidSemver("")
  {
  }
}
