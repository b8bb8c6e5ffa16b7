/** The canonical decimal of an amount given as text. */
module AmountText {
  import Bytes

  const MAX_LENGTH := 256

  predicate IsDigit(c: char) {
    '0' <= c <= '9'
  }

  predicate IsSeparator(c: char) {
    c == '.' || c == ','
  }

  predicate AllDigits(s: string) {
    forall i :: 0 <= i < |s| ==> IsDigit(s[i])
  }

  /** Digits with at most one separator, of acceptable length. */
  ghost predicate WellFormed(s: string) {
    && |s| <= MAX_LENGTH
    && (forall i :: 0 <= i < |s| ==> IsDigit(s[i]) || IsSeparator(s[i]))
    && (forall i, j :: 0 <= i < j < |s| ==> !(IsSeparator(s[i]) && IsSeparator(s[j])))
  }

  // ----- the two parts of a number

  function SeparatorAt(s: string): (k: nat)
    ensures k <= |s| && (k < |s| ==> IsSeparator(s[k])) && forall i :: 0 <= i < k ==> !IsSeparator(s[i])
  {
    if s == [] || IsSeparator(s[0]) then 0 else 1 + SeparatorAt(s[1..])
  }

  function Whole(s: string): (t: string) {
    s[..SeparatorAt(s)]
  }

  function Fraction(s: string): (t: string) {
    if SeparatorAt(s) < |s| then s[SeparatorAt(s) + 1..] else []
  }

  /** A number as its parts, with the given separator. */
  function Written(whole: string, separator: string, fraction: string): (s: string) {
    whole + separator + fraction
  }

  ghost predicate Parts(whole: string, separator: string, fraction: string) {
    AllDigits(whole) && AllDigits(fraction) &&
      ((separator == [] && fraction == []) || (|separator| == 1 && IsSeparator(separator[0])))
  }

  lemma FirstSeparator(s: string, k: nat)
    requires k <= |s| && (k < |s| ==> IsSeparator(s[k])) && forall i :: 0 <= i < k ==> IsDigit(s[i])
    ensures SeparatorAt(s) == k
  {
  }

  lemma PartsOfWritten(whole: string, separator: string, fraction: string)
    requires Parts(whole, separator, fraction)
    ensures Whole(Written(whole, separator, fraction)) == whole &&
      Fraction(Written(whole, separator, fraction)) == fraction
  {
    var s := Written(whole, separator, fraction);
    assert forall i :: 0 <= i < |whole| ==> s[i] == whole[i];
    FirstSeparator(s, |whole|);
  }

  lemma WrittenIsWellFormed(whole: string, separator: string, fraction: string)
    requires Parts(whole, separator, fraction) && |Written(whole, separator, fraction)| <= MAX_LENGTH
    ensures WellFormed(Written(whole, separator, fraction))
  {
    var s := Written(whole, separator, fraction);
    forall i | 0 <= i < |s| ensures IsDigit(s[i]) || (IsSeparator(s[i]) && i == |whole|) {
      if i > |whole| {
        assert s[i] == fraction[i - |whole| - 1];
      } else if i == |whole| {
        assert s[i] == separator[0];
      } else {
        assert s[i] == whole[i];
      }
    }
  }

  lemma WellFormedHasDigits(s: string)
    requires WellFormed(s)
    ensures AllDigits(Whole(s)) && AllDigits(Fraction(s))
  {
    var k := SeparatorAt(s);
    forall i | 0 <= i < |Fraction(s)| ensures IsDigit(Fraction(s)[i]) {
      assert Fraction(s)[i] == s[k + 1 + i];
    }
  }

  // ----- zeros

  function LeadingZeros(s: string): (n: nat)
    ensures n <= |s|
  {
    if s == [] || s[0] != '0' then 0 else 1 + LeadingZeros(s[1..])
  }

  function TrailingZeros(s: string): (n: nat)
    ensures n <= |s|
  {
    if s == [] || s[|s| - 1] != '0' then 0 else 1 + TrailingZeros(s[..|s| - 1])
  }

  lemma {:induction false} LeadingZerosAre(s: string)
    ensures forall i :: 0 <= i < LeadingZeros(s) ==> s[i] == '0'
    ensures LeadingZeros(s) < |s| ==> s[LeadingZeros(s)] != '0'
  {
    if s == [] || s[0] != '0' {
    } else {
      LeadingZerosAre(s[1..]);
      assert forall i :: 0 < i < |s| ==> s[i] == s[1..][i - 1];
    }
  }

  lemma {:induction false} TrailingZerosAre(s: string)
    ensures TrailingZeros(s) < |s| ==> s[|s| - TrailingZeros(s) - 1] != '0'
  {
    if s == [] || s[|s| - 1] != '0' {
    } else {
      TrailingZerosAre(s[..|s| - 1]);
    }
  }

  lemma {:induction false} LeadingZerosGrow(s: string, c: char)
    ensures LeadingZeros(s + [c]) == LeadingZeros(s) + (if LeadingZeros(s) == |s| && c == '0' then 1 else 0)
  {
    if s == [] {
      assert ([] + [c])[1..] == [];
    } else if s[0] == '0' {
      LeadingZerosGrow(s[1..], c);
      assert (s + [c])[1..] == s[1..] + [c];
    }
  }

  lemma TrailingZerosGrow(s: string, c: char)
    ensures TrailingZeros(s + [c]) == if c == '0' then TrailingZeros(s) + 1 else 0
  {
    assert (s + [c])[..|s|] == s;
  }

  function Stripped(whole: string): (t: string) {
    whole[LeadingZeros(whole)..]
  }

  function Trimmed(fraction: string): (t: string) {
    fraction[..|fraction| - TrailingZeros(fraction)]
  }

  /** A digit before the point, no point without a fraction. */
  function Tidy(whole: string, fraction: string): (s: string) {
    var w := if whole == [] then "0" else whole;
    if fraction == [] then w else Written(w, ".", fraction)
  }

  /** The canonical form has no superfluous zeros either. */
  function Canonical(whole: string, fraction: string): (s: string) {
    Tidy(Stripped(whole), Trimmed(fraction))
  }

  // ----- what the code computes

  /** The counter of leading zeros has eight bits and wraps on this text alone. */
  predicate AllZeros(s: string) {
    |s| == MAX_LENGTH && forall i :: 0 <= i < |s| ==> s[i] == '0'
  }

  ghost function Normal(s: string): (r: string) {
    if !WellFormed(s) then "0" else if AllZeros(s) then s else Canonical(Whole(s), Fraction(s))
  }

  lemma Malformed(s: string, i: nat)
    requires i < |s|
    requires !IsDigit(s[i]) && (IsSeparator(s[i]) ==> exists k :: 0 <= k < i && IsSeparator(s[k]))
    ensures !WellFormed(s)
  {
  }

  lemma WrittenGrows(whole: string, separator: string, fraction: string, c: char)
    ensures Written(whole, separator, fraction) + [c] == Written(whole, separator, fraction + [c])
    ensures Written(whole, "", "") + [c] == Written(whole, [c], "") == Written(whole + [c], "", "")
  {
  }

  /** One digit more, of the whole part or of the fraction. */
  method CountDigit(c: char, hasSep: bool, hadNonZero: bool, leading: nat, trailing: nat, ghost w: string,
    ghost f: string)
    returns (hasNonZero: bool, leadingZeros: nat, trailingZeros: nat, ghost whole: string, ghost fraction: string)
    requires leading == LeadingZeros(w) % 256 && trailing == TrailingZeros(f) && |f| < 255
    requires hadNonZero <==> hasSep || LeadingZeros(w) < |w|
    ensures leadingZeros == LeadingZeros(whole) % 256 && trailingZeros == TrailingZeros(fraction)
    ensures hasNonZero <==> hasSep || LeadingZeros(whole) < |whole|
    ensures if hasSep then whole == w && fraction == f + [c] else whole == w + [c] && fraction == f
  {
    hide *;
    hasNonZero, leadingZeros, trailingZeros, whole, fraction := hadNonZero, leading, trailing, w, f;
    if hasSep {
      TrailingZerosGrow(f, c);
      fraction := f + [c];
    } else {
      LeadingZerosGrow(w, c);
      whole := w + [c];
    }
    if c == '0' {
      if !hasNonZero {
        leadingZeros := (leadingZeros + 1) % 256;
      } else if hasSep {
        trailingZeros := (trailingZeros + 1) % 256;
      }
    } else {
      if !hasSep {
        hasNonZero := true;
      } else {
        trailingZeros := 0;
      }
    }
  }

  /** Reads the digits once, counting zeros in eight bits, and cuts them off. */
  method TryExtractAmount(str: string) returns (result: string)
    ensures result == Normal(str)
  {
    if |str| > MAX_LENGTH {
      return "0";
    }
    var hasSep, hasNonZero := false, false;
    var leadingZeros, trailingZeros := 0, 0;
    result := "";
    ghost var whole, separator, fraction := "", "", "";
    var i := 0;
    hide LeadingZeros, TrailingZeros, Normal;
    while i < |str|
      invariant 0 <= i <= |str|
      invariant str[..i] == Written(whole, separator, fraction) && Parts(whole, separator, fraction)
      invariant result == Written(whole, if hasSep then "." else "", fraction)
      invariant hasSep <==> separator != []
      invariant hasNonZero <==> hasSep || LeadingZeros(whole) < |whole|
      invariant leadingZeros == LeadingZeros(whole) % 256 && trailingZeros == TrailingZeros(fraction)
    {
      var c := str[i];
      assert str[..i + 1] == str[..i] + [c];
      WrittenGrows(whole, separator, fraction, c);
      WrittenGrows(whole, ".", fraction, c);
      WrittenGrows(whole, "", "", '.');
      if !IsDigit(c) && !IsSeparator(c) {
        Malformed(str, i);
        return "0";
      }
      if !IsDigit(c) {
        if hasSep {
          assert str[..i][|whole|] == separator[0];
          Malformed(str, i);
          return "0";
        }
        hasSep, hasNonZero := true, true;
        separator := [c];
        result := result + ['.'];
      } else {
        hasNonZero, leadingZeros, trailingZeros, whole, fraction :=
          CountDigit(c, hasSep, hasNonZero, leadingZeros, trailingZeros, whole, fraction);
        result := result + [c];
      }
      i := i + 1;
    }
    assert str[..i] == str;
    result := CutZeros(result, leadingZeros, trailingZeros, whole, separator, fraction);
  }

  /** Dropping what is in front of the whole part and behind the fraction. */
  lemma CutAround(a: string, whole: string, point: string, fraction: string, c: string)
    ensures var text := Written(a + whole, point, fraction + c);
      |a| <= |text| - |c| && text[|a|..|text| - |c|] == Written(whole, point, fraction)
  {
    var b := Written(whole, point, fraction);
    Bytes.Regroup(a, whole, point);
    Bytes.Regroup(a + (whole + point), fraction, c);
    Bytes.Regroup(a, whole + point, fraction);
    var text := (a + b) + c;
    assert Written(a + whole, point, fraction + c) == text;
    assert text[..|a| + |b|] == a + b;
  }

  lemma Zeros(whole: string, fraction: string) returns (a: string, c: string)
    ensures whole == a + Stripped(whole) && |a| == LeadingZeros(whole)
    ensures fraction == Trimmed(fraction) + c && |c| == TrailingZeros(fraction)
  {
    a, c := whole[..LeadingZeros(whole)], fraction[|fraction| - TrailingZeros(fraction)..];
  }

  lemma CutParts(whole: string, point: string, fraction: string)
    ensures var text := Written(whole, point, fraction);
      && LeadingZeros(whole) <= |text| - TrailingZeros(fraction)
      && text[LeadingZeros(whole)..|text| - TrailingZeros(fraction)] ==
           Written(Stripped(whole), point, Trimmed(fraction))
  {
    hide *;
    var a, c := Zeros(whole, fraction);
    CutAround(a, Stripped(whole), point, Trimmed(fraction), c);
  }

  /** The eight-bit count is off only for a text of nothing but zeros, as long as is allowed. */
  lemma CountWraps(whole: string, separator: string, fraction: string)
    requires Parts(whole, separator, fraction) && |Written(whole, separator, fraction)| <= MAX_LENGTH
    ensures AllZeros(Written(whole, separator, fraction)) ==> separator == [] && LeadingZeros(whole) == 256
    ensures !AllZeros(Written(whole, separator, fraction)) ==> LeadingZeros(whole) < 256
  {
    var s := Written(whole, separator, fraction);
    LeadingZerosAre(whole);
    assert forall i :: 0 <= i < |whole| ==> s[i] == whole[i];
    if separator != [] {
      assert s[|whole|] == separator[0];
    }
  }

  /** What the cut leaves of the whole part. */
  ghost function Kept(whole: string, separator: string, fraction: string): (w: string) {
    if AllZeros(Written(whole, separator, fraction)) then whole else Stripped(whole)
  }

  lemma CutIsAllZeros(whole: string, separator: string, fraction: string, point: string)
    requires Parts(whole, separator, fraction) && AllZeros(Written(whole, separator, fraction))
    requires point == if separator != [] then "." else ""
    ensures LeadingZeros(whole) % 256 == 0 && TrailingZeros(fraction) == 0
    ensures var text := Written(whole, point, fraction);
      text[0..|text|] == Written(Kept(whole, separator, fraction), point, Trimmed(fraction))
  {
    CountWraps(whole, separator, fraction);
  }

  lemma CutIs(whole: string, separator: string, fraction: string, point: string, leadingZeros: nat)
    requires Parts(whole, separator, fraction) && |Written(whole, separator, fraction)| <= MAX_LENGTH
    requires point == (if separator != [] then "." else "") && leadingZeros == LeadingZeros(whole) % 256
    ensures var text := Written(whole, point, fraction);
      && leadingZeros <= |text| - TrailingZeros(fraction)
      && text[leadingZeros..|text| - TrailingZeros(fraction)] ==
           Written(Kept(whole, separator, fraction), point, Trimmed(fraction))
  {
    hide Written, LeadingZeros, TrailingZeros, AllZeros, Parts, Trimmed, Stripped;
    CountWraps(whole, separator, fraction);
    if AllZeros(Written(whole, separator, fraction)) {
      CutIsAllZeros(whole, separator, fraction, point);
    } else {
      CutParts(whole, point, fraction);
    }
  }

  lemma NormalIs(whole: string, separator: string, fraction: string)
    requires Parts(whole, separator, fraction) && |Written(whole, separator, fraction)| <= MAX_LENGTH
    ensures Normal(Written(whole, separator, fraction)) == Tidy(Kept(whole, separator, fraction), Trimmed(fraction))
  {
    PartsOfWritten(whole, separator, fraction);
    WrittenIsWellFormed(whole, separator, fraction);
    CountWraps(whole, separator, fraction);
    if AllZeros(Written(whole, separator, fraction)) {
      assert Written(whole, separator, fraction) == whole;
    }
  }

  lemma KeptDigits(whole: string, separator: string, fraction: string)
    requires Parts(whole, separator, fraction)
    ensures AllDigits(Kept(whole, separator, fraction)) && AllDigits(Trimmed(fraction))
    ensures separator == [] ==> Trimmed(fraction) == []
  {
  }

  method CutZeros(text: string, leadingZeros: nat, trailingZeros: nat, ghost whole: string, ghost separator: string,
    ghost fraction: string)
    returns (result: string)
    requires Parts(whole, separator, fraction) && |Written(whole, separator, fraction)| <= MAX_LENGTH
    requires text == Written(whole, if separator != [] then "." else "", fraction)
    requires leadingZeros == LeadingZeros(whole) % 256 && trailingZeros == TrailingZeros(fraction)
    ensures result == Normal(Written(whole, separator, fraction))
  {
    ghost var point := if separator != [] then "." else "";
    NormalIs(whole, separator, fraction);
    CutIs(whole, separator, fraction, point, leadingZeros);
    if text == [] {
      assert whole == [] && fraction == [];
      return "0";
    }
    hide LeadingZeros, TrailingZeros, Written, Normal, Kept, Stripped;
    KeptDigits(whole, separator, fraction);
    result := Finish(text[leadingZeros..|text| - trailingZeros], Kept(whole, separator, fraction), point,
      Trimmed(fraction));
  }

  method Finish(cut: string, ghost whole: string, ghost point: string, ghost fraction: string) returns (result: string)
    requires cut == Written(whole, point, fraction) && AllDigits(whole) && AllDigits(fraction)
    requires point == "." || (point == "" && fraction == "")
    ensures result == Tidy(whole, fraction)
  {
    result := cut;
    if result == [] {
      return "0";
    }
    assert whole != [] ==> result[0] == whole[0];
    if result[0] == '.' {
      result := ['0'] + result;
    }
    ghost var w := if whole == [] then "0" else whole;
    assert result == Written(w, point, fraction);
    assert fraction != [] ==> result[|result| - 1] == fraction[|fraction| - 1];
    if result[|result| - 1] == '.' {
      result := result[..|result| - 1];
    }
  }

  // ----- values

  function Digit(c: char): (d: nat)
    requires IsDigit(c)
    ensures d < 10 && (d == 0 <==> c == '0')
  {
    c as int - '0' as int
  }

  function WholeValue(s: string): (v: nat)
    requires AllDigits(s)
  {
    if s == [] then 0 else WholeValue(s[..|s| - 1]) * 10 + Digit(s[|s| - 1])
  }

  function FractionValue(s: string): (v: real)
    requires AllDigits(s)
    ensures 0.0 <= v < 1.0
  {
    if s == [] then 0.0 else (Digit(s[0]) as real + FractionValue(s[1..])) / 10.0
  }

  function Value(whole: string, fraction: string): (v: real)
    requires AllDigits(whole) && AllDigits(fraction)
  {
    WholeValue(whole) as real + FractionValue(fraction)
  }

  function Pow10(n: nat): (r: nat) {
    if n == 0 then 1 else 10 * Pow10(n - 1)
  }

  lemma {:induction false} WholeFromFront(s: string)
    requires AllDigits(s) && s != []
    ensures WholeValue(s) == Digit(s[0]) * Pow10(|s| - 1) + WholeValue(s[1..])
  {
    var n := |s| - 1;
    if n == 0 {
      assert s[..0] == [] && s[1..] == [];
    } else {
      WholeFromFront(s[..n]);
      assert s[1..][..n - 1] == s[..n][1..] && s[1..][n - 1] == s[n];
      Shifted(Digit(s[0]), Pow10(n - 1), WholeValue(s[..n][1..]));
    }
  }

  lemma Shifted(d: nat, p: nat, v: nat)
    ensures (d * p + v) * 10 == d * (10 * p) + v * 10
  {
  }

  /** What the decimals stand for: as many of them as there are, they are the number they spell over that power of
      ten. */
  lemma {:induction false} FractionSpells(s: string)
    requires AllDigits(s)
    ensures FractionValue(s) * Pow10(|s|) as real == WholeValue(s) as real
  {
    hide WholeValue, FractionValue, Pow10, Digit;
    if s == [] {
      NothingSpelled();
    } else {
      FractionSpells(s[1..]);
      WholeFromFront(s);
      FractionFromFront(s);
      Scaled(Digit(s[0]), FractionValue(s[1..]), Pow10(|s| - 1), WholeValue(s[1..]));
    }
  }

  lemma NothingSpelled()
    ensures WholeValue([]) == 0 && FractionValue([]) == 0.0
  {
  }

  lemma FractionFromFront(s: string)
    requires AllDigits(s) && s != []
    ensures FractionValue(s) == (Digit(s[0]) as real + FractionValue(s[1..])) / 10.0
    ensures Pow10(|s|) == 10 * Pow10(|s| - 1)
  {
  }

  lemma Scaled(d: nat, f: real, p: nat, v: nat)
    requires f * p as real == v as real
    ensures (d as real + f) / 10.0 * (10 * p) as real == (d * p + v) as real
  {
    assert (d as real + f) / 10.0 * (10 * p) as real == (d as real + f) * p as real;
    assert (d as real + f) * p as real == d as real * p as real + f * p as real;
  }

  /** The characters that are digits and separators. */
  lemma CharactersAre(c: char)
    ensures IsDigit(c) <==> c in "0123456789"
    ensures IsSeparator(c) <==> c in ".,"
  {
    var digits := "0123456789";
    if IsDigit(c) {
      assert digits[c as int - '0' as int] == c;
    }
    if c in digits {
      var i :| 0 <= i < 10 && digits[i] == c;
    }
    assert ".,"[0] == '.' && ".,"[1] == ',';
  }

  /** The number a text stands for: zero when it is not one. */
  ghost function ValueOf(s: string): (v: real) {
    if WellFormed(s) then (WellFormedHasDigits(s); Value(Whole(s), Fraction(s))) else 0.0
  }

  lemma {:induction false} LeadingZeroIsNothing(s: string)
    requires AllDigits(s) && s != [] && s[0] == '0'
    ensures WholeValue(s[1..]) == WholeValue(s)
  {
    if |s| <= 1 {
    } else {
      LeadingZeroIsNothing(s[..|s| - 1]);
      assert s[..|s| - 1][1..] == s[1..][..|s| - 2];
    }
  }

  lemma {:induction false} StrippedValue(s: string)
    requires AllDigits(s)
    ensures AllDigits(Stripped(s)) && WholeValue(Stripped(s)) == WholeValue(s)
    decreases |s|
  {
    if s != [] && s[0] == '0' {
      StrippedValue(s[1..]);
      LeadingZeroIsNothing(s);
      assert Stripped(s) == Stripped(s[1..]);
    } else {
      assert Stripped(s) == s;
    }
  }

  lemma {:induction false} TrailingZeroIsNothing(s: string)
    requires AllDigits(s) && s != [] && s[|s| - 1] == '0'
    ensures FractionValue(s[..|s| - 1]) == FractionValue(s)
  {
    if |s| <= 1 {
    } else {
      TrailingZeroIsNothing(s[1..]);
      assert s[1..][..|s| - 2] == s[..|s| - 1][1..];
    }
  }

  lemma {:induction false} TrimmedValue(s: string)
    requires AllDigits(s)
    ensures AllDigits(Trimmed(s)) && FractionValue(Trimmed(s)) == FractionValue(s)
    decreases |s|
  {
    if s != [] && s[|s| - 1] == '0' {
      TrimmedValue(s[..|s| - 1]);
      TrailingZeroIsNothing(s);
      assert Trimmed(s) == Trimmed(s[..|s| - 1]);
    } else {
      assert Trimmed(s) == s;
    }
  }

  lemma {:induction false} WholeIsPositive(s: string)
    requires AllDigits(s) && s != [] && s[0] != '0'
    ensures WholeValue(s) > 0
  {
    if |s| <= 1 {
    } else {
      WholeIsPositive(s[..|s| - 1]);
    }
  }

  lemma {:induction false} FractionIsPositive(s: string)
    requires AllDigits(s) && s != [] && s[|s| - 1] != '0'
    ensures FractionValue(s) > 0.0
  {
    if |s| <= 1 {
    } else {
      FractionIsPositive(s[1..]);
    }
  }

  /** Without superfluous zeros the digits are determined by the value. */
  lemma {:induction false} WholeIsDetermined(s: string, t: string)
    requires AllDigits(s) && AllDigits(t) && (s != [] ==> s[0] != '0') && (t != [] ==> t[0] != '0')
    requires WholeValue(s) == WholeValue(t)
    ensures s == t
    decreases |s|
  {
    if s == [] || t == [] {
      if s != [] { WholeIsPositive(s); }
      if t != [] { WholeIsPositive(t); }
    } else {
      WholeIsDetermined(s[..|s| - 1], t[..|t| - 1]);
      assert s == s[..|s| - 1] + [s[|s| - 1]] && t == t[..|t| - 1] + [t[|t| - 1]];
    }
  }

  lemma {:induction false} FractionIsDetermined(s: string, t: string)
    requires AllDigits(s) && AllDigits(t) && (s != [] ==> s[|s| - 1] != '0') && (t != [] ==> t[|t| - 1] != '0')
    requires FractionValue(s) == FractionValue(t)
    ensures s == t
    decreases |s|
  {
    if s == [] || t == [] {
      if s != [] { FractionIsPositive(s); }
      if t != [] { FractionIsPositive(t); }
    } else {
      SumsAreDetermined(Digit(s[0]), FractionValue(s[1..]), Digit(t[0]), FractionValue(t[1..]));
      FractionIsDetermined(s[1..], t[1..]);
      assert s == [s[0]] + s[1..] && t == [t[0]] + t[1..];
    }
  }

  lemma SumsAreDetermined(a: nat, x: real, b: nat, y: real)
    requires 0.0 <= x < 1.0 && 0.0 <= y < 1.0 && a as real + x == b as real + y
    ensures a == b && x == y
  {
    assert -1.0 < a as real - b as real < 1.0;
  }

  // ----- what the text promises

  /** A decimal without superfluous zeros, with a digit in front of the point and one other than zero at its end. */
  ghost predicate IsCanonical(r: string) {
    var w, f := Whole(r), Fraction(r);
    && AllDigits(w) && AllDigits(f) && w != [] && (w == "0" || w[0] != '0')
    && (r == w || (r == Written(w, ".", f) && f != [] && f[|f| - 1] != '0'))
  }

  lemma StrippedHasNoZero(whole: string)
    ensures Stripped(whole) != [] ==> Stripped(whole)[0] != '0'
  {
    LeadingZerosAre(whole);
  }

  lemma TrimmedHasNoZero(fraction: string)
    ensures var f := Trimmed(fraction); f != [] ==> f[|f| - 1] != '0'
  {
    TrailingZerosAre(fraction);
  }

  ghost function Front(whole: string): (w: string) {
    if whole == [] then "0" else whole
  }

  lemma TidyParts(whole: string, fraction: string)
    requires AllDigits(whole) && AllDigits(fraction)
    ensures Whole(Tidy(whole, fraction)) == Front(whole) && Fraction(Tidy(whole, fraction)) == fraction
    ensures |Tidy(whole, fraction)| <= MAX_LENGTH ==> WellFormed(Tidy(whole, fraction))
    ensures AllDigits(Front(whole))
  {
    var w, point := Front(whole), if fraction == [] then "" else ".";
    assert Tidy(whole, fraction) == Written(w, point, fraction);
    PartsOfWritten(w, point, fraction);
    if |Tidy(whole, fraction)| <= MAX_LENGTH {
      WrittenIsWellFormed(w, point, fraction);
    }
  }

  lemma PartsWithoutZeros(s: string)
    requires WellFormed(s)
    ensures AllDigits(Whole(s)) && AllDigits(Fraction(s))
    ensures var w, f := Stripped(Whole(s)), Trimmed(Fraction(s));
      && AllDigits(w) && AllDigits(f) && (w != [] ==> w[0] != '0') && (f != [] ==> f[|f| - 1] != '0')
      && WholeValue(w) == WholeValue(Whole(s)) && FractionValue(f) == FractionValue(Fraction(s))
  {
    hide *;
    WellFormedHasDigits(s);
    StrippedValue(Whole(s));
    TrimmedValue(Fraction(s));
    StrippedHasNoZero(Whole(s));
    TrimmedHasNoZero(Fraction(s));
  }

  lemma FrontValue(whole: string)
    requires AllDigits(whole)
    ensures AllDigits(Front(whole)) && WholeValue(Front(whole)) == WholeValue(whole)
  {
    assert "0"[..0] == "" && WholeValue("0") == 0;
  }

  lemma CanonicalParts(s: string)
    requires WellFormed(s) && !AllZeros(s)
    ensures AllDigits(Whole(s)) && AllDigits(Fraction(s))
    ensures var w, f := Stripped(Whole(s)), Trimmed(Fraction(s));
      && AllDigits(w) && AllDigits(f) && Normal(s) == Tidy(w, f) && Whole(Normal(s)) == Front(w) &&
           Fraction(Normal(s)) == f
      && (w != [] ==> w[0] != '0') && (f != [] ==> f[|f| - 1] != '0')
      && Value(w, f) == ValueOf(s) && WholeValue(Front(w)) == WholeValue(w)
  {
    hide Whole, Fraction, Stripped, Trimmed, Tidy, WholeValue, FractionValue, Front, WellFormed, AllDigits, AllZeros;
    PartsWithoutZeros(s);
    var w, f := Stripped(Whole(s)), Trimmed(Fraction(s));
    TidyParts(w, f);
    FrontValue(w);
  }

  lemma ZeroParts()
    ensures Whole("0") == "0" && Fraction("0") == "" && WellFormed("0")
  {
    TidyParts("", "");
  }

  lemma TidyIsCanonical(w: string, f: string)
    requires AllDigits(w) && AllDigits(f) && (w != [] ==> w[0] != '0') && (f != [] ==> f[|f| - 1] != '0')
    ensures IsCanonical(Tidy(w, f))
  {
    hide Whole, Fraction, WellFormed, Written, AllDigits;
    TidyParts(w, f);
  }

  lemma AllZerosIsNotCanonical(s: string)
    requires AllZeros(s)
    ensures WellFormed(s) && !IsCanonical(s)
  {
    hide Whole, Fraction, Written;
    AllZerosParts(s);
  }

  /** The result is canonical for every text but the one whose count of zeros wraps. */
  lemma CanonicalIff(s: string)
    ensures IsCanonical(Normal(s)) <==> !AllZeros(s)
  {
    hide IsCanonical, WellFormed, AllZeros, Whole, Fraction, Stripped, Trimmed;
    if AllZeros(s) {
      AllZerosIsNotCanonical(s);
    } else if WellFormed(s) {
      CanonicalParts(s);
      TidyIsCanonical(Stripped(Whole(s)), Trimmed(Fraction(s)));
    } else {
      TidyIsCanonical("", "");
      assert Tidy("", "") == "0";
    }
  }

  lemma AllZerosParts(s: string)
    requires AllZeros(s)
    ensures WellFormed(s) && Whole(s) == s && Fraction(s) == ""
  {
    FirstSeparator(s, |s|);
    assert s[..|s|] == s;
  }

  /** The value survives. */
  lemma ValueIsKept(s: string)
    requires WellFormed(s)
    ensures AllDigits(Whole(Normal(s))) && AllDigits(Fraction(Normal(s)))
    ensures Value(Whole(Normal(s)), Fraction(Normal(s))) == ValueOf(s)
  {
    if AllZeros(s) {
      WellFormedHasDigits(s);
    } else {
      CanonicalParts(s);
    }
  }

  /** Two numbers get the same text exactly when they are equal, except that the text whose count wraps is not
      recognised as zero. */
  lemma SameTextIffSameValue(s: string, t: string)
    requires WellFormed(s) && WellFormed(t)
    ensures Normal(s) == Normal(t) <==> ValueOf(s) == ValueOf(t) && (AllZeros(s) <==> AllZeros(t))
  {
    CanonicalIff(s);
    CanonicalIff(t);
    ValueIsKept(s);
    ValueIsKept(t);
    if AllZeros(s) && AllZeros(t) {
      assert s == t;
    } else if !AllZeros(s) && !AllZeros(t) {
      PlainTexts(s, t);
    }
  }

  lemma PlainTexts(s: string, t: string)
    requires WellFormed(s) && WellFormed(t) && !AllZeros(s) && !AllZeros(t)
    ensures Normal(s) == Normal(t) <==> ValueOf(s) == ValueOf(t)
  {
    ValueIsKept(s);
    ValueIsKept(t);
    if ValueOf(s) == ValueOf(t) {
      CanonicalParts(s);
      CanonicalParts(t);
      var w, f := Stripped(Whole(s)), Trimmed(Fraction(s));
      var v, g := Stripped(Whole(t)), Trimmed(Fraction(t));
      SumsAreDetermined(WholeValue(w), FractionValue(f), WholeValue(v), FractionValue(g));
      WholeIsDetermined(w, v);
      FractionIsDetermined(f, g);
    }
  }

  /** The result is "0" for malformed text and for zero, unless the count wraps, and for nothing else. */
  lemma ZeroIff(s: string)
    ensures Normal(s) == "0" <==> ValueOf(s) == 0.0 && !AllZeros(s)
  {
    if AllZeros(s) {
      AllZerosParts(s);
    } else if WellFormed(s) {
      ZeroParts();
      assert ValueOf("0") == 0.0 by {
        assert "0"[..0] == "" && WholeValue("0") == 0;
      }
      assert Normal("0") == "0" by {
        NormalOfZero();
      }
      PlainTexts(s, "0");
    }
  }

  lemma NormalOfZero()
    ensures Normal("0") == "0" && !AllZeros("0")
  {
    ZeroParts();
    assert "0"[1..] == "" && LeadingZeros("") == 0;
    assert Stripped("0") == "";
  }

  /** A text that grows past the limit: full length, no digit in front of the point, and none to cut off behind it. */
  ghost predicate Outgrows(s: string) {
    WellFormed(s) && |s| == MAX_LENGTH && IsSeparator(s[0]) && s[MAX_LENGTH - 1] != '0'
  }

  lemma Lengths(s: string)
    ensures |s| == |Whole(s)| + (if SeparatorAt(s) < |s| then 1 + |Fraction(s)| else 0)
    ensures SeparatorAt(s) == |s| ==> Fraction(s) == ""
    ensures SeparatorAt(s) == |Whole(s)| && (Fraction(s) != "" ==> Fraction(s)[|Fraction(s)| - 1] == s[|s| - 1])
  {
  }

  lemma OutgrowsIs(s: string)
    requires WellFormed(s)
    ensures Outgrows(s) <==> Whole(s) == "" && |Fraction(s)| == MAX_LENGTH - 1 && TrailingZeros(Fraction(s)) == 0
  {
    Lengths(s);
    TrailingZerosAre(Fraction(s));
    hide Whole, Fraction, WellFormed;
    if Whole(s) == "" && |Fraction(s)| == MAX_LENGTH - 1 {
      assert IsSeparator(s[0]);
    }
  }

  lemma TidyLength(w: string, f: string)
    ensures |Tidy(w, f)| == (if w == [] then 1 else |w|) + (if f == [] then 0 else 1 + |f|)
  {
  }

  lemma LengthOfNormal(s: string)
    requires WellFormed(s) && !AllZeros(s)
    ensures |Normal(s)| > MAX_LENGTH <==> Outgrows(s)
  {
    CanonicalParts(s);
    Lengths(s);
    OutgrowsIs(s);
    assert |s| <= MAX_LENGTH;
    var w, f := Stripped(Whole(s)), Trimmed(Fraction(s));
    assert |w| <= |Whole(s)| && |f| == |Fraction(s)| - TrailingZeros(Fraction(s));
    TidyLength(w, f);
    GrowsOnlyByADigit(|s|, |Whole(s)|, |Fraction(s)|, TrailingZeros(Fraction(s)), |w|, |f|, SeparatorAt(s) < |s|);
  }

  /** The longest text grows only if nothing stands before the point and nothing is cut off behind it. */
  lemma GrowsOnlyByADigit(n: nat, whole: nat, fraction: nat, zeros: nat, w: nat, f: nat, hasPoint: bool)
    requires n <= MAX_LENGTH && n == whole + (if hasPoint then 1 + fraction else 0) && (!hasPoint ==> fraction == 0)
    requires w <= whole && zeros <= fraction && f == fraction - zeros
    ensures (if w == 0 then 1 else w) + (if f == 0 then 0 else 1 + f) > MAX_LENGTH
       <==> whole == 0 && fraction == MAX_LENGTH - 1 && zeros == 0
  {
  }

  lemma NormalOfCanonical(w: string, f: string)
    requires AllDigits(w) && AllDigits(f) && (w != [] ==> w[0] != '0') && (f != [] ==> f[|f| - 1] != '0')
    requires |Tidy(w, f)| <= MAX_LENGTH
    ensures Normal(Tidy(w, f)) == Tidy(w, f)
  {
    var r := Tidy(w, f);
    TidyParts(w, f);
    if w == [] {
      assert "0"[1..] == "" && LeadingZeros("") == 0;
      assert Stripped("0") == "";
    } else {
      assert Stripped(w) == w;
    }
    assert Trimmed(f) == f;
    assert !AllZeros(r) by {
      assert w != [] ==> r[0] == w[0];
      if w == [] && f != [] {
        assert r[1] == '.';
      }
    }
  }

  /** Doing it twice changes nothing, except for a text that outgrew the limit the first time. */
  lemma IdempotentIff(s: string)
    ensures Normal(Normal(s)) == Normal(s) <==> !Outgrows(s)
  {
    if !WellFormed(s) {
      NormalOfZero();
    } else if !AllZeros(s) {
      IdempotentUnlessItOutgrows(s);
    }
  }

  lemma IdempotentUnlessItOutgrows(s: string)
    requires WellFormed(s) && !AllZeros(s)
    ensures Normal(Normal(s)) == Normal(s) <==> !Outgrows(s)
  {
    LengthOfNormal(s);
    if Outgrows(s) {
      assert !WellFormed(Normal(s));
    } else {
      hide Outgrows, WellFormed, AllZeros, Tidy, AllDigits, Stripped, Trimmed, Whole, Fraction;
      CanonicalParts(s);
      NormalOfCanonical(Stripped(Whole(s)), Trimmed(Fraction(s)));
    }
  }

  /** The two exceptions occur. */
  lemma Exceptions()
    ensures var zeros := seq(MAX_LENGTH, i => '0'); Normal(zeros) == zeros && !IsCanonical(zeros)
    ensures var ones := ['.'] + seq(MAX_LENGTH - 1, i => '1'); Normal(ones) != Normal(Normal(ones))
  {
    var zeros := seq(MAX_LENGTH, i => '0');
    AllZerosIsNotCanonical(zeros);
    var ones := ['.'] + seq(MAX_LENGTH - 1, i => '1');
    assert Outgrows(ones);
    IdempotentIff(ones);
  }
}
