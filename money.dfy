/**
 * The money codec of the finance tracker: amounts are integer cents, shown as
 * `<euros with ',' thousands grouping>.<two-digit cents>` and typed in as `E.C` or `E,C`.
 */
module Money {
  import opened Options
  import opened PyText

  /** The two characters accepted between the euro part and the cent part. */
  predicate IsSeparator(c: char) {
    c == '.' || c == ','
  }

  /** The `ValueError`s that escape from `convert_to_cents` once its guard has passed. */
  datatype ConvertError =
    | UnpackError  // `euro, cents = money_str.split(".")` when there is no separator
    | IntError     // `int('')` when the euro part or the cent part is empty

  /** What `convert_to_cents` does: return a cent amount, return `None`, or raise. */
  datatype Conversion = Cents(amount: nat) | NoAmount | Raises(error: ConvertError)

  // ---------------------------------------------------------------------------
  // format_from_cents

  /**
   * `format_from_cents`: `None` and 0 give "0.00"; otherwise floor division and modulo by
   * 100 split the amount, the euros are written with `,` grouping (a leading `-` when
   * negative) and the cents with two digits. Reading the text back gives the amount.
   */
  function FormatFromCents(cents: Option<int>): (r: string)
    ensures cents == None || cents == Some(0) ==> r == "0.00"
    ensures |r| >= 4 && r[|r| - 3] == '.' && AllDigits(r[|r| - 2..])
    ensures cents.Some? && cents.value >= 0 ==>
      var euros := Int(Ungrouped(r[..|r| - 3]));
      euros.Some? && euros.value * 100 + ValueOf(r[|r| - 2..]) == cents.value
    ensures cents.Some? && cents.value < 0 ==>
      r[0] == '-' &&
      var euros := Int(Ungrouped(r[1..|r| - 3]));
      euros.Some? && ValueOf(r[|r| - 2..]) - euros.value * 100 == cents.value
  {
    if cents == None || cents == Some(0) then
      ReadsBackAsEuros(0);
      assert "0.00"[..1] == Grouped(0) && "0.00"[2..] == Pad2(0);
      "0.00"
    else
      var euros, rest := cents.value / 100, cents.value % 100;
      var whole := if euros < 0 then "-" + Grouped(-euros) else Grouped(euros);
      var r := whole + "." + Pad2(rest);
      assert r[..|r| - 3] == whole && r[|r| - 2..] == Pad2(rest);
      assert euros < 0 ==> r[1..|r| - 3] == Grouped(-euros);
      ReadsBackAsEuros(if euros < 0 then -euros else euros);
      r
  }

  /** The grouped euro text, with its commas removed, is read back by `int` as the euros. */
  lemma ReadsBackAsEuros(n: nat)
    ensures Int(Ungrouped(Grouped(n))) == Some(n)
  {
    UngroupedGrouped(n);
    IntOfDecimal(n);
  }

  // ---------------------------------------------------------------------------
  // convert_to_cents

  /**
   * `convert_to_cents`: after mapping `,` to `.` and deleting the first `.`, the text must be
   * `isdigit()`, or `None` is returned; then the text is split at `.` into exactly two parts
   * (else the unpacking raises), each read by `int` (which raises on an empty part), and the
   * result is `euro * 100 + cents` with the cent part taken literally.
   */
  function ConvertToCents(moneyStr: string): Conversion {
    var normalized := ReplaceAll(moneyStr, ',', '.');
    if !IsDigitStr(DeleteFirst(normalized, '.')) then NoAmount
    else
      ReadParts(Split(normalized, '.'))
  }

  /** `euro, cents = parts`, then `int(euro) * 100 + int(cents)`. */
  function ReadParts(parts: seq<string>): Conversion {
    if |parts| != 2 then Raises(UnpackError)
    else
      match (Int(parts[0]), Int(parts[1]))
      case (Some(euro), Some(cents)) => Cents(euro * 100 + cents)
      case _ => Raises(IntError)
  }

  /** Index of the first `.` or `,` in `s`, or `|s|` when there is none. */
  function FirstSeparator(s: string): (k: nat)
    ensures k <= |s|
    ensures forall i :: 0 <= i < k ==> !IsSeparator(s[i])
    ensures k < |s| ==> IsSeparator(s[k])
  {
    if s == [] || IsSeparator(s[0]) then 0 else 1 + FirstSeparator(s[1..])
  }

  /**
   * A second reading of `convert_to_cents`, cut at the first separator instead of built from
   * `replace` and `split`: text without a separator raises when it is all digits; otherwise
   * both sides of the separator must be digits only (so no second separator) and not both
   * empty; an empty side raises, and two digit parts give `whole * 100 + fraction`.
   */
  function Classify(s: string): Conversion {
    var k := FirstSeparator(s);
    if k == |s| then
      if IsDigitStr(s) then Raises(UnpackError) else NoAmount
    else
      var whole, fraction := s[..k], s[k + 1..];
      if !AllDigits(whole) || !AllDigits(fraction) || |s| == 1 then NoAmount
      else ReadDigitParts(whole, fraction)
  }

  /** Two digit-only parts: an empty one raises, otherwise `whole * 100 + fraction`. */
  function ReadDigitParts(whole: string, fraction: string): Conversion
    requires AllDigits(whole) && AllDigits(fraction)
  {
    if whole == [] || fraction == [] then Raises(IntError)
    else Cents(ValueOf(whole) * 100 + ValueOf(fraction))
  }

  /** `FirstSeparator` is the position of the one separator when no earlier one exists. */
  lemma FirstSeparatorAt(s: string, p: nat)
    requires p <= |s| && (p < |s| ==> IsSeparator(s[p]))
    requires forall i :: 0 <= i < p ==> !IsSeparator(s[i])
    ensures FirstSeparator(s) == p
  {
  }

  /** Without a separator, `replace` and `split` leave the text whole. */
  lemma ClassifiedNoSeparator(s: string)
    requires FirstSeparator(s) == |s|
    ensures ConvertToCents(s) == Classify(s)
  {
    assert ReplaceAll(s, ',', '.') == s;
    DeleteFirstAbsent(s, '.');
    SplitAbsent(s, '.');
  }

  /** With the first separator at `k`, mapping `,` to `.` puts a `.` there and nowhere before. */
  lemma NormalizedAtSeparator(s: string, k: nat)
    requires k < |s| && k == FirstSeparator(s)
    ensures ReplaceAll(s, ',', '.') == s[..k] + ['.'] + ReplaceAll(s[k + 1..], ',', '.')
  {
    var whole, tail := s[..k], ReplaceAll(s[k + 1..], ',', '.');
    var normalized, glued := ReplaceAll(s, ',', '.'), whole + ['.'] + tail;
    assert |normalized| == |glued|;
    forall i | 0 <= i < |s| ensures normalized[i] == glued[i] {
      if i < k {
        assert glued[i] == whole[i] == s[i] && !IsSeparator(s[i]);
      } else if i > k {
        assert glued[i] == tail[i - k - 1];
      }
    }
  }

  /** Mapping commas to dots keeps a text digit-only exactly when it was digit-only. */
  lemma ReplaceKeepsDigits(f: string)
    ensures AllDigits(ReplaceAll(f, ',', '.')) <==> AllDigits(f)
    ensures AllDigits(f) ==> ReplaceAll(f, ',', '.') == f
  {
    var t := ReplaceAll(f, ',', '.');
    assert forall i :: 0 <= i < |f| ==> (IsDigit(t[i]) <==> IsDigit(f[i]));
  }

  /** With a separator at `k`, the guard of `convert_to_cents` sees both sides joined. */
  lemma GuardAtSeparator(s: string, k: nat)
    requires k < |s| && k == FirstSeparator(s)
    ensures DeleteFirst(ReplaceAll(s, ',', '.'), '.') == s[..k] + ReplaceAll(s[k + 1..], ',', '.')
  {
    NormalizedAtSeparator(s, k);
    assert '.' !in s[..k];
    DeleteFirstAt(s[..k], '.', ReplaceAll(s[k + 1..], ',', '.'));
  }

  /** The guard passes exactly when both sides are digit-only and not both empty. */
  lemma GuardPassesAtSeparator(whole: string, fraction: string)
    ensures IsDigitStr(whole + ReplaceAll(fraction, ',', '.')) <==>
      AllDigits(whole) && AllDigits(fraction) && |whole| + |fraction| > 0
  {
    var tail := ReplaceAll(fraction, ',', '.');
    ReplaceKeepsDigits(fraction);
    var guard := whole + tail;
    if AllDigits(guard) {
      assert whole == guard[..|whole|] && tail == guard[|whole|..];
    }
  }

  /** Once the guard passed, `split` yields the two sides and `int` reads them. */
  lemma PartsAtSeparator(s: string, k: nat)
    requires k < |s| && k == FirstSeparator(s)
    requires AllDigits(s[..k]) && AllDigits(s[k + 1..])
    ensures ReadParts(Split(ReplaceAll(s, ',', '.'), '.')) == ReadDigitParts(s[..k], s[k + 1..])
  {
    var whole, fraction := s[..k], s[k + 1..];
    NormalizedAtSeparator(s, k);
    ReplaceKeepsDigits(fraction);
    assert '.' !in whole && '.' !in fraction;
    SplitOnce(whole, '.', fraction);
  }

  lemma ClassifiedWithSeparator(s: string, k: nat)
    requires k < |s| && k == FirstSeparator(s)
    ensures ConvertToCents(s) == Classify(s)
  {
    GuardAtSeparator(s, k);
    GuardPassesAtSeparator(s[..k], s[k + 1..]);
    if AllDigits(s[..k]) && AllDigits(s[k + 1..]) && |s| != 1 {
      PartsAtSeparator(s, k);
    }
  }

  /** The two readings agree on every string. */
  lemma ConvertToCentsClassified(s: string)
    ensures ConvertToCents(s) == Classify(s)
  {
    var k := FirstSeparator(s);
    if k == |s| {
      ClassifiedNoSeparator(s);
    } else {
      ClassifiedWithSeparator(s, k);
    }
  }

  /** A separator at `k` preceded only by digits is the first one. */
  lemma FirstSeparatorAfterDigits(s: string, k: nat)
    requires k < |s| && IsSeparator(s[k]) && AllDigits(s[..k])
    ensures FirstSeparator(s) == k
  {
  }

  /** `convert_to_cents` on digits, one separator at `k`, digits. */
  lemma ConvertAtSeparator(s: string, k: nat)
    requires k < |s| && IsSeparator(s[k]) && AllDigits(s[..k]) && AllDigits(s[k + 1..])
    ensures ConvertToCents(s) ==
      if |s| == 1 then NoAmount else ReadDigitParts(s[..k], s[k + 1..])
  {
    FirstSeparatorAfterDigits(s, k);
    ConvertToCentsClassified(s);
  }

  /**
   * Text with exactly one separator and digit-only parts `whole` and `fraction`: the cent
   * part is taken literally (a one-digit fraction is not scaled, a long one not cut), an
   * empty part raises, and the separator alone is rejected.
   */
  lemma ConvertOneSeparator(s: string, whole: string, sep: char, fraction: string)
    requires s == whole + [sep] + fraction
    requires AllDigits(whole) && AllDigits(fraction) && IsSeparator(sep)
    ensures ConvertToCents(s) ==
      if whole == [] && fraction == [] then NoAmount
      else if whole == [] || fraction == [] then Raises(IntError)
      else Cents(ValueOf(whole) * 100 + ValueOf(fraction))
  {
    assert s[..|whole|] == whole && s[|whole| + 1..] == fraction;
    ConvertAtSeparator(s, |whole|);
  }

  /** A non-empty digit string passes the guard and then fails to unpack into two parts. */
  lemma ConvertWithoutSeparatorRaises(s: string)
    requires IsDigitStr(s)
    ensures ConvertToCents(s) == Raises(UnpackError)
  {
    FirstSeparatorAt(s, |s|);
    ClassifiedNoSeparator(s);
  }

  /** The characters the guard of `convert_to_cents` lets through. */
  ghost predicate PassesGuard(s: string) {
    && (forall i :: 0 <= i < |s| ==> IsDigit(s[i]) || IsSeparator(s[i]))
    && (forall i, j :: 0 <= i < j < |s| && IsSeparator(s[i]) ==> !IsSeparator(s[j]))
    && (exists i :: 0 <= i < |s| && IsDigit(s[i]))
  }

  /**
   * `convert_to_cents` returns `None` exactly when the text holds a character other than a
   * digit, `.` or `,`, holds two separators, or holds no digit at all.
   */
  lemma ConvertNoAmountIff(s: string)
    ensures ConvertToCents(s) == NoAmount <==> !PassesGuard(s)
  {
    ConvertToCentsClassified(s);
    var k := FirstSeparator(s);
    if k == |s| {
      if IsDigitStr(s) {
        assert IsDigit(s[0]);
      }
    } else {
      var whole, fraction := s[..k], s[k + 1..];
      if PassesGuard(s) {
        assert AllDigits(whole) by {
          forall i | 0 <= i < |whole| ensures IsDigit(whole[i]) {
            assert whole[i] == s[i];
          }
        }
        assert AllDigits(fraction) by {
          forall i | 0 <= i < |fraction| ensures IsDigit(fraction[i]) {
            assert fraction[i] == s[k + 1 + i];
          }
        }
        var d :| 0 <= d < |s| && IsDigit(s[d]);
        assert d != k;
      }
      if AllDigits(whole) && AllDigits(fraction) && |s| != 1 {
        forall i | 0 <= i < |s| && i != k ensures IsDigit(s[i]) {
          if i < k { assert s[i] == whole[i]; } else { assert s[i] == fraction[i - k - 1]; }
        }
        assert IsDigit(s[if k == 0 then 1 else 0]);
        assert PassesGuard(s);
      }
    }
  }

  // ---------------------------------------------------------------------------
  // validate_decimal

  /** `validate_decimal`: the whole text matches `\d+(\.|,)\d{2}`. */
  predicate ValidateDecimal(s: string) {
    |s| >= 4 && IsDigitStr(s[..|s| - 3]) && IsSeparator(s[|s| - 3]) && AllDigits(s[|s| - 2..])
  }

  /** Two digits are worth at most 99 cents. */
  lemma TwoDigitsBelow100(f: string)
    requires |f| == 2 && AllDigits(f)
    ensures ValueOf(f) < 100
  {
    assert f[..1][..0] == [];
    assert ValueOf(f[..1]) == DigitValue(f[0]);
    assert ValueOf(f) == DigitValue(f[0]) * 10 + DigitValue(f[1]);
  }

  /**
   * Every text the entry validation accepts is converted, its part after the separator
   * contributing 0..99 cents.
   */
  lemma ValidDecimalConverts(s: string)
    requires ValidateDecimal(s)
    ensures ConvertToCents(s) == Cents(ValueOf(s[..|s| - 3]) * 100 + ValueOf(s[|s| - 2..]))
    ensures ValueOf(s[|s| - 2..]) < 100
  {
    ConvertAtSeparator(s, |s| - 3);
    TwoDigitsBelow100(s[|s| - 2..]);
  }

  /**
   * The entry validation accepts exactly the texts that `convert_to_cents` converts and
   * whose separator is followed by two characters.
   */
  lemma ValidDecimalIff(s: string)
    ensures ValidateDecimal(s) <==> ConvertToCents(s).Cents? && FirstSeparator(s) == |s| - 3
  {
    if ValidateDecimal(s) {
      ValidDecimalConverts(s);
      FirstSeparatorAfterDigits(s, |s| - 3);
    } else {
      ConvertToCentsClassified(s);
    }
  }

  // ---------------------------------------------------------------------------
  // Round trip

  /** Below 1000.00 there is no grouping: the euros are plain `str(euros)`. */
  lemma FormatBelowThousand(x: nat)
    requires x < 100000
    ensures FormatFromCents(Some(x)) == Decimal(x / 100) + ['.'] + Pad2(x % 100)
  {
  }

  /** From 1000.00 up, a grouping comma comes before the `.` of the cents. */
  lemma FormatFromThousand(x: nat) returns (comma: nat)
    requires x >= 100000
    ensures var s := FormatFromCents(Some(x));
      comma < |s| - 3 && s[comma] == ',' && s[|s| - 3] == '.'
  {
    var euros := x / 100;
    var head := Grouped(euros / 1000);
    var s := FormatFromCents(Some(x));
    assert s == head + [','] + Pad3(euros % 1000) + ['.'] + Pad2(x % 100);
    comma := |head|;
  }

  /** Two separators anywhere make `convert_to_cents` return `None`. */
  lemma ConvertRejectsTwoSeparators(s: string, i: nat, j: nat)
    requires i < j < |s| && IsSeparator(s[i]) && IsSeparator(s[j])
    ensures ConvertToCents(s) == NoAmount
  {
    ConvertToCentsClassified(s);
    var k := FirstSeparator(s);
    assert k <= i;
    assert s[k + 1..][j - (k + 1)] == s[j];
  }

  /**
   * Formatting and re-parsing: amounts below 1000.00 come back unchanged; from 1000.00 up
   * the grouping comma is a second separator and the text is rejected.
   */
  lemma FormatThenConvert(x: nat)
    ensures ConvertToCents(FormatFromCents(Some(x))) == if x < 100000 then Cents(x) else NoAmount
  {
    var s := FormatFromCents(Some(x));
    if x < 100000 {
      FormatBelowThousand(x);
      ConvertOneSeparator(s, Decimal(x / 100), '.', Pad2(x % 100));
      ValueOfDecimal(x / 100);
    } else {
      var comma := FormatFromThousand(x);
      ConvertRejectsTwoSeparators(s, comma, |s| - 3);
    }
  }

  /** The formatted text of a non-negative amount holds a comma exactly from 1000.00 up. */
  lemma FormatCommaIff(x: nat)
    ensures ',' in FormatFromCents(Some(x)) <==> x >= 100000
  {
  }

  /** Formatted amounts pass the entry validation exactly below 1000.00. */
  lemma FormatValidIff(x: nat)
    ensures ValidateDecimal(FormatFromCents(Some(x))) <==> x < 100000
  {
    var s := FormatFromCents(Some(x));
    FormatThenConvert(x);
    ValidDecimalIff(s);
    if x < 100000 {
      var whole := if x == 0 then Decimal(0) else Decimal(x / 100);
      assert s == whole + ['.'] + Pad2(x % 100);
      assert s[..|s| - 3] == whole;
    }
  }

  // ---------------------------------------------------------------------------
  // Worked examples

  /** Either separator may be used. */
  lemma ConvertEitherSeparator()
    ensures ConvertToCents("11,11") == Cents(1111) && ConvertToCents("11.11") == Cents(1111)
  {
    ConvertOneSeparator("11,11", "11", ',', "11");
    ConvertOneSeparator("11.11", "11", '.', "11");
  }

  /** The part after the separator counts as cents as written: "5.3" is 5.03, "1.300" is 4.00. */
  lemma ConvertFractionLiterally()
    ensures ConvertToCents("5.3") == Cents(503) && ConvertToCents("1.300") == Cents(400)
  {
    ConvertOneSeparator("5.3", "5", '.', "3");
    ConvertOneSeparator("1.300", "1", '.', "300");
  }

  /** The sample amount the entry is prefilled with is valid and worth 123 cents. */
  lemma PrefilledSampleConverts()
    ensures ValidateDecimal("1.23") && ConvertToCents("1.23") == Cents(123)
  {
    ValidDecimalConverts("1.23");
  }

  /** Letters, a second separator, a sign, a space or a lone separator give `None`. */
  lemma ConvertRejectsMalformed()
    ensures ConvertToCents("abc") == NoAmount && ConvertToCents("1.2.3") == NoAmount
    ensures ConvertToCents("1,2.3") == NoAmount && ConvertToCents(".") == NoAmount
  {
    ConvertToCentsClassified("abc");
    ConvertToCentsClassified("1.2.3");
    ConvertToCentsClassified("1,2.3");
    ConvertToCentsClassified(".");
  }

  lemma ConvertRejectsSignAndSpace()
    ensures ConvertToCents("-1.00") == NoAmount && ConvertToCents(" 1.00") == NoAmount
  {
    ConvertToCentsClassified("-1.00");
    ConvertToCentsClassified(" 1.00");
  }

  /** Digits alone, or a separator with nothing on one side, pass the guard and then raise. */
  lemma ConvertRaisesAfterGuard()
    ensures ConvertToCents("123") == Raises(UnpackError)
    ensures ConvertToCents(".5") == Raises(IntError) && ConvertToCents("5.") == Raises(IntError)
  {
  }

  /** The entry validation on documented inputs. */
  lemma ValidateExamples()
    ensures ValidateDecimal("11.11") && ValidateDecimal("11,11")
    ensures !ValidateDecimal("11.1") && !ValidateDecimal("11") && !ValidateDecimal("a.11")
  {
    assert "a.11"[..|"a.11"| - 3] == "a" && !IsDigit("a"[0]);
  }
}
