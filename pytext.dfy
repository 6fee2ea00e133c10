/**
 * The Python `str` and `int` builtins that the money codec relies on, over ASCII text:
 * `str.replace`, `str.replace(old, new, 1)`, `str.split`, `str.isdigit`, `int(s)`, `str(n)`,
 * the `02d` format and the `,` thousands-grouping format option.
 */
module PyText {
  import opened Options

  predicate IsDigit(c: char) {
    '0' <= c <= '9'
  }

  /** Every character is an ASCII digit (the empty string qualifies). */
  predicate AllDigits(s: string) {
    forall i :: 0 <= i < |s| ==> IsDigit(s[i])
  }

  /** `s.isdigit()`: at least one character and all of them digits. */
  predicate IsDigitStr(s: string) {
    |s| > 0 && AllDigits(s)
  }

  function DigitChar(d: nat): (c: char)
    requires d < 10
    ensures IsDigit(c) && c as int - '0' as int == d
  {
    ('0' as int + d) as char
  }

  function DigitValue(c: char): (d: nat)
    requires IsDigit(c)
    ensures d < 10 && DigitChar(d) == c
  {
    c as int - '0' as int
  }

  /** Positional value of a digit string, most significant digit first. */
  function ValueOf(s: string): nat
    requires AllDigits(s)
  {
    if s == [] then 0 else ValueOf(s[..|s| - 1]) * 10 + DigitValue(s[|s| - 1])
  }

  /** `int(s)` on text made of digits: `None` stands for the `ValueError` raised on `int('')`. */
  function Int(s: string): Option<nat> {
    if IsDigitStr(s) then Some(ValueOf(s)) else None
  }

  /** `str(n)` for a non-negative integer: no leading zeros. */
  function Decimal(n: nat): (s: string)
    ensures IsDigitStr(s)
    ensures s[0] == '0' ==> n == 0
    ensures n < 10 <==> |s| == 1
  {
    if n < 10 then [DigitChar(n)] else Decimal(n / 10) + [DigitChar(n % 10)]
  }

  /** `f'{n:02d}'` for 0 <= n < 100. */
  function Pad2(n: nat): (s: string)
    requires n < 100
    ensures |s| == 2 && AllDigits(s) && ValueOf(s) == n
  {
    var s := [DigitChar(n / 10), DigitChar(n % 10)];
    assert s[..1] == [s[0]] && [s[0]][..0] == [];
    assert ValueOf(s[..1]) == n / 10;
    s
  }

  /** Three zero-padded digits, the width of every group after the first in `f'{n:,}'`. */
  function Pad3(n: nat): (s: string)
    requires n < 1000
    ensures |s| == 3 && AllDigits(s)
  {
    [DigitChar(n / 100), DigitChar(n / 10 % 10), DigitChar(n % 10)]
  }

  /** `str(n)` of a number below 1000 has at most three digits. */
  lemma DecimalBelowThousand(n: nat)
    requires n < 1000
    ensures |Decimal(n)| <= 3
  {
  }

  /** `f'{n:,}'` for n >= 0: decimal digits with a `,` between every group of three. */
  function Grouped(n: nat): (s: string)
    ensures |s| > 0 && IsDigit(s[0])
    ensures forall i :: 0 <= i < |s| ==> IsDigit(s[i]) || s[i] == ','
    ensures ',' in s <==> n >= 1000
  {
    if n < 1000 then Decimal(n)
    else
      var head := Grouped(n / 1000);
      var s := head + [','] + Pad3(n % 1000);
      assert s[|head|] == ',';
      s
  }

  /**
   * The groups of `f'{n:,}'` are counted from the right: a comma sits exactly at every
   * fourth place from the end, so every group after the first has three digits.
   */
  lemma {:induction false} GroupedCommas(n: nat)
    ensures forall i :: 0 <= i < |Grouped(n)| ==> (Grouped(n)[i] == ',' <==> (|Grouped(n)| - i) % 4 == 0)
  {
    var s := Grouped(n);
    if n < 1000 {
      DecimalBelowThousand(n);
      assert forall i :: 0 <= i < |s| ==> s[i] != ',' && 1 <= |s| - i <= 3;
    } else {
      var head := Grouped(n / 1000);
      GroupedCommas(n / 1000);
      assert s == head + [','] + Pad3(n % 1000);
      forall i | 0 <= i < |s|
        ensures s[i] == ',' <==> (|s| - i) % 4 == 0
      {
        if i < |head| {
          assert s[i] == head[i] && (|s| - i) % 4 == (|head| - i) % 4;
        } else if i > |head| {
          assert s[i] == Pad3(n % 1000)[i - |head| - 1];
        }
      }
    }
  }

  /** `s.replace(from, to)` for one-character `from` and `to`. */
  function ReplaceAll(s: string, from: char, to: char): (r: string)
    ensures |r| == |s|
  {
    seq(|s|, i requires 0 <= i < |s| => if s[i] == from then to else s[i])
  }

  /** `s.replace(c, "", 1)`: drops the first occurrence of `c`, if any. */
  function DeleteFirst(s: string, c: char): string {
    if s == [] then []
    else if s[0] == c then s[1..]
    else [s[0]] + DeleteFirst(s[1..], c)
  }

  /** `s.split(sep)` for a one-character separator: always at least one part. */
  function Split(s: string, sep: char): (parts: seq<string>)
    ensures |parts| >= 1
  {
    if s == [] then [[]]
    else
      var rest := Split(s[1..], sep);
      if s[0] == sep then [[]] + rest
      else [[s[0]] + rest[0]] + rest[1..]
  }

  /** The text with every `,` removed: what thousands grouping adds, taken away again. */
  function Ungrouped(s: string): (r: string)
    ensures ',' !in r
  {
    if s == [] then []
    else (if s[0] == ',' then [] else [s[0]]) + Ungrouped(s[1..])
  }

  // ---------------------------------------------------------------------------
  // Lemmas about the builtins

  lemma {:induction false} ValueOfDecimal(n: nat)
    ensures ValueOf(Decimal(n)) == n
  {
    var s := Decimal(n);
    if n >= 10 {
      ValueOfDecimal(n / 10);
      assert s[..|s| - 1] == Decimal(n / 10);
    }
  }

  /** `int(str(n)) == n`. */
  lemma IntOfDecimal(n: nat)
    ensures Int(Decimal(n)) == Some(n)
  {
    ValueOfDecimal(n);
  }

  /** Appending the three digits of a group to `str(q)` gives `str(1000 * q + r)`. */
  lemma DecimalThousands(q: nat, r: nat)
    requires q >= 1 && r < 1000
    ensures Decimal(1000 * q + r) == Decimal(q) + Pad3(r)
  {
    var n := 1000 * q + r;
    assert n / 10 == 100 * q + r / 10 && n % 10 == r % 10;
    var m := n / 10;
    assert m / 10 == 10 * q + r / 100 && m % 10 == r / 10 % 10;
    var k := m / 10;
    assert k / 10 == q && k % 10 == r / 100;
    assert Decimal(k) == Decimal(q) + [DigitChar(r / 100)];
    assert Decimal(m) == Decimal(k) + [DigitChar(r / 10 % 10)];
    assert Decimal(n) == Decimal(m) + [DigitChar(r % 10)];
  }

  lemma {:induction false} UngroupedAppend(a: string, b: string)
    ensures Ungrouped(a + b) == Ungrouped(a) + Ungrouped(b)
  {
    if a == [] {
      assert a + b == b;
    } else {
      assert (a + b)[1..] == a[1..] + b;
      UngroupedAppend(a[1..], b);
    }
  }

  lemma {:induction false} UngroupedDigits(s: string)
    requires AllDigits(s)
    ensures Ungrouped(s) == s
  {
    if s != [] {
      UngroupedDigits(s[1..]);
    }
  }

  /** Grouping only inserts commas: removing them from `f'{n:,}'` gives `str(n)`. */
  lemma {:induction false} UngroupedGrouped(n: nat)
    ensures Ungrouped(Grouped(n)) == Decimal(n)
  {
    if n < 1000 {
      UngroupedDigits(Decimal(n));
    } else {
      var q, r := n / 1000, n % 1000;
      UngroupedGrouped(q);
      UngroupedAppend(Grouped(q) + [','], Pad3(r));
      UngroupedAppend(Grouped(q), [',']);
      UngroupedDigits(Pad3(r));
      DecimalThousands(q, r);
    }
  }

  lemma {:induction false} DeleteFirstAbsent(s: string, c: char)
    requires c !in s
    ensures DeleteFirst(s, c) == s
  {
    if s != [] {
      DeleteFirstAbsent(s[1..], c);
    }
  }

  /** Deleting the first `c` of `w + [c] + f`, where `w` has no `c`, leaves `w + f`. */
  lemma {:induction false} DeleteFirstAt(w: string, c: char, f: string)
    requires c !in w
    ensures DeleteFirst(w + [c] + f, c) == w + f
  {
    if w != [] {
      assert (w + [c] + f)[1..] == w[1..] + [c] + f;
      DeleteFirstAt(w[1..], c, f);
    }
  }

  lemma {:induction false} SplitAbsent(s: string, sep: char)
    requires sep !in s
    ensures Split(s, sep) == [s]
  {
    if s != [] {
      SplitAbsent(s[1..], sep);
      assert [s[0]] + s[1..] == s;
    }
  }

  /** Splitting text with exactly one separator gives the two parts around it. */
  lemma {:induction false} SplitOnce(w: string, sep: char, f: string)
    requires sep !in w && sep !in f
    ensures Split(w + [sep] + f, sep) == [w, f]
  {
    if w == [] {
      assert w + [sep] + f == [sep] + f;
      SplitAbsent(f, sep);
    } else {
      assert (w + [sep] + f)[1..] == w[1..] + [sep] + f;
      SplitOnce(w[1..], sep, f);
      assert [w[0]] + w[1..] == w;
    }
  }
}
