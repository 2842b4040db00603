/**
 * The Python string built-ins the bounty core relies on: `str.split` (used to
 * take the repository name from a URL and to cut a dotted quad into fields),
 * its inverse `str.join`, `int(s, 10)` on ASCII digits and `str(n)`.
 */
module Strings {

  /** `s.split(sep)`: the pieces of `s` between occurrences of `sep`; never empty. */
  function Split(s: string, sep: char): (parts: seq<string>)
    ensures |parts| >= 1
    ensures forall k :: 0 <= k < |parts| ==> sep !in parts[k]
    decreases |s|
  {
    if |s| == 0 then [""]
    else
      var rest := Split(s[1..], sep);
      if s[0] == sep then [""] + rest
      else [[s[0]] + rest[0]] + rest[1..]
  }

  /** `sep.join(parts)` */
  function Join(parts: seq<string>, sep: char): string
    requires |parts| >= 1
    decreases |parts|
  {
    if |parts| == 1 then parts[0] else parts[0] + [sep] + Join(parts[1..], sep)
  }

  function Last(parts: seq<string>): string
    requires |parts| >= 1
  {
    parts[|parts| - 1]
  }

  /** Joining the pieces back with the separator gives the original string. */
  lemma {:induction false} JoinSplit(s: string, sep: char)
    ensures Join(Split(s, sep), sep) == s
    decreases |s|
  {
    if |s| > 0 {
      var rest := Split(s[1..], sep);
      JoinSplit(s[1..], sep);
      if s[0] == sep {
        assert Split(s, sep) == [""] + rest;
        assert ([""] + rest)[1..] == rest;
        assert [s[0]] + s[1..] == s;
      } else {
        var parts := [[s[0]] + rest[0]] + rest[1..];
        assert Split(s, sep) == parts;
        if |rest| == 1 {
          assert Join(rest, sep) == rest[0];
          assert [s[0]] + s[1..] == s;
        } else {
          assert parts[1..] == rest[1..];
          assert Join(rest, sep) == rest[0] + [sep] + Join(rest[1..], sep);
          assert Join(parts, sep) == [s[0]] + rest[0] + [sep] + Join(rest[1..], sep);
          assert [s[0]] + s[1..] == s;
        }
      }
    }
  }

  /** A string without the separator splits into itself alone. */
  lemma {:induction false} SplitWithoutSeparator(s: string, sep: char)
    requires sep !in s
    ensures Split(s, sep) == [s]
    decreases |s|
  {
    if |s| > 0 {
      assert s[0] != sep;
      assert sep !in s[1..] by {
        forall k | 0 <= k < |s[1..]| ensures s[1..][k] != sep {
          assert s[1..][k] == s[k + 1];
        }
      }
      SplitWithoutSeparator(s[1..], sep);
      assert [s[0]] + s[1..] == s;
    }
  }

  /** Splitting a string that contains the separator gives at least two pieces. */
  lemma SplitWithSeparator(s: string, sep: char)
    requires sep in s
    ensures |Split(s, sep)| >= 2
  {
    JoinSplit(s, sep);
  }

  /** A piece followed by the separator comes off the front of the split as one piece. */
  lemma {:induction false} SplitPrefix(p: string, sep: char, x: string)
    requires sep !in p
    ensures Split(p + [sep] + x, sep) == [p] + Split(x, sep)
    decreases |p|
  {
    var s := p + [sep] + x;
    if |p| == 0 {
      assert s == [sep] + x;
      assert s[1..] == x;
    } else {
      assert s[0] == p[0];
      assert s[1..] == p[1..] + [sep] + x;
      assert sep !in p[1..] by {
        forall k | 0 <= k < |p[1..]| ensures p[1..][k] != sep {
          assert p[1..][k] == p[k + 1];
        }
      }
      SplitPrefix(p[1..], sep, x);
      assert [p[0]] + p[1..] == p;
    }
  }

  /** Splitting the join of separator-free pieces gives the pieces back. */
  lemma {:induction false} SplitJoin(parts: seq<string>, sep: char)
    requires |parts| >= 1
    requires forall k :: 0 <= k < |parts| ==> sep !in parts[k]
    ensures Split(Join(parts, sep), sep) == parts
    decreases |parts|
  {
    if |parts| == 1 {
      SplitWithoutSeparator(parts[0], sep);
    } else {
      SplitJoin(parts[1..], sep);
      SplitPrefix(parts[0], sep, Join(parts[1..], sep));
      assert [parts[0]] + parts[1..] == parts;
    }
  }

  /** Characters before the last separator do not change the last piece. */
  lemma {:induction false} LastPieceIgnoresPrefix(y: string, z: string, sep: char)
    requires sep in z
    ensures Last(Split(y + z, sep)) == Last(Split(z, sep))
    decreases |y|
  {
    if |y| == 0 {
      assert y + z == z;
    } else {
      var s := y + z;
      assert s[1..] == y[1..] + z;
      LastPieceIgnoresPrefix(y[1..], z, sep);
      assert sep in s[1..] by {
        var k :| 0 <= k < |z| && z[k] == sep;
        assert s[1..][|y| - 1 + k] == sep;
      }
      SplitWithSeparator(s[1..], sep);
      var rest := Split(s[1..], sep);
      if s[0] == sep {
        assert Split(s, sep) == [""] + rest;
      } else {
        assert Split(s, sep) == [[s[0]] + rest[0]] + rest[1..];
      }
      assert Last(Split(s, sep)) == Last(rest);
    }
  }

  /** The last piece is whatever follows the last separator. */
  lemma LastPieceAfterSeparator(p: string, x: string, sep: char)
    requires sep !in x
    ensures Last(Split(p + [sep] + x, sep)) == x
  {
    var z := [sep] + x;
    assert p + [sep] + x == p + z;
    assert z[0] == sep;
    LastPieceIgnoresPrefix(p, z, sep);
    SplitPrefix([], sep, x);
    SplitWithoutSeparator(x, sep);
    assert [] + [sep] + x == z;
  }

  /** Removing the last piece of a join leaves the join of the others and one separator. */
  lemma {:induction false} JoinLast(parts: seq<string>, sep: char)
    requires |parts| >= 2
    ensures Join(parts, sep) == Join(parts[..|parts| - 1], sep) + [sep] + Last(parts)
    decreases |parts|
  {
    var init := parts[..|parts| - 1];
    if |parts| == 2 {
      assert init == [parts[0]];
    } else {
      JoinLast(parts[1..], sep);
      assert parts[1..][..|parts| - 2] == init[1..];
      assert init[0] == parts[0];
    }
  }

  /**
   * The last piece of a split has no separator, ends the string, and is either
   * the whole string or preceded by the separator.
   */
  lemma LastPieceIsSuffix(s: string, sep: char)
    ensures var last := Last(Split(s, sep));
      && sep !in last
      && |last| <= |s|
      && s[|s| - |last|..] == last
      && (|last| == |s| || s[|s| - |last| - 1] == sep)
  {
    var parts := Split(s, sep);
    JoinSplit(s, sep);
    if |parts| >= 2 {
      JoinLast(parts, sep);
      var head := Join(parts[..|parts| - 1], sep);
      assert s == head + [sep] + Last(parts);
      assert s[|s| - |Last(parts)| - 1] == sep;
    }
  }

  predicate IsDigit(c: char) {
    '0' <= c <= '9'
  }

  predicate AllDigits(s: string) {
    forall i :: 0 <= i < |s| ==> IsDigit(s[i])
  }

  /** A decimal numeral without a superfluous leading zero, as `str(n)` writes it. */
  predicate Canonical(s: string) {
    |s| >= 1 && AllDigits(s) && (s[0] == '0' ==> |s| == 1)
  }

  function Pow10(n: nat): (r: nat)
    ensures r >= 1
  {
    if n == 0 then 1 else 10 * Pow10(n - 1)
  }

  /** `int(s, 10)` on a string of ASCII digits; k digits never reach 10^k. */
  function DecimalValue(s: string): (v: nat)
    requires AllDigits(s)
    ensures v < Pow10(|s|)
    decreases |s|
  {
    if |s| == 0 then 0
    else DecimalValue(s[..|s| - 1]) * 10 + (s[|s| - 1] as int - '0' as int)
  }

  function DigitChar(d: nat): char
    requires d < 10
  {
    ('0' as int + d) as char
  }

  /** `str(n)` for a non-negative integer. */
  function NatToDecimal(n: nat): (s: string)
    ensures Canonical(s)
    ensures s[0] == '0' <==> n == 0
    decreases n
  {
    if n < 10 then [DigitChar(n)] else NatToDecimal(n / 10) + [DigitChar(n % 10)]
  }

  /** `str(i)` for any integer: a minus sign, then the digits of the magnitude. */
  function IntToDecimal(i: int): (s: string)
    ensures i >= 0 ==> Canonical(s) && DecimalValue(s) == i
    ensures i < 0 ==> |s| >= 2 && s[0] == '-' && Canonical(s[1..]) && s[1] != '0' && DecimalValue(s[1..]) == -i
  {
    if i < 0 then
      var digits := NatToDecimal(-i);
      DecimalOfNatToDecimal(-i);
      assert ("-" + digits)[1..] == digits;
      "-" + digits
    else
      DecimalOfNatToDecimal(i);
      NatToDecimal(i)
  }

  /** `int(str(n), 10) == n` */
  lemma {:induction false} DecimalOfNatToDecimal(n: nat)
    ensures DecimalValue(NatToDecimal(n)) == n
    decreases n
  {
    var s := NatToDecimal(n);
    if n >= 10 {
      DecimalOfNatToDecimal(n / 10);
      assert s[..|s| - 1] == NatToDecimal(n / 10);
    }
  }

  lemma {:induction false} CanonicalValueIsPositive(s: string)
    requires Canonical(s) && s[0] != '0'
    ensures DecimalValue(s) >= 1
    decreases |s|
  {
    if |s| > 1 {
      var init := s[..|s| - 1];
      assert init[0] == s[0];
      CanonicalValueIsPositive(init);
    }
  }

  /** `str(int(s, 10)) == s` for a numeral without a superfluous leading zero. */
  lemma {:induction false} NatToDecimalOfCanonical(s: string)
    requires Canonical(s)
    ensures NatToDecimal(DecimalValue(s)) == s
    decreases |s|
  {
    if |s| == 1 {
      assert s == [s[0]];
    } else {
      var init := s[..|s| - 1];
      assert init[0] == s[0];
      CanonicalValueIsPositive(init);
      NatToDecimalOfCanonical(init);
      var n := DecimalValue(s);
      assert n / 10 == DecimalValue(init);
      assert init + [s[|s| - 1]] == s;
    }
  }

  /** A value that fits a byte has at most three decimal digits. */
  lemma ByteHasAtMostThreeDigits(n: nat)
    requires n < 256
    ensures |NatToDecimal(n)| <= 3
  {
    if n >= 10 {
      assert |NatToDecimal(n)| == |NatToDecimal(n / 10)| + 1;
      if n / 10 >= 10 {
        assert |NatToDecimal(n / 10)| == |NatToDecimal(n / 100)| + 1;
      }
    }
  }

  lemma DigitsHaveNoSeparator(s: string, sep: char)
    requires AllDigits(s) && !IsDigit(sep)
    ensures sep !in s
  {
  }
}
