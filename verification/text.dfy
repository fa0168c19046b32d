/**
 * The few pieces of Python's text handling that the prime finders rely on:
 * `str(n)` for an int, `int(s)` for a string, `s.strip()`, `s.split(',')`
 * and `sep.join(parts)`. Strings are sequences of code points.
 */
module Text {
  import opened Wrappers

  /** Python's whitespace (`str.isspace`): the characters `strip()` removes and `int()` ignores around a number. */
  predicate IsSpace(c: char) {
    var k := c as int;
    k == 0x20 || 0x09 <= k <= 0x0D || 0x1C <= k <= 0x1F || k == 0x85 || k == 0xA0
    || k == 0x1680 || 0x2000 <= k <= 0x200A || k == 0x2028 || k == 0x2029
    || k == 0x202F || k == 0x205F || k == 0x3000
  }

  /** `s.lstrip()` */
  function TrimLeft(s: string): (r: string)
    ensures |r| <= |s|
    ensures r == [] || !IsSpace(r[0])
  {
    if |s| > 0 && IsSpace(s[0]) then TrimLeft(s[1..]) else s
  }

  /** What `lstrip()` leaves is a suffix of the text. */
  lemma {:induction false} TrimLeftSuffix(s: string)
    ensures TrimLeft(s) == s[|s| - |TrimLeft(s)|..]
  {
    if |s| > 0 && IsSpace(s[0]) {
      TrimLeftSuffix(s[1..]);
    }
  }

  /** `s.rstrip()` */
  function TrimRight(s: string): (r: string)
    ensures |r| <= |s|
    ensures r == [] || !IsSpace(r[|r| - 1])
  {
    if |s| > 0 && IsSpace(s[|s| - 1]) then TrimRight(s[..|s| - 1]) else s
  }

  /** What `rstrip()` leaves is a prefix of the text. */
  lemma {:induction false} TrimRightPrefix(s: string)
    ensures TrimRight(s) == s[..|TrimRight(s)|]
  {
    if |s| > 0 && IsSpace(s[|s| - 1]) {
      TrimRightPrefix(s[..|s| - 1]);
    }
  }

  /** `s.strip()`: the text without the whitespace around it. */
  function Strip(s: string): string {
    TrimRight(TrimLeft(s))
  }

  /** `strip()` leaves a piece of the text with no whitespace at either end. */
  lemma StripNoPadding(s: string)
    ensures |Strip(s)| <= |s|
    ensures |Strip(s)| > 0 ==> !IsSpace(Strip(s)[0]) && !IsSpace(Strip(s)[|Strip(s)| - 1])
  {
    var t := TrimLeft(s);
    TrimRightPrefix(t);
  }

  /** Text that starts and ends with something other than whitespace is left alone by `strip()`. */
  lemma StripUnpadded(s: string)
    requires |s| > 0 && !IsSpace(s[0]) && !IsSpace(s[|s| - 1])
    ensures Strip(s) == s
  {
  }

  /** Leading whitespace makes no difference to `lstrip()`. */
  lemma {:induction false} TrimLeftLeadingSpace(pad: string, s: string)
    requires forall k :: 0 <= k < |pad| ==> IsSpace(pad[k])
    ensures TrimLeft(pad + s) == TrimLeft(s)
  {
    if |pad| > 0 {
      var rest := pad[1..];
      assert pad + s == [pad[0]] + (rest + s);
      assert IsSpace((pad + s)[0]);
      assert (pad + s)[1..] == rest + s;
      TrimLeftLeadingSpace(rest, s);
    } else {
      assert pad + s == s;
    }
  }

  /** Leading whitespace makes no difference to `strip()`. */
  lemma StripLeadingSpace(pad: string, s: string)
    requires forall k :: 0 <= k < |pad| ==> IsSpace(pad[k])
    ensures Strip(pad + s) == Strip(s)
  {
    TrimLeftLeadingSpace(pad, s);
  }

  /** `strip()` is idempotent. */
  lemma StripTwice(s: string)
    ensures Strip(Strip(s)) == Strip(s)
  {
    var t := Strip(s);
    if |t| > 0 {
      var l := TrimLeft(s);
      TrimRightPrefix(l);
      assert t == l[..|t|];
      StripUnpadded(t);
    }
  }

  predicate IsDigit(c: char) {
    '0' <= c <= '9'
  }

  /** A decimal digit is not whitespace. */
  lemma DigitNotSpace(c: char)
    requires IsDigit(c)
    ensures !IsSpace(c)
  {
    assert 0x30 <= c as int <= 0x39;
  }

  predicate AllDigits(s: string) {
    forall k :: 0 <= k < |s| ==> IsDigit(s[k])
  }

  function DigitChar(d: int): (c: char)
    requires 0 <= d < 10
    ensures IsDigit(c) && c as int - '0' as int == d
  {
    (d + '0' as int) as char
  }

  /** The value of a run of decimal digits, most significant first (leading zeros allowed). */
  function DigitsValue(s: string): nat
    requires AllDigits(s)
  {
    if s == [] then 0 else DigitsValue(s[..|s| - 1]) * 10 + (s[|s| - 1] as int - '0' as int)
  }

  /** The decimal digits of n, without leading zeros. */
  function NatToString(n: nat): (s: string)
    ensures |s| > 0 && AllDigits(s)
  {
    if n < 10 then [DigitChar(n)] else NatToString(n / 10) + [DigitChar(n % 10)]
  }

  /** `str(n)` for an int: a minus sign for negatives, then the digits. */
  function IntToString(n: int): (s: string)
    ensures |s| > 0 && !IsSpace(s[0]) && IsDigit(s[|s| - 1])
    ensures forall k :: 0 <= k < |s| ==> IsDigit(s[k]) || (k == 0 && s[k] == '-')
  {
    if n < 0 then "-" + NatToString(-n) else NatToString(n)
  }

  /**
   * `int(s)` for a string: whitespace around the number is ignored, a sign
   * may lead, then one or more decimal digits; anything else raises
   * ValueError, which is `None` here.
   */
  function ParseInt(s: string): Option<int> {
    var t := Strip(s);
    if |t| > 0 && (t[0] == '-' || t[0] == '+') then
      var body := t[1..];
      if |body| > 0 && AllDigits(body) then
        var magnitude: int := DigitsValue(body);
        Some(if t[0] == '-' then -magnitude else magnitude)
      else None
    else if |t| > 0 && AllDigits(t) then Some(DigitsValue(t))
    else None
  }

  lemma {:induction false} DigitsValueOfNat(n: nat)
    ensures DigitsValue(NatToString(n)) == n
  {
    if n >= 10 {
      DigitsValueOfNat(n / 10);
      var s := NatToString(n);
      assert s[..|s| - 1] == NatToString(n / 10);
    }
  }

  /** `int(str(n)) == n`: the decimal text of every int reads back as that int. */
  lemma ParseIntToString(n: int)
    ensures ParseInt(IntToString(n)) == Some(n)
  {
    var s := IntToString(n);
    StripUnpadded(s);
    if n < 0 {
      assert s[1..] == NatToString(-n);
      DigitsValueOfNat(-n);
    } else {
      DigitsValueOfNat(n);
    }
  }

  /** `int()` strips its argument itself, so stripping first changes nothing. */
  lemma ParseIntStripped(s: string)
    ensures ParseInt(Strip(s)) == ParseInt(s)
  {
    StripTwice(s);
  }

  /** `s.split(c)`: the pieces between occurrences of c, empty pieces included. */
  function Split(s: string, c: char): (parts: seq<string>)
    ensures |parts| >= 1
  {
    if |s| == 0 then [""]
    else
      var rest := Split(s[1..], c);
      if s[0] == c then [""] + rest else [[s[0]] + rest[0]] + rest[1..]
  }

  /** `sep.join(parts)` */
  function Join(parts: seq<string>, sep: string): string {
    if |parts| == 0 then ""
    else if |parts| == 1 then parts[0]
    else parts[0] + sep + Join(parts[1..], sep)
  }

  /** Text without the separator splits into itself alone. */
  lemma {:induction false} SplitWithoutSeparator(s: string, c: char)
    requires c !in s
    ensures Split(s, c) == [s]
  {
    if |s| > 0 {
      assert c !in s[1..] by {
        forall k | 0 <= k < |s| - 1 ensures s[1..][k] != c { assert s[1..][k] == s[k + 1]; }
      }
      SplitWithoutSeparator(s[1..], c);
      assert [s[0]] + s[1..] == s;
    }
  }

  /** The first separator ends the first piece. */
  lemma {:induction false} SplitAtFirst(x: string, c: char, t: string)
    requires c !in x
    ensures Split(x + [c] + t, c) == [x] + Split(t, c)
  {
    if |x| > 0 {
      assert (x + [c] + t)[1..] == x[1..] + [c] + t;
      assert (x + [c] + t)[0] == x[0] != c;
      assert c !in x[1..] by {
        forall k | 0 <= k < |x| - 1 ensures x[1..][k] != c { assert x[1..][k] == x[k + 1]; }
      }
      SplitAtFirst(x[1..], c, t);
      assert [x[0]] + x[1..] == x;
    } else {
      assert x + [c] + t == [c] + t;
    }
  }

  /** The pieces of a join, with every piece after the first carrying the padding that followed its separator. */
  function Padded(parts: seq<string>, pad: string): (r: seq<string>)
    requires |parts| > 0
    ensures |r| == |parts| && r[0] == parts[0]
    ensures forall k :: 0 < k < |parts| ==> r[k] == pad + parts[k]
  {
    [parts[0]] + seq(|parts| - 1, k requires 0 <= k < |parts| - 1 => pad + parts[k + 1])
  }

  /**
   * Splitting on c the join of pieces by the separator c + pad gives the
   * pieces back, each after the first led by pad, when neither the pieces
   * nor pad contain c.
   */
  lemma {:induction false} SplitJoin(parts: seq<string>, c: char, pad: string)
    requires |parts| > 0 && c !in pad
    requires forall k :: 0 <= k < |parts| ==> c !in parts[k]
    ensures Split(Join(parts, [c] + pad), c) == Padded(parts, pad)
    decreases |parts|
  {
    var sep := [c] + pad;
    if |parts| == 1 {
      SplitWithoutSeparator(parts[0], c);
    } else {
      var tail := parts[1..];
      var shifted := [pad + tail[0]] + tail[1..];
      assert pad + Join(tail, sep) == Join(shifted, sep) by {
        if |tail| > 1 {
          assert shifted[1..] == tail[1..];
        }
      }
      assert Join(parts, sep) == parts[0] + [c] + (pad + Join(tail, sep));
      SplitAtFirst(parts[0], c, pad + Join(tail, sep));
      assert c !in pad + tail[0];
      SplitJoin(shifted, c, pad);
      assert Padded(parts, pad) == [parts[0]] + Padded(shifted, pad);
    }
  }

  /** Text appended after a join lands at the end of the last piece. */
  lemma {:induction false} JoinAppendLast(parts: seq<string>, sep: string, t: string)
    requires |parts| > 0
    ensures Join(parts, sep) + t == Join(parts[..|parts| - 1] + [parts[|parts| - 1] + t], sep)
    decreases |parts|
  {
    var n := |parts| - 1;
    var moved := parts[..n] + [parts[n] + t];
    if |parts| > 1 {
      JoinAppendLast(parts[1..], sep, t);
      assert moved[1..] == parts[1..][..n - 1] + [parts[1..][n - 1] + t];
      assert parts[0] + sep + Join(parts[1..], sep) + t == parts[0] + sep + (Join(parts[1..], sep) + t);
    }
  }

  /** Trailing whitespace after text that starts and ends with something else is removed by `strip()`. */
  lemma StripTrailingSpace(s: string, c: char)
    requires |s| > 0 && !IsSpace(s[0]) && !IsSpace(s[|s| - 1]) && IsSpace(c)
    ensures Strip(s + [c]) == s
  {
    var t := s + [c];
    assert t[..|t| - 1] == s;
    StripUnpadded(s);
  }

  /** `[str(n) for n in ns]` */
  function Decimals(ns: seq<int>): seq<string> {
    seq(|ns|, k requires 0 <= k < |ns| => IntToString(ns[k]))
  }

  lemma DecimalsAppend(a: seq<int>, b: seq<int>)
    ensures Decimals(a + b) == Decimals(a) + Decimals(b)
  {
  }

  /** The decimal text of an int holds no comma. */
  lemma NoCommaInDecimal(n: int)
    ensures ',' !in IntToString(n)
  {
    var s := IntToString(n);
    assert forall k :: 0 <= k < |s| ==> s[k] != ',';
  }
}
