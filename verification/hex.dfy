/** Hexadecimal text as JavaScript produces and reads it:
    `Number.prototype.toString(16)`, `String.prototype.toUpperCase`,
    `String.prototype.padStart` and `parseInt(_, 16)` on validated digits. */
module Hex {

  /** The lower-case digit `toString(16)` writes for `d`. */
  function LowerDigit(d: nat): (c: char)
    requires d < 16
    ensures IsLowerHexDigit(c) && IsHexDigit(c) && DigitValue(c) == d
  {
    if d < 10 then ('0' as int + d) as char else ('a' as int + d - 10) as char
  }

  function Pow16(w: nat): (r: nat)
    ensures r >= 1
  {
    if w == 0 then 1 else 16 * Pow16(w - 1)
  }

  predicate IsHexDigit(c: char)
  {
    ('0' <= c <= '9') || ('a' <= c <= 'f') || ('A' <= c <= 'F')
  }

  predicate IsUpperHexDigit(c: char)
  {
    ('0' <= c <= '9') || ('A' <= c <= 'F')
  }

  predicate IsLowerHexDigit(c: char)
  {
    ('0' <= c <= '9') || ('a' <= c <= 'f')
  }

  predicate AllHex(s: string)
  {
    forall k :: 0 <= k < |s| ==> IsHexDigit(s[k])
  }

  predicate AllUpperHex(s: string)
  {
    forall k :: 0 <= k < |s| ==> IsUpperHexDigit(s[k])
  }

  predicate AllLowerHex(s: string)
  {
    forall k :: 0 <= k < |s| ==> IsLowerHexDigit(s[k])
  }

  /** The value of one hexadecimal digit, either case. */
  function DigitValue(c: char): (v: nat)
    requires IsHexDigit(c)
    ensures v < 16
  {
    if '0' <= c <= '9' then c as int - '0' as int
    else if 'a' <= c <= 'f' then c as int - 'a' as int + 10
    else c as int - 'A' as int + 10
  }

  /** The value of a string of hexadecimal digits, most significant first
      (what `parseInt(s, 16)` returns for such a string). */
  function HexValue(s: string): nat
    requires AllHex(s)
  {
    if |s| == 0 then 0 else 16 * HexValue(s[..|s| - 1]) + DigitValue(s[|s| - 1])
  }

  /** `n.toString(16)`: the shortest lower-case digit string, "0" for zero. */
  function ToHexString(n: nat): string
    decreases n
  {
    if n < 16 then [LowerDigit(n)] else ToHexString(n / 16) + [LowerDigit(n % 16)]
  }

  /** `s.toUpperCase()` on the ASCII letters, the only ones hex text holds. */
  function ToUpperAscii(s: string): (r: string)
    ensures |r| == |s|
    ensures forall k :: 0 <= k < |s| && !('a' <= s[k] <= 'z') ==> r[k] == s[k]
  {
    seq(|s|, k requires 0 <= k < |s| =>
      if 'a' <= s[k] <= 'z' then (s[k] as int - 32) as char else s[k])
  }

  /** `s.padStart(width, fill)` with a one-character fill. */
  function PadStart(s: string, width: nat, fill: char): (r: string)
    ensures |r| == if |s| >= width then |s| else width
    ensures r[|r| - |s|..] == s
    ensures forall k :: 0 <= k < |r| - |s| ==> r[k] == fill
  {
    if |s| >= width then s else seq(width - |s|, _ => fill) + s
  }

  lemma {:induction false} HexValueAppend(s: string, c: char)
    requires AllHex(s) && IsHexDigit(c)
    ensures AllHex(s + [c])
    ensures HexValue(s + [c]) == 16 * HexValue(s) + DigitValue(c)
  {
    assert (s + [c])[..|s|] == s;
  }

  /** `toString(16)` produces lower-case digits that read back as `n`, and
      no more than `w` of them when `n < 16^w`. */
  lemma {:induction false} ToHexStringCorrect(n: nat)
    ensures |ToHexString(n)| >= 1
    ensures AllLowerHex(ToHexString(n)) && AllHex(ToHexString(n))
    ensures HexValue(ToHexString(n)) == n
    decreases n
  {
    var r := ToHexString(n);
    if n < 16 {
      assert r[..0] == [];
    } else {
      ToHexStringCorrect(n / 16);
      var d := LowerDigit(n % 16);
      HexValueAppend(ToHexString(n / 16), d);
    }
  }

  lemma {:induction false} ToHexStringLength(n: nat, w: nat)
    requires 1 <= w && n < Pow16(w)
    ensures |ToHexString(n)| <= w
    decreases n
  {
    if n >= 16 {
      assert w >= 2;
      ToHexStringLength(n / 16, w - 1);
    }
  }

  /** Leading zeros do not change the value of a digit string. */
  lemma {:induction false} ZeroPadValue(s: string, width: nat)
    requires AllHex(s)
    ensures AllHex(PadStart(s, width, '0'))
    ensures HexValue(PadStart(s, width, '0')) == HexValue(s)
    decreases width
  {
    if |s| < width {
      var r := PadStart(s, width, '0');
      if |s| == 0 {
        assert r == seq(width, _ => '0');
        ZerosValue(width);
      } else {
        var s' := s[..|s| - 1];
        ZeroPadValue(s', width - 1);
        var r' := PadStart(s', width - 1, '0');
        assert r == r' + [s[|s| - 1]];
        HexValueAppend(r', s[|s| - 1]);
        HexValueAppend(s', s[|s| - 1]);
        assert s' + [s[|s| - 1]] == s;
      }
    }
  }

  lemma {:induction false} ZerosValue(n: nat)
    ensures AllHex(seq(n, _ => '0'))
    ensures HexValue(seq(n, _ => '0')) == 0
  {
    if n > 0 {
      ZerosValue(n - 1);
      assert seq(n, _ => '0')[..n - 1] == seq(n - 1, _ => '0');
    }
  }

  /** Upper-casing a digit string keeps its value and makes every digit
      upper-case. */
  lemma {:induction false} ToUpperValue(s: string)
    requires AllHex(s)
    ensures AllUpperHex(ToUpperAscii(s)) && AllHex(ToUpperAscii(s))
    ensures HexValue(ToUpperAscii(s)) == HexValue(s)
  {
    if |s| > 0 {
      var s' := s[..|s| - 1];
      ToUpperValue(s');
      assert ToUpperAscii(s) == ToUpperAscii(s') + [ToUpperAscii(s)[|s| - 1]];
      HexValueAppend(ToUpperAscii(s'), ToUpperAscii(s)[|s| - 1]);
    }
  }

  /** The fixed-width rendering `n.toString(16).padStart(width, "0")`, upper-
      cased when `upper` holds: exactly `width` digits that read back as `n`. */
  function FixedHex(n: nat, width: nat, upper: bool): (r: string)
    requires 1 <= width && n < Pow16(width)
    ensures |r| == width && AllHex(r) && HexValue(r) == n
    ensures upper ==> AllUpperHex(r)
    ensures !upper ==> AllLowerHex(r)
  {
    ToHexStringCorrect(n);
    ToHexStringLength(n, width);
    var digits := if upper then ToUpperAscii(ToHexString(n)) else ToHexString(n);
    ToUpperValue(ToHexString(n));
    ZeroPadValue(digits, width);
    PadStart(digits, width, '0')
  }

  /** The value of a two-digit string. */
  lemma HexValueTwo(s: string)
    requires |s| == 2 && AllHex(s)
    ensures HexValue(s) == 16 * DigitValue(s[0]) + DigitValue(s[1])
  {
    var first := s[..1];
    assert first[..0] == [] && first[0] == s[0];
    assert HexValue(first) == DigitValue(s[0]);
    assert HexValue(s) == 16 * HexValue(first) + DigitValue(s[1]);
  }

  /** Appending two digits multiplies the value so far by 256. */
  lemma HexValueAppendPair(s: string, t: string)
    requires AllHex(s) && AllHex(t) && |t| == 2
    ensures AllHex(s + t)
    ensures HexValue(s + t) == 256 * HexValue(s) + HexValue(t)
  {
    HexValueAppend(s, t[0]);
    HexValueAppend(s + [t[0]], t[1]);
    assert s + [t[0]] + [t[1]] == s + t;
    HexValueTwo(t);
  }
}
