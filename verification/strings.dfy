/** The JavaScript string operations the codec and the views rely on:
    `Array.prototype.join`, `charAt`, `split(...)[0]` and the removal of
    whitespace by `replace(/\s/gm, "")`. Strings are sequences of abstract
    characters. */
module Strings {

  /** `parts.join(sep)`. */
  function Join(parts: seq<string>, sep: string): string
  {
    if |parts| == 0 then ""
    else if |parts| == 1 then parts[0]
    else parts[0] + sep + Join(parts[1..], sep)
  }

  /** `parts.join("")`, and the flattening of a sequence of sequences. */
  function Concat<T>(parts: seq<seq<T>>): seq<T>
  {
    if |parts| == 0 then [] else parts[0] + Concat(parts[1..])
  }

  /** `s.charAt(i)`: the one-character string at `i`, or "" past the end. */
  function CharAt(s: string, i: nat): string
  {
    if i < |s| then [s[i]] else ""
  }

  /** Membership in the class `\s` of JavaScript regular expressions: the
      ECMAScript white-space and line-terminator characters. */
  predicate IsWhitespace(c: char)
  {
    c == '\t' || c == '\n' || c == '\U{000B}' || c == '\U{000C}' || c == '\r'
    || c == ' ' || c == '\U{00A0}' || c == '\U{1680}'
    || ('\U{2000}' <= c <= '\U{200A}')
    || c == '\U{2028}' || c == '\U{2029}' || c == '\U{202F}' || c == '\U{205F}'
    || c == '\U{3000}' || c == '\U{FEFF}'
  }

  /** `s.replace(/\s/gm, "")`. */
  function StripWhitespace(s: string): (r: string)
    ensures |r| <= |s|
    ensures forall k :: 0 <= k < |r| ==> !IsWhitespace(r[k])
  {
    if |s| == 0 then ""
    else if IsWhitespace(s[0]) then StripWhitespace(s[1..])
    else [s[0]] + StripWhitespace(s[1..])
  }

  /** `s.split(d)[0]` for a one-character separator `d`: everything before
      the first `d`, or all of `s` when `d` does not occur. */
  function FirstSegment(s: string, d: char): (r: string)
    ensures |r| <= |s| && r == s[..|r|]
    ensures d !in r
    ensures |r| < |s| ==> s[|r|] == d
  {
    if |s| == 0 || s[0] == d then "" else [s[0]] + FirstSegment(s[1..], d)
  }

  lemma {:induction false} StripAppend(a: string, b: string)
    ensures StripWhitespace(a + b) == StripWhitespace(a) + StripWhitespace(b)
  {
    if |a| > 0 {
      assert (a + b)[1..] == a[1..] + b;
      StripAppend(a[1..], b);
    } else {
      assert a + b == b;
    }
  }

  /** A string without whitespace is left as it is. */
  lemma {:induction false} StripNoWhitespace(s: string)
    requires forall k :: 0 <= k < |s| ==> !IsWhitespace(s[k])
    ensures StripWhitespace(s) == s
  {
    if |s| > 0 {
      StripNoWhitespace(s[1..]);
    }
  }

  /** Joining with a pure-whitespace separator and then stripping whitespace
      is the same as stripping every part and concatenating. */
  lemma {:induction false} StripJoin(parts: seq<string>, sep: string)
    requires StripWhitespace(sep) == ""
    ensures StripWhitespace(Join(parts, sep))
            == Concat(seq(|parts|, k requires 0 <= k < |parts| => StripWhitespace(parts[k])))
  {
    var stripped := seq(|parts|, k requires 0 <= k < |parts| => StripWhitespace(parts[k]));
    if |parts| == 1 {
      assert Concat(stripped) == stripped[0] + Concat([]);
    } else if |parts| > 1 {
      StripJoin(parts[1..], sep);
      StripAppend(parts[0] + sep, Join(parts[1..], sep));
      StripAppend(parts[0], sep);
      assert stripped[1..] == seq(|parts[1..]|, k requires 0 <= k < |parts[1..]| => StripWhitespace(parts[1..][k]));
    }
  }

  /** Once the separator has occurred, what follows cannot change the first
      segment. */
  lemma {:induction false} FirstSegmentAppend(a: string, b: string, d: char)
    requires d in a
    ensures FirstSegment(a + b, d) == FirstSegment(a, d)
  {
    if a[0] != d {
      assert (a + b)[1..] == a[1..] + b;
      assert d in a[1..] by {
        var k :| 0 <= k < |a| && a[k] == d;
        assert a[1..][k - 1] == d;
      }
      FirstSegmentAppend(a[1..], b, d);
    }
  }

  /** Without the separator the whole string is the first segment. */
  lemma {:induction false} FirstSegmentNoSeparator(s: string, d: char)
    requires d !in s
    ensures FirstSegment(s, d) == s
  {
    if |s| > 0 {
      assert d !in s[1..] by {
        forall k | 0 <= k < |s[1..]| ensures s[1..][k] != d {
          assert s[1..][k] == s[k + 1];
        }
      }
      FirstSegmentNoSeparator(s[1..], d);
    }
  }

  lemma {:induction false} ConcatAppend<T>(parts: seq<seq<T>>, last: seq<T>)
    ensures Concat(parts + [last]) == Concat(parts) + last
  {
    if |parts| == 0 {
      assert parts + [last] == [last];
    } else {
      assert (parts + [last])[1..] == parts[1..] + [last];
      ConcatAppend(parts[1..], last);
    }
  }

  lemma {:induction false} ConcatSplit<T>(a: seq<seq<T>>, b: seq<seq<T>>)
    ensures Concat(a + b) == Concat(a) + Concat(b)
  {
    if |a| == 0 {
      assert a + b == b;
    } else {
      assert (a + b)[1..] == a[1..] + b;
      ConcatSplit(a[1..], b);
    }
  }

  /** The first segment ends at the first separator. */
  lemma {:induction false} FirstSegmentAtSeparator(s: string, rest: string, d: char)
    requires d !in s
    ensures FirstSegment(s + [d] + rest, d) == s
  {
    if |s| > 0 {
      assert (s + [d] + rest)[1..] == s[1..] + [d] + rest;
      assert d !in s[1..] by {
        forall k | 0 <= k < |s[1..]| ensures s[1..][k] != d {
          assert s[1..][k] == s[k + 1];
        }
      }
      FirstSegmentAtSeparator(s[1..], rest, d);
    }
  }

  /** Concatenating parts of one width `w` puts part `k` at offset `w * k`. */
  lemma {:induction false} ConcatFixed<T>(parts: seq<seq<T>>, w: nat)
    requires forall k :: 0 <= k < |parts| ==> |parts[k]| == w
    ensures |Concat(parts)| == w * |parts|
    ensures forall k :: 0 <= k < |parts| ==>
              w * k + w <= |Concat(parts)| && Concat(parts)[w * k .. w * k + w] == parts[k]
  {
    ConcatFixedLength(parts, w);
    forall k | 0 <= k < |parts|
      ensures w * k + w <= |Concat(parts)| && Concat(parts)[w * k .. w * k + w] == parts[k]
    {
      ConcatFixedAt(parts, w, k);
    }
  }

  lemma {:induction false} ConcatFixedLength<T>(parts: seq<seq<T>>, w: nat)
    requires forall k :: 0 <= k < |parts| ==> |parts[k]| == w
    ensures |Concat(parts)| == w * |parts|
  {
    if |parts| > 0 {
      ConcatFixedLength(parts[1..], w);
      MulSucc(w, |parts| - 1);
    }
  }

  lemma {:induction false} ConcatFixedAt<T>(parts: seq<seq<T>>, w: nat, k: nat)
    requires forall i :: 0 <= i < |parts| ==> |parts[i]| == w
    requires k < |parts|
    ensures w * k + w <= |Concat(parts)|
    ensures Concat(parts)[w * k .. w * k + w] == parts[k]
  {
    ConcatFixedLength(parts, w);
    MulMono(w, k + 1, |parts|);
    MulSucc(w, k);
    if k > 0 {
      var rest := Concat(parts[1..]);
      ConcatFixedAt(parts[1..], w, k - 1);
      MulSucc(w, k - 1);
      var off := w * (k - 1);
      assert Concat(parts) == parts[0] + rest;
      assert Concat(parts)[off + w .. off + w + w] == rest[off .. off + w];
    }
  }

  /** `s.split(c)` for a one-character separator: the pieces between the
      occurrences of `c`; a string without `c` is one piece. */
  function Split(s: string, c: char): (parts: seq<string>)
    ensures |parts| >= 1
    ensures forall k :: 0 <= k < |parts| ==> c !in parts[k]
    decreases |s|
  {
    var first := FirstSegment(s, c);
    if |first| == |s| then [s]
    else [first] + Split(s[|first| + 1..], c)
  }

  /** Splitting undoes joining when no part holds the separator. */
  lemma {:induction false} SplitJoin(parts: seq<string>, c: char)
    requires |parts| > 0
    requires forall k :: 0 <= k < |parts| ==> c !in parts[k]
    ensures Split(Join(parts, [c]), c) == parts
  {
    if |parts| == 1 {
      FirstSegmentNoSeparator(parts[0], c);
    } else {
      var rest := Join(parts[1..], [c]);
      assert Join(parts, [c]) == parts[0] + [c] + rest;
      FirstSegmentAtSeparator(parts[0], rest, c);
      assert (parts[0] + [c] + rest)[|parts[0]| + 1..] == rest;
      SplitJoin(parts[1..], c);
    }
  }

  lemma MulSucc(w: nat, n: nat)
    ensures w * (n + 1) == w * n + w
  {
  }

  lemma MulMono(w: nat, a: nat, b: nat)
    requires a <= b
    ensures w * a <= w * b
  {
  }

  /** `n * k`, counted up one step of `n` at a time. */
  function Offset(n: nat, k: nat): nat
  {
    if k == 0 then 0 else Offset(n, k - 1) + n
  }

  lemma {:induction false} OffsetIsProduct(n: nat, k: nat)
    ensures Offset(n, k) == n * k
  {
    if k > 0 {
      OffsetIsProduct(n, k - 1);
      MulSucc(n, k - 1);
    }
  }

  /** `Array.prototype.reverse` as a value. */
  function Reverse<T>(s: seq<T>): (r: seq<T>)
    ensures |r| == |s|
    ensures forall k :: 0 <= k < |s| ==> r[k] == s[|s| - 1 - k]
  {
    if |s| == 0 then [] else Reverse(s[1..]) + [s[0]]
  }
}
