/** Byte buffers, the ASCII character classes used by the sanitizer's
    byte-level regular expressions, and a small Option type. */
module Bytes {

  /** One byte of a PDF buffer (Python `bytes` element). */
  type byte = b: int | 0 <= b < 256

  datatype Option<+T> = None | Some(value: T)

  /** The byte of an ASCII character. */
  function Byte(c: char): byte
    requires c as int < 256
  {
    c as int
  }

  /** The bytes of an ASCII literal such as `b'/Author('`. */
  function Ascii(s: string): seq<byte>
    requires forall i :: 0 <= i < |s| ==> s[i] as int < 256
  {
    seq(|s|, i requires 0 <= i < |s| => Byte(s[i]))
  }

  /** `p` is a prefix of `t`. */
  predicate StartsWith(t: seq<byte>, p: seq<byte>)
  {
    |p| <= |t| && t[..|p|] == p
  }

  /** Prefixes that agree on their first byte agree on the rest. */
  lemma StartsWithCons(t: seq<byte>, p: seq<byte>)
    requires |t| > 0 && |p| > 0 && t[0] == p[0]
    ensures StartsWith(t, p) <==> StartsWith(t[1..], p[1..])
  {
    if |p| <= |t| {
      assert t[..|p|] == [t[0]] + t[1..][..|p| - 1];
      assert p == [p[0]] + p[1..];
    }
  }

  /** Concatenation is associative. */
  lemma Reassociate(a: seq<byte>, b: seq<byte>, c: seq<byte>)
    ensures a + (b + c) == (a + b) + c
  {
  }

  /** A run of four pieces between `x` and `y`, grouped. */
  lemma Group4(x: seq<byte>, a: seq<byte>, b: seq<byte>, c: seq<byte>, d: seq<byte>, y: seq<byte>)
    ensures x + a + b + c + d + y == x + (a + b + c + d) + y
  {
  }

  /** A run of three pieces between `x` and `y`, grouped. */
  lemma Group3(x: seq<byte>, a: seq<byte>, b: seq<byte>, c: seq<byte>, y: seq<byte>)
    ensures x + a + b + c + y == x + (a + b + c) + y
  {
  }

  /** A buffer that starts with `x + y` at `i` starts with `x` there and
      with `y` right after it. */
  lemma Peel(t: seq<byte>, i: nat, x: seq<byte>, y: seq<byte>)
    requires i <= |t| && StartsWith(t[i..], x + y)
    ensures i + |x| <= |t| && StartsWith(t[i..], x) && StartsWith(t[i + |x|..], y)
  {
    assert t[i..][..|x|] == (x + y)[..|x|] == x;
    assert t[i + |x|..][..|y|] == t[i..][..|x + y|][|x|..] == y;
  }

  /** A buffer that starts with `[b] + y` at `i` has `b` there. */
  lemma PeelByte(t: seq<byte>, i: nat, b: byte, y: seq<byte>)
    requires i <= |t| && StartsWith(t[i..], [b] + y)
    ensures i < |t| && t[i] == b && StartsWith(t[i + 1..], y)
  {
    Peel(t, i, [b], y);
    assert t[i] == t[i..][..1][0];
  }

  /** `x` is written at position `i` of `t`, byte by byte. */
  predicate At(t: seq<byte>, i: nat, x: seq<byte>)
  {
    i + |x| <= |t| && forall k :: 0 <= k < |x| ==> t[i + k] == x[k]
  }

  /** A prefix is what is written at position 0. */
  lemma AtStart(t: seq<byte>, x: seq<byte>)
    ensures StartsWith(t, x) <==> At(t, 0, x)
  {
    if At(t, 0, x) {
      assert t[..|x|] == x;
    }
  }

  /** The first byte of what is written at `i` sits at `i`. */
  lemma AtFirst(t: seq<byte>, i: nat, x: seq<byte>)
    requires At(t, i, x) && |x| > 0
    ensures i < |t| && t[i] == x[0]
  {
    assert t[i + 0] == x[0];
  }

  /** What is written at `i` as `x + y` is `x` at `i` and `y` after it. */
  lemma AtSplit(t: seq<byte>, i: nat, x: seq<byte>, y: seq<byte>)
    requires At(t, i, x + y)
    ensures At(t, i, x) && At(t, i + |x|, y)
  {
    forall k | 0 <= k < |x| ensures t[i + k] == x[k] {
      assert t[i + k] == (x + y)[k];
    }
    forall k | 0 <= k < |y| ensures t[i + |x| + k] == y[k] {
      assert t[i + |x| + k] == (x + y)[|x| + k];
    }
  }

  /** `x` at `i` followed by `y` is `x + y` at `i`. */
  lemma AtJoin(t: seq<byte>, i: nat, x: seq<byte>, y: seq<byte>)
    requires At(t, i, x) && At(t, i + |x|, y)
    ensures At(t, i, x + y)
  {
    forall k | 0 <= k < |x| + |y| ensures t[i + k] == (x + y)[k] {
      if k >= |x| {
        assert t[i + |x| + (k - |x|)] == y[k - |x|];
      }
    }
  }

  /** Dropping the front of a concatenation leaves the back. */
  lemma DropFront(x: seq<byte>, r: seq<byte>)
    ensures (x + r)[|x|..] == r
  {
  }

  /** In `x s y`, where only `s` starts with `b`, the byte `b` occurs only
      where `s` starts. */
  lemma LoneAt(x: seq<byte>, s: seq<byte>, y: seq<byte>, b: byte)
    requires b !in x && b !in y && |s| > 0 && b !in s[1..]
    ensures forall i :: 0 <= i < |x + s + y| && i != |x| ==> (x + s + y)[i] != b
    ensures (x + s + y)[|x|..] == s + y
  {
    var u := x + s + y;
    forall i | 0 <= i < |u| && i != |x| ensures u[i] != b {
      if i < |x| {
        assert u[i] == x[i];
      } else if i < |x| + |s| {
        assert u[i] == s[1..][i - |x| - 1];
      } else {
        assert u[i] == y[i - |x| - |s|];
      }
    }
    assert u == x + (s + y);
  }

  /** A slice is written where it was cut from. */
  lemma AtCut(t: seq<byte>, i: nat, j: nat)
    requires i <= j <= |t|
    ensures At(t, i, t[i..j])
  {
  }

  /** A buffer that starts with `x + y` starts with `x`. */
  lemma StartsWithLeft(t: seq<byte>, x: seq<byte>, y: seq<byte>)
    requires StartsWith(t, x + y)
    ensures StartsWith(t, x)
  {
    assert t[..|x|] == (x + y)[..|x|];
  }

  /** Two prefixes of one buffer agree as far as the shorter reaches. */
  lemma PrefixesAgree(t: seq<byte>, p: seq<byte>, q: seq<byte>)
    ensures StartsWith(t, p) && StartsWith(t, q) && |p| <= |q| ==> p == q[..|p|]
  {
    if StartsWith(t, p) && StartsWith(t, q) && |p| <= |q| {
      assert q[..|p|] == t[..|q|][..|p|];
    }
  }

  /** `\d` in a bytes pattern: ASCII `0`-`9` only. */
  predicate IsDigit(b: byte)
  {
    48 <= b <= 57
  }

  /** The class `[A-Fa-f0-9]`. */
  predicate IsHex(b: byte)
  {
    IsDigit(b) || 65 <= b <= 70 || 97 <= b <= 102
  }

  /** `\s` in a bytes pattern: space, `\t`, `\n`, `\v`, `\f`, `\r`. */
  predicate IsSpace(b: byte)
  {
    b == 32 || 9 <= b <= 13
  }

  const CR: byte := 13
  const LF: byte := 10

  /** Delimiters of PDF names, strings and arrays: `/ ( ) < > [ ]`. */
  const Slash: byte := 47
  const LParen: byte := 40
  const RParen: byte := 41
  const LAngle: byte := 60
  const RAngle: byte := 62
  const LBrack: byte := 91
  const RBrack: byte := 93
}
