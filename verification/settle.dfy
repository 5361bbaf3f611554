/** When a rewrite is done for good: after `re.sub` replaces every match of
    `key [^stop]* close` by one fixed text, every match left in the output
    is that text itself, so a second run changes nothing and finds nothing
    to report. */
module Settle {
  import opened Bytes
  import opened Substitute
  import opened Regex

  /** Every match of `m` in `u`, wherever it starts, is exactly `r`. */
  ghost predicate Settled(m: Matcher, r: seq<byte>, u: seq<byte>)
  {
    forall i :: 0 <= i <= |u| && m(u[i..]).Some? ==> m(u[i..]).value.whole == r
  }

  /** The matcher of `key [^stop]* close` (`+` when `nonEmpty`). */
  function DelimitedMatcher(key: seq<byte>, stop: byte, close: seq<byte>, nonEmpty: bool): (m: Matcher)
    requires |key| > 0 && |close| > 0 && close[0] == stop
    ensures WellFormed(m) && LeadsWith(m, key[0])
  {
    Compile(Delimited(key, stop, close, nonEmpty))
  }

  /** Every delimited match is a prefix of its buffer. */
  lemma DelimitedPrefixing(key: seq<byte>, stop: byte, close: seq<byte>, nonEmpty: bool)
    requires |key| > 0 && |close| > 0 && close[0] == stop
    ensures Prefixing(DelimitedMatcher(key, stop, close, nonEmpty))
  {
    CompilePrefixing(Delimited(key, stop, close, nonEmpty));
  }

  /** The delimited matcher applied to a buffer. */
  lemma DelimitedApply(key: seq<byte>, stop: byte, close: seq<byte>, nonEmpty: bool, u: seq<byte>)
    requires |key| > 0 && |close| > 0 && close[0] == stop
    ensures DelimitedMatcher(key, stop, close, nonEmpty)(u) == DelimitedMatch(u, key, stop, close, nonEmpty)
  {
  }

  /** The delimited matcher applied to any buffer. */
  lemma DelimitedApplyAll(key: seq<byte>, stop: byte, close: seq<byte>, nonEmpty: bool)
    requires |key| > 0 && |close| > 0 && close[0] == stop
    ensures forall u :: DelimitedMatcher(key, stop, close, nonEmpty)(u) == DelimitedMatch(u, key, stop, close, nonEmpty)
  {
    forall u ensures DelimitedMatcher(key, stop, close, nonEmpty)(u) == DelimitedMatch(u, key, stop, close, nonEmpty) {
      DelimitedApply(key, stop, close, nonEmpty, u);
    }
  }

  /** A settled buffer is a fixed point of the rewrite. */
  lemma SettledIsFixed(m: Matcher, r: seq<byte>, u: seq<byte>)
    requires WellFormed(m) && Prefixing(m) && Settled(m, r, u)
    ensures SubAll(m, Const(r), u) == u
  {
    SubAllFixed(m, Const(r), u);
  }

  /** Dropping a prefix keeps a buffer settled. */
  lemma SettledSuffix(m: Matcher, r: seq<byte>, u: seq<byte>, k: nat)
    requires k <= |u| && Settled(m, r, u)
    ensures Settled(m, r, u[k..])
  {
    forall i | 0 <= i <= |u| - k ensures u[k..][i..] == u[k + i..] { }
  }

  /** Prefixing bytes whose own matches are all `r` keeps a buffer settled. */
  lemma SettledConcat(m: Matcher, r: seq<byte>, x: seq<byte>, w: seq<byte>)
    requires Settled(m, r, w) && Inside(m, r, x, w)
    ensures Settled(m, r, x + w)
  {
    forall i | |x| <= i <= |x + w| ensures (x + w)[i..] == w[i - |x|..] { }
  }

  /** Every match that starts inside `x`, in front of `w`, is `r`. */
  ghost predicate Inside(m: Matcher, r: seq<byte>, x: seq<byte>, w: seq<byte>)
  {
    forall i :: 0 <= i < |x| ==> m((x + w)[i..]).None? || m((x + w)[i..]).value.whole == r
  }

  /** The shape of the replacement `key value close` that makes the rewrite
      settle: the key's first byte occurs nowhere else in the replacement
      except where the closing text starts, and there the closing text
      differs from the key in its second byte (`<xmp:X>` against `</xmp:X>`);
      otherwise the closing text is the stop byte alone (`/Author(` … `)`). */
  predicate DelimitedShape(key: seq<byte>, stop: byte, close: seq<byte>, value: seq<byte>)
  {
    && |key| >= 2 && |close| >= 1 && close[0] == stop
    && stop !in value
    && key[0] !in key[1..] && key[0] !in value && key[0] !in close[1..]
    && ((stop != key[0] && close == [stop]) || (stop == key[0] && |close| >= 2 && key[1] != close[1]))
  }

  /** A buffer with no stop byte holds no delimited match. */
  lemma NoStopNoMatch(key: seq<byte>, stop: byte, close: seq<byte>, nonEmpty: bool, x: seq<byte>)
    requires |key| > 0 && |close| > 0 && close[0] == stop
    requires stop !in x
    ensures !Occurs(DelimitedMatcher(key, stop, close, nonEmpty), x)
  {
    var m := DelimitedMatcher(key, stop, close, nonEmpty);
    forall i | 0 <= i <= |x| ensures m(x[i..]).None? {
      var u := x[i..];
      if StartsWith(u, key) {
        forall k | |key| <= k < |u| ensures InClass(NotByte(stop), u[k]) {
          assert u[k] == x[i + k];
        }
        SpanAt(u, |key|, NotByte(stop), |u|);
      }
    }
  }

  /** Inside the replacement, past its first byte, the key does not start:
      each later byte either is not the key's first byte or is followed by
      a byte other than the key's second. */
  lemma NoKeyInside(key: seq<byte>, stop: byte, close: seq<byte>, value: seq<byte>, w: seq<byte>, i: nat)
    requires DelimitedShape(key, stop, close, value)
    requires 0 < i < |key + value + close|
    ensures !StartsWith((key + value + close + w)[i..], key)
  {
    var u := (key + value + close + w)[i..];
    if |u| >= |key| {
      assert u[..|key|][0] == u[0] && u[..|key|][1] == u[1];
    }
    if i < |key| {
      assert u[0] == key[1..][i - 1];
    } else if i < |key| + |value| {
      assert u[0] == value[i - |key|];
    } else if i == |key| + |value| {
      assert u[0] == stop;
      if stop == key[0] {
        assert u[1] == close[1];
      }
    } else {
      assert u[0] == close[1..][i - |key| - |value| - 1];
    }
  }

  /** Inside the replacement, the only match is the replacement itself, at
      its start. */
  lemma PrependAt(key: seq<byte>, stop: byte, close: seq<byte>, value: seq<byte>, w: seq<byte>, i: nat)
    requires DelimitedShape(key, stop, close, value) && i < |key + value + close|
    ensures var h := DelimitedMatch((key + value + close + w)[i..], key, stop, close, false);
      h.None? || h.value.whole == key + value + close
  {
    if i == 0 {
      assert (key + value + close + w)[0..] == key + value + close + w;
      DelimitedFinds(key, stop, close, false, value, w);
    } else {
      NoKeyInside(key, stop, close, value, w, i);
      DelimitedNoKey((key + value + close + w)[i..], key, stop, close, false);
    }
  }

  /** No match starts inside the replacement except the replacement
      itself, whatever follows it. */
  lemma PrependOnly(key: seq<byte>, stop: byte, close: seq<byte>, value: seq<byte>, w: seq<byte>)
    requires DelimitedShape(key, stop, close, value)
    ensures Inside(DelimitedMatcher(key, stop, close, false), key + value + close, key + value + close, w)
  {
    var r := key + value + close;
    forall i | 0 <= i < |r|
      ensures var h := DelimitedMatch((r + w)[i..], key, stop, close, false); h.None? || h.value.whole == r
    {
      PrependAt(key, stop, close, value, w, i);
    }
    DelimitedApplyAll(key, stop, close, false);
    InsideOf(DelimitedMatcher(key, stop, close, false), key, stop, close, r, w);
  }

  /** `Inside`, for a matcher that agrees with the delimited match. */
  lemma InsideOf(m: Matcher, key: seq<byte>, stop: byte, close: seq<byte>, r: seq<byte>, w: seq<byte>)
    requires |key| > 0 && |close| > 0
    requires forall u :: m(u) == DelimitedMatch(u, key, stop, close, false)
    requires forall i :: 0 <= i < |r| ==>
      var h := DelimitedMatch((r + w)[i..], key, stop, close, false); h.None? || h.value.whole == r
    ensures Inside(m, r, r, w)
  {
  }

  /** The replacement, followed by a settled buffer, gives a settled buffer:
      no match starts inside the replacement except the replacement itself. */
  lemma SettledPrepend(key: seq<byte>, stop: byte, close: seq<byte>, value: seq<byte>, w: seq<byte>)
    requires DelimitedShape(key, stop, close, value)
    requires Settled(DelimitedMatcher(key, stop, close, false), key + value + close, w)
    ensures Settled(DelimitedMatcher(key, stop, close, false), key + value + close, key + value + close + w)
  {
    PrependOnly(key, stop, close, value, w);
    SettledConcat(DelimitedMatcher(key, stop, close, false), key + value + close, key + value + close, w);
  }

  /** At a stop byte that is also the key's first byte and does not open
      the closing text, the rewritten remainder still starts with the stop
      byte and still does not open the closing text. */
  lemma StopHead(key: seq<byte>, stop: byte, close: seq<byte>, value: seq<byte>, t: seq<byte>)
    requires DelimitedShape(key, stop, close, value) && stop == key[0]
    requires |t| > 0 && t[0] == stop && !StartsWith(t, close)
    ensures var z := SubAll(DelimitedMatcher(key, stop, close, false), Const(key + value + close), t);
      |z| > 0 && z[0] == stop && !StartsWith(z, close)
  {
    var m := DelimitedMatcher(key, stop, close, false);
    var r := key + value + close;
    var f := Const(r);
    var z := SubAll(m, f, t);
    match m(t)
    case Some(h) =>
      assert z == r + SubAll(m, f, t[|h.whole|..]);
      SecondByteDiffers(z, close, key[1]);
    case None =>
      CopyFirst(m, f, t);
      StartsWithCons(t, close);
      ConstKeepsLead(m, r, key[0]);
      NotPrefixKept(m, f, key[0], t[1..], close[1..]);
      assert z[1..] == SubAll(m, f, t[1..]);
      StartsWithCons(z, close);
  }

  /** A buffer whose second byte differs from that of `close` does not
      start with it. */
  lemma SecondByteDiffers(z: seq<byte>, close: seq<byte>, b: byte)
    requires |z| >= 2 && z[1] == b && |close| >= 2 && close[1] != b
    ensures !StartsWith(z, close)
  {
    if |close| <= |z| {
      assert z[..|close|][1] == b;
    }
  }

  /** Past the key of an unmatched position whose run reaches a stop byte,
      the rewrite keeps that stop byte from closing the match. */
  lemma DelimitedTailStop(key: seq<byte>, stop: byte, close: seq<byte>, value: seq<byte>, t: seq<byte>, j: nat)
    requires DelimitedShape(key, stop, close, value)
    requires StartsWith(t, key) && |key| <= j < |t|
    requires forall k :: |key| <= k < j ==> t[k] != stop
    requires t[j] == stop && !StartsWith(t[j..], close)
    ensures DelimitedMatch(key + SubAll(DelimitedMatcher(key, stop, close, false), Const(key + value + close), t[|key|..]),
                           key, stop, close, false).None?
  {
    var m := DelimitedMatcher(key, stop, close, false);
    var f := Const(key + value + close);
    assert stop == key[0] by {
      assert t[j..][..1] == [stop];
    }
    SkipToLead(m, f, key[0], t, |key|, j);
    StopHead(key, stop, close, value, t[j..]);
    var g := t[|key|..j];
    assert stop !in g by {
      forall k | 0 <= k < |g| ensures g[k] != stop {
        assert g[k] == t[|key| + k];
      }
    }
    var z := SubAll(m, f, t[j..]);
    Reassociate(key, g, z);
    BlockedCopy(key, stop, close, g, z);
  }

  /** The key, a run free of the stop byte, and then a stop byte that does
      not open the closing text: no delimited match. */
  lemma BlockedCopy(key: seq<byte>, stop: byte, close: seq<byte>, g: seq<byte>, z: seq<byte>)
    requires |key| > 0 && |close| > 0 && stop !in g
    requires |z| > 0 && z[0] == stop && !StartsWith(z, close)
    ensures DelimitedMatch(key + g + z, key, stop, close, false).None?
  {
    var out := key + g + z;
    assert out[..|key|] == key;
    forall k | |key| <= k < |key| + |g| ensures out[k] != stop {
      assert out[k] == g[k - |key|];
    }
    assert out[|key| + |g|..] == z;
    DelimitedBlocked(out, key, stop, close, |key| + |g|);
  }

  /** Past the key of an unmatched position, the rewrite does not close the
      match: either no stop byte follows, or the first one still does not
      open the closing text. */
  lemma DelimitedTail(key: seq<byte>, stop: byte, close: seq<byte>, value: seq<byte>, t: seq<byte>)
    requires DelimitedShape(key, stop, close, value)
    requires StartsWith(t, key) && DelimitedMatch(t, key, stop, close, false).None?
    ensures DelimitedMatch(key + SubAll(DelimitedMatcher(key, stop, close, false), Const(key + value + close), t[|key|..]),
                           key, stop, close, false).None?
  {
    var m := DelimitedMatcher(key, stop, close, false);
    var f := Const(key + value + close);
    var j := Span(t, |key|, NotByte(stop));
    if j == |t| {
      assert stop !in t[|key|..];
      NoStopNoMatch(key, stop, close, false, t[|key|..]);
      SubAllNoMatch(m, f, t[|key|..]);
      assert key + t[|key|..] == t;
    } else {
      assert !StartsWith(t[j..], close);
      DelimitedTailStop(key, stop, close, value, t, j);
    }
  }

  /** Where nothing matched, the rewrite does not create a match. */
  lemma UnmatchedStays(key: seq<byte>, stop: byte, close: seq<byte>, value: seq<byte>, t: seq<byte>)
    requires DelimitedShape(key, stop, close, value)
    requires DelimitedMatcher(key, stop, close, false)(t).None?
    ensures DelimitedMatcher(key, stop, close, false)(SubAll(DelimitedMatcher(key, stop, close, false), Const(key + value + close), t)).None?
  {
    var m := DelimitedMatcher(key, stop, close, false);
    var f := Const(key + value + close);
    var out := SubAll(m, f, t);
    if StartsWith(out, key) {
      assert KeepsLead(m, f, key[0]);
      UnmatchedHead(m, f, key[0], t, key);
      DelimitedTail(key, stop, close, value, t);
    }
  }

  /** After the rewrite of `key [^stop]* close` to `key value close`, every
      match left in the output is the replacement itself. */
  lemma {:induction false} DelimitedSettles(key: seq<byte>, stop: byte, close: seq<byte>, value: seq<byte>, t: seq<byte>)
    requires DelimitedShape(key, stop, close, value)
    ensures Settled(DelimitedMatcher(key, stop, close, false), key + value + close,
                    SubAll(DelimitedMatcher(key, stop, close, false), Const(key + value + close), t))
    decreases |t|
  {
    var m := DelimitedMatcher(key, stop, close, false);
    var r := key + value + close;
    var f := Const(r);
    if |t| == 0 {
      assert SubAll(m, f, t) == [];
    } else {
      match m(t)
      case Some(h) =>
        var w := t[|h.whole|..];
        DelimitedSettles(key, stop, close, value, w);
        assert SubAll(m, f, t) == r + SubAll(m, f, w);
        SettledPrepend(key, stop, close, value, SubAll(m, f, w));
      case None =>
        DelimitedSettles(key, stop, close, value, t[1..]);
        UnmatchedStays(key, stop, close, value, t);
        assert SubAll(m, f, t) == [t[0]] + SubAll(m, f, t[1..]);
        SettledConcat(m, r, [t[0]], SubAll(m, f, t[1..]));
    }
  }

  /** Somewhere in `t` stands `key`, a run free of the stop byte
      (non-empty when `nonEmpty`), and the closing text. */
  ghost predicate Written(t: seq<byte>, key: seq<byte>, stop: byte, close: seq<byte>, nonEmpty: bool)
  {
    exists i, v :: 0 <= i <= |t| && stop !in v && (nonEmpty ==> |v| > 0) && StartsWith(t[i..], key + v + close)
  }

  /** A delimited match found by `re.search` is such written text. */
  lemma MatchWritten(key: seq<byte>, stop: byte, close: seq<byte>, nonEmpty: bool, t: seq<byte>, i: nat)
    requires |key| > 0 && |close| > 0 && close[0] == stop && i <= |t|
    requires DelimitedMatch(t[i..], key, stop, close, nonEmpty).Some?
    ensures Written(t, key, stop, close, nonEmpty)
  {
    DelimitedFound(t[i..], key, stop, close, nonEmpty);
    var h := DelimitedMatch(t[i..], key, stop, close, nonEmpty).value;
    assert StartsWith(t[i..], key + h.group + close);
  }

  /** Written text is a delimited match where it starts. */
  lemma WrittenMatch(key: seq<byte>, stop: byte, close: seq<byte>, nonEmpty: bool, t: seq<byte>, i: nat, v: seq<byte>)
    requires |key| > 0 && |close| > 0 && close[0] == stop && i <= |t|
    requires stop !in v && (nonEmpty ==> |v| > 0) && StartsWith(t[i..], key + v + close)
    ensures DelimitedMatch(t[i..], key, stop, close, nonEmpty).Some?
  {
    var n := |key + v + close|;
    assert t[i..] == key + v + close + t[i..][n..];
    DelimitedFinds(key, stop, close, nonEmpty, v, t[i..][n..]);
  }

  lemma OccursWritten(key: seq<byte>, stop: byte, close: seq<byte>, nonEmpty: bool, t: seq<byte>)
    requires |key| > 0 && |close| > 0 && close[0] == stop
    requires Occurs(DelimitedMatcher(key, stop, close, nonEmpty), t)
    ensures Written(t, key, stop, close, nonEmpty)
  {
    var m := DelimitedMatcher(key, stop, close, nonEmpty);
    var i :| 0 <= i <= |t| && m(t[i..]).Some?;
    MatchWritten(key, stop, close, nonEmpty, t, i);
  }

  lemma WrittenOccurs(key: seq<byte>, stop: byte, close: seq<byte>, nonEmpty: bool, t: seq<byte>)
    requires |key| > 0 && |close| > 0 && close[0] == stop
    requires Written(t, key, stop, close, nonEmpty)
    ensures Occurs(DelimitedMatcher(key, stop, close, nonEmpty), t)
  {
    var i, v :| 0 <= i <= |t| && stop !in v && (nonEmpty ==> |v| > 0) && StartsWith(t[i..], key + v + close);
    WrittenMatch(key, stop, close, nonEmpty, t, i, v);
    DelimitedApply(key, stop, close, nonEmpty, t[i..]);
    OccursAt(DelimitedMatcher(key, stop, close, nonEmpty), t, i);
  }

  /** `re.search` of a delimited pattern succeeds exactly when such text
      is written somewhere in the buffer. */
  lemma DelimitedOccurs(key: seq<byte>, stop: byte, close: seq<byte>, nonEmpty: bool, t: seq<byte>)
    requires |key| > 0 && |close| > 0 && close[0] == stop
    ensures Occurs(DelimitedMatcher(key, stop, close, nonEmpty), t) <==> Written(t, key, stop, close, nonEmpty)
  {
    if Occurs(DelimitedMatcher(key, stop, close, nonEmpty), t) {
      OccursWritten(key, stop, close, nonEmpty, t);
    }
    if Written(t, key, stop, close, nonEmpty) {
      WrittenOccurs(key, stop, close, nonEmpty, t);
    }
  }

  /** A buffer whose only key-lead byte sits at `p`, where the pattern does
      not match, holds no match. */
  lemma DelimitedOnlyAt(key: seq<byte>, stop: byte, close: seq<byte>, nonEmpty: bool, t: seq<byte>, p: nat)
    requires |key| > 0 && |close| > 0 && close[0] == stop && p <= |t|
    requires forall i :: 0 <= i < |t| && i != p ==> t[i] != key[0]
    requires DelimitedMatch(t[p..], key, stop, close, nonEmpty).None?
    ensures !Occurs(DelimitedMatcher(key, stop, close, nonEmpty), t)
  {
    OnlyLeadAt(DelimitedMatcher(key, stop, close, nonEmpty), key[0], t, p);
  }

  /** A buffer whose only delimited matches are `key close` with nothing
      between holds no match of the non-empty form `key [^stop]+ close`. */
  lemma SettledEmptyNoValue(key: seq<byte>, stop: byte, close: seq<byte>, u: seq<byte>)
    requires |key| > 0 && |close| > 0 && close[0] == stop
    requires Settled(DelimitedMatcher(key, stop, close, false), key + close, u)
    ensures !Occurs(DelimitedMatcher(key, stop, close, true), u)
  {
    var m := DelimitedMatcher(key, stop, close, false);
    forall i | 0 <= i <= |u| ensures DelimitedMatcher(key, stop, close, true)(u[i..]).None? {
      if m(u[i..]).Some? {
        DelimitedFound(u[i..], key, stop, close, false);
      }
    }
  }

  /** Every delimited match carries its stop byte, at the start of the
      closing text. */
  lemma DelimitedCarries(key: seq<byte>, stop: byte, close: seq<byte>, nonEmpty: bool)
    requires |key| > 0 && |close| > 0 && close[0] == stop
    ensures Carries(DelimitedMatcher(key, stop, close, nonEmpty), stop)
  {
    var m := DelimitedMatcher(key, stop, close, nonEmpty);
    forall u | m(u).Some? ensures stop in m(u).value.whole {
      DelimitedFound(u, key, stop, close, nonEmpty);
      var h := m(u).value;
      assert h.whole[|key| + |h.group|] == stop;
    }
  }

  /** A delimited rewrite A (closed by its stop byte alone, replacement
      `kA vA sA`) next to another rewrite B (matcher `mB`, replacement `rB`)
      that shares A's first key byte: that byte occurs in neither
      replacement after its start, `rB` and A's key diverge, and B either
      never writes A's stop byte or only rewrites text already holding it. */
  ghost predicate Crossing(kA: seq<byte>, sA: byte, vA: seq<byte>, mB: Matcher, rB: seq<byte>)
  {
    && |kA| >= 2 && kA[0] != sA
    && kA[0] !in kA[1..] && kA[0] !in vA && sA !in vA
    && WellFormed(mB) && Prefixing(mB) && LeadsWith(mB, kA[0])
    && |rB| > 0 && rB[0] == kA[0] && kA[0] !in rB[1..]
    && (if |kA| <= |rB| then kA != rB[..|kA|] else rB != kA[..|rB|])
    && (sA !in rB || Carries(mB, sA))
  }

  /** Where B does not match, the output either holds no A match at its
      start or holds A's replacement there. */
  lemma CrossHead(kA: seq<byte>, sA: byte, vA: seq<byte>, mB: Matcher, rB: seq<byte>, u: seq<byte>)
    requires Crossing(kA, sA, vA, mB, rB)
    requires Settled(DelimitedMatcher(kA, sA, [sA], false), kA + vA + [sA], u)
    requires mB(u).None?
    ensures var out := SubAll(mB, Const(rB), u);
      DelimitedMatcher(kA, sA, [sA], false)(out).Some? ==>
        DelimitedMatcher(kA, sA, [sA], false)(out).value.whole == kA + vA + [sA]
  {
    var fB := Const(rB);
    var out := SubAll(mB, fB, u);
    DelimitedApply(kA, sA, [sA], false, out);
    if StartsWith(out, kA) {
      assert KeepsLead(mB, fB, kA[0]);
      UnmatchedHead(mB, fB, kA[0], u, kA);
      var j := Span(u, |kA|, NotByte(sA));
      if j == |u| {
        CrossUnclosed(kA, sA, vA, mB, rB, u);
      } else {
        SettledHead(DelimitedMatcher(kA, sA, [sA], false), kA + vA + [sA], u);
        DelimitedApply(kA, sA, [sA], false, u);
        SettledStopped(kA, sA, vA, u);
        CrossClosed(kA, sA, vA, mB, rB, u);
      }
    } else {
      DelimitedNoKey(out, kA, sA, [sA], false);
    }
  }

  /** A settled buffer holds the replacement, or no match, at its start. */
  lemma SettledHead(m: Matcher, r: seq<byte>, u: seq<byte>)
    requires Settled(m, r, u)
    ensures m(u).None? || m(u).value.whole == r
  {
    assert u[0..] == u;
  }

  /** A buffer that starts with A's key, has a stop byte after it, and holds
      A's replacement if any A match at its start, starts with A's
      replacement. */
  lemma SettledStopped(kA: seq<byte>, sA: byte, vA: seq<byte>, u: seq<byte>)
    requires |kA| > 0 && StartsWith(u, kA) && Span(u, |kA|, NotByte(sA)) < |u|
    requires var r := DelimitedMatch(u, kA, sA, [sA], false);
      r.None? || r.value.whole == kA + vA + [sA]
    ensures StartsWith(u, kA + vA + [sA])
  {
    DelimitedStopped(u, kA, sA);
  }

  /** `CrossHead` when no stop byte of A follows A's key: none is created. */
  lemma CrossUnclosed(kA: seq<byte>, sA: byte, vA: seq<byte>, mB: Matcher, rB: seq<byte>, u: seq<byte>)
    requires Crossing(kA, sA, vA, mB, rB)
    requires StartsWith(u, kA) && sA !in u[|kA|..]
    ensures DelimitedMatch(kA + SubAll(mB, Const(rB), u[|kA|..]), kA, sA, [sA], false).None?
  {
    var out := kA + SubAll(mB, Const(rB), u[|kA|..]);
    if sA !in rB {
      AbsentStaysAbsent(mB, rB, u[|kA|..], sA);
    } else {
      MissingCarried(mB, sA, u[|kA|..]);
      SubAllNoMatch(mB, Const(rB), u[|kA|..]);
    }
    assert out[|kA|..] == SubAll(mB, Const(rB), u[|kA|..]);
    DelimitedUnclosed(out, kA, sA, [sA], false);
  }

  /** `CrossHead` when A's replacement starts the buffer: B copies it. */
  lemma CrossClosed(kA: seq<byte>, sA: byte, vA: seq<byte>, mB: Matcher, rB: seq<byte>, u: seq<byte>)
    requires Crossing(kA, sA, vA, mB, rB)
    requires StartsWith(u, kA + vA + [sA])
    ensures DelimitedMatch(kA + SubAll(mB, Const(rB), u[|kA|..]), kA, sA, [sA], false)
         == Some(Hit(kA + vA + [sA], vA))
  {
    var fB := Const(rB);
    var rA := kA + vA + [sA];
    AtStart(u, rA);
    AtSplit(u, 0, kA + vA, [sA]);
    AtSplit(u, 0, kA, vA);
    var run := u[|kA|..|rA|];
    assert run == vA + [sA] by {
      forall k | 0 <= k < |run| ensures run[k] == (vA + [sA])[k] {
        if k < |vA| {
          assert u[|kA| + k] == vA[k];
        } else {
          assert u[|kA + vA| + 0] == [sA][0];
        }
      }
    }
    forall k | |kA| <= k < |rA| ensures u[k] != kA[0] {
      assert u[k] == run[k - |kA|];
    }
    SkipToLead(mB, fB, kA[0], u, |kA|, |rA|);
    var z := SubAll(mB, fB, u[|rA|..]);
    Regroup(kA, vA, [sA], z);
    DelimitedFinds(kA, sA, [sA], false, vA, z);
  }

  /** B's replacement, followed by an A-settled buffer, is A-settled: no A
      match starts inside it. */
  lemma CrossPrepend(kA: seq<byte>, sA: byte, vA: seq<byte>, mB: Matcher, rB: seq<byte>, w: seq<byte>)
    requires Crossing(kA, sA, vA, mB, rB)
    requires Settled(DelimitedMatcher(kA, sA, [sA], false), kA + vA + [sA], w)
    ensures Settled(DelimitedMatcher(kA, sA, [sA], false), kA + vA + [sA], rB + w)
  {
    var mA := DelimitedMatcher(kA, sA, [sA], false);
    var x := rB + w;
    forall i | 0 <= i < |rB| ensures mA(x[i..]).None? {
      DelimitedApply(kA, sA, [sA], false, x[i..]);
      if i == 0 {
        assert x[0..] == x;
        PrefixesAgree(x, kA, rB);
        PrefixesAgree(x, rB, kA);
      } else {
        assert x[i..][0] == rB[1..][i - 1];
      }
      DelimitedNoKey(x[i..], kA, sA, [sA], false);
    }
    SettledConcat(mA, kA + vA + [sA], rB, w);
  }

  /** Rewriting B keeps an A-settled buffer A-settled. */
  lemma {:induction false} CrossSettles(kA: seq<byte>, sA: byte, vA: seq<byte>, mB: Matcher, rB: seq<byte>, u: seq<byte>)
    requires Crossing(kA, sA, vA, mB, rB)
    requires Settled(DelimitedMatcher(kA, sA, [sA], false), kA + vA + [sA], u)
    ensures Settled(DelimitedMatcher(kA, sA, [sA], false), kA + vA + [sA], SubAll(mB, Const(rB), u))
    decreases |u|
  {
    var mA := DelimitedMatcher(kA, sA, [sA], false);
    var rA := kA + vA + [sA];
    var fB := Const(rB);
    if |u| == 0 {
      assert SubAll(mB, fB, u) == [];
    } else {
      match mB(u)
      case Some(h) =>
        SettledSuffix(mA, rA, u, |h.whole|);
        CrossSettles(kA, sA, vA, mB, rB, u[|h.whole|..]);
        assert SubAll(mB, fB, u) == rB + SubAll(mB, fB, u[|h.whole|..]);
        CrossPrepend(kA, sA, vA, mB, rB, SubAll(mB, fB, u[|h.whole|..]));
      case None =>
        SettledSuffix(mA, rA, u, 1);
        CrossSettles(kA, sA, vA, mB, rB, u[1..]);
        CrossHead(kA, sA, vA, mB, rB, u);
        assert SubAll(mB, fB, u) == [u[0]] + SubAll(mB, fB, u[1..]);
        SettledConcat(mA, rA, [u[0]], SubAll(mB, fB, u[1..]));
    }
  }
}
