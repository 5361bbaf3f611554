/** Where a lazy rewrite is done for good: `open .*? close` (DOTALL) stops
    at the nearest closing text, and once every match is replaced by one
    fixed `open content close` in which the closing text does not start
    early and the opening text does not start again, every match left in
    the output is that replacement. */
module Nearest {
  import opened Bytes
  import opened Substitute
  import opened Regex
  import opened Settle

  /** The lazy match: the opening tag, a content in which the closing tag
      does not start, and the closing tag that ends it. */
  lemma LazyFound(t: seq<byte>, open: seq<byte>, close: seq<byte>)
    requires |open| > 0 && LazyMatch(t, open, close).Some?
    ensures var h := LazyMatch(t, open, close).value;
      && h.whole == open + h.group + close
      && forall k :: 0 <= k < |h.group| ==> !StartsWith((h.group + close)[k..], close)
  {
    var j := IndexOf(t, close, |open|).value;
    var h := LazyMatch(t, open, close).value;
    assert t[j..][..|close|] == close;
    assert t[..j + |close|] == t[..|open|] + t[|open|..j] + t[j..][..|close|];
    forall k | 0 <= k < |h.group| ensures !StartsWith((h.group + close)[k..], close) {
      assert !StartsWith(t[|open| + k..], close);
      if |close| <= |(h.group + close)[k..]| {
        assert (h.group + close)[k..][..|close|] == t[|open| + k..][..|close|];
      }
    }
  }

  /** Conversely, the opening tag, a content in which the closing tag does
      not start, and the closing tag are matched exactly, across line
      breaks and whatever follows. */
  lemma LazyFinds(open: seq<byte>, v: seq<byte>, close: seq<byte>, rest: seq<byte>)
    requires |open| > 0
    requires forall k :: 0 <= k < |v| ==> !StartsWith((v + close)[k..], close)
    ensures LazyMatch(open + v + close + rest, open, close) == Some(Hit(open + v + close, v))
  {
    var t := open + v + close + rest;
    var j := |open| + |v|;
    assert t[..|open|] == open;
    assert t[j..][..|close|] == close;
    forall k | |open| <= k < j ensures !StartsWith(t[k..], close) {
      assert !StartsWith((v + close)[k - |open|..], close);
      if |close| <= |t[k..]| {
        assert t[k..][..|close|] == (v + close)[k - |open|..][..|close|];
      }
    }
    IndexOfAt(t, close, |open|, j);
    assert t[..j + |close|] == open + v + close;
    assert t[|open|..j] == v;
  }

  /** The matcher of `open .*? close`. */
  function LazyMatcher(open: seq<byte>, close: seq<byte>): (m: Matcher)
    requires |open| > 0
    ensures WellFormed(m) && LeadsWith(m, open[0])
  {
    Compile(Lazy(open, close))
  }

  /** The lazy matcher applied to any buffer. */
  lemma LazyApplyAll(open: seq<byte>, close: seq<byte>)
    requires |open| > 0
    ensures forall u :: LazyMatcher(open, close)(u) == LazyMatch(u, open, close)
  {
  }

  /** The shape of a replacement `open c close` that makes the lazy rewrite
      settle: the opening text starts with a byte it holds nowhere else,
      which also starts the closing text; the closing text does not start
      inside `c`; and wherever that byte stands in `c close`, the byte
      after it differs from the opening text's second byte. */
  ghost predicate LazyShape(open: seq<byte>, c: seq<byte>, close: seq<byte>)
  {
    && |open| >= 2 && |close| > 0 && close[0] == open[0]
    && open[0] !in open[1..]
    && (forall k :: 0 <= k < |c| ==> !StartsWith((c + close)[k..], close))
    && (forall k :: 0 <= k < |c + close| && (c + close)[k] == open[0] ==>
          k + 1 < |c + close| && (c + close)[k + 1] != open[1])
  }

  /** Inside the replacement, past its first byte, the opening text does
      not start, whatever follows. */
  lemma NoOpenInside(open: seq<byte>, c: seq<byte>, close: seq<byte>, w: seq<byte>, i: nat)
    requires LazyShape(open, c, close) && 0 < i < |open + c + close|
    ensures !StartsWith((open + c + close + w)[i..], open)
  {
    var u := (open + c + close + w)[i..];
    if |u| >= |open| {
      assert u[..|open|][0] == u[0] && u[..|open|][1] == u[1];
      if i < |open| {
        assert u[0] == open[1..][i - 1];
      } else {
        var k := i - |open|;
        assert u[0] == (c + close)[k];
        if (c + close)[k] == open[0] {
          assert u[1] == (c + close)[k + 1];
        }
      }
    }
  }

  /** No lazy match starts inside the replacement except the replacement
      itself, at its start. */
  lemma LazyInsideAt(open: seq<byte>, c: seq<byte>, close: seq<byte>, w: seq<byte>, i: nat)
    requires LazyShape(open, c, close) && i < |open + c + close|
    ensures var h := LazyMatch((open + c + close + w)[i..], open, close);
      h.None? || h.value.whole == open + c + close
  {
    if i == 0 {
      assert (open + c + close + w)[0..] == open + c + close + w;
      LazyFinds(open, c, close, w);
    } else {
      NoOpenInside(open, c, close, w, i);
    }
  }

  /** `Inside`, for a matcher that agrees with the lazy match. */
  lemma LazyInsideOf(m: Matcher, open: seq<byte>, close: seq<byte>, r: seq<byte>, w: seq<byte>)
    requires |open| > 0
    requires forall u :: m(u) == LazyMatch(u, open, close)
    requires forall i :: 0 <= i < |r| ==>
      var h := LazyMatch((r + w)[i..], open, close); h.None? || h.value.whole == r
    ensures Inside(m, r, r, w)
  {
  }

  /** The replacement, followed by a settled buffer, gives a settled
      buffer. */
  lemma LazyPrepend(open: seq<byte>, c: seq<byte>, close: seq<byte>, w: seq<byte>)
    requires LazyShape(open, c, close)
    requires Settled(LazyMatcher(open, close), open + c + close, w)
    ensures Settled(LazyMatcher(open, close), open + c + close, open + c + close + w)
  {
    var r := open + c + close;
    forall i | 0 <= i < |r|
      ensures var h := LazyMatch((r + w)[i..], open, close); h.None? || h.value.whole == r
    {
      LazyInsideAt(open, c, close, w, i);
    }
    LazyApplyAll(open, close);
    LazyInsideOf(LazyMatcher(open, close), open, close, r, w);
    SettledConcat(LazyMatcher(open, close), r, r, w);
  }

  /** Where the closing text starts nowhere, nothing matches. */
  lemma NoCloseNoMatch(open: seq<byte>, close: seq<byte>, t: seq<byte>)
    requires |open| > 0
    requires forall k :: 0 <= k <= |t| ==> !StartsWith(t[k..], close)
    ensures !Occurs(LazyMatcher(open, close), t)
  {
    forall i | 0 <= i <= |t| ensures LazyMatch(t[i..], open, close).None? {
      var u := t[i..];
      forall j | 0 <= j <= |u| ensures !StartsWith(u[j..], close) {
        assert u[j..] == t[i + j..];
      }
    }
    LazyApplyAll(open, close);
  }

  /** Where nothing matched, the lazy rewrite does not create a match: an
      output that opens there came from an input that opened there without
      a closing text after it, which the rewrite leaves as it is. */
  lemma LazyUnmatchedStays(open: seq<byte>, c: seq<byte>, close: seq<byte>, t: seq<byte>)
    requires LazyShape(open, c, close)
    requires LazyMatcher(open, close)(t).None?
    ensures LazyMatcher(open, close)(SubAll(LazyMatcher(open, close), Const(open + c + close), t)).None?
  {
    var m := LazyMatcher(open, close);
    var f := Const(open + c + close);
    var out := SubAll(m, f, t);
    LazyApplyAll(open, close);
    if StartsWith(out, open) {
      ConstKeepsLead(m, open + c + close, open[0]);
      UnmatchedHead(m, f, open[0], t, open);
      var rest := t[|open|..];
      forall k | 0 <= k <= |rest| ensures !StartsWith(rest[k..], close) {
        assert rest[k..] == t[|open| + k..];
      }
      NoCloseNoMatch(open, close, rest);
      SubAllNoMatch(m, f, rest);
      assert out == t[..|open|] + rest == t;
    }
  }

  /** After the lazy rewrite every match left in the output is the
      replacement itself. */
  lemma {:induction false} LazySettles(open: seq<byte>, c: seq<byte>, close: seq<byte>, t: seq<byte>)
    requires LazyShape(open, c, close)
    ensures Settled(LazyMatcher(open, close), open + c + close,
                    SubAll(LazyMatcher(open, close), Const(open + c + close), t))
    decreases |t|
  {
    var m := LazyMatcher(open, close);
    var r := open + c + close;
    var f := Const(r);
    if |t| == 0 {
      assert SubAll(m, f, t) == [];
    } else {
      match m(t)
      case Some(h) =>
        var w := t[|h.whole|..];
        LazySettles(open, c, close, w);
        assert SubAll(m, f, t) == r + SubAll(m, f, w);
        LazyPrepend(open, c, close, SubAll(m, f, w));
      case None =>
        LazySettles(open, c, close, t[1..]);
        LazyUnmatchedStays(open, c, close, t);
        assert SubAll(m, f, t) == [t[0]] + SubAll(m, f, t[1..]);
        SettledConcat(m, r, [t[0]], SubAll(m, f, t[1..]));
    }
  }
}
