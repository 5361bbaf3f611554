/** When a rewrite reproduces its own pattern: for patterns whose matches
    are decided by their own bytes and hold the lead byte only at their
    start, a fixed replacement that is itself a match (or never matches)
    leaves a buffer in which every match is the replacement. */
module Contained {
  import opened Bytes
  import opened Substitute
  import opened Regex
  import opened Settle
  import opened Clear

  /** A match is found again in any buffer that starts with its bytes,
      and holds the lead byte nowhere but at its start. */
  ghost predicate SelfContained(m: Matcher, lead: byte)
  {
    && (forall u, v {:trigger m(u), m(v)} :: m(u).Some? && StartsWith(v, m(u).value.whole) ==> m(v) == m(u))
    && (forall u :: m(u).Some? ==> forall k :: 0 < k < |m(u).value.whole| ==> m(u).value.whole[k] != lead)
  }

  /** The replacement starts with the only lead byte it has, and wherever
      it is written it either does not match or matches exactly itself. */
  ghost predicate Reproducing(m: Matcher, r: seq<byte>, lead: byte)
  {
    && |r| > 0 && r[0] == lead && lead !in r[1..]
    && (forall w :: m(r + w).Some? ==> m(r + w).value.whole == r)
  }

  /** A match in a buffer that copies `t` up to position `d`, and has the
      lead byte at `d` or ends there, lies within the copy. */
  lemma MatchInCopy(m: Matcher, lead: byte, t: seq<byte>, out: seq<byte>, d: nat)
    requires WellFormed(m) && Prefixing(m) && SelfContained(m, lead)
    requires 1 <= d <= |t| && d <= |out| && out[..d] == t[..d]
    requires d < |t| ==> |out| > d && out[d] == lead
    requires d == |t| ==> |out| == d
    ensures m(out).Some? ==> StartsWith(t, m(out).value.whole)
  {
    if m(out).Some? {
      var w := m(out).value.whole;
      assert forall k :: 0 <= k < |w| ==> w[k] == out[k];
      assert |w| <= d;
      assert w == out[..d][..|w|];
      assert w == t[..d][..|w|];
    }
  }

  /** Where nothing matched, the rewrite does not create a match: the
      output copies the input up to the next lead byte, which a match
      cannot reach past, so any match there would have been one in the
      input. */
  lemma UnmatchedStaysContained(m: Matcher, r: seq<byte>, lead: byte, t: seq<byte>)
    requires WellFormed(m) && Prefixing(m) && LeadsWith(m, lead) && SelfContained(m, lead) && Reproducing(m, r, lead)
    requires m(t).None?
    ensures m(SubAll(m, Const(r), t)).None?
  {
    var out := SubAll(m, Const(r), t);
    if |t| > 0 && t[0] == lead {
      var d := Span(t, 1, NotByte(lead));
      UpToNextLead(m, Const(r), lead, t, d);
      assert d == |t| ==> t[d..] == [];
      MatchInCopy(m, lead, t, out, d);
    } else if |t| > 0 {
      assert out == [t[0]] + SubAll(m, Const(r), t[1..]);
    }
  }

  /** Under these conditions every match left in the output is the
      replacement itself. */
  lemma {:induction false} ContainedSettles(m: Matcher, r: seq<byte>, lead: byte, t: seq<byte>)
    requires WellFormed(m) && Prefixing(m) && LeadsWith(m, lead) && SelfContained(m, lead) && Reproducing(m, r, lead)
    ensures Settled(m, r, SubAll(m, Const(r), t))
    decreases |t|
  {
    var out := SubAll(m, Const(r), t);
    if |t| == 0 {
      assert out == [] && out[0..] == [];
    } else if m(t).Some? {
      var h := m(t).value;
      var w := SubAll(m, Const(r), t[|h.whole|..]);
      ContainedSettles(m, r, lead, t[|h.whole|..]);
      assert out == r + w;
      forall i | 0 <= i <= |out| ensures m(out[i..]).None? || m(out[i..]).value.whole == r {
        if i == 0 {
          assert out[0..] == r + w;
        } else if i < |r| {
          assert out[i..][0] == r[1..][i - 1];
        } else {
          assert out[i..] == w[i - |r|..];
        }
      }
    } else {
      var w := SubAll(m, Const(r), t[1..]);
      ContainedSettles(m, r, lead, t[1..]);
      UnmatchedStaysContained(m, r, lead, t);
      assert out == [t[0]] + w;
      forall i | 0 <= i <= |out| ensures m(out[i..]).None? || m(out[i..]).value.whole == r {
        if i == 0 {
          assert out[0..] == out;
        } else {
          assert out[i..] == w[i - 1..];
        }
      }
    }
  }
}
