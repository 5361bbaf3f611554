/** When a rewrite leaves no match behind: for patterns decided by a fixed
    window of bytes whose lead byte occurs only at the window's start, and
    replacements that start with the lead byte once and never match there,
    `re.sub` output holds no match at all. */
module Clear {
  import opened Bytes
  import opened Substitute
  import opened Regex

  /** A match is decided by the first `n` bytes, and needs that many. */
  ghost predicate Windowed(m: Matcher, n: nat)
  {
    && n > 0
    && (forall u :: m(u).Some? ==> |u| >= n)
    && (forall u, v {:trigger m(u), m(v)} :: |u| >= n && |v| >= n && u[..n] == v[..n] ==> m(u).Some? == m(v).Some?)
  }

  /** No byte of a match window after the first is the lead byte. */
  ghost predicate LeadOnlyFirst(m: Matcher, lead: byte, n: nat)
  {
    forall u :: m(u).Some? ==> forall k :: 1 <= k < n && k < |u| ==> u[k] != lead
  }

  /** Replacements start with the lead byte, hold it nowhere else, and do
      not match at their start whatever follows them. */
  ghost predicate FreshReplacement(m: Matcher, f: Hit -> seq<byte>, lead: byte)
  {
    && KeepsLead(m, f, lead)
    && (forall u :: m(u).Some? ==> lead !in f(m(u).value)[1..])
    && (forall u, w {:trigger m(f(m(u).value) + w)} :: m(u).Some? ==> m(f(m(u).value) + w).None?)
  }

  /** A fixed-string matcher (`lit`, whose lead byte occurs nowhere else in
      it) holds the lead byte only at the start of its window. */
  lemma LiteralLeadOnlyFirst(m: Matcher, lit: seq<byte>, lead: byte)
    requires forall u :: m(u) == LiteralMatch(u, lit)
    requires |lit| > 0 && lead !in lit[1..]
    ensures LeadOnlyFirst(m, lead, |lit|)
  {
    forall u | m(u).Some? ensures forall k :: 1 <= k < |lit| && k < |u| ==> u[k] != lead {
      forall k | 1 <= k < |lit| && k < |u| ensures u[k] != lead {
        assert u[..|lit|][k] == u[k];
        assert lit[1..][k - 1] == lit[k];
      }
    }
  }

  /** A fixed replacement `r` for a fixed-string matcher is fresh when it
      starts with the lead byte, holds it nowhere else, and differs from
      `lit` at some position `c` both reach. */
  lemma LiteralFresh(m: Matcher, lit: seq<byte>, r: seq<byte>, lead: byte, c: nat)
    requires forall u :: m(u) == LiteralMatch(u, lit)
    requires |r| > 0 && r[0] == lead && lead !in r[1..]
    requires c < |r| && c < |lit| && r[c] != lit[c]
    ensures FreshReplacement(m, Const(r), lead)
  {
    forall u, w | m(u).Some? ensures m(Const(r)(m(u).value) + w).None? {
      if |lit| <= |r + w| {
        assert (r + w)[..|lit|][c] == r[c];
      }
    }
  }

  /** Where nothing matches at a lead byte, the output copies the input up
      to the next lead byte `d`, and from there starts with the lead byte
      again (or ends). */
  lemma UpToNextLead(m: Matcher, f: Hit -> seq<byte>, lead: byte, t: seq<byte>, d: nat)
    requires WellFormed(m) && LeadsWith(m, lead) && KeepsLead(m, f, lead)
    requires |t| > 0 && m(t).None?
    requires d == Span(t, 1, NotByte(lead))
    ensures SubAll(m, f, t) == t[..d] + SubAll(m, f, t[d..])
    ensures d < |t| ==> |SubAll(m, f, t[d..])| > 0 && SubAll(m, f, t[d..])[0] == lead
  {
    forall k | 1 <= k < d ensures t[k] != lead {
      assert InClass(NotByte(lead), t[k]);
    }
    GapCopied(m, f, lead, t, d);
    if d < |t| {
      assert t[d..][0] == t[d];
      OutLead(m, f, lead, t[d..]);
    }
  }

  /** Where nothing matches at the start, the output copies the input up
      to `d` when no lead byte comes before it. */
  lemma GapCopied(m: Matcher, f: Hit -> seq<byte>, lead: byte, t: seq<byte>, d: nat)
    requires WellFormed(m) && LeadsWith(m, lead)
    requires |t| > 0 && m(t).None? && 1 <= d <= |t|
    requires forall k :: 1 <= k < d ==> t[k] != lead
    ensures SubAll(m, f, t) == t[..d] + SubAll(m, f, t[d..])
  {
    SkipToLead(m, f, lead, t, 1, d);
    CopyFirst(m, f, t);
    assert t[..d] == [t[0]] + t[1..d];
    Reassociate([t[0]], t[1..d], SubAll(m, f, t[d..]));
  }

  /** A buffer that starts with the lead byte is rewritten to one that
      starts with it. */
  lemma OutLead(m: Matcher, f: Hit -> seq<byte>, lead: byte, u: seq<byte>)
    requires WellFormed(m) && KeepsLead(m, f, lead)
    requires |u| > 0 && u[0] == lead
    ensures |SubAll(m, f, u)| > 0 && SubAll(m, f, u)[0] == lead
  {
    match m(u)
    case Some(h) =>
      FirstOutByte(m, f, lead, u);
    case None =>
      CopyFirst(m, f, u);
  }

  /** Where nothing matched, the rewrite does not create a match: the next
      lead byte the rewrite can write lies inside the window, where no match
      has it, or past it, where the window is unchanged. */
  lemma UnmatchedStaysWindowed(m: Matcher, f: Hit -> seq<byte>, lead: byte, n: nat, t: seq<byte>)
    requires WellFormed(m) && LeadsWith(m, lead) && KeepsLead(m, f, lead)
    requires Windowed(m, n) && LeadOnlyFirst(m, lead, n)
    requires m(t).None?
    ensures m(SubAll(m, f, t)).None?
  {
    var out := SubAll(m, f, t);
    if |t| == 0 {
      assert out == [];
    } else if t[0] != lead {
      assert out == [t[0]] + SubAll(m, f, t[1..]);
    } else {
      var d := Span(t, 1, NotByte(lead));
      UpToNextLead(m, f, lead, t, d);
      if d == |t| {
        assert t[d..] == [];
        assert out == t;
      } else if d >= n {
        assert out[..n] == t[..n];
      } else {
        assert out[d] == lead;
      }
    }
  }

  /** Under these conditions the rewrite leaves no match anywhere. */
  lemma {:induction false} ClearsAll(m: Matcher, f: Hit -> seq<byte>, lead: byte, n: nat, t: seq<byte>)
    requires WellFormed(m) && LeadsWith(m, lead) && FreshReplacement(m, f, lead)
    requires Windowed(m, n) && LeadOnlyFirst(m, lead, n)
    ensures !Occurs(m, SubAll(m, f, t))
    decreases |t|
  {
    var out := SubAll(m, f, t);
    if |t| == 0 {
      assert out == [] && out[0..] == [];
    } else {
      match m(t)
      case Some(h) =>
        var w := SubAll(m, f, t[|h.whole|..]);
        ClearsAll(m, f, lead, n, t[|h.whole|..]);
        var r := f(h);
        assert out == r + w;
        forall i | 0 <= i <= |out| ensures m(out[i..]).None? {
          if i == 0 {
            assert out[0..] == r + w;
          } else if i < |r| {
            assert out[i..][0] == r[1..][i - 1];
          } else {
            assert out[i..] == w[i - |r|..];
          }
        }
      case None =>
        var w := SubAll(m, f, t[1..]);
        ClearsAll(m, f, lead, n, t[1..]);
        UnmatchedStaysWindowed(m, f, lead, n, t);
        assert out == [t[0]] + w;
        forall i | 0 <= i <= |out| ensures m(out[i..]).None? {
          if i == 0 {
            assert out[0..] == out;
          } else {
            assert out[i..] == w[i - 1..];
          }
        }
    }
  }
}
