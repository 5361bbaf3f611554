/** Python's `re.sub` and `re.search` over a byte buffer for one pattern.

    The substitution scan is leftmost and non-overlapping, left to right:
    where a match starts, its bytes are replaced by the callback's result
    and the scan resumes at the match's end; elsewhere the byte is kept
    and the scan moves one byte on. */
module Substitute {
  import opened Bytes

  /** A match: the matched bytes (`group(0)`) and the captured or
      run bytes (`group(1)` where the pattern has one). */
  datatype Hit = Hit(whole: seq<byte>, group: seq<byte>)

  /** A pattern, seen through what it matches at the start of a buffer. */
  type Matcher = seq<byte> -> Option<Hit>

  /** A match is non-empty (none of the sanitizer's patterns matches the
      empty string) and no longer than the bytes it was found in. */
  ghost predicate WellFormed(m: Matcher)
  {
    forall u :: m(u).Some? ==> 0 < |m(u).value.whole| <= |u|
  }

  /** A match is a prefix of the bytes it was found in. */
  ghost predicate Prefixing(m: Matcher)
  {
    forall u :: m(u).Some? ==> StartsWith(u, m(u).value.whole)
  }

  /** Every match starts with the byte `lead`. */
  ghost predicate LeadsWith(m: Matcher, lead: byte)
  {
    forall u :: m(u).Some? ==> |u| > 0 && u[0] == lead
  }

  /** A match at any position is an occurrence. */
  lemma OccursAt(m: Matcher, t: seq<byte>, i: nat)
    requires WellFormed(m) && i <= |t| && m(t[i..]).Some?
    ensures Occurs(m, t)
  {
  }

  /** Some position of `t` (its end included) starts a match:
      what `re.search(m, t)` reports as truthy. */
  ghost predicate Occurs(m: Matcher, t: seq<byte>)
    requires WellFormed(m)
  {
    exists i :: 0 <= i <= |t| && m(t[i..]).Some?
  }

  lemma OccursInSuffix(m: Matcher, t: seq<byte>, k: nat)
    requires WellFormed(m) && k <= |t|
    ensures Occurs(m, t[k..]) ==> Occurs(m, t)
  {
    if Occurs(m, t[k..]) {
      var i :| 0 <= i <= |t[k..]| && m(t[k..][i..]).Some?;
      assert t[k..][i..] == t[k + i..];
    }
  }

  /** A match occurs at the start or further on. */
  lemma OccursSplit(m: Matcher, t: seq<byte>)
    requires WellFormed(m)
    ensures Occurs(m, t) <==> m(t).Some? || (|t| > 0 && Occurs(m, t[1..]))
  {
    assert t[0..] == t;
    if |t| > 0 {
      OccursInSuffix(m, t, 1);
      if Occurs(m, t) && m(t).None? {
        var i :| 0 <= i <= |t| && m(t[i..]).Some?;
        assert t[1..][i - 1..] == t[i..];
      }
    }
  }

  /** What one rewrite pass produces: the new buffer, and whether the
      pass's search found what it reports in the stats. */
  datatype Step = Step(out: seq<byte>, flag: bool)

  /** The replacement callback that ignores the match (a fixed `repl`). */
  function Const(repl: seq<byte>): Hit -> seq<byte>
  {
    _ => repl
  }

  /** `re.sub(m, f, t)`. */
  function SubAll(m: Matcher, f: Hit -> seq<byte>, t: seq<byte>): seq<byte>
    requires WellFormed(m)
    decreases |t|
  {
    if |t| == 0 then []
    else
      match m(t)
      case Some(h) => f(h) + SubAll(m, f, t[|h.whole|..])
      case None => [t[0]] + SubAll(m, f, t[1..])
  }

  /** Where nothing matches, `re.sub` returns its input unchanged. */
  lemma {:induction false} SubAllNoMatch(m: Matcher, f: Hit -> seq<byte>, t: seq<byte>)
    requires WellFormed(m)
    requires !Occurs(m, t)
    ensures SubAll(m, f, t) == t
    decreases |t|
  {
    if |t| > 0 {
      OccursSplit(m, t);
      SubAllNoMatch(m, f, t[1..]);
    }
  }

  /** The sum of `g` over the matches the same scan replaces. */
  function Tally(m: Matcher, g: Hit -> nat, t: seq<byte>): nat
    requires WellFormed(m)
    decreases |t|
  {
    if |t| == 0 then 0
    else
      match m(t)
      case Some(h) => g(h) + Tally(m, g, t[|h.whole|..])
      case None => Tally(m, g, t[1..])
  }

  /** The number of matches `re.sub` replaces in one scan. */
  function Count(m: Matcher, t: seq<byte>): nat
    requires WellFormed(m)
  {
    Tally(m, _ => 1, t)
  }

  /** The count that gives every match the weight `c`. */
  function Each(c: nat): Hit -> nat
  {
    _ => c
  }

  /** When every replacement is `c` bytes shorter than the match it
      replaces, the output is shorter by the weight-`c` tally. */
  lemma {:induction false} LengthTally(m: Matcher, f: Hit -> seq<byte>, c: nat, t: seq<byte>)
    requires WellFormed(m)
    requires forall u :: m(u).Some? ==> |f(m(u).value)| + c == |m(u).value.whole|
    ensures |SubAll(m, f, t)| + Tally(m, Each(c), t) == |t|
    decreases |t|
  {
    if |t| > 0 {
      if m(t).Some? {
        LengthTally(m, f, c, t[|m(t).value.whole|..]);
      } else {
        LengthTally(m, f, c, t[1..]);
      }
    }
  }

  /** Weighing every match by `c` is `c` times the count. */
  lemma {:induction false} TallyEach(m: Matcher, c: nat, t: seq<byte>)
    requires WellFormed(m)
    ensures Tally(m, Each(c), t) == c * Count(m, t)
    decreases |t|
  {
    if |t| > 0 {
      match m(t)
      case Some(h) =>
        TallyEach(m, c, t[|h.whole|..]);
        Distribute(c, Count(m, t[|h.whole|..]));
      case None =>
        TallyEach(m, c, t[1..]);
    }
  }

  /** `c` more for one more match. */
  lemma Distribute(c: nat, k: nat)
    ensures c * (1 + k) == c + c * k
  {
  }

  /** When every replacement is `c` bytes shorter than the match it
      replaces, the output is `c` bytes shorter per replaced match. */
  lemma LengthShift(m: Matcher, f: Hit -> seq<byte>, c: nat, t: seq<byte>)
    requires WellFormed(m)
    requires forall u :: m(u).Some? ==> |f(m(u).value)| + c == |m(u).value.whole|
    ensures |SubAll(m, f, t)| + c * Count(m, t) == |t|
  {
    LengthTally(m, f, c, t);
    TallyEach(m, c, t);
  }

  /** Some match is replaced exactly when the pattern occurs at all. */
  lemma {:induction false} CountOccurs(m: Matcher, t: seq<byte>)
    requires WellFormed(m)
    ensures Count(m, t) > 0 <==> Occurs(m, t)
    decreases |t|
  {
    OccursSplit(m, t);
    if |t| > 0 && m(t).None? {
      CountOccurs(m, t[1..]);
    }
  }

  /** Where nothing matches, the tally is zero. */
  lemma {:induction false} TallyNoMatch(m: Matcher, g: Hit -> nat, t: seq<byte>)
    requires WellFormed(m)
    requires !Occurs(m, t)
    ensures Tally(m, g, t) == 0
    decreases |t|
  {
    if |t| > 0 {
      OccursSplit(m, t);
      TallyNoMatch(m, g, t[1..]);
    }
  }

  /** The leftmost match position, as `re.search` finds it. */
  function Find(m: Matcher, t: seq<byte>): (r: Option<nat>)
    requires WellFormed(m)
    ensures r.Some? ==> r.value <= |t| && m(t[r.value..]).Some?
    ensures r.Some? ==> forall i :: 0 <= i < r.value ==> m(t[i..]).None?
    ensures r.None? ==> !Occurs(m, t)
    decreases |t|
  {
    if m(t).Some? then Some(0)
    else if |t| == 0 then None
    else
      match Find(m, t[1..])
      case None =>
        OccursSplit(m, t);
        None
      case Some(i) =>
        assert forall k :: 1 <= k <= i ==> t[k..] == t[1..][k - 1..];
        Some(i + 1)
  }

  /** `bool(re.search(m, t))`. */
  function Search(m: Matcher, t: seq<byte>): (b: bool)
    requires WellFormed(m)
    ensures b <==> Occurs(m, t)
  {
    Find(m, t).Some?
  }

  /** Bytes before the first match are copied unchanged. */
  lemma {:induction false} GapSkip(m: Matcher, f: Hit -> seq<byte>, t: seq<byte>, k: nat)
    requires WellFormed(m) && k <= |t|
    requires forall i :: 0 <= i < k ==> m(t[i..]).None?
    ensures SubAll(m, f, t) == t[..k] + SubAll(m, f, t[k..])
    decreases k
  {
    if k > 0 {
      assert t[0..] == t;
      CopyFirst(m, f, t);
      var u := t[1..];
      forall i | 0 <= i < k - 1 ensures m(u[i..]).None? {
        assert u[i..] == t[i + 1..];
      }
      GapSkip(m, f, u, k - 1);
      assert u[k - 1..] == t[k..];
      assert t[..k] == [t[0]] + u[..k - 1];
      Reassociate([t[0]], u[..k - 1], SubAll(m, f, t[k..]));
    }
  }

  /** Positions without a match contribute nothing to a tally. */
  lemma {:induction false} TallyGapSkip(m: Matcher, g: Hit -> nat, t: seq<byte>, k: nat)
    requires WellFormed(m) && k <= |t|
    requires forall i :: 0 <= i < k ==> m(t[i..]).None?
    ensures Tally(m, g, t) == Tally(m, g, t[k..])
    decreases k
  {
    if k > 0 {
      assert t[0..] == t;
      assert Tally(m, g, t) == Tally(m, g, t[1..]);
      forall i | 0 <= i < k - 1
        ensures m(t[1..][i..]).None?
      {
        assert t[1..][i..] == t[i + 1..];
      }
      TallyGapSkip(m, g, t[1..], k - 1);
      assert t[1..][k - 1..] == t[k..];
    }
  }

  /** One step of the `re.sub` loop: the leftmost match starts at `d`;
      the gap is copied and the match replaced. */
  lemma NextMatch(m: Matcher, f: Hit -> seq<byte>, t: seq<byte>, d: nat)
    requires WellFormed(m) && d <= |t|
    requires forall i :: 0 <= i < d ==> m(t[i..]).None?
    requires m(t[d..]).Some?
    ensures d + |m(t[d..]).value.whole| <= |t|
    ensures SubAll(m, f, t) == t[..d] + f(m(t[d..]).value) + SubAll(m, f, t[d + |m(t[d..]).value.whole|..])
  {
    var h := m(t[d..]).value;
    GapSkip(m, f, t, d);
    assert SubAll(m, f, t[d..]) == f(h) + SubAll(m, f, t[d..][|h.whole|..]);
    assert t[d..][|h.whole|..] == t[d + |h.whole|..];
  }

  /** The first match of `x mid y` is `mid`: `x` is copied, `mid` is
      replaced, the scan resumes at `y`, and the tally adds up the same
      way. */
  lemma FirstMatch(m: Matcher, f: Hit -> seq<byte>, g: Hit -> nat, x: seq<byte>, mid: seq<byte>, y: seq<byte>)
    requires WellFormed(m)
    requires forall i :: 0 <= i < |x| ==> m((x + mid + y)[i..]).None?
    requires m(mid + y).Some? && m(mid + y).value.whole == mid
    ensures SubAll(m, f, x + mid + y) == x + f(m(mid + y).value) + SubAll(m, f, y)
    ensures Tally(m, g, x + mid + y) == g(m(mid + y).value) + Tally(m, g, y)
  {
    var t := x + mid + y;
    assert t[..|x|] == x && t[|x|..] == mid + y;
    assert t[|x| + |mid|..] == y;
    NextMatch(m, f, t, |x|);
    TallyGapSkip(m, g, t, |x|);
    assert (mid + y)[|mid|..] == y;
  }

  /** Appending a gap and a replacement to the output so far. */
  lemma Regroup(r: seq<byte>, gap: seq<byte>, rep: seq<byte>, tail: seq<byte>)
    ensures r + (gap + rep + tail) == (r + gap + rep) + tail
  {
  }

  /** `re.sub` as its loop runs: search the rest of the buffer, copy the
      gap, append the replacement, go on after the match. */
  method SubstituteAll(m: Matcher, f: Hit -> seq<byte>, t: seq<byte>) returns (r: seq<byte>)
    requires WellFormed(m)
    ensures r == SubAll(m, f, t)
  {
    r := [];
    var rest := t;
    var next := Find(m, rest);
    while next.Some?
      invariant next == Find(m, rest)
      invariant r + SubAll(m, f, rest) == SubAll(m, f, t)
      decreases |rest|
    {
      var d := next.value;
      var h := m(rest[d..]).value;
      NextMatch(m, f, rest, d);
      var gap, after := rest[..d], rest[d + |h.whole|..];
      Regroup(r, gap, f(h), SubAll(m, f, after));
      r, rest := r + gap + f(h), after;
      next := Find(m, rest);
    }
    SubAllNoMatch(m, f, rest);
    r := r + rest;
  }

  /** Every match, wherever it starts, is already its own replacement. */
  ghost predicate AllFixed(m: Matcher, f: Hit -> seq<byte>, t: seq<byte>)
    requires WellFormed(m)
  {
    forall i :: 0 <= i <= |t| && m(t[i..]).Some? ==>
      f(m(t[i..]).value) == m(t[i..]).value.whole
  }

  /** Dropping a prefix keeps every match fixed. */
  lemma AllFixedSuffix(m: Matcher, f: Hit -> seq<byte>, t: seq<byte>, n: nat)
    requires WellFormed(m) && n <= |t| && AllFixed(m, f, t)
    ensures AllFixed(m, f, t[n..])
  {
    forall i | 0 <= i <= |t| - n ensures t[n..][i..] == t[n + i..] { }
  }

  /** Substituting matches that are their own replacements changes nothing. */
  lemma {:induction false} SubAllFixed(m: Matcher, f: Hit -> seq<byte>, t: seq<byte>)
    requires WellFormed(m) && Prefixing(m)
    requires AllFixed(m, f, t)
    ensures SubAll(m, f, t) == t
    decreases |t|
  {
    if |t| > 0 {
      assert t[0..] == t;
      match m(t)
      case Some(h) =>
        var n := |h.whole|;
        AllFixedSuffix(m, f, t, n);
        SubAllFixed(m, f, t[n..]);
        assert f(h) == h.whole == t[..n];
        assert t == t[..n] + t[n..];
      case None =>
        AllFixedSuffix(m, f, t, 1);
        SubAllFixed(m, f, t[1..]);
        assert t == [t[0]] + t[1..];
    }
  }

  /** Every match, wherever it starts, counts zero. */
  ghost predicate AllZero(m: Matcher, g: Hit -> nat, t: seq<byte>)
    requires WellFormed(m)
  {
    forall i :: 0 <= i <= |t| && m(t[i..]).Some? ==> g(m(t[i..]).value) == 0
  }

  /** Dropping a prefix keeps every match counting zero. */
  lemma AllZeroSuffix(m: Matcher, g: Hit -> nat, t: seq<byte>, n: nat)
    requires WellFormed(m) && n <= |t| && AllZero(m, g, t)
    ensures AllZero(m, g, t[n..])
  {
    forall i | 0 <= i <= |t| - n ensures t[n..][i..] == t[n + i..] { }
  }

  /** A tally of matches that each count zero is zero. */
  lemma {:induction false} TallyZero(m: Matcher, g: Hit -> nat, t: seq<byte>)
    requires WellFormed(m)
    requires AllZero(m, g, t)
    ensures Tally(m, g, t) == 0
    decreases |t|
  {
    if |t| > 0 {
      assert t[0..] == t;
      match m(t)
      case Some(h) =>
        AllZeroSuffix(m, g, t, |h.whole|);
        TallyZero(m, g, t[|h.whole|..]);
      case None =>
        AllZeroSuffix(m, g, t, 1);
        TallyZero(m, g, t[1..]);
    }
  }

  /** Every replacement of an actual match begins with the pattern's lead byte. */
  ghost predicate KeepsLead(m: Matcher, f: Hit -> seq<byte>, lead: byte)
  {
    forall u :: m(u).Some? ==> |f(m(u).value)| > 0 && f(m(u).value)[0] == lead
  }

  /** A fixed replacement keeps the lead byte it starts with. */
  lemma ConstKeepsLead(m: Matcher, r: seq<byte>, lead: byte)
    requires |r| > 0 && r[0] == lead
    ensures KeepsLead(m, Const(r), lead)
  {
  }

  /** A buffer that starts with a match is rewritten to one that starts
      with the lead byte. */
  lemma FirstOutByte(m: Matcher, f: Hit -> seq<byte>, lead: byte, t: seq<byte>)
    requires WellFormed(m) && KeepsLead(m, f, lead)
    ensures |t| > 0 && m(t).Some? ==> |SubAll(m, f, t)| > 0 && SubAll(m, f, t)[0] == lead
  {
  }

  /** Where nothing matches at the start, the first byte is copied. */
  lemma CopyFirst(m: Matcher, f: Hit -> seq<byte>, t: seq<byte>)
    requires WellFormed(m) && |t| > 0 && m(t).None?
    ensures SubAll(m, f, t) == [t[0]] + SubAll(m, f, t[1..])
  {
  }

  /** An output starting with a byte other than the lead byte came from an
      input where nothing matched at the start. */
  lemma NoLeadUnmatched(m: Matcher, f: Hit -> seq<byte>, lead: byte, t: seq<byte>, q: seq<byte>)
    requires WellFormed(m) && KeepsLead(m, f, lead)
    requires StartsWith(SubAll(m, f, t), q) && |q| > 0 && q[0] != lead
    ensures |t| > 0 && m(t).None?
  {
    var out := SubAll(m, f, t);
    assert out[..|q|][0] == out[0];
    FirstOutByte(m, f, lead, t);
  }

  /** If the output starts with bytes none of which is the lead byte, those
      bytes were copied from the input unchanged. */
  lemma {:induction false} LeadPrefix(m: Matcher, f: Hit -> seq<byte>, lead: byte, t: seq<byte>, q: seq<byte>)
    requires WellFormed(m) && KeepsLead(m, f, lead)
    requires StartsWith(SubAll(m, f, t), q)
    requires lead !in q
    ensures StartsWith(t, q)
    ensures SubAll(m, f, t) == q + SubAll(m, f, t[|q|..])
    decreases |q|
  {
    if |q| > 0 {
      assert q[0] in q;
      NoLeadUnmatched(m, f, lead, t, q);
      var out := SubAll(m, f, t);
      var w := SubAll(m, f, t[1..]);
      CopyFirst(m, f, t);
      StartsWithCons(out, q);
      assert out[1..] == w;
      assert lead !in q[1..] by {
        forall x | x in q[1..] ensures x != lead { }
      }
      LeadPrefix(m, f, lead, t[1..], q[1..]);
      StartsWithCons(t, q);
      assert t[1..][|q| - 1..] == t[|q|..];
      assert q == [q[0]] + q[1..];
    }
  }

  /** Contrapositive of `LeadPrefix`: an input that does not start with
      such bytes is not rewritten into one that does. */
  lemma NotPrefixKept(m: Matcher, f: Hit -> seq<byte>, lead: byte, t: seq<byte>, q: seq<byte>)
    requires WellFormed(m) && KeepsLead(m, f, lead)
    requires lead !in q
    requires !StartsWith(t, q)
    ensures !StartsWith(SubAll(m, f, t), q)
  {
    if StartsWith(SubAll(m, f, t), q) {
      LeadPrefix(m, f, lead, t, q);
    }
  }

  /** Where nothing matches at the start, an output that starts with `q`
      (lead byte first, nowhere after) came from an input starting with `q`
      whose first `|q|` bytes were copied. */
  lemma UnmatchedHead(m: Matcher, f: Hit -> seq<byte>, lead: byte, t: seq<byte>, q: seq<byte>)
    requires WellFormed(m) && KeepsLead(m, f, lead)
    requires m(t).None? && |q| > 0 && lead !in q[1..]
    requires StartsWith(SubAll(m, f, t), q)
    ensures StartsWith(t, q)
    ensures SubAll(m, f, t) == q + SubAll(m, f, t[|q|..])
  {
    var w := SubAll(m, f, t[1..]);
    assert |t| > 0;
    assert SubAll(m, f, t) == [t[0]] + w;
    StartsWithCons(SubAll(m, f, t), q);
    LeadPrefix(m, f, lead, t[1..], q[1..]);
    StartsWithCons(t, q);
    assert t[1..][|q| - 1..] == t[|q|..];
    assert w == q[1..] + SubAll(m, f, t[|q|..]);
    assert q == [q[0]] + q[1..];
  }

  /** A stretch free of the lead byte is copied unchanged. */
  lemma LeadFreeSkip(m: Matcher, f: Hit -> seq<byte>, lead: byte, t: seq<byte>, k: nat)
    requires WellFormed(m) && LeadsWith(m, lead) && k <= |t|
    requires forall i :: 0 <= i < k ==> t[i] != lead
    ensures SubAll(m, f, t) == t[..k] + SubAll(m, f, t[k..])
  {
    forall i | 0 <= i < k ensures m(t[i..]).None? {
      assert t[i..][0] == t[i];
    }
    GapSkip(m, f, t, k);
  }

  /** From `a`, a stretch up to `j` free of the lead byte is copied. */
  lemma SkipToLead(m: Matcher, f: Hit -> seq<byte>, lead: byte, t: seq<byte>, a: nat, j: nat)
    requires WellFormed(m) && LeadsWith(m, lead) && a <= j <= |t|
    requires forall k :: a <= k < j ==> t[k] != lead
    ensures SubAll(m, f, t[a..]) == t[a..j] + SubAll(m, f, t[j..])
  {
    LeadFreeSkip(m, f, lead, t[a..], j - a);
    assert t[a..][..j - a] == t[a..j];
    assert t[a..][j - a..] == t[j..];
  }

  /** A byte absent from the input and from every replacement is absent
      from the output. */
  lemma {:induction false} AbsentStaysAbsent(m: Matcher, repl: seq<byte>, t: seq<byte>, b: byte)
    requires WellFormed(m)
    requires b !in t && b !in repl
    ensures b !in SubAll(m, Const(repl), t)
    decreases |t|
  {
    if |t| > 0 {
      match m(t)
      case Some(h) =>
        AbsentStaysAbsent(m, repl, t[|h.whole|..], b);
      case None =>
        AbsentStaysAbsent(m, repl, t[1..], b);
    }
  }

  /** A buffer whose only lead byte is at `p`, where nothing matches,
      holds no match. */
  lemma OnlyLeadAt(m: Matcher, lead: byte, t: seq<byte>, p: nat)
    requires WellFormed(m) && LeadsWith(m, lead) && p <= |t|
    requires forall i :: 0 <= i < |t| && i != p ==> t[i] != lead
    requires m(t[p..]).None?
    ensures !Occurs(m, t)
  {
    forall i | 0 <= i <= |t| ensures m(t[i..]).None? {
      if i != p && i < |t| {
        assert t[i..][0] == t[i];
      }
    }
  }

  /** One match between two stretches free of the lead byte: only the
      match is replaced. */
  lemma SpliceOne(m: Matcher, f: Hit -> seq<byte>, lead: byte, x: seq<byte>, mid: seq<byte>, y: seq<byte>)
    requires WellFormed(m) && LeadsWith(m, lead) && lead !in x && lead !in y
    requires m(mid + y).Some? && m(mid + y).value.whole == mid
    ensures SubAll(m, f, x + mid + y) == x + f(m(mid + y).value) + y
  {
    var h := m(mid + y).value;
    Reassociate(x, mid, y);
    SkipFree(m, f, lead, x, mid + y);
    assert (mid + y)[|mid|..] == y;
    assert SubAll(m, f, mid + y) == f(h) + SubAll(m, f, y);
    NoLeadNoMatch(m, lead, y);
    SubAllNoMatch(m, f, y);
    Reassociate(x, f(h), y);
  }

  /** Text free of the lead byte in front of a buffer is copied. */
  lemma SkipFree(m: Matcher, f: Hit -> seq<byte>, lead: byte, x: seq<byte>, rest: seq<byte>)
    requires WellFormed(m) && LeadsWith(m, lead) && lead !in x
    ensures SubAll(m, f, x + rest) == x + SubAll(m, f, rest)
  {
    var t := x + rest;
    forall i | 0 <= i < |x| ensures t[i] != lead {
      assert t[i] == x[i];
    }
    LeadFreeSkip(m, f, lead, t, |x|);
    assert t[..|x|] == x && t[|x|..] == rest;
  }

  /** The tally over `x mid y` is that of the one match `mid`, when the
      lead byte occurs in neither `x` nor `y`. */
  lemma TallySpliceOne(m: Matcher, g: Hit -> nat, lead: byte, x: seq<byte>, mid: seq<byte>, y: seq<byte>)
    requires WellFormed(m) && LeadsWith(m, lead) && lead !in x && lead !in y
    requires m(mid + y).Some? && m(mid + y).value.whole == mid
    ensures Tally(m, g, x + mid + y) == g(m(mid + y).value)
  {
    Reassociate(x, mid, y);
    TallySkipFree(m, g, lead, x, mid + y);
    assert (mid + y)[|mid|..] == y;
    NoLeadNoMatch(m, lead, y);
    TallyNoMatch(m, g, y);
  }

  /** Text free of the lead byte in front of a buffer adds nothing to a
      tally. */
  lemma TallySkipFree(m: Matcher, g: Hit -> nat, lead: byte, x: seq<byte>, rest: seq<byte>)
    requires WellFormed(m) && LeadsWith(m, lead) && lead !in x
    ensures Tally(m, g, x + rest) == Tally(m, g, rest)
  {
    var t := x + rest;
    forall i | 0 <= i < |x| ensures m(t[i..]).None? {
      assert t[i..][0] == x[i];
    }
    TallyGapSkip(m, g, t, |x|);
    assert t[|x|..] == rest;
  }

  /** Every match contains the byte `b`. */
  ghost predicate Carries(m: Matcher, b: byte)
  {
    forall u :: m(u).Some? ==> b in m(u).value.whole
  }

  /** The bytes of a match come from the buffer it was found in. */
  lemma MatchFromInput(m: Matcher, t: seq<byte>, i: nat)
    requires WellFormed(m) && Prefixing(m) && i <= |t|
    ensures m(t[i..]).Some? ==> forall b :: b in m(t[i..]).value.whole ==> b in t
  {
    if m(t[i..]).Some? {
      var w := m(t[i..]).value.whole;
      forall b | b in w ensures b in t {
        var k :| 0 <= k < |w| && w[k] == b;
        assert t[i + k] == w[k];
      }
    }
  }

  /** A buffer without a byte every match carries holds no match. */
  lemma MissingCarried(m: Matcher, b: byte, t: seq<byte>)
    requires WellFormed(m) && Prefixing(m) && Carries(m, b) && b !in t
    ensures !Occurs(m, t)
  {
    forall i | 0 <= i <= |t| ensures m(t[i..]).None? {
      MatchFromInput(m, t, i);
    }
  }

  /** Without its lead byte a buffer holds no match. */
  lemma NoLeadNoMatch(m: Matcher, lead: byte, t: seq<byte>)
    requires WellFormed(m) && LeadsWith(m, lead)
    requires lead !in t
    ensures !Occurs(m, t)
  {
  }
}
