/** The document-ID pass: every trailer entry `/ID [<hex> <hex>]` (any
    whitespace, hex strings of any length) becomes the fixed all-zero pair
    `/ID[<0…0><0…0>]` with 32 zeros each; the stat records whether
    `/ID [<hex>` was present. */
module DocId {
  import opened Bytes
  import opened Substitute
  import opened Regex
  import opened Settle
  import opened Contained

  /** Thirty-two ASCII zeros. */
  const ZeroHex: seq<byte> :=
    [48, 48, 48, 48, 48, 48, 48, 48, 48, 48, 48, 48, 48, 48, 48, 48,
     48, 48, 48, 48, 48, 48, 48, 48, 48, 48, 48, 48, 48, 48, 48, 48]

  /** `/ID[<00000000000000000000000000000000><00000000000000000000000000000000>]` */
  const ZeroId: seq<byte> := IdKey + [LBrack, LAngle] + ZeroHex + [RAngle, LAngle] + ZeroHex + [RAngle, RBrack]

  /** A run of `\s`. */
  predicate Blank(s: seq<byte>)
  {
    forall k :: 0 <= k < |s| ==> IsSpace(s[k])
  }

  /** A run of `[A-Fa-f0-9]+`. */
  predicate HexDigits(s: seq<byte>)
  {
    |s| > 0 && forall k :: 0 <= k < |s| ==> IsHex(s[k])
  }

  /** The pieces of an entry `/ID a [ b <h1> c <h2> d ]`. */
  datatype Parts = Parts(a: seq<byte>, b: seq<byte>, h1: seq<byte>, c: seq<byte>, h2: seq<byte>, d: seq<byte>)
  {
    predicate Valid()
    {
      Blank(a) && Blank(b) && HexDigits(h1) && Blank(c) && HexDigits(h2) && Blank(d)
    }

    /** `/ID a [ b <h1>`: what the search looks for. */
    function Head(): seq<byte>
    {
      IdKey + (a + ([LBrack] + (b + HexLit(h1))))
    }

    /** Where the `[` sits. */
    function Open(): nat { 3 + |a| }

    /** Where the first `<` sits. */
    function FirstHex(): nat { Open() + 1 + |b| }

    /** Where the head ends. */
    function HeadEnd(): nat { FirstHex() + |h1| + 2 }

    /** Where the second `<` sits. */
    function SecondHex(): nat { HeadEnd() + |c| }

    /** Where the second hex string ends. */
    function SecondEnd(): nat { SecondHex() + |h2| + 2 }

    /** Where the `]` sits. */
    function Close(): nat { SecondEnd() + |d| }

    /** The whole two-element entry the rewrite replaces. */
    function Entry(): seq<byte>
    {
      Head() + (c + (HexLit(h2) + (d + [RBrack])))
    }

    /** The head, or the entry when `full`. */
    function Form(full: bool): seq<byte>
    {
      if full then Entry() else Head()
    }
  }

  /** `<h>` */
  function HexLit(h: seq<byte>): seq<byte>
  {
    [LAngle] + (h + [RAngle])
  }

  /** How long the head and the entry are. */
  lemma FormLengths(p: Parts)
    ensures |p.Head()| == p.HeadEnd()
    ensures |p.Entry()| == p.Close() + 1
  {
  }

  /** `<h>` sits at position `i` of `t`. */
  predicate HexLaid(t: seq<byte>, i: nat, h: seq<byte>)
  {
    i + |h| + 2 <= |t| && t[i] == LAngle && At(t, i + 1, h) && t[i + 1 + |h|] == RAngle
  }

  /** The pieces of a head, each at its place in `t`. */
  predicate HeadLaid(p: Parts, t: seq<byte>)
  {
    && At(t, 0, IdKey) && At(t, 3, p.a)
    && p.Open() < |t| && t[p.Open()] == LBrack
    && At(t, p.Open() + 1, p.b) && HexLaid(t, p.FirstHex(), p.h1)
  }

  /** The pieces of an entry after its head, each at its place in `t`. */
  predicate TailLaid(p: Parts, t: seq<byte>)
  {
    && At(t, p.HeadEnd(), p.c) && HexLaid(t, p.SecondHex(), p.h2)
    && At(t, p.SecondEnd(), p.d)
    && p.Close() < |t| && t[p.Close()] == RBrack
  }

  /** `<h>` written at `i` lays its pieces in place. */
  lemma LaysHex(t: seq<byte>, i: nat, h: seq<byte>)
    requires At(t, i, HexLit(h))
    ensures HexLaid(t, i, h)
  {
    AtSplit(t, i, [LAngle], h + [RAngle]);
    AtFirst(t, i, [LAngle]);
    AtSplit(t, i + 1, h, [RAngle]);
    AtFirst(t, i + 1 + |h|, [RAngle]);
  }

  /** `a [ b <h1>` written after the key lays its pieces in place. */
  lemma LaysOpen(p: Parts, t: seq<byte>)
    requires At(t, 3, p.a + ([LBrack] + (p.b + HexLit(p.h1))))
    ensures At(t, 3, p.a) && p.Open() < |t| && t[p.Open()] == LBrack
    ensures At(t, p.Open() + 1, p.b) && HexLaid(t, p.FirstHex(), p.h1)
  {
    AtSplit(t, 3, p.a, [LBrack] + (p.b + HexLit(p.h1)));
    AtSplit(t, p.Open(), [LBrack], p.b + HexLit(p.h1));
    AtFirst(t, p.Open(), [LBrack]);
    AtSplit(t, p.Open() + 1, p.b, HexLit(p.h1));
    LaysHex(t, p.FirstHex(), p.h1);
  }

  /** A buffer that starts with a head holds its pieces in place. */
  lemma LaysHead(p: Parts, t: seq<byte>)
    requires StartsWith(t, p.Head())
    ensures HeadLaid(p, t)
  {
    AtStart(t, p.Head());
    AtSplit(t, 0, IdKey, p.a + ([LBrack] + (p.b + HexLit(p.h1))));
    LaysOpen(p, t);
  }

  /** `c <h2> d ]` written where the head ends lays its pieces in place. */
  lemma LaysClose(p: Parts, t: seq<byte>)
    requires At(t, p.HeadEnd(), p.c + (HexLit(p.h2) + (p.d + [RBrack])))
    ensures TailLaid(p, t)
  {
    AtSplit(t, p.HeadEnd(), p.c, HexLit(p.h2) + (p.d + [RBrack]));
    AtSplit(t, p.SecondHex(), HexLit(p.h2), p.d + [RBrack]);
    LaysHex(t, p.SecondHex(), p.h2);
    AtSplit(t, p.SecondEnd(), p.d, [RBrack]);
    AtFirst(t, p.Close(), [RBrack]);
  }

  /** A buffer that starts with an entry starts with its head and holds the
      rest of its pieces in place. */
  lemma LaysTail(p: Parts, t: seq<byte>)
    requires StartsWith(t, p.Entry())
    ensures StartsWith(t, p.Head()) && TailLaid(p, t)
  {
    FormLengths(p);
    StartsWithLeft(t, p.Head(), p.c + (HexLit(p.h2) + (p.d + [RBrack])));
    AtStart(t, p.Entry());
    AtSplit(t, 0, p.Head(), p.c + (HexLit(p.h2) + (p.d + [RBrack])));
    LaysClose(p, t);
  }

  /** A greedy whitespace run over a blank piece stops at `j`, where the
      piece ends and a non-space byte follows. */
  lemma SpanBlank(t: seq<byte>, i: nat, a: seq<byte>, j: nat)
    requires At(t, i, a) && Blank(a) && j == i + |a| && j < |t| && !IsSpace(t[j])
    ensures Span(t, i, Space) == j
  {
    forall k | i <= k < j ensures InClass(Space, t[k]) {
      assert t[i + (k - i)] == a[k - i];
    }
    SpanAt(t, i, Space, j);
  }

  /** `<h>` laid at `i` is read as one hex string ending at `j`. */
  lemma HexAt(t: seq<byte>, i: nat, h: seq<byte>, j: nat)
    requires HexLaid(t, i, h) && HexDigits(h) && j == i + |h| + 2
    ensures HexString(t, i) == Some(j)
  {
    forall k | i + 1 <= k < i + 1 + |h| ensures InClass(Hex, t[k]) {
      assert t[i + 1 + (k - i - 1)] == h[k - i - 1];
    }
    SpanAt(t, i + 1, Hex, i + 1 + |h|);
  }

  /** What the scan of `DocIdEnd` finds over a head. */
  predicate HeadScanned(p: Parts, t: seq<byte>)
  {
    && StartsWith(t, IdKey)
    && p.Open() < |t| && Span(t, 3, Space) == p.Open() && t[p.Open()] == LBrack
    && Span(t, p.Open() + 1, Space) == p.FirstHex()
    && HexString(t, p.FirstHex()) == Some(p.HeadEnd())
  }

  /** What the rest of the scan finds over the tail of an entry. */
  predicate TailScanned(p: Parts, t: seq<byte>)
  {
    && p.HeadEnd() <= |t| && Span(t, p.HeadEnd(), Space) == p.SecondHex()
    && HexString(t, p.SecondHex()) == Some(p.SecondEnd())
    && Span(t, p.SecondEnd(), Space) == p.Close() && p.Close() < |t| && t[p.Close()] == RBrack
  }

  /** The scan of `DocIdEnd` over a laid head: each greedy run stops where
      its piece ends. */
  lemma ScanHead(p: Parts, t: seq<byte>)
    requires p.Valid() && HeadLaid(p, t)
    ensures HeadScanned(p, t)
  {
    AtStart(t, IdKey);
    SpanBlank(t, 3, p.a, p.Open());
    SpanBlank(t, p.Open() + 1, p.b, p.FirstHex());
    HexAt(t, p.FirstHex(), p.h1, p.HeadEnd());
  }

  /** The rest of the scan over a laid entry. */
  lemma ScanTail(p: Parts, t: seq<byte>)
    requires p.Valid() && TailLaid(p, t) && p.HeadEnd() <= |t|
    ensures TailScanned(p, t)
  {
    SpanBlank(t, p.HeadEnd(), p.c, p.SecondHex());
    HexAt(t, p.SecondHex(), p.h2, p.SecondEnd());
    SpanBlank(t, p.SecondEnd(), p.d, p.Close());
  }

  /** A laid head is matched, without a tail, exactly to its end. */
  lemma HeadFinds(p: Parts, t: seq<byte>)
    requires HeadScanned(p, t)
    ensures DocIdEnd(t, false) == Some(p.HeadEnd())
  {
  }

  /** A laid entry is matched, tail included, exactly to its end. */
  lemma EntryFinds(p: Parts, t: seq<byte>)
    requires HeadScanned(p, t) && TailScanned(p, t)
    ensures DocIdEnd(t, true) == Some(p.Close() + 1)
  {
  }

  /** A buffer that starts with a head (an entry, when `full`) is matched
      exactly that far. */
  lemma PartsFinds(p: Parts, full: bool, t: seq<byte>)
    requires p.Valid() && StartsWith(t, p.Form(full))
    ensures DocIdEnd(t, full) == Some(|p.Form(full)|)
  {
    FormLengths(p);
    if full {
      LaysTail(p, t);
      LaysHead(p, t);
      ScanHead(p, t);
      ScanTail(p, t);
      EntryFinds(p, t);
    } else {
      LaysHead(p, t);
      ScanHead(p, t);
      HeadFinds(p, t);
    }
  }

  /** `<h>` laid at `i` is `<h>` written at `i`. */
  lemma HexUnlaid(t: seq<byte>, i: nat, h: seq<byte>)
    requires HexLaid(t, i, h)
    ensures At(t, i, HexLit(h))
  {
    AtJoin(t, i + 1, h, [RAngle]);
    AtJoin(t, i, [LAngle], h + [RAngle]);
  }

  /** A head whose pieces are laid in place is a prefix of the buffer. */
  lemma UnlaysHead(p: Parts, t: seq<byte>)
    requires HeadLaid(p, t)
    ensures StartsWith(t, p.Head())
  {
    HeadWritten(p, t);
    AtStart(t, p.Head());
  }

  /** A head whose pieces are laid in place is written at the start. */
  lemma HeadWritten(p: Parts, t: seq<byte>)
    requires HeadLaid(p, t)
    ensures At(t, 0, p.Head())
  {
    HexUnlaid(t, p.FirstHex(), p.h1);
    AtJoin(t, p.Open() + 1, p.b, HexLit(p.h1));
    AtJoin(t, p.Open(), [LBrack], p.b + HexLit(p.h1));
    AtJoin(t, 3, p.a, [LBrack] + (p.b + HexLit(p.h1)));
    AtJoin(t, 0, IdKey, p.a + ([LBrack] + (p.b + HexLit(p.h1))));
  }

  /** The rest of an entry whose pieces are laid in place is written where
      its head ends. */
  lemma TailWritten(p: Parts, t: seq<byte>)
    requires TailLaid(p, t)
    ensures At(t, p.HeadEnd(), p.c + (HexLit(p.h2) + (p.d + [RBrack])))
  {
    AtJoin(t, p.SecondEnd(), p.d, [RBrack]);
    HexUnlaid(t, p.SecondHex(), p.h2);
    AtJoin(t, p.SecondHex(), HexLit(p.h2), p.d + [RBrack]);
    AtJoin(t, p.HeadEnd(), p.c, HexLit(p.h2) + (p.d + [RBrack]));
  }

  /** An entry whose pieces are laid in place is a prefix of the buffer. */
  lemma UnlaysEntry(p: Parts, t: seq<byte>)
    requires HeadLaid(p, t) && TailLaid(p, t)
    ensures StartsWith(t, p.Entry())
  {
    FormLengths(p);
    HeadWritten(p, t);
    TailWritten(p, t);
    AtJoin(t, 0, p.Head(), p.c + (HexLit(p.h2) + (p.d + [RBrack])));
    AtStart(t, p.Entry());
  }

  /** A full entry holds a head: the scan that reads the whole entry reads
      a head on its way. */
  lemma EntryHasHead(u: seq<byte>)
    ensures DocIdEnd(u, true).Some? ==> DocIdEnd(u, false).Some?
  {
  }

  /** The stops of the scan of a head: the `[` at `o`, the `<` at `f`,
      the `>` at `j`. */
  predicate HeadStopsAt(t: seq<byte>, o: nat, f: nat, j: nat)
  {
    && StartsWith(t, IdKey) && o == Span(t, 3, Space) && o < |t| && t[o] == LBrack
    && f == Span(t, o + 1, Space) && f < |t| && t[f] == LAngle
    && j == Span(t, f + 1, Hex) && f + 1 < j < |t| && t[j] == RAngle
  }

  /** The stops of the scan of the rest of an entry after a head ending at
      `c`: the `<` at `s`, the `>` at `j`, the `]` at `f`. */
  predicate TailStopsAt(t: seq<byte>, c: nat, s: nat, j: nat, f: nat)
  {
    && c <= |t| && s == Span(t, c, Space) && s < |t| && t[s] == LAngle
    && j == Span(t, s + 1, Hex) && s + 1 < j < |t| && t[j] == RAngle
    && f == Span(t, j + 1, Space) && f < |t| && t[f] == RBrack
  }

  /** Where the scan of a head stops. */
  lemma HeadStops(t: seq<byte>) returns (o: nat, f: nat, j: nat)
    requires DocIdEnd(t, false).Some?
    ensures HeadStopsAt(t, o, f, j) && DocIdEnd(t, false) == Some(j + 1)
  {
    o := Span(t, 3, Space);
    f := Span(t, o + 1, Space);
    j := Span(t, f + 1, Hex);
  }

  /** Where the scan of the rest of an entry stops, after a head ending at
      `c`. */
  lemma TailStops(t: seq<byte>, c: nat) returns (s: nat, j: nat, f: nat)
    requires DocIdEnd(t, true).Some? && DocIdEnd(t, false) == Some(c)
    ensures TailStopsAt(t, c, s, j, f) && DocIdEnd(t, true) == Some(f + 1)
  {
    s := Span(t, c, Space);
    j := Span(t, s + 1, Hex);
    f := Span(t, j + 1, Space);
  }

  /** A whitespace run cut out of a buffer is blank. */
  lemma BlankCut(t: seq<byte>, i: nat, j: nat)
    requires i <= j <= |t| && forall k :: i <= k < j ==> InClass(Space, t[k])
    ensures Blank(t[i..j]) && At(t, i, t[i..j])
  {
    forall k | 0 <= k < j - i ensures IsSpace(t[i..j][k]) {
      assert InClass(Space, t[i + k]);
    }
  }

  /** A non-empty hex run cut out of a buffer is hex digits. */
  lemma HexCut(t: seq<byte>, i: nat, j: nat)
    requires i < j <= |t| && forall k :: i <= k < j ==> InClass(Hex, t[k])
    ensures HexDigits(t[i..j]) && At(t, i, t[i..j])
  {
    forall k | 0 <= k < j - i ensures IsHex(t[i..j][k]) {
      assert InClass(Hex, t[i + k]);
    }
  }

  /** The pieces between the stops of a head. */
  lemma HeadPieces(t: seq<byte>, o: nat, f: nat, j: nat) returns (p: Parts)
    requires HeadStopsAt(t, o, f, j)
    ensures p.Valid() && HeadLaid(p, t) && p.HeadEnd() == j + 1
  {
    BlankCut(t, 3, o);
    BlankCut(t, o + 1, f);
    HexCut(t, f + 1, j);
    p := Parts(t[3..o], t[o + 1..f], t[f + 1..j], [], t[f + 1..j], []);
    AtStart(t, IdKey);
  }

  /** The pieces between the stops of an entry after a head `q`. */
  lemma TailPieces(q: Parts, t: seq<byte>, s: nat, j: nat, f: nat) returns (p: Parts)
    requires q.Valid() && HeadLaid(q, t)
    requires TailStopsAt(t, q.HeadEnd(), s, j, f)
    ensures p.Valid() && StartsWith(t, p.Entry()) && |p.Entry()| == f + 1
  {
    BlankCut(t, q.HeadEnd(), s);
    HexCut(t, s + 1, j);
    BlankCut(t, j + 1, f);
    p := Parts(q.a, q.b, q.h1, t[q.HeadEnd()..s], t[s + 1..j], t[j + 1..f]);
    assert p.HeadEnd() == q.HeadEnd() && HeadLaid(p, t);
    LaidTail(p, t, s, j, f);
    UnlaysEntry(p, t);
    FormLengths(p);
  }

  /** The pieces cut between the stops of the rest of an entry lie in
      place. */
  lemma LaidTail(p: Parts, t: seq<byte>, s: nat, j: nat, f: nat)
    requires TailStopsAt(t, p.HeadEnd(), s, j, f)
    requires p.c == t[p.HeadEnd()..s] && p.h2 == t[s + 1..j] && p.d == t[j + 1..f]
    ensures TailLaid(p, t)
  {
    assert p.SecondHex() == s && p.SecondEnd() == j + 1 && p.Close() == f;
    AtCut(t, p.HeadEnd(), s);
    AtCut(t, s + 1, j);
    AtCut(t, j + 1, f);
  }

  /** The pieces the scan of `DocIdEnd` reads as a head. */
  lemma ReadHead(t: seq<byte>) returns (p: Parts)
    requires DocIdEnd(t, false).Some?
    ensures p.Valid() && HeadLaid(p, t) && DocIdEnd(t, false) == Some(p.HeadEnd())
  {
    var o, f, j := HeadStops(t);
    p := HeadPieces(t, o, f, j);
  }

  /** The pieces the scan of `DocIdEnd` reads as a full entry. */
  lemma ReadEntry(t: seq<byte>) returns (p: Parts)
    requires DocIdEnd(t, true).Some?
    ensures p.Valid() && StartsWith(t, p.Entry()) && DocIdEnd(t, true) == Some(|p.Entry()|)
  {
    EntryHasHead(t);
    var q := ReadHead(t);
    var s, j, f := TailStops(t, q.HeadEnd());
    p := TailPieces(q, t, s, j, f);
  }

  /** The pieces of whatever `DocIdEnd` matches. */
  lemma ReadForm(t: seq<byte>, full: bool) returns (p: Parts)
    requires DocIdEnd(t, full).Some?
    ensures p.Valid() && StartsWith(t, p.Form(full)) && DocIdEnd(t, full) == Some(|p.Form(full)|)
  {
    if full {
      p := ReadEntry(t);
    } else {
      p := ReadHead(t);
      UnlaysHead(p, t);
      HeadFinds(p, t);
      FormLengths(p);
    }
  }

  /** The document-ID pattern matches exactly the buffers that start with
      the key, a `[`, one hex string (two, and the `]`, when `full`) and
      whitespace between them, and the match is that prefix. */
  lemma DocIdMatchForm(t: seq<byte>, full: bool)
    ensures DocIdMatch(t, full).Some? <==> exists p: Parts :: p.Valid() && StartsWith(t, p.Form(full))
    ensures forall p: Parts :: p.Valid() && StartsWith(t, p.Form(full)) ==> DocIdMatch(t, full) == Some(Hit(p.Form(full), []))
  {
    if DocIdMatch(t, full).Some? {
      var p := ReadForm(t, full);
    }
    forall p: Parts | p.Valid() && StartsWith(t, p.Form(full)) ensures DocIdMatch(t, full) == Some(Hit(p.Form(full), [])) {
      PartsFinds(p, full, t);
    }
  }

  /** An entry holds `/` only at its start. */
  lemma SlashOnlyFirst(p: Parts, full: bool)
    requires p.Valid()
    ensures |p.Form(full)| > 0 && p.Form(full)[0] == Slash
    ensures forall k :: 0 < k < |p.Form(full)| ==> p.Form(full)[k] != Slash
  {
    var rest := p.a + ([LBrack] + (p.b + HexLit(p.h1)));
    var tail := p.c + (HexLit(p.h2) + (p.d + [RBrack]));
    assert Slash !in p.a && Slash !in p.b && Slash !in p.h1;
    assert Slash !in p.c && Slash !in p.h2 && Slash !in p.d;
    assert Slash !in rest && Slash !in tail;
    forall k | 0 < k < |p.Form(full)| ensures p.Form(full)[k] != Slash {
      if k >= |p.Head()| {
        assert p.Form(full)[k] == tail[k - |p.Head()|];
      } else if k >= 3 {
        assert p.Form(full)[k] == rest[k - 3];
      }
    }
  }

  /** The document-ID matcher, applied. */
  lemma DocIdApplyAll(full: bool)
    ensures forall u :: Compile(DocId(full))(u) == DocIdMatch(u, full)
  {
  }

  /** A document-ID match is found again wherever its bytes are written,
      and holds `/` only at its start. */
  lemma DocIdContained(m: Matcher, full: bool)
    requires forall u :: m(u) == DocIdMatch(u, full)
    ensures SelfContained(m, Slash)
  {
    forall u, v | m(u).Some? && StartsWith(v, m(u).value.whole) ensures m(v) == m(u) {
      var p := ReadForm(u, full);
      PartsFinds(p, full, v);
    }
    forall u | m(u).Some? ensures forall k :: 0 < k < |m(u).value.whole| ==> m(u).value.whole[k] != Slash {
      var p := ReadForm(u, full);
      SlashOnlyFirst(p, full);
    }
  }

  /** The pieces of the zero entry: no whitespace, 32 zeros each. */
  function ZeroParts(): Parts { Parts([], [], ZeroHex, [], ZeroHex, []) }

  /** The zero entry is an entry. */
  lemma ZeroEntry()
    ensures ZeroParts().Valid() && ZeroParts().Entry() == ZeroId
  {
  }

  /** The zero entry, wherever it is written, matches as itself. */
  lemma ZeroReproduces(m: Matcher)
    requires forall u :: m(u) == DocIdMatch(u, true)
    ensures Reproducing(m, ZeroId, Slash)
  {
    ZeroEntry();
    SlashOnlyFirst(ZeroParts(), true);
    forall w | m(ZeroId + w).Some? ensures m(ZeroId + w).value.whole == ZeroId {
      FormMatches(m, true, ZeroParts(), w);
    }
  }

  /** `/ID\s*\[\s*<hex>`: what the stat looks for. */
  function HeadMatcher(): (m: Matcher)
    ensures WellFormed(m) && LeadsWith(m, Slash)
  {
    Compile(DocId(false))
  }

  /** `/ID\s*\[\s*<hex>\s*<hex>\s*\]`: what the rewrite replaces. */
  function EntryMatcher(): (m: Matcher)
    ensures WellFormed(m) && LeadsWith(m, Slash)
  {
    Compile(DocId(true))
  }

  /** Where no head occurs, no entry occurs and the rewrite changes nothing. */
  lemma NoHeadIdle(t: seq<byte>)
    ensures !Occurs(HeadMatcher(), t) ==> SubAll(EntryMatcher(), Const(ZeroId), t) == t
  {
    DocIdApplyAll(false);
    DocIdApplyAll(true);
    HeadBeforeEntry(HeadMatcher(), EntryMatcher(), t);
    if !Occurs(HeadMatcher(), t) {
      SubAllNoMatch(EntryMatcher(), Const(ZeroId), t);
    }
  }

  /** Wherever an entry occurs, a head occurs. */
  lemma HeadBeforeEntry(head: Matcher, entry: Matcher, t: seq<byte>)
    requires forall u :: head(u) == DocIdMatch(u, false)
    requires forall u :: entry(u) == DocIdMatch(u, true)
    requires WellFormed(head) && WellFormed(entry)
    ensures Occurs(entry, t) ==> Occurs(head, t)
  {
    if Occurs(entry, t) {
      var i :| 0 <= i <= |t| && entry(t[i..]).Some?;
      EntryHasHead(t[i..]);
      OccursAt(head, t, i);
    }
  }

  /** The document-ID pass: the stat is set when a head occurs; every
      entry is replaced by the zero entry. */
  function DocIdPass(t: seq<byte>): (s: Step)
    ensures s.flag <==> Occurs(HeadMatcher(), t)
    ensures !s.flag ==> s.out == t
  {
    NoHeadIdle(t);
    Step(SubAll(EntryMatcher(), Const(ZeroId), t), Search(HeadMatcher(), t))
  }

  /** Every entry left after the pass is the zero entry. */
  lemma DocIdSettles(t: seq<byte>)
    ensures Settled(EntryMatcher(), ZeroId, DocIdPass(t).out)
  {
    var m := EntryMatcher();
    DocIdApplyAll(true);
    DocIdContained(m, true);
    ZeroReproduces(m);
    CompilePrefixing(DocId(true));
    ContainedSettles(m, ZeroId, Slash, t);
  }

  /** Running the pass again changes nothing. */
  lemma DocIdIdempotent(t: seq<byte>)
    ensures DocIdPass(DocIdPass(t).out).out == DocIdPass(t).out
  {
    DocIdSettles(t);
    CompilePrefixing(DocId(true));
    SettledIsFixed(EntryMatcher(), ZeroId, DocIdPass(t).out);
  }

  /** Run on its own output, the pass raises its flag exactly when it did
      the first time: an entry it rewrote leaves the zero entry, which
      still holds a head, and without an entry the buffer is unchanged. */
  lemma DocIdFlagAgain(t: seq<byte>)
    ensures DocIdPass(DocIdPass(t).out).flag == DocIdPass(t).flag
  {
    var m := EntryMatcher();
    DocIdApplyAll(false);
    DocIdApplyAll(true);
    if Occurs(m, t) {
      var d := Find(m, t).value;
      NextMatch(m, Const(ZeroId), t, d);
      var rest := SubAll(m, Const(ZeroId), t[d + |m(t[d..]).value.whole|..]);
      ZeroEntry();
      SpliceFound(HeadMatcher(), t[..d], ZeroParts(), rest);
      HeadBeforeEntry(HeadMatcher(), m, t);
    } else {
      SubAllNoMatch(m, Const(ZeroId), t);
    }
  }

  /** A buffer without `/` holds no entry: the pass leaves it and the stat
      alone. */
  lemma DocIdAbsent(t: seq<byte>)
    requires Slash !in t
    ensures DocIdPass(t) == Step(t, false)
  {
    NoLeadNoMatch(HeadMatcher(), Slash, t);
  }

  /** One entry between bytes without `/` is replaced by the zero entry,
      and the stat is set. */
  lemma DocIdSplice(x: seq<byte>, p: Parts, y: seq<byte>)
    requires p.Valid() && Slash !in x && Slash !in y
    ensures DocIdPass(x + p.Entry() + y) == Step(x + ZeroId + y, true)
  {
    SpliceRewrites(EntryMatcher(), x, p, y);
    DocIdApplyAll(false);
    SpliceFound(HeadMatcher(), x, p, y);
  }

  /** A valid form written before any bytes is matched as itself. */
  lemma FormMatches(m: Matcher, full: bool, p: Parts, y: seq<byte>)
    requires forall u :: m(u) == DocIdMatch(u, full)
    requires p.Valid()
    ensures m(p.Form(full) + y) == Some(Hit(p.Form(full), []))
  {
    assert (p.Form(full) + y)[..|p.Form(full)|] == p.Form(full);
    PartsFinds(p, full, p.Form(full) + y);
  }

  /** The rewrite replaces one entry between bytes without `/`. */
  lemma SpliceRewrites(m: Matcher, x: seq<byte>, p: Parts, y: seq<byte>)
    requires m == EntryMatcher()
    requires p.Valid() && Slash !in x && Slash !in y
    ensures SubAll(m, Const(ZeroId), x + p.Entry() + y) == x + ZeroId + y
  {
    DocIdApplyAll(true);
    FormMatches(m, true, p, y);
    SpliceOne(m, Const(ZeroId), Slash, x, p.Entry(), y);
  }

  /** An entry holds a head where it starts. */
  lemma SpliceFound(m: Matcher, x: seq<byte>, p: Parts, y: seq<byte>)
    requires forall u :: m(u) == DocIdMatch(u, false)
    requires WellFormed(m) && p.Valid()
    ensures Occurs(m, x + p.Entry() + y)
  {
    var r := p.Entry() + y;
    assert r[..|p.Entry()|] == p.Entry();
    PartsFinds(p, true, r);
    EntryHasHead(r);
    Reassociate(x, p.Entry(), y);
    DropFront(x, r);
    OccursAt(m, x + r, |x|);
  }
}
