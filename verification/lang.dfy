/** The language-tag rewrite: every `/Lang(he)` becomes `/Lang(en)`, the
    same length, so nothing else in the buffer moves. It runs inside
    decompressed streams and, later, over the raw file. */
module Lang {
  import opened Bytes
  import opened Substitute
  import opened Regex
  import opened Clear

  /** `/Lang(he)` */
  const HeTag: seq<byte> := [47, 76, 97, 110, 103, 40, 104, 101, 41]
  /** `/Lang(en)` */
  const EnTag: seq<byte> := [47, 76, 97, 110, 103, 40, 101, 110, 41]

  /** `/Lang\(he\)` */
  function TagMatcher(): (m: Matcher)
    ensures WellFormed(m) && LeadsWith(m, Slash)
  {
    Compile(Regex.Literal(HeTag))
  }

  /** What the matcher reports at the start of `t`. */
  lemma TagMatch(t: seq<byte>)
    ensures TagMatcher()(t) == if StartsWith(t, HeTag) then Some(Hit(HeTag, [])) else None
  {
  }

  /** The tag is written at position `i` of `d`. */
  predicate TagAt(d: seq<byte>, i: nat)
    requires i <= |d|
  {
    StartsWith(d[i..], HeTag)
  }

  /** `/Lang(he)` occurs somewhere in `d` (Python's `in` on bytes). */
  ghost predicate HasTag(d: seq<byte>)
  {
    exists i :: 0 <= i <= |d| && TagAt(d, i)
  }

  lemma TagOccurs(d: seq<byte>)
    ensures Occurs(TagMatcher(), d) <==> HasTag(d)
  {
    if HasTag(d) {
      var i :| 0 <= i <= |d| && TagAt(d, i);
      TagMatch(d[i..]);
      OccursAt(TagMatcher(), d, i);
    }
    if Occurs(TagMatcher(), d) {
      var i :| 0 <= i <= |d| && TagMatcher()(d[i..]).Some?;
      TagMatch(d[i..]);
      assert TagAt(d, i);
    }
  }

  /** `re.sub(rb'/Lang\(he\)', b'/Lang(en)', d)`, also `d.replace(...)`:
      the length is kept, and a buffer without the tag is unchanged. */
  function LangPass(d: seq<byte>): (r: seq<byte>)
    ensures |r| == |d|
    ensures !HasTag(d) ==> r == d
  {
    forall u | TagMatcher()(u).Some?
      ensures |Const(EnTag)(TagMatcher()(u).value)| + 0 == |TagMatcher()(u).value.whole|
    {
      TagMatch(u);
    }
    LengthShift(TagMatcher(), Const(EnTag), 0, d);
    Untagged(d);
    SubAll(TagMatcher(), Const(EnTag), d)
  }

  /** Without the tag, the rewrite copies its input. */
  lemma Untagged(d: seq<byte>)
    ensures !HasTag(d) ==> SubAll(TagMatcher(), Const(EnTag), d) == d
  {
    TagOccurs(d);
    if !HasTag(d) {
      SubAllNoMatch(TagMatcher(), Const(EnTag), d);
    }
  }

  /** The number of positions at which the tag starts: an independent
      count, position by position. */
  function Occurrences(d: seq<byte>): nat
  {
    if |d| == 0 then 0
    else (if StartsWith(d, HeTag) then 1 else 0) + Occurrences(d[1..])
  }

  /** Positions without the tag add nothing to the count. */
  lemma {:induction false} OccurrencesGap(d: seq<byte>, k: nat)
    requires k <= |d|
    requires forall i :: 0 <= i < k ==> !TagAt(d, i)
    ensures Occurrences(d) == Occurrences(d[k..])
    decreases k
  {
    if k > 0 {
      assert !TagAt(d, 0) && d[0..] == d;
      forall i | 0 <= i < k - 1 ensures !TagAt(d[1..], i) {
        assert !TagAt(d, i + 1);
        assert d[1..][i..] == d[i + 1..];
      }
      OccurrencesGap(d[1..], k - 1);
      assert d[1..][k - 1..] == d[k..];
    }
  }

  /** The tag's `/` is its only one, so no occurrence starts inside
      another. */
  lemma NoTagInside(d: seq<byte>, i: nat)
    requires StartsWith(d, HeTag) && 0 < i < |HeTag|
    ensures !TagAt(d, i)
  {
    assert d[i] == HeTag[i];
    assert d[i..][0] == d[i];
  }

  /** `bytes.count` counts non-overlapping occurrences from the left; the
      tag cannot overlap itself, so that is every occurrence. */
  lemma {:induction false} CountIsOccurrences(d: seq<byte>)
    ensures Count(TagMatcher(), d) == Occurrences(d)
    decreases |d|
  {
    if |d| > 0 {
      TagMatch(d);
      if StartsWith(d, HeTag) {
        var rest := d[|HeTag|..];
        CountIsOccurrences(rest);
        forall i | 0 <= i < |HeTag| - 1 ensures !TagAt(d[1..], i) {
          NoTagInside(d, i + 1);
          assert d[1..][i..] == d[i + 1..];
        }
        OccurrencesGap(d[1..], |HeTag| - 1);
        assert d[1..][|HeTag| - 1..] == rest;
      } else {
        CountIsOccurrences(d[1..]);
      }
    }
  }

  /** The tag needs its nine bytes and is decided by them. */
  lemma TagWindowed()
    ensures Windowed(TagMatcher(), |HeTag|)
  {
    forall u | TagMatcher()(u).Some? ensures |u| >= |HeTag| {
      TagMatch(u);
    }
    forall u, v | |u| >= |HeTag| && |v| >= |HeTag| && u[..|HeTag|] == v[..|HeTag|]
      ensures TagMatcher()(u).Some? == TagMatcher()(v).Some?
    {
      TagMatch(u);
      TagMatch(v);
    }
  }

  /** The tag matcher on any buffer. */
  lemma TagApplyAll()
    ensures forall u :: TagMatcher()(u) == LiteralMatch(u, HeTag)
  {
    forall u ensures TagMatcher()(u) == LiteralMatch(u, HeTag) {
      TagMatch(u);
    }
  }

  /** Both tags hold their `/` only at the start, and they part at the
      first letter inside the parentheses. */
  lemma TagBytes()
    ensures Slash !in HeTag[1..] && Slash !in EnTag[1..] && EnTag[6] != HeTag[6]
  {
    assert HeTag[1..] == [76, 97, 110, 103, 40, 104, 101, 41];
    assert EnTag[1..] == [76, 97, 110, 103, 40, 101, 110, 41];
  }

  lemma TagLeadOnlyFirst()
    ensures LeadOnlyFirst(TagMatcher(), Slash, |HeTag|)
  {
    TagApplyAll();
    TagBytes();
    LiteralLeadOnlyFirst(TagMatcher(), HeTag, Slash);
  }

  /** `/Lang(en)` has its only `/` at the start and differs from the tag. */
  lemma EnTagFresh()
    ensures FreshReplacement(TagMatcher(), Const(EnTag), Slash)
  {
    TagApplyAll();
    TagBytes();
    LiteralFresh(TagMatcher(), HeTag, EnTag, Slash, 6);
  }

  /** After the rewrite no `/Lang(he)` is left. */
  lemma LangClears(d: seq<byte>)
    ensures !HasTag(LangPass(d))
  {
    TagWindowed();
    TagLeadOnlyFirst();
    EnTagFresh();
    ClearsAll(TagMatcher(), Const(EnTag), Slash, |HeTag|, d);
    TagOccurs(LangPass(d));
  }

  /** A second rewrite changes nothing. */
  lemma LangIdempotent(d: seq<byte>)
    ensures LangPass(LangPass(d)) == LangPass(d)
  {
    LangClears(d);
  }

  /** One tag between text without `/` becomes `/Lang(en)` in place. */
  lemma LangSplice(x: seq<byte>, y: seq<byte>)
    requires Slash !in x && Slash !in y
    ensures LangPass(x + HeTag + y) == x + EnTag + y
    ensures Count(TagMatcher(), x + HeTag + y) == 1
  {
    TagMatch(HeTag + y);
    SpliceOne(TagMatcher(), Const(EnTag), Slash, x, HeTag, y);
    assert (x + HeTag + y)[|x|..] == HeTag + y;
    TagOccurs(x + HeTag + y);
    CountIsOccurrences(x + HeTag + y);
    SpliceOccurrences(x, y);
  }

  /** Text without `/` holds no tag. */
  lemma {:induction false} NoSlashNoOccurrences(z: seq<byte>)
    requires Slash !in z
    ensures Occurrences(z) == 0
    decreases |z|
  {
    if |z| > 0 {
      assert z[0] != HeTag[0];
      NoSlashNoOccurrences(z[1..]);
    }
  }

  /** The independent count of `/Lang(he) y`. */
  lemma HeadOccurrences(y: seq<byte>)
    requires Slash !in y
    ensures Occurrences(HeTag + y) == 1
  {
    var w := HeTag + y;
    assert StartsWith(w, HeTag);
    assert w[1..] == HeTag[1..] + y;
    assert Slash !in HeTag[1..];
    NoSlashNoOccurrences(w[1..]);
  }

  /** The independent count of `x /Lang(he) y`. */
  lemma SpliceOccurrences(x: seq<byte>, y: seq<byte>)
    requires Slash !in x && Slash !in y
    ensures Occurrences(x + HeTag + y) == 1
  {
    Reassociate(x, HeTag, y);
    FreeOccurrences(x, HeTag + y);
    HeadOccurrences(y);
  }

  /** Text without `/` in front of a buffer adds no occurrence. */
  lemma FreeOccurrences(x: seq<byte>, rest: seq<byte>)
    requires Slash !in x
    ensures Occurrences(x + rest) == Occurrences(rest)
  {
    var t := x + rest;
    forall i | 0 <= i < |x| ensures !TagAt(t, i) {
      assert t[i..][0] == x[i];
    }
    OccurrencesGap(t, |x|);
    assert t[|x|..] == rest;
  }
}
