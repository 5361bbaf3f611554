/** The compressed-stream pass: every `stream ... endstream` region whose
    payload decompresses to data holding `/Lang(he)` is rewritten with the
    tags replaced and the data compressed again; every other region is put
    back as it was. The pass also counts the tags it replaced. */
module Streams {
  import opened Bytes
  import opened Substitute
  import opened Regex
  import opened Lang

  /** zlib as the pass uses it: `inflate` is `zlib.decompress`, `None`
      where it raises; `deflate` is `zlib.compress` at level 9. */
  datatype Codec = Codec(inflate: seq<byte> -> Option<seq<byte>>, deflate: seq<byte> -> seq<byte>)

  /** Decompressing what was compressed gives it back. */
  ghost predicate RoundTrips(c: Codec)
  {
    forall d :: c.inflate(c.deflate(d)) == Some(d)
  }

  /** `stream\r\n` and `\r\nendstream`, the framing of a rewritten region. */
  const Header := StreamKey + [CR, LF]
  const Trailer := [CR] + EndMarker

  /** `stream\r?\n(.+?)\r?\nendstream` with DOTALL. */
  function RegionMatcher(): (m: Matcher)
    ensures WellFormed(m) && LeadsWith(m, Byte('s'))
  {
    Compile(StreamBlock)
  }

  /** The decompressed payload of a region, when it holds the tag. */
  function Tagged(c: Codec, h: Hit): Option<seq<byte>>
  {
    match c.inflate(h.group)
    case Some(d) => if Search(TagMatcher(), d) then Some(d) else None
    case None => None
  }

  /** The callback: a tagged region is rebuilt around the recompressed,
      rewritten data; any other region is returned as matched. */
  function Rewrite(c: Codec, h: Hit): seq<byte>
  {
    match Tagged(c, h)
    case Some(d) => Header + c.deflate(LangPass(d)) + Trailer
    case None => h.whole
  }

  /** The tags a region adds to the count (`bytes.count`). */
  function Tags(c: Codec, h: Hit): nat
  {
    match Tagged(c, h)
    case Some(d) => Count(TagMatcher(), d)
    case None => 0
  }

  function Rewriter(c: Codec): Hit -> seq<byte>
  {
    h => Rewrite(c, h)
  }

  function Counter(c: Codec): Hit -> nat
  {
    h => Tags(c, h)
  }

  /** What the pass produces: the new buffer, and the number of language
      tags it replaced inside streams. */
  datatype Outcome = Outcome(out: seq<byte>, tags: nat)

  /** No region anywhere in `t` decompresses to data holding the tag. */
  ghost predicate NoTaggedRegion(c: Codec, t: seq<byte>)
  {
    forall i :: 0 <= i <= |t| && RegionMatcher()(t[i..]).Some? ==> Tagged(c, RegionMatcher()(t[i..]).value).None?
  }

  /** Regions that hold no tag are put back as matched and count nothing. */
  lemma UntaggedKept(c: Codec, t: seq<byte>)
    ensures NoTaggedRegion(c, t) ==> SubAll(RegionMatcher(), Rewriter(c), t) == t
    ensures NoTaggedRegion(c, t) ==> Tally(RegionMatcher(), Counter(c), t) == 0
  {
    if NoTaggedRegion(c, t) {
      CompilePrefixing(StreamBlock);
      SubAllFixed(RegionMatcher(), Rewriter(c), t);
      TallyZero(RegionMatcher(), Counter(c), t);
    }
  }

  /** The pass. Where no region holds the tag, the buffer comes back
      byte for byte and nothing is counted. */
  function StreamPass(c: Codec, t: seq<byte>): (r: Outcome)
    ensures NoTaggedRegion(c, t) ==> r == Outcome(t, 0)
  {
    UntaggedKept(c, t);
    Outcome(SubAll(RegionMatcher(), Rewriter(c), t), Tally(RegionMatcher(), Counter(c), t))
  }

  /** No `\nendstream` starts inside `g` after its first byte, so the lazy
      payload of a region framed around `g` runs to the end of `g`. */
  ghost predicate Unmarked(g: seq<byte>)
  {
    forall k :: 1 <= k < |g| ==> !StartsWith(g[k..], EndMarker)
  }

  /** No region starts inside `x` when `w` follows it. */
  ghost predicate RegionFree(x: seq<byte>, w: seq<byte>)
  {
    forall i :: 0 <= i < |x| ==> RegionMatcher()((x + w)[i..]).None?
  }

  /** Text without `s` starts no region. */
  lemma LeadFree(x: seq<byte>, w: seq<byte>)
    requires Byte('s') !in x
    ensures RegionFree(x, w)
  {
    forall i | 0 <= i < |x| ensures RegionMatcher()((x + w)[i..]).None? {
      assert (x + w)[i..][0] == x[i];
    }
  }

  /** No end marker starts between the payload's second byte and the
      carriage return after it: one starting in the payload would lie in
      it, and one reaching the carriage return would need a `\r` among
      `endstream`'s letters. */
  lemma NoMarkerInside(g: seq<byte>, y: seq<byte>)
    requires Unmarked(g)
    ensures var t := Header + g + Trailer + y;
      forall k :: |Header| + 1 <= k <= |Header| + |g| ==> !StartsWith(t[k..], EndMarker)
  {
    var t := Header + g + Trailer + y;
    var j := |Header| + |g| + 1;
    forall k | |Header| + 1 <= k <= |Header| + |g| ensures !StartsWith(t[k..], EndMarker) {
      var i := k - |Header|;
      if k == j - 1 {
        assert t[k..][0] == CR;
      } else if i + |EndMarker| <= |g| {
        assert t[k..][..|EndMarker|] == g[i..][..|EndMarker|];
      } else {
        var q := |g| - i;
        assert t[k..][q] == CR != EndMarker[q];
      }
    }
  }

  /** The slices of a buffer that starts with a framed region. */
  lemma FramedSlices(g: seq<byte>, y: seq<byte>)
    ensures var t, j := Header + g + Trailer + y, |Header| + |g| + 1;
      && t[..6] == StreamKey && t[6..][..2] == [CR, LF]
      && j + |EndMarker| <= |t| && t[j..][..|EndMarker|] == EndMarker
      && t[j - 1] == CR && t[|Header|..j - 1] == g
      && t[..j + |EndMarker|] == Header + g + Trailer
  {
    var t := Header + g + Trailer + y;
    var j := |Header| + |g| + 1;
    assert t[..6] == StreamKey;
    assert t[6..][..2] == [CR, LF];
    assert t[j..][..|EndMarker|] == EndMarker;
    assert t[j - 1] == CR;
    assert t[|Header|..j - 1] == g;
    assert t[..j + |EndMarker|] == Header + g + Trailer;
  }

  /** A framed region `stream\r\n g \r\nendstream` is matched whole,
      with `g` as the payload, when no end marker starts inside `g`. */
  lemma FramedMatch(g: seq<byte>, y: seq<byte>)
    requires |g| > 0 && Unmarked(g)
    ensures StreamMatch(Header + g + Trailer + y) == Some(Hit(Header + g + Trailer, g))
  {
    var t := Header + g + Trailer + y;
    var j := |Header| + |g| + 1;
    FramedSlices(g, y);
    NoMarkerInside(g, y);
    CrLfRegion(t, j);
  }

  /** `stream\r\n`, then no end marker before `j`, a carriage return just
      before it and the end marker at it: matched up to the marker's end,
      the payload between the header and the carriage return. */
  lemma CrLfRegion(t: seq<byte>, j: nat)
    requires 9 < j && j + |EndMarker| <= |t|
    requires t[..6] == StreamKey && t[6..][..2] == [CR, LF]
    requires forall k :: 9 <= k < j ==> !StartsWith(t[k..], EndMarker)
    requires t[j..][..|EndMarker|] == EndMarker && t[j - 1] == CR
    ensures StreamMatch(t) == Some(Hit(t[..j + |EndMarker|], t[8..j - 1]))
  {
    IndexOfAt(t, EndMarker, 9, j);
  }

  lemma RegionAt(g: seq<byte>, y: seq<byte>)
    requires |g| > 0 && Unmarked(g)
    ensures RegionMatcher()(Header + g + Trailer + y) == Some(Hit(Header + g + Trailer, g))
  {
    FramedMatch(g, y);
  }

  /** An end marker inside the payload ends the region there: the match is
      shorter than the frame, so `Unmarked` is exactly when the framed
      region is matched whole. */
  lemma FramedCut(g: seq<byte>, y: seq<byte>)
    requires |g| > 0 && !Unmarked(g)
    ensures StreamMatch(Header + g + Trailer + y).Some?
    ensures |StreamMatch(Header + g + Trailer + y).value.whole| < |Header + g + Trailer|
  {
    var t := Header + g + Trailer + y;
    var k :| 1 <= k < |g| && StartsWith(g[k..], EndMarker);
    FramedSlices(g, y);
    assert t[|Header| + k..][..|EndMarker|] == g[k..][..|EndMarker|];
    assert StartsWith(t[|Header| + k..], EndMarker);
  }

  /** A buffer cut into its five pieces. */
  lemma FiveCuts(t: seq<byte>, a: nat, b: nat, c: nat, d: nat, e: nat)
    requires a <= b <= c <= d <= e <= |t|
    ensures t[..e] == t[..a] + t[a..b] + t[b..c] + t[c..d] + t[d..e]
  {
  }

  /** The line break after `stream`: `\r\n` where the buffer has it,
      otherwise `\n`. */
  lemma LineBreak(t: seq<byte>, p: nat)
    requires 6 <= |t|
    requires p == if StartsWith(t[6..], [CR, LF]) then 8 else if StartsWith(t[6..], [LF]) then 7 else 0
    requires p != 0
    ensures p <= |t| && (t[6..p] == [CR, LF] || t[6..p] == [LF])
  {
    if StartsWith(t[6..], [CR, LF]) {
      assert t[6..8] == t[6..][..2];
    } else {
      assert t[6..7] == t[6..][..1];
    }
  }

  /** A buffer cut after the key at `p`, before an optional carriage
      return at `k`, and around the end marker at `j`, reassembles. */
  lemma RegionAssemble(t: seq<byte>, p: nat, k: nat, j: nat, n: nat)
    requires 6 <= p <= k <= j && n == j + |EndMarker| <= |t|
    requires StartsWith(t, StreamKey) && (t[6..p] == [CR, LF] || t[6..p] == [LF])
    requires StartsWith(t[j..], EndMarker)
    requires k == j || (k + 1 == j && t[k] == CR)
    ensures exists nl: seq<byte>, cr: seq<byte> ::
      && (nl == [CR, LF] || nl == [LF]) && (cr == [] || cr == [CR])
      && t[..n] == StreamKey + nl + t[p..k] + cr + EndMarker
  {
    assert t[..6] == StreamKey;
    assert t[j..n] == EndMarker by {
      assert t[j..][..|EndMarker|] == t[j..n];
    }
    assert t[k..j] == [] || t[k..j] == [CR] by {
      if k < j {
        assert t[k..j] == [t[k]];
      }
    }
    FiveCuts(t, 6, p, k, j, n);
    assert t[..n] == StreamKey + t[6..p] + t[p..k] + t[k..j] + EndMarker;
  }

  /** What a region match consists of: `stream`, the line break of the
      header, a non-empty payload, an optional carriage return, and
      `\nendstream`. */
  lemma RegionShape(t: seq<byte>)
    requires StreamMatch(t).Some?
    ensures var h := StreamMatch(t).value;
      && |h.group| > 0
      && exists nl: seq<byte>, cr: seq<byte> ::
        && (nl == [CR, LF] || nl == [LF]) && (cr == [] || cr == [CR])
        && h.whole == StreamKey + nl + h.group + cr + EndMarker
  {
    var h := StreamMatch(t).value;
    var p := if StartsWith(t[6..], [CR, LF]) then 8 else if StartsWith(t[6..], [LF]) then 7 else 0;
    var j := IndexOf(t, EndMarker, p + 1).value;
    var k := if j - 1 >= p + 1 && t[j - 1] == CR then j - 1 else j;
    var n := j + |EndMarker|;
    LineBreak(t, p);
    assert h == Hit(t[..n], t[p..k]);
    RegionAssemble(t, p, k, j, n);
  }

  /** The tagged payload of a framed region, when the codec yields `d`. */
  lemma TaggedFramed(c: Codec, g: seq<byte>, mid: seq<byte>, d: seq<byte>)
    requires c.inflate(g) == Some(d)
    ensures HasTag(d) ==> Tagged(c, Hit(mid, g)) == Some(d)
    ensures !HasTag(d) ==> Tagged(c, Hit(mid, g)).None?
  {
    TagOccurs(d);
  }

  /** The first region of `x mid y` is `mid`: the pass copies `x`, puts
      the callback's bytes in place of `mid`, counts `mid`'s tags and
      carries on with `y`. */
  lemma PassFirst(c: Codec, x: seq<byte>, mid: seq<byte>, y: seq<byte>, h: Hit)
    requires RegionFree(x, mid + y)
    requires RegionMatcher()(mid + y) == Some(h) && h.whole == mid
    ensures StreamPass(c, x + mid + y) == Outcome(x + Rewrite(c, h) + StreamPass(c, y).out, Tags(c, h) + StreamPass(c, y).tags)
  {
    forall i | 0 <= i < |x| ensures RegionMatcher()((x + mid + y)[i..]).None? {
      assert (x + mid + y)[i..] == (x + (mid + y))[i..];
    }
    FirstMatch(RegionMatcher(), Rewriter(c), Counter(c), x, mid, y);
  }

  /** A region whose payload decompresses to data holding the tag, with
      no region starting before it: the text before it is copied, the region
      is rebuilt with the tags replaced, the tags are counted, and the pass
      carries on after it. */
  lemma StreamSpliceTagged(c: Codec, x: seq<byte>, g: seq<byte>, y: seq<byte>, d: seq<byte>)
    requires RegionFree(x, Header + g + Trailer + y)
    requires |g| > 0 && Unmarked(g)
    requires c.inflate(g) == Some(d) && HasTag(d)
    ensures StreamPass(c, x + Header + g + Trailer + y)
         == Outcome(x + Header + c.deflate(LangPass(d)) + Trailer + StreamPass(c, y).out,
                    Occurrences(d) + StreamPass(c, y).tags)
  {
    var mid := Header + g + Trailer;
    var h := Hit(mid, g);
    RegionAt(g, y);
    TaggedFramed(c, g, mid, d);
    Group3(x, Header, g, Trailer, y);
    PassFirst(c, x, mid, y, h);
    Group3(x, Header, c.deflate(LangPass(d)), Trailer, StreamPass(c, y).out);
    CountIsOccurrences(d);
  }

  /** A region whose payload does not decompress or holds no tag, with no
      region starting before it: everything up to the end of the region is
      copied, nothing is counted for it, and the pass carries on after
      it. */
  lemma StreamSpliceKept(c: Codec, x: seq<byte>, g: seq<byte>, y: seq<byte>)
    requires RegionFree(x, Header + g + Trailer + y)
    requires |g| > 0 && Unmarked(g)
    requires c.inflate(g).None? || !HasTag(c.inflate(g).value)
    ensures StreamPass(c, x + Header + g + Trailer + y)
         == Outcome(x + Header + g + Trailer + StreamPass(c, y).out, StreamPass(c, y).tags)
  {
    var mid := Header + g + Trailer;
    var h := Hit(mid, g);
    RegionAt(g, y);
    if c.inflate(g).Some? {
      TaggedFramed(c, g, mid, c.inflate(g).value);
    }
    Group3(x, Header, g, Trailer, y);
    PassFirst(c, x, mid, y, h);
    Group3(x, Header, g, Trailer, StreamPass(c, y).out);
  }

  /** With a codec that round-trips, a region the pass rebuilt is copied by
      a second pass and counts nothing there: its payload decompresses to
      the rewritten data, which holds no tag. */
  lemma StreamRerun(c: Codec, x: seq<byte>, d: seq<byte>, y: seq<byte>)
    requires RoundTrips(c)
    requires RegionFree(x, Header + c.deflate(LangPass(d)) + Trailer + y)
    requires |c.deflate(LangPass(d))| > 0 && Unmarked(c.deflate(LangPass(d)))
    ensures var t := x + Header + c.deflate(LangPass(d)) + Trailer + y;
      StreamPass(c, t) == Outcome(x + Header + c.deflate(LangPass(d)) + Trailer + StreamPass(c, y).out, StreamPass(c, y).tags)
  {
    LangClears(d);
    assert c.inflate(c.deflate(LangPass(d))) == Some(LangPass(d));
    StreamSpliceKept(c, x, c.deflate(LangPass(d)), y);
  }
}
