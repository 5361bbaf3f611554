/** The byte-level regular expressions of the sanitizer, each as a
    deterministic matcher: given the bytes from a start position onward,
    the one match Python's backtracking `re` engine reports there, if any.

    Every pattern the sanitizer uses has at most one match at a given
    start, because each greedy run is followed by a byte outside its class
    and each lazy run by a fixed literal. */
module Regex {
  import opened Bytes
  import opened Substitute

  /** The class a greedy run consumes. */
  datatype ByteClass = NotByte(excluded: byte) | Space | Hex

  predicate InClass(c: ByteClass, b: byte)
  {
    match c
    case NotByte(x) => b != x
    case Space => IsSpace(b)
    case Hex => IsHex(b)
  }

  /** End of the longest run of class `c` starting at `i` (a greedy `c*`). */
  function Span(t: seq<byte>, i: nat, c: ByteClass): (j: nat)
    requires i <= |t|
    ensures i <= j <= |t|
    ensures forall k :: i <= k < j ==> InClass(c, t[k])
    ensures j == |t| || !InClass(c, t[j])
    decreases |t| - i
  {
    if i == |t| || !InClass(c, t[i]) then i else Span(t, i + 1, c)
  }

  /** Leftmost position at or after `i` where `lit` occurs: where a lazy
      `.*?` followed by `lit` stops. */
  function IndexOf(t: seq<byte>, lit: seq<byte>, i: nat): (r: Option<nat>)
    requires i <= |t|
    ensures r.Some? ==> i <= r.value <= |t| && StartsWith(t[r.value..], lit)
    ensures forall k :: i <= k <= |t| && (r.None? || k < r.value) ==> !StartsWith(t[k..], lit)
    decreases |t| - i
  {
    if StartsWith(t[i..], lit) then Some(i)
    else if i == |t| then None
    else IndexOf(t, lit, i + 1)
  }

  /** The shapes of pattern the sanitizer uses. */
  datatype Pattern =
    /** `key [^stop]* close`, or `key [^stop]+ close` when `nonEmpty`;
        `close` begins with `stop` (e.g. `/Author\([^)]*\)`). */
    | Delimited(key: seq<byte>, stop: byte, close: seq<byte>, nonEmpty: bool)
    /** `open .*? close` with DOTALL (e.g. `<dc:title>.*?</dc:title>`). */
    | Lazy(open: seq<byte>, close: seq<byte>)
    /** A fixed byte string (e.g. `/Lang\(he\)`). */
    | Literal(lit: seq<byte>)
    /** `(D:\d{14})([+-]\d{2}'\d{2}')`. */
    | ZonedDate
    /** `/ID\s*\[\s*<[A-Fa-f0-9]+>`, followed when `full` by
        `\s*<[A-Fa-f0-9]+>\s*\]`. */
    | DocId(full: bool)
    /** `stream\r?\n(.+?)\r?\nendstream` with DOTALL. */
    | StreamBlock
  {
    /** The patterns never match the empty string; a delimited run stops
        exactly where its closing text begins. */
    predicate Valid()
    {
      match this
      case Delimited(key, stop, close, _) => |key| > 0 && |close| > 0 && close[0] == stop
      case Lazy(open, _) => |open| > 0
      case Literal(lit) => |lit| > 0
      case _ => true
    }

    /** The byte every match starts with. */
    function Lead(): byte
      requires Valid()
    {
      match this
      case Delimited(key, _, _, _) => key[0]
      case Lazy(open, _) => open[0]
      case Literal(lit) => lit[0]
      case ZonedDate => Byte('D')
      case DocId(_) => Byte('/')
      case StreamBlock => Byte('s')
    }
  }

  /** `/ID` */
  const IdKey: seq<byte> := [47, 73, 68]
  /** `stream` */
  const StreamKey: seq<byte> := [115, 116, 114, 101, 97, 109]
  /** `\nendstream` */
  const EndMarker: seq<byte> := [10, 101, 110, 100, 115, 116, 114, 101, 97, 109]

  /** `D:` + 14 digits + `[+-]` + 2 digits + `'` + 2 digits + `'`. */
  predicate ZonedDateAt(t: seq<byte>)
  {
    && |t| >= 23
    && t[0] == Byte('D') && t[1] == Byte(':')
    && (forall k :: 2 <= k < 16 ==> IsDigit(t[k]))
    && (t[16] == Byte('+') || t[16] == Byte('-'))
    && IsDigit(t[17]) && IsDigit(t[18]) && t[19] == Byte('\'')
    && IsDigit(t[20]) && IsDigit(t[21]) && t[22] == Byte('\'')
  }

  /** `<[A-Fa-f0-9]+>` at position `i`: the position just after `>`. */
  function HexString(t: seq<byte>, i: nat): (r: Option<nat>)
    requires i <= |t|
    ensures r.Some? ==> i + 3 <= r.value <= |t|
  {
    if !(i < |t| && t[i] == Byte('<')) then None
    else
      var j := Span(t, i + 1, Hex);
      if j > i + 1 && j < |t| && t[j] == Byte('>') then Some(j + 1) else None
  }

  /** End of the document-ID match at the start of `t`, if any. */
  function DocIdEnd(t: seq<byte>, full: bool): (r: Option<nat>)
    ensures r.Some? ==> 3 < r.value <= |t|
  {
    if !StartsWith(t, IdKey) then None
    else
      var a := Span(t, 3, Space);
      if !(a < |t| && t[a] == Byte('[')) then None
      else
        match HexString(t, Span(t, a + 1, Space))
        case None => None
        case Some(c) =>
          if !full then Some(c)
          else
            match HexString(t, Span(t, c, Space))
            case None => None
            case Some(e) =>
              var f := Span(t, e, Space);
              if f < |t| && t[f] == Byte(']') then Some(f + 1) else None
  }

  /** The stream-region match at the start of `t`: the header's `\r?`
      takes a carriage return when one is there, the payload is the
      shortest non-empty run followed by `\r?\nendstream`. */
  function StreamMatch(t: seq<byte>): (r: Option<Hit>)
    ensures r.Some? ==> |StreamKey| < |r.value.whole| <= |t|
    ensures r.Some? ==> t[0] == Byte('s')
  {
    if !StartsWith(t, StreamKey) then None
    else
      var p := if StartsWith(t[6..], [CR, LF]) then 8 else if StartsWith(t[6..], [LF]) then 7 else 0;
      if p == 0 || |t| < p + 1 then None
      else
        match IndexOf(t, EndMarker, p + 1)
        case None => None
        case Some(j) =>
          var k := if j - 1 >= p + 1 && t[j - 1] == CR then j - 1 else j;
          Some(Hit(t[..j + |EndMarker|], t[p..k]))
  }

  /** `key [^stop]* close` (or `+`) at the start of `t`; the run is the group. */
  function DelimitedMatch(t: seq<byte>, key: seq<byte>, stop: byte, close: seq<byte>, nonEmpty: bool): (r: Option<Hit>)
    requires |key| > 0 && |close| > 0
    ensures r.Some? ==> |key| < |r.value.whole| <= |t|
    ensures r.Some? ==> t[0] == key[0]
  {
    if !StartsWith(t, key) then None
    else
      var j := Span(t, |key|, NotByte(stop));
      if StartsWith(t[j..], close) && (!nonEmpty || j > |key|)
      then Some(Hit(t[..j + |close|], t[|key|..j]))
      else None
  }

  /** `open .*? close` (DOTALL) at the start of `t`; the content is the group. */
  function LazyMatch(t: seq<byte>, open: seq<byte>, close: seq<byte>): (r: Option<Hit>)
    requires |open| > 0
    ensures r.Some? ==> |open| <= |r.value.whole| <= |t|
    ensures r.Some? ==> t[0] == open[0]
  {
    if !StartsWith(t, open) then None
    else
      match IndexOf(t, close, |open|)
      case None => None
      case Some(j) => Some(Hit(t[..j + |close|], t[|open|..j]))
  }

  /** The lazy search stops at the first occurrence at or after `i`. */
  lemma IndexOfAt(t: seq<byte>, lit: seq<byte>, i: nat, j: nat)
    requires i <= j <= |t| && StartsWith(t[j..], lit)
    requires forall k :: i <= k < j ==> !StartsWith(t[k..], lit)
    ensures IndexOf(t, lit, i) == Some(j)
  {
  }

  /** A fixed byte string at the start of `t`. */
  function LiteralMatch(t: seq<byte>, lit: seq<byte>): (r: Option<Hit>)
    ensures r.Some? ==> |r.value.whole| == |lit| <= |t|
    ensures r.Some? && |lit| > 0 ==> t[0] == lit[0]
  {
    if StartsWith(t, lit) then Some(Hit(t[..|lit|], [])) else None
  }

  /** A zoned date at the start of `t`; the date part is the group. */
  function ZonedMatch(t: seq<byte>): (r: Option<Hit>)
    ensures r.Some? ==> |r.value.whole| == 23 <= |t|
    ensures r.Some? ==> t[0] == Byte('D')
  {
    if ZonedDateAt(t) then Some(Hit(t[..23], t[..16])) else None
  }

  /** A document-ID entry at the start of `t`. */
  function DocIdMatch(t: seq<byte>, full: bool): (r: Option<Hit>)
    ensures r.Some? ==> 3 < |r.value.whole| <= |t|
    ensures r.Some? ==> t[0] == Byte('/')
  {
    match DocIdEnd(t, full)
    case None => None
    case Some(e) => Some(Hit(t[..e], []))
  }

  /** The pattern as a matcher for `re.sub` and `re.search`: what Python's
      `re` reports as the match at the start of a buffer. */
  function Compile(p: Pattern): (m: Matcher)
    requires p.Valid()
    ensures WellFormed(m) && LeadsWith(m, p.Lead())
  {
    match p
    case Delimited(key, stop, close, nonEmpty) => t => DelimitedMatch(t, key, stop, close, nonEmpty)
    case Lazy(open, close) => t => LazyMatch(t, open, close)
    case Literal(lit) => t => LiteralMatch(t, lit)
    case ZonedDate => ZonedMatch
    case DocId(full) => t => DocIdMatch(t, full)
    case StreamBlock => StreamMatch
  }

  /** A match is a prefix of the buffer it was found in. */
  lemma CompilePrefix(p: Pattern, t: seq<byte>)
    requires p.Valid()
    ensures Compile(p)(t).Some? ==> StartsWith(t, Compile(p)(t).value.whole)
  {
  }

  /** Every match of a compiled pattern is a prefix of its buffer. */
  lemma CompilePrefixing(p: Pattern)
    requires p.Valid()
    ensures Prefixing(Compile(p))
  {
    forall u | Compile(p)(u).Some? ensures StartsWith(u, Compile(p)(u).value.whole) {
      CompilePrefix(p, u);
    }
  }

  /** A greedy run ends at the first byte outside its class. */
  lemma SpanAt(t: seq<byte>, i: nat, c: ByteClass, j: nat)
    requires i <= j <= |t|
    requires forall k :: i <= k < j ==> InClass(c, t[k])
    requires j == |t| || !InClass(c, t[j])
    ensures Span(t, i, c) == j
  {
  }

  /** What a delimited match consists of: the key, a run free of the stop
      byte (non-empty for `+`), and the closing text. */
  lemma DelimitedFound(t: seq<byte>, key: seq<byte>, stop: byte, close: seq<byte>, nonEmpty: bool)
    requires |key| > 0 && |close| > 0 && close[0] == stop
    requires DelimitedMatch(t, key, stop, close, nonEmpty).Some?
    ensures var h := DelimitedMatch(t, key, stop, close, nonEmpty).value;
      && h.whole == key + h.group + close
      && stop !in h.group
      && (nonEmpty ==> |h.group| > 0)
  {
    var j := Span(t, |key|, NotByte(stop));
    var h := DelimitedMatch(t, key, stop, close, nonEmpty).value;
    assert h.whole == t[..j + |close|] && h.group == t[|key|..j];
    assert t[..j + |close|] == t[..|key|] + t[|key|..j] + t[j..][..|close|];
    forall x | x in h.group ensures x != stop {
      var k :| 0 <= k < |h.group| && h.group[k] == x;
      assert InClass(NotByte(stop), t[|key| + k]);
    }
  }

  /** Conversely, the key, a stop-free run and the closing text are matched
      exactly, whatever follows. */
  lemma DelimitedFinds(key: seq<byte>, stop: byte, close: seq<byte>, nonEmpty: bool, v: seq<byte>, rest: seq<byte>)
    requires |key| > 0 && |close| > 0 && close[0] == stop
    requires stop !in v && (nonEmpty ==> |v| > 0)
    ensures DelimitedMatch(key + v + close + rest, key, stop, close, nonEmpty) == Some(Hit(key + v + close, v))
  {
    var t := key + v + close + rest;
    assert t[..|key|] == key;
    forall k | |key| <= k < |key| + |v| ensures InClass(NotByte(stop), t[k]) {
      assert t[k] == v[k - |key|];
    }
    SpanAt(t, |key|, NotByte(stop), |key| + |v|);
    assert t[|key| + |v|..][..|close|] == close;
    assert t[..|key| + |v| + |close|] == key + v + close;
    assert t[|key|..|key| + |v|] == v;
  }

  /** Closed by its stop byte alone, a delimited match is found as soon as
      a stop byte follows the key, and it is a prefix of the buffer. */
  lemma DelimitedStopped(t: seq<byte>, key: seq<byte>, stop: byte)
    requires |key| > 0 && StartsWith(t, key) && Span(t, |key|, NotByte(stop)) < |t|
    ensures var r := DelimitedMatch(t, key, stop, [stop], false);
      r.Some? && StartsWith(t, r.value.whole)
  {
    var j := Span(t, |key|, NotByte(stop));
    assert t[j..][..1] == [t[j]];
    assert t[..j + 1][..j + 1] == t[..j + 1];
  }

  /** A delimited match fails when the run after the key reaches a stop
      byte that does not open the closing text. */
  lemma DelimitedBlocked(t: seq<byte>, key: seq<byte>, stop: byte, close: seq<byte>, j: nat)
    requires |key| > 0 && |close| > 0
    requires StartsWith(t, key) && |key| <= j < |t|
    requires forall k :: |key| <= k < j ==> t[k] != stop
    requires t[j] == stop && !StartsWith(t[j..], close)
    ensures DelimitedMatch(t, key, stop, close, false).None?
  {
    SpanAt(t, |key|, NotByte(stop), j);
  }

  /** Without its key at the start, a delimited pattern does not match. */
  lemma DelimitedNoKey(t: seq<byte>, key: seq<byte>, stop: byte, close: seq<byte>, nonEmpty: bool)
    requires |key| > 0 && |close| > 0
    requires !StartsWith(t, key)
    ensures DelimitedMatch(t, key, stop, close, nonEmpty).None?
  {
  }

  /** The `+` form rejects the empty value `key close`. */
  lemma DelimitedEmptyRejected(key: seq<byte>, stop: byte, close: seq<byte>, rest: seq<byte>)
    requires |key| > 0 && |close| > 0 && close[0] == stop
    ensures DelimitedMatch(key + close + rest, key, stop, close, true).None?
  {
    var t := key + close + rest;
    assert t[..|key|] == key;
    assert t[|key|] == stop;
    SpanAt(t, |key|, NotByte(stop), |key|);
  }

  /** A delimited match fails when no stop byte follows the key. */
  lemma DelimitedUnclosed(t: seq<byte>, key: seq<byte>, stop: byte, close: seq<byte>, nonEmpty: bool)
    requires |key| > 0 && |close| > 0 && close[0] == stop
    requires StartsWith(t, key) && stop !in t[|key|..]
    ensures DelimitedMatch(t, key, stop, close, nonEmpty).None?
  {
    forall k | |key| <= k < |t| ensures InClass(NotByte(stop), t[k]) {
      assert t[k] == t[|key|..][k - |key|];
    }
    SpanAt(t, |key|, NotByte(stop), |t|);
  }
}
