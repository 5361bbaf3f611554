/** The five document-information passes (Author, Creator, Producer, Title,
    Subject): each empties every literal-string value `/Name(...)` and every
    hex-string value `/Name<...>`, and reports whether a non-empty value
    was there. */
module Fields {
  import opened Bytes
  import opened Substitute
  import opened Regex
  import opened Settle

  /** The information entries cleared this way, in pipeline order. */
  datatype Field = Author | Creator | Producer | Title | Subject

  /** The entry's key as written in the document information dictionary. */
  function Name(f: Field): seq<byte>
  {
    match f
    case Author => Ascii("/Author")
    case Creator => Ascii("/Creator")
    case Producer => Ascii("/Producer")
    case Title => Ascii("/Title")
    case Subject => Ascii("/Subject")
  }

  /** A key: `/`, then bytes that are neither `/` nor `)`. */
  predicate KeyShape(k: seq<byte>)
  {
    |k| >= 1 && k[0] == Slash && Slash !in k[1..] && RParen !in k
  }

  lemma NamesShaped(f: Field)
    ensures KeyShape(Name(f))
  {
  }

  /** `/Name\([^)]*\)`, or `+` for the search. */
  function Literal(k: seq<byte>, nonEmpty: bool): Matcher
    requires KeyShape(k)
  {
    DelimitedMatcher(k + [LParen], RParen, [RParen], nonEmpty)
  }

  /** `/Name<[^>]*>`, or `+` for the search. */
  function Hex(k: seq<byte>, nonEmpty: bool): Matcher
    requires KeyShape(k)
  {
    DelimitedMatcher(k + [LAngle], RAngle, [RAngle], nonEmpty)
  }

  /** `/Name()` */
  function EmptyLiteral(k: seq<byte>): seq<byte>
  {
    k + [LParen, RParen]
  }

  /** `/Name<>` */
  function EmptyHex(k: seq<byte>): seq<byte>
  {
    k + [LAngle, RAngle]
  }

  /** A non-empty literal-string or hex-string value of key `k` is written
      in `t`. */
  ghost predicate HasValue(t: seq<byte>, k: seq<byte>)
  {
    Written(t, k + [LParen], RParen, [RParen], true) || Written(t, k + [LAngle], RAngle, [RAngle], true)
  }

  /** No value of key `k`, of either kind, empty or not, is written in
      `t`. */
  ghost predicate Unvalued(t: seq<byte>, k: seq<byte>)
  {
    !Written(t, k + [LParen], RParen, [RParen], false) && !Written(t, k + [LAngle], RAngle, [RAngle], false)
  }

  /** One field pass: search for a non-empty value of either kind, then
      empty every literal-string value, then every hex-string value. The
      flag is raised exactly when a non-empty value was present. */
  function FieldPass(k: seq<byte>, t: seq<byte>): (s: Step)
    requires KeyShape(k)
    ensures s.flag <==> HasValue(t, k)
  {
    DelimitedOccurs(k + [LParen], RParen, [RParen], true, t);
    DelimitedOccurs(k + [LAngle], RAngle, [RAngle], true, t);
    var flag := Search(Literal(k, true), t) || Search(Hex(k, true), t);
    var u := SubAll(Literal(k, false), Const(EmptyLiteral(k)), t);
    Step(SubAll(Hex(k, false), Const(EmptyHex(k)), u), flag)
  }

  /** The literal-string rewrite has the shape that settles. */
  lemma LiteralShaped(k: seq<byte>)
    requires KeyShape(k)
    ensures DelimitedShape(k + [LParen], RParen, [RParen], [])
    ensures k + [LParen] + [] + [RParen] == EmptyLiteral(k)
  {
    assert (k + [LParen])[1..] == k[1..] + [LParen];
  }

  /** The hex-string rewrite has the shape that settles. */
  lemma HexShaped(k: seq<byte>)
    requires KeyShape(k)
    ensures DelimitedShape(k + [LAngle], RAngle, [RAngle], [])
    ensures k + [LAngle] + [] + [RAngle] == EmptyHex(k)
  {
    assert (k + [LAngle])[1..] == k[1..] + [LAngle];
  }

  /** The bytes of the literal-string key and of the emptied hex string:
      the key's slash opens both and occurs nowhere else, they part at the
      byte after the name, and the hex string holds no `)`. */
  lemma HexLiteralBytes(k: seq<byte>)
    requires KeyShape(k)
    ensures var kA, rB := k + [LParen], EmptyHex(k);
      && |kA| >= 2 && kA[0] != RParen && kA[0] !in kA[1..]
      && |rB| > 0 && rB[0] == kA[0] && kA[0] !in rB[1..]
      && |kA| <= |rB| && kA != rB[..|kA|] && RParen !in rB
  {
    assert (k + [LParen])[1..] == k[1..] + [LParen];
    assert EmptyHex(k)[1..] == k[1..] + [LAngle, RAngle];
    assert EmptyHex(k)[..|k + [LParen]|] == k + [LAngle];
    assert (k + [LParen])[|k|] != (k + [LAngle])[|k|];
  }

  /** The hex-string rewrite, run after the literal-string one, crosses it
      without disturbing it. */
  lemma HexCrossesLiteral(k: seq<byte>)
    requires KeyShape(k)
    ensures Crossing(k + [LParen], RParen, [], Hex(k, false), EmptyHex(k))
  {
    DelimitedPrefixing(k + [LAngle], RAngle, [RAngle], false);
    HexLiteralBytes(k);
  }

  /** The literal-string rewrite leaves only `/Name()` matches. */
  lemma LiteralSettles(k: seq<byte>, t: seq<byte>)
    requires KeyShape(k)
    ensures Settled(Literal(k, false), EmptyLiteral(k), SubAll(Literal(k, false), Const(EmptyLiteral(k)), t))
  {
    LiteralShaped(k);
    DelimitedSettles(k + [LParen], RParen, [RParen], [], t);
  }

  /** The hex-string rewrite leaves only `/Name<>` matches. */
  lemma HexSettles(k: seq<byte>, u: seq<byte>)
    requires KeyShape(k)
    ensures Settled(Hex(k, false), EmptyHex(k), SubAll(Hex(k, false), Const(EmptyHex(k)), u))
  {
    HexShaped(k);
    DelimitedSettles(k + [LAngle], RAngle, [RAngle], [], u);
  }

  /** The hex-string rewrite keeps the literal-string values emptied. */
  lemma HexKeepsLiteral(k: seq<byte>, u: seq<byte>)
    requires KeyShape(k)
    requires Settled(Literal(k, false), EmptyLiteral(k), u)
    ensures Settled(Literal(k, false), EmptyLiteral(k), SubAll(Hex(k, false), Const(EmptyHex(k)), u))
  {
    LiteralShaped(k);
    HexCrossesLiteral(k);
    CrossSettles(k + [LParen], RParen, [], Hex(k, false), EmptyHex(k), u);
  }

  /** A buffer whose values are all emptied holds no non-empty value. */
  lemma SettledNoValue(k: seq<byte>, out: seq<byte>)
    requires KeyShape(k)
    requires Settled(Literal(k, false), EmptyLiteral(k), out)
    requires Settled(Hex(k, false), EmptyHex(k), out)
    ensures !HasValue(out, k)
  {
    assert EmptyLiteral(k) == k + [LParen] + [RParen];
    assert EmptyHex(k) == k + [LAngle] + [RAngle];
    SettledEmptyNoValue(k + [LParen], RParen, [RParen], out);
    SettledEmptyNoValue(k + [LAngle], RAngle, [RAngle], out);
    DelimitedOccurs(k + [LParen], RParen, [RParen], true, out);
    DelimitedOccurs(k + [LAngle], RAngle, [RAngle], true, out);
  }

  /** After the pass, every literal-string value of the key is `()` and
      every hex-string value is `<>`: whatever match is left in the output
      is the emptied value itself. */
  lemma FieldPassClears(k: seq<byte>, t: seq<byte>)
    requires KeyShape(k)
    ensures Settled(Literal(k, false), EmptyLiteral(k), FieldPass(k, t).out)
    ensures Settled(Hex(k, false), EmptyHex(k), FieldPass(k, t).out)
    ensures !HasValue(FieldPass(k, t).out, k)
  {
    var u := SubAll(Literal(k, false), Const(EmptyLiteral(k)), t);
    LiteralSettles(k, t);
    HexKeepsLiteral(k, u);
    HexSettles(k, u);
    SettledNoValue(k, FieldPass(k, t).out);
  }

  /** Running a field pass on its own output changes no byte and raises no
      flag. */
  lemma FieldPassIdempotent(k: seq<byte>, t: seq<byte>)
    requires KeyShape(k)
    ensures FieldPass(k, FieldPass(k, t).out) == Step(FieldPass(k, t).out, false)
  {
    var out := FieldPass(k, t).out;
    FieldPassClears(k, t);
    DelimitedPrefixing(k + [LParen], RParen, [RParen], false);
    DelimitedPrefixing(k + [LAngle], RAngle, [RAngle], false);
    SettledIsFixed(Literal(k, false), EmptyLiteral(k), out);
    SettledIsFixed(Hex(k, false), EmptyHex(k), out);
  }

  /** A buffer without any value of the key, empty or not, passes through
      unchanged and unflagged. */
  lemma FieldPassNoMatch(k: seq<byte>, t: seq<byte>)
    requires KeyShape(k) && Unvalued(t, k)
    ensures FieldPass(k, t) == Step(t, false)
  {
    DelimitedOccurs(k + [LParen], RParen, [RParen], false, t);
    DelimitedOccurs(k + [LAngle], RAngle, [RAngle], false, t);
    DelimitedOccurs(k + [LParen], RParen, [RParen], true, t);
    DelimitedOccurs(k + [LAngle], RAngle, [RAngle], true, t);
    SubAllNoMatch(Literal(k, false), Const(EmptyLiteral(k)), t);
    SubAllNoMatch(Hex(k, false), Const(EmptyHex(k)), t);
  }

  /** The bytes of `x k ( v ) y` with `/` only at the start of the key. */
  lemma SpliceLayout(k: seq<byte>, x: seq<byte>, mid: seq<byte>, y: seq<byte>)
    requires KeyShape(k) && Slash !in x && Slash !in mid && Slash !in y
    ensures forall i :: 0 <= i < |x + k + mid + y| && i != |x| ==> (x + k + mid + y)[i] != Slash
    ensures (x + k + mid + y)[..|x|] == x && (x + k + mid + y)[|x|..] == k + mid + y
  {
    var t := x + k + mid + y;
    forall i | 0 <= i < |t| && i != |x| ensures t[i] != Slash {
      if i < |x| {
        assert t[i] == x[i];
      } else if i < |x| + |k| {
        assert t[i] == k[1..][i - |x| - 1];
      } else if i < |x| + |k| + |mid| {
        assert t[i] == mid[i - |x| - |k|];
      } else {
        assert t[i] == y[i - |x| - |k| - |mid|];
      }
    }
  }

  /** The literal-string rewrite of `x k ( v ) y` empties the value. */
  lemma LiteralSplice(k: seq<byte>, x: seq<byte>, v: seq<byte>, y: seq<byte>)
    requires KeyShape(k) && Slash !in x && Slash !in y && RParen !in v
    ensures SubAll(Literal(k, false), Const(EmptyLiteral(k)), x + k + [LParen] + v + [RParen] + y)
         == x + EmptyLiteral(k) + y
  {
    var mid := k + [LParen] + v + [RParen];
    DelimitedFinds(k + [LParen], RParen, [RParen], false, v, y);
    assert Literal(k, false)(mid + y) == Some(Hit(mid, v));
    SpliceOne(Literal(k, false), Const(EmptyLiteral(k)), Slash, x, mid, y);
    Group4(x, k, [LParen], v, [RParen], y);
  }

  /** The bytes of `x /Name() y`: `/` only where the key starts, and the
      literal-string opener right after the key. */
  lemma EmptyLayout(k: seq<byte>, x: seq<byte>, y: seq<byte>)
    requires KeyShape(k) && Slash !in x && Slash !in y
    ensures var u := x + EmptyLiteral(k) + y;
      && |x| <= |u|
      && (forall i :: 0 <= i < |u| && i != |x| ==> u[i] != Slash)
      && u[|x|..] == (k + [LParen]) + [RParen] + y
      && !StartsWith(u[|x|..], k + [LAngle])
  {
    var u := x + EmptyLiteral(k) + y;
    SpliceLayout(k, x, [LParen, RParen], y);
    assert u == x + k + [LParen, RParen] + y;
    assert u[|x|..][|k|] == LParen;
  }

  /** `x /Name() y` holds no hex-string value of the key, nor a non-empty
      literal-string one. */
  lemma EmptySpliceIdle(k: seq<byte>, x: seq<byte>, y: seq<byte>)
    requires KeyShape(k) && Slash !in x && Slash !in y
    ensures !Occurs(Hex(k, false), x + EmptyLiteral(k) + y)
    ensures !Occurs(Hex(k, true), x + EmptyLiteral(k) + y)
    ensures !Occurs(Literal(k, true), x + EmptyLiteral(k) + y)
  {
    var u := x + EmptyLiteral(k) + y;
    EmptyLayout(k, x, y);
    DelimitedNoKey(u[|x|..], k + [LAngle], RAngle, [RAngle], false);
    DelimitedNoKey(u[|x|..], k + [LAngle], RAngle, [RAngle], true);
    DelimitedEmptyRejected(k + [LParen], RParen, [RParen], y);
    DelimitedOnlyAt(k + [LAngle], RAngle, [RAngle], false, u, |x|);
    DelimitedOnlyAt(k + [LAngle], RAngle, [RAngle], true, u, |x|);
    DelimitedOnlyAt(k + [LParen], RParen, [RParen], true, u, |x|);
  }

  /** The bytes of `x /Name(v) y`: the value starts right after `/Name(`,
      and with an empty value the buffer is already `x /Name() y`. */
  lemma LiteralLayout(k: seq<byte>, x: seq<byte>, v: seq<byte>, y: seq<byte>)
    ensures var t := x + k + [LParen] + v + [RParen] + y;
      && |x| <= |t|
      && StartsWith(t[|x|..], (k + [LParen]) + v + [RParen])
      && (|v| == 0 ==> t == x + EmptyLiteral(k) + y)
  {
    var t := x + k + [LParen] + v + [RParen] + y;
    Group4(x, k, [LParen], v, [RParen], y);
    assert t[|x|..] == (k + [LParen]) + v + [RParen] + y;
  }

  /** One literal-string value between key-free text: the value is emptied,
      the bytes around it are kept, and the flag says whether the value was
      non-empty. */
  lemma FieldPassSplice(k: seq<byte>, x: seq<byte>, v: seq<byte>, y: seq<byte>)
    requires KeyShape(k) && Slash !in x && Slash !in y && RParen !in v
    ensures FieldPass(k, x + k + [LParen] + v + [RParen] + y) == Step(x + EmptyLiteral(k) + y, |v| > 0)
  {
    var t := x + k + [LParen] + v + [RParen] + y;
    var u := x + EmptyLiteral(k) + y;
    LiteralSplice(k, x, v, y);
    EmptySpliceIdle(k, x, y);
    SubAllNoMatch(Hex(k, false), Const(EmptyHex(k)), u);
    LiteralLayout(k, x, v, y);
    if |v| > 0 {
      assert Written(t, k + [LParen], RParen, [RParen], true);
    } else {
      DelimitedOccurs(k + [LParen], RParen, [RParen], true, u);
      DelimitedOccurs(k + [LAngle], RAngle, [RAngle], true, u);
    }
  }

  /** The hex-string rewrite of `x k < v > y` empties the value. */
  lemma HexSplice(k: seq<byte>, x: seq<byte>, v: seq<byte>, y: seq<byte>)
    requires KeyShape(k) && Slash !in x && Slash !in y && RAngle !in v
    ensures SubAll(Hex(k, false), Const(EmptyHex(k)), x + k + [LAngle] + v + [RAngle] + y)
         == x + EmptyHex(k) + y
  {
    var mid := k + [LAngle] + v + [RAngle];
    DelimitedFinds(k + [LAngle], RAngle, [RAngle], false, v, y);
    assert Hex(k, false)(mid + y) == Some(Hit(mid, v));
    SpliceOne(Hex(k, false), Const(EmptyHex(k)), Slash, x, mid, y);
    Group4(x, k, [LAngle], v, [RAngle], y);
  }

  /** The bytes of `x /Name<v> y`: `/` only where the key starts, the
      hex-string opener right after the key, and with an empty value the
      buffer is already `x /Name<> y`. */
  lemma HexLayout(k: seq<byte>, x: seq<byte>, v: seq<byte>, y: seq<byte>)
    requires KeyShape(k) && Slash !in x && Slash !in v && Slash !in y
    ensures var t := x + k + [LAngle] + v + [RAngle] + y;
      && |x| <= |t|
      && (forall i :: 0 <= i < |t| && i != |x| ==> t[i] != Slash)
      && t[|x|..] == (k + [LAngle]) + v + [RAngle] + y
      && !StartsWith(t[|x|..], k + [LParen])
      && (|v| == 0 ==> t == x + EmptyHex(k) + y)
  {
    var t := x + k + [LAngle] + v + [RAngle] + y;
    var mid := [LAngle] + v + [RAngle];
    SpliceLayout(k, x, mid, y);
    assert t == x + k + mid + y;
    assert t[|x|..][|k|] == LAngle;
  }

  /** One hex-string value, free of `/`, between key-free text: the value
      is emptied, the bytes around it are kept, and the flag says whether
      the value was non-empty. */
  lemma FieldPassHexSplice(k: seq<byte>, x: seq<byte>, v: seq<byte>, y: seq<byte>)
    requires KeyShape(k) && Slash !in x && Slash !in y && Slash !in v && RAngle !in v
    ensures FieldPass(k, x + k + [LAngle] + v + [RAngle] + y) == Step(x + EmptyHex(k) + y, |v| > 0)
  {
    var t := x + k + [LAngle] + v + [RAngle] + y;
    HexLayout(k, x, v, y);
    DelimitedNoKey(t[|x|..], k + [LParen], RParen, [RParen], false);
    DelimitedNoKey(t[|x|..], k + [LParen], RParen, [RParen], true);
    DelimitedOnlyAt(k + [LParen], RParen, [RParen], false, t, |x|);
    DelimitedOnlyAt(k + [LParen], RParen, [RParen], true, t, |x|);
    SubAllNoMatch(Literal(k, false), Const(EmptyLiteral(k)), t);
    HexSplice(k, x, v, y);
    DelimitedOccurs(k + [LParen], RParen, [RParen], true, t);
    if |v| > 0 {
      assert StartsWith(t[|x|..], (k + [LAngle]) + v + [RAngle]);
      assert Written(t, k + [LAngle], RAngle, [RAngle], true);
    } else {
      DelimitedEmptyRejected(k + [LAngle], RAngle, [RAngle], y);
      DelimitedOnlyAt(k + [LAngle], RAngle, [RAngle], true, t, |x|);
      DelimitedOccurs(k + [LAngle], RAngle, [RAngle], true, t);
    }
  }
}
