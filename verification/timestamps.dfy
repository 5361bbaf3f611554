/** The timestamp pass: every `/CreationDate(...)` and then every
    `/ModDate(...)` literal-string value becomes the Unix epoch written as a
    PDF date; the stat records whether a non-empty creation date was there. */
module Timestamps {
  import opened Bytes
  import opened Substitute
  import opened Regex
  import opened Settle
  import opened Fields

  /** `/CreationDate` */
  const CreationName: seq<byte> := [47, 67, 114, 101, 97, 116, 105, 111, 110, 68, 97, 116, 101]

  /** `/ModDate` */
  const ModName: seq<byte> := [47, 77, 111, 100, 68, 97, 116, 101]

  /** `/CreationDate(` */
  const CreationKey: seq<byte> := CreationName + [LParen]

  /** `/ModDate(` */
  const ModKey: seq<byte> := ModName + [LParen]

  /** `D:19700101000000Z`: midnight of 1 January 1970, UTC, as a PDF date. */
  const Epoch: seq<byte> := [68, 58, 49, 57, 55, 48, 48, 49, 48, 49, 48, 48, 48, 48, 48, 48, 90]

  /** `/CreationDate\([^)]*\)`, or `+` for the search. */
  function Creation(nonEmpty: bool): Matcher
  {
    Fields.Literal(CreationName, nonEmpty)
  }

  /** `/ModDate\([^)]*\)` */
  function Mod(): Matcher
  {
    Fields.Literal(ModName, false)
  }

  /** `/CreationDate(D:19700101000000Z)` */
  function CreationStamp(): seq<byte>
  {
    CreationKey + Epoch + [RParen]
  }

  /** `/ModDate(D:19700101000000Z)` */
  function ModStamp(): seq<byte>
  {
    ModKey + Epoch + [RParen]
  }

  /** A non-empty creation date is written in `t`. */
  ghost predicate HasCreationDate(t: seq<byte>)
  {
    Written(t, CreationKey, RParen, [RParen], true)
  }

  /** The pass: search for a non-empty creation date, then stamp every
      creation date, then every modification date. */
  function TimestampsPass(t: seq<byte>): (s: Step)
    ensures s.flag <==> HasCreationDate(t)
  {
    DelimitedOccurs(CreationKey, RParen, [RParen], true, t);
    var u := SubAll(Creation(false), Const(CreationStamp()), t);
    Step(SubAll(Mod(), Const(ModStamp()), u), Search(Creation(true), t))
  }

  /** Both rewrites write a value of the shape their own pattern matches. */
  lemma StampsShaped()
    ensures DelimitedShape(CreationKey, RParen, [RParen], Epoch)
    ensures DelimitedShape(ModKey, RParen, [RParen], Epoch)
  {
    assert Slash !in CreationKey[1..] && Slash !in ModKey[1..];
  }

  /** The bytes the crossing of the two rewrites rests on: `/` leads both
      keys and the stamp and occurs nowhere else, and the stamp parts from
      the creation key at its second byte. */
  lemma StampBytes()
    ensures |CreationKey| >= 2 && CreationKey[0] != RParen && Slash !in CreationKey[1..]
    ensures Slash !in Epoch && RParen !in Epoch
    ensures |ModStamp()| > 0 && ModStamp()[0] == Slash && Slash !in ModStamp()[1..]
    ensures |CreationKey| <= |ModStamp()| && CreationKey != ModStamp()[..|CreationKey|]
  {
    assert ModStamp()[1..] == ModKey[1..] + Epoch + [RParen];
    assert ModStamp()[..|CreationKey|][1] == 77;
  }

  /** The modification-date rewrite next to the creation-date one: the two
      keys part at their second byte, and the rewrite only replaces text
      that already holds a `)`. */
  lemma ModCrossesCreation()
    ensures Crossing(CreationKey, RParen, Epoch, Mod(), ModStamp())
  {
    StampBytes();
    DelimitedPrefixing(ModKey, RParen, [RParen], false);
    DelimitedCarries(ModKey, RParen, [RParen], false);
  }

  /** After the pass every creation date and every modification date left
      is the epoch stamp. */
  lemma TimestampsSettle(t: seq<byte>)
    ensures Settled(Creation(false), CreationStamp(), TimestampsPass(t).out)
    ensures Settled(Mod(), ModStamp(), TimestampsPass(t).out)
  {
    var u := SubAll(Creation(false), Const(CreationStamp()), t);
    StampsShaped();
    DelimitedSettles(CreationKey, RParen, [RParen], Epoch, t);
    ModCrossesCreation();
    CrossSettles(CreationKey, RParen, Epoch, Mod(), ModStamp(), u);
    DelimitedSettles(ModKey, RParen, [RParen], Epoch, u);
  }

  /** Running the pass again leaves its output unchanged. */
  lemma TimestampsIdempotent(t: seq<byte>)
    ensures TimestampsPass(TimestampsPass(t).out).out == TimestampsPass(t).out
  {
    var out := TimestampsPass(t).out;
    TimestampsSettle(t);
    DelimitedPrefixing(CreationKey, RParen, [RParen], false);
    DelimitedPrefixing(ModKey, RParen, [RParen], false);
    SettledIsFixed(Creation(false), CreationStamp(), out);
    SettledIsFixed(Mod(), ModStamp(), out);
  }

  /** Text without `/` holds no date: the pass leaves it and the stat
      alone. */
  lemma TimestampsAbsent(t: seq<byte>)
    requires Slash !in t
    ensures TimestampsPass(t) == Step(t, false)
  {
    NoLeadNoMatch(Creation(false), Slash, t);
    NoLeadNoMatch(Creation(true), Slash, t);
    NoLeadNoMatch(Mod(), Slash, t);
    SubAllNoMatch(Creation(false), Const(CreationStamp()), t);
    SubAllNoMatch(Mod(), Const(ModStamp()), t);
  }

  /** Text holding no creation date and no modification date, empty or
      not, passes through unchanged and unflagged. */
  lemma TimestampsNoMatch(t: seq<byte>)
    requires !Written(t, CreationKey, RParen, [RParen], false)
    requires !Written(t, ModKey, RParen, [RParen], false)
    ensures TimestampsPass(t) == Step(t, false)
  {
    DelimitedOccurs(CreationKey, RParen, [RParen], false, t);
    DelimitedOccurs(CreationKey, RParen, [RParen], true, t);
    DelimitedOccurs(ModKey, RParen, [RParen], false, t);
    SubAllNoMatch(Creation(false), Const(CreationStamp()), t);
    SubAllNoMatch(Mod(), Const(ModStamp()), t);
  }

  /** The creation-date rewrite of `x /CreationDate(v) y` stamps the value. */
  lemma StampSplice(x: seq<byte>, v: seq<byte>, y: seq<byte>)
    requires Slash !in x && Slash !in y && RParen !in v
    ensures SubAll(Creation(false), Const(CreationStamp()), x + CreationName + [LParen] + v + [RParen] + y)
         == x + CreationStamp() + y
  {
    var mid := CreationName + [LParen] + v + [RParen];
    DelimitedFinds(CreationKey, RParen, [RParen], false, v, y);
    assert Creation(false)(mid + y) == Some(Hit(mid, v));
    SpliceOne(Creation(false), Const(CreationStamp()), Slash, x, mid, y);
    Group4(x, CreationName, [LParen], v, [RParen], y);
  }

  /** The modification-date rewrite of `x /ModDate(v) y` stamps the value. */
  lemma ModStampSplice(x: seq<byte>, v: seq<byte>, y: seq<byte>)
    requires Slash !in x && Slash !in y && RParen !in v
    ensures SubAll(Mod(), Const(ModStamp()), x + ModName + [LParen] + v + [RParen] + y)
         == x + ModStamp() + y
  {
    var mid := ModName + [LParen] + v + [RParen];
    DelimitedFinds(ModKey, RParen, [RParen], false, v, y);
    assert Mod()(mid + y) == Some(Hit(mid, v));
    SpliceOne(Mod(), Const(ModStamp()), Slash, x, mid, y);
    Group4(x, ModName, [LParen], v, [RParen], y);
  }

  /** Between bytes without `/`, a text led by the creation key holds no
      modification date, and one led by the modification key no creation
      date. */
  lemma DateKeysApart(x: seq<byte>, s: seq<byte>, y: seq<byte>)
    requires Slash !in x && Slash !in y && |s| >= 2 && s[0] == Slash && Slash !in s[1..]
    ensures s[1] == CreationName[1] ==> !Occurs(Mod(), x + s + y)
    ensures s[1] == ModName[1] ==> !Occurs(Creation(false), x + s + y) && !Occurs(Creation(true), x + s + y)
  {
    var u := x + s + y;
    LoneAt(x, s, y, Slash);
    assert u[|x|..][1] == s[1];
    if s[1] == CreationName[1] {
      SecondByteDiffers(u[|x|..], ModKey, CreationName[1]);
      DelimitedNoKey(u[|x|..], ModKey, RParen, [RParen], false);
      DelimitedOnlyAt(ModKey, RParen, [RParen], false, u, |x|);
    }
    if s[1] == ModName[1] {
      SecondByteDiffers(u[|x|..], CreationKey, ModName[1]);
      DelimitedNoKey(u[|x|..], CreationKey, RParen, [RParen], false);
      DelimitedNoKey(u[|x|..], CreationKey, RParen, [RParen], true);
      DelimitedOnlyAt(CreationKey, RParen, [RParen], false, u, |x|);
      DelimitedOnlyAt(CreationKey, RParen, [RParen], true, u, |x|);
    }
  }

  /** The pass, put together from what its three steps give. */
  lemma PassOf(t: seq<byte>, u: seq<byte>, out: seq<byte>, flag: bool)
    requires SubAll(Creation(false), Const(CreationStamp()), t) == u
    requires SubAll(Mod(), Const(ModStamp()), u) == out
    requires Occurs(Creation(true), t) <==> flag
    ensures TimestampsPass(t) == Step(out, flag)
  {
  }

  /** In `x /CreationDate(v) y` a non-empty creation date occurs exactly
      when `v` is non-empty. */
  lemma SpliceReported(x: seq<byte>, v: seq<byte>, y: seq<byte>)
    requires Slash !in x && Slash !in y && RParen !in v
    ensures Occurs(Creation(true), x + CreationName + [LParen] + v + [RParen] + y) <==> |v| > 0
  {
    var t := x + CreationName + [LParen] + v + [RParen] + y;
    LiteralLayout(CreationName, x, v, y);
    if |v| > 0 {
      assert Written(t, CreationKey, RParen, [RParen], true);
    } else {
      EmptySpliceIdle(CreationName, x, y);
    }
    DelimitedOccurs(CreationKey, RParen, [RParen], true, t);
  }

  /** The creation stamp between text without `/` holds no modification
      date. */
  lemma NoModAfterStamp(x: seq<byte>, y: seq<byte>)
    requires Slash !in x && Slash !in y
    ensures !Occurs(Mod(), x + CreationStamp() + y)
  {
    StampLone();
    DateKeysApart(x, CreationStamp(), y);
  }

  /** The creation stamp holds `/` only at its start. */
  lemma StampLone()
    ensures |CreationStamp()| >= 2 && CreationStamp()[0] == Slash && CreationStamp()[1] == CreationName[1]
    ensures Slash !in CreationStamp()[1..]
  {
    assert CreationStamp()[1..] == CreationName[1..] + [LParen] + Epoch + [RParen];
  }

  /** One creation date between text without `/`: it becomes the epoch
      stamp, the bytes around it are kept, and the stat says whether the
      value was non-empty. */
  lemma TimestampsSplice(x: seq<byte>, v: seq<byte>, y: seq<byte>)
    requires Slash !in x && Slash !in y && RParen !in v
    ensures TimestampsPass(x + CreationName + [LParen] + v + [RParen] + y) == Step(x + CreationStamp() + y, |v| > 0)
  {
    var t := x + CreationName + [LParen] + v + [RParen] + y;
    var u := x + CreationStamp() + y;
    StampSplice(x, v, y);
    NoModAfterStamp(x, y);
    SubAllNoMatch(Mod(), Const(ModStamp()), u);
    SpliceReported(x, v, y);
    PassOf(t, u, u, |v| > 0);
  }

  /** One modification date between text without `/`: it becomes the epoch
      stamp, the bytes around it are kept, and the stat stays down. */
  lemma TimestampsModSplice(x: seq<byte>, v: seq<byte>, y: seq<byte>)
    requires Slash !in x && Slash !in y && Slash !in v && RParen !in v
    ensures TimestampsPass(x + ModName + [LParen] + v + [RParen] + y) == Step(x + ModStamp() + y, false)
  {
    var t := x + ModName + [LParen] + v + [RParen] + y;
    var s := ModName + [LParen] + v + [RParen];
    Group4(x, ModName, [LParen], v, [RParen], y);
    ModKeyBytes(v);
    DateKeysApart(x, s, y);
    SubAllNoMatch(Creation(false), Const(CreationStamp()), t);
    ModStampSplice(x, v, y);
    PassOf(t, t, x + ModStamp() + y, false);
  }

  /** `/ModDate(v)` with `v` free of `/` holds `/` only at its start. */
  lemma ModKeyBytes(v: seq<byte>)
    requires Slash !in v
    ensures var s := ModName + [LParen] + v + [RParen];
      |s| >= 2 && s[0] == Slash && s[1] == ModName[1] && Slash !in s[1..]
  {
    var s := ModName + [LParen] + v + [RParen];
    assert s[1..] == ModName[1..] + [LParen] + v + [RParen];
  }

  /** The spellings the empty-date example needs. */
  lemma EmptyDateBytes()
    ensures [] + CreationName + [LParen] + [] + [RParen] + [] == CreationName + [LParen, RParen]
    ensures [] + CreationName + [LParen] + Epoch + [RParen] + [] == CreationStamp()
    ensures [] + CreationStamp() + [] == CreationStamp()
    ensures RParen !in Epoch && |Epoch| > 0
  {
  }

  /** An empty creation date is stamped without being reported. */
  lemma TimestampsEmptyDate()
    ensures TimestampsPass(CreationName + [LParen, RParen]) == Step(CreationStamp(), false)
  {
    EmptyDateBytes();
    TimestampsSplice([], [], []);
  }

  /** A second run over the stamped output reports a creation date: the
      stat is not a function of the document alone. */
  lemma TimestampsRestamp()
    ensures TimestampsPass(CreationStamp()) == Step(CreationStamp(), true)
  {
    EmptyDateBytes();
    TimestampsSplice([], Epoch, []);
  }
}
