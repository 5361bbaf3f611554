/** The timezone pass: every PDF date `D:YYYYMMDDHHmmSS` followed by a UTC
    offset `+HH'mm'` or `-HH'mm'` loses the offset and is marked `Z`
    (universal time) instead; the stat records whether such a date was
    there. */
module Timezone {
  import opened Bytes
  import opened Substitute
  import opened Regex
  import opened Clear

  const Zulu := Byte('Z')

  /** `(D:\d{14})([+-]\d{2}'\d{2}')` */
  function DateMatcher(): (m: Matcher)
    ensures WellFormed(m) && LeadsWith(m, Byte('D'))
  {
    Compile(ZonedDate)
  }

  /** The replacement `\1Z`: the date with `Z` for the offset. */
  function KeepDate(h: Hit): seq<byte>
  {
    h.group + [Zulu]
  }

  /** `D:` and fourteen digits. */
  predicate DateStamp(d: seq<byte>)
  {
    |d| == 16 && d[0] == Byte('D') && d[1] == Byte(':') && forall k :: 2 <= k < 16 ==> IsDigit(d[k])
  }

  /** A sign, two digits, `'`, two digits, `'`. */
  predicate Offset(z: seq<byte>)
  {
    && |z| == 7 && (z[0] == Byte('+') || z[0] == Byte('-'))
    && IsDigit(z[1]) && IsDigit(z[2]) && z[3] == Byte('\'')
    && IsDigit(z[4]) && IsDigit(z[5]) && z[6] == Byte('\'')
  }

  /** A date with an offset is written somewhere in `t`. */
  ghost predicate HasZone(t: seq<byte>)
  {
    exists i :: 0 <= i <= |t| && ZonedDateAt(t[i..])
  }

  /** A zoned date at the start of `t` is a date stamp then an offset. */
  lemma ZonedParts(t: seq<byte>)
    requires |t| >= 23
    ensures ZonedDateAt(t) <==> DateStamp(t[..16]) && Offset(t[16..23])
  {
  }

  /** What the matcher reports at the start of `t`: the 23 bytes of the
      date and offset, with the date alone as the group. */
  lemma DateMatch(t: seq<byte>)
    ensures DateMatcher()(t) == if ZonedDateAt(t) then Some(Hit(t[..23], t[..16])) else None
  {
  }

  lemma DateOccurs(t: seq<byte>)
    ensures Occurs(DateMatcher(), t) <==> HasZone(t)
  {
    if HasZone(t) {
      var i :| 0 <= i <= |t| && ZonedDateAt(t[i..]);
      DateMatch(t[i..]);
      OccursAt(DateMatcher(), t, i);
    }
    if Occurs(DateMatcher(), t) {
      var i :| 0 <= i <= |t| && DateMatcher()(t[i..]).Some?;
      DateMatch(t[i..]);
    }
  }

  /** The pass: search, then rewrite every zoned date. The flag is raised
      exactly when a zoned date is present, and otherwise nothing changes. */
  function TimezonePass(t: seq<byte>): (s: Step)
    ensures s.flag <==> HasZone(t)
    ensures !s.flag ==> s.out == t
  {
    DateOccurs(t);
    var flag := Search(DateMatcher(), t);
    if !flag then SubAllNoMatch(DateMatcher(), KeepDate, t); Step(SubAll(DateMatcher(), KeepDate, t), flag)
    else Step(SubAll(DateMatcher(), KeepDate, t), flag)
  }

  /** A zoned date needs 23 bytes and is decided by them. */
  lemma DateWindowed()
    ensures Windowed(DateMatcher(), 23)
  {
    forall u | DateMatcher()(u).Some? ensures |u| >= 23 {
      DateMatch(u);
    }
    forall u, v | |u| >= 23 && |v| >= 23 && u[..23] == v[..23]
      ensures DateMatcher()(u).Some? == DateMatcher()(v).Some?
    {
      DateMatch(u);
      DateMatch(v);
      ZonedParts(u);
      ZonedParts(v);
      assert u[..16] == u[..23][..16] && v[..16] == v[..23][..16];
      assert u[16..23] == u[..23][16..] && v[16..23] == v[..23][16..];
    }
  }

  /** `D` occurs in a zoned date only at its start. */
  lemma ZonedNoLead(t: seq<byte>)
    requires ZonedDateAt(t)
    ensures forall k :: 1 <= k < 23 ==> t[k] != Byte('D')
    ensures Byte('D') !in t[1..16] + [Zulu]
  {
    assert Zulu != Byte('D');
  }

  /** Where `Z` follows the date no offset starts. */
  lemma ZuluBlocks(t: seq<byte>)
    requires |t| > 16 && t[16] == Zulu
    ensures !ZonedDateAt(t)
  {
  }

  lemma DateLeadOnlyFirst()
    ensures LeadOnlyFirst(DateMatcher(), Byte('D'), 23)
  {
    forall u | DateMatcher()(u).Some? ensures forall k :: 1 <= k < 23 && k < |u| ==> u[k] != Byte('D') {
      DateMatch(u);
      ZonedNoLead(u);
    }
  }

  /** The rewritten date keeps the leading `D` and holds no other. */
  lemma KeepDateLead(u: seq<byte>)
    requires DateMatcher()(u).Some?
    ensures |KeepDate(DateMatcher()(u).value)| > 0 && KeepDate(DateMatcher()(u).value)[0] == Byte('D')
    ensures Byte('D') !in KeepDate(DateMatcher()(u).value)[1..]
  {
    DateMatch(u);
    ZonedNoLead(u);
    assert KeepDate(DateMatcher()(u).value)[1..] == u[1..16] + [Zulu];
  }

  /** Nothing matches where a rewritten date starts. */
  lemma KeepDateIdle(u: seq<byte>, w: seq<byte>)
    requires DateMatcher()(u).Some?
    ensures DateMatcher()(KeepDate(DateMatcher()(u).value) + w).None?
  {
    DateMatch(u);
    var s := KeepDate(DateMatcher()(u).value) + w;
    assert s[16] == Zulu;
    ZuluBlocks(s);
    DateMatch(s);
  }

  /** A rewritten date starts with its only `D` and is followed by `Z`,
      where no offset can start. */
  lemma KeepDateFresh()
    ensures FreshReplacement(DateMatcher(), KeepDate, Byte('D'))
  {
    var m := DateMatcher();
    forall u | m(u).Some?
      ensures |KeepDate(m(u).value)| > 0 && KeepDate(m(u).value)[0] == Byte('D')
      ensures Byte('D') !in KeepDate(m(u).value)[1..]
    {
      KeepDateLead(u);
    }
    forall u, w | m(u).Some? ensures m(KeepDate(m(u).value) + w).None? {
      KeepDateIdle(u, w);
    }
  }

  /** After the pass no zoned date is left anywhere in the output. */
  lemma TimezoneClears(t: seq<byte>)
    ensures !HasZone(TimezonePass(t).out)
  {
    DateWindowed();
    DateLeadOnlyFirst();
    KeepDateFresh();
    ClearsAll(DateMatcher(), KeepDate, Byte('D'), 23, t);
    DateOccurs(TimezonePass(t).out);
  }

  /** Running the pass on its own output changes nothing and raises no
      flag. */
  lemma TimezoneIdempotent(t: seq<byte>)
    ensures TimezonePass(TimezonePass(t).out) == Step(TimezonePass(t).out, false)
  {
    TimezoneClears(t);
  }

  /** Each rewrite drops the six-byte offset for one `Z`: the output is six
      bytes shorter per date rewritten, and at least one date is rewritten
      exactly when the flag is raised. */
  lemma TimezoneLength(t: seq<byte>)
    ensures |TimezonePass(t).out| + 6 * Count(DateMatcher(), t) == |t|
    ensures Count(DateMatcher(), t) > 0 <==> TimezonePass(t).flag
  {
    forall u | DateMatcher()(u).Some?
      ensures |KeepDate(DateMatcher()(u).value)| + 6 == |DateMatcher()(u).value.whole|
    {
      DateMatch(u);
    }
    LengthShift(DateMatcher(), KeepDate, 6, t);
    CountOccurs(DateMatcher(), t);
    DateOccurs(t);
  }

  /** The bytes of `x d z y`, with the date and offset after `x`. */
  lemma DateLayout(x: seq<byte>, d: seq<byte>, z: seq<byte>, y: seq<byte>)
    requires DateStamp(d) && Offset(z)
    ensures ZonedDateAt(d + z + y)
    ensures x + (d + z) + y == x + d + z + y
    ensures |x| <= |x + d + z + y| && ZonedDateAt((x + d + z + y)[|x|..])
  {
    var s := d + z + y;
    assert s[..16] == d && s[16..23] == z;
    ZonedParts(s);
    assert (x + d + z + y)[|x|..] == s;
  }

  /** The match at a written date is the date and offset, grouped. */
  lemma DateHit(d: seq<byte>, z: seq<byte>, y: seq<byte>)
    requires ZonedDateAt(d + z + y) && |d| == 16 && |z| == 7
    ensures DateMatcher()(d + z + y) == Some(Hit(d + z, d))
  {
    DateMatch(d + z + y);
    assert (d + z + y)[..23] == d + z;
    assert (d + z + y)[..16] == d;
  }

  /** One dated value between text without `D`: the offset becomes `Z`,
      the bytes around it are kept, and the flag is raised. */
  lemma TimezoneSplice(x: seq<byte>, d: seq<byte>, z: seq<byte>, y: seq<byte>)
    requires Byte('D') !in x && Byte('D') !in y
    requires DateStamp(d) && Offset(z)
    ensures TimezonePass(x + d + z + y) == Step(x + d + [Zulu] + y, true)
  {
    DateLayout(x, d, z, y);
    DateHit(d, z, y);
    SpliceOne(DateMatcher(), KeepDate, Byte('D'), x, d + z, y);
    Reassociate(x, d, [Zulu]);
  }
}
