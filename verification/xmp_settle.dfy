/** The XMP pass as a whole is done for good. Every match of a rule starts
    at the rule's own opening tag, every replacement keeps that tag, and no
    replacement holds another rule's opening or closing tag. So a later
    rewrite never creates a match for an earlier one, after the nine
    rewrites every element any of them matches is that rewrite's
    replacement, and a second pass changes nothing. */
module XmpSettle {
  import opened Bytes
  import opened Substitute
  import opened Regex
  import opened Settle
  import opened Xmp

  /** Neither `<n>` nor `</n>` starts inside `x`, whatever `w` follows. */
  ghost predicate Silent(x: seq<byte>, w: seq<byte>, n: seq<byte>)
  {
    forall i :: 0 <= i < |x| ==> !StartsWith((x + w)[i..], Open(n)) && !StartsWith((x + w)[i..], Close(n))
  }

  /** `</n>` starts nowhere in `t`, its end included. */
  ghost predicate Unclosed(t: seq<byte>, n: seq<byte>)
  {
    forall k :: 0 <= k <= |t| ==> !StartsWith(t[k..], Close(n))
  }

  /** The first bytes of the two tags: `<` and the name's first byte, or
      `<`, `/` and the name's first byte. */
  lemma TagBytes(u: seq<byte>, n: seq<byte>)
    requires |n| > 0
    ensures StartsWith(u, Open(n)) ==> |u| > 1 && u[0] == LAngle && u[1] == n[0]
    ensures StartsWith(u, Close(n)) ==> |u| > 2 && u[0] == LAngle && u[1] == Slash && u[2] == n[0]
  {
    if StartsWith(u, Open(n)) {
      assert u[0] == u[..|Open(n)|][0] && u[1] == u[..|Open(n)|][1];
    }
    if StartsWith(u, Close(n)) {
      assert u[0] == u[..|Close(n)|][0] && u[1] == u[..|Close(n)|][1] && u[2] == u[..|Close(n)|][2];
    }
  }

  /** Two different names cannot both close at one place. */
  lemma ClosesApart(u: seq<byte>, n: seq<byte>, m: seq<byte>)
    requires NameOk(n) && NameOk(m) && n != m
    requires StartsWith(u, Close(n))
    ensures !StartsWith(u, Close(m))
  {
    assert u[..|Close(n)|] == Close(n);
    if |m| == |n| {
      var i :| 0 <= i < |m| && m[i] != n[i];
      assert u[i + 2] == n[i] && Close(m)[i + 2] == m[i];
    } else if |m| < |n| {
      assert u[|m| + 2] == n[|m|] && Close(m)[|m| + 2] == RAngle;
    } else {
      assert u[|n| + 2] == RAngle && Close(m)[|n| + 2] == m[|n|];
    }
  }

  /** Text free of `<` holds no tag. */
  lemma SilentFree(x: seq<byte>, w: seq<byte>, n: seq<byte>)
    requires LAngle !in x && |n| > 0
    ensures Silent(x, w, n)
  {
    forall i | 0 <= i < |x|
      ensures !StartsWith((x + w)[i..], Open(n)) && !StartsWith((x + w)[i..], Close(n))
    {
      TagBytes((x + w)[i..], n);
      assert (x + w)[i..][0] == x[i];
    }
  }

  /** Container text holds no tag of a rewritten name: its `<` are
      followed by `r` or by `/r`. */
  lemma SilentContainers(x: seq<byte>, w: seq<byte>, n: seq<byte>)
    requires Containers(x) && NameOk(n)
    ensures Silent(x, w, n)
  {
    forall i | 0 <= i < |x|
      ensures !StartsWith((x + w)[i..], Open(n)) && !StartsWith((x + w)[i..], Close(n))
    {
      var u := (x + w)[i..];
      TagBytes(u, n);
      assert u[0] == x[i];
      if x[i] == LAngle {
        assert u[1] == x[i + 1];
        if x[i + 1] != RdfLead {
          assert u[2] == x[i + 2];
        }
      }
    }
  }

  /** Another name's opening tag holds no tag of `n`. */
  lemma SilentOpen(b: seq<byte>, w: seq<byte>, n: seq<byte>)
    requires NameOk(b) && NameOk(n) && b != n
    ensures Silent(Open(b), w, n)
  {
    var x := Open(b);
    forall i | 0 <= i < |x|
      ensures !StartsWith((x + w)[i..], Open(n)) && !StartsWith((x + w)[i..], Close(n))
    {
      var u := (x + w)[i..];
      TagBytes(u, n);
      if i == 0 {
        assert u == x + w && u[1] == b[0];
        if StartsWith(u, Open(b)) {
          OpensApart(u, b, n);
        }
      } else {
        assert u[0] == (b + [RAngle])[i - 1];
      }
    }
  }

  /** Another name's closing tag holds no tag of `n`. */
  lemma SilentClose(b: seq<byte>, w: seq<byte>, n: seq<byte>)
    requires NameOk(b) && NameOk(n) && b != n
    ensures Silent(Close(b), w, n)
  {
    var x := Close(b);
    forall i | 0 <= i < |x|
      ensures !StartsWith((x + w)[i..], Open(n)) && !StartsWith((x + w)[i..], Close(n))
    {
      var u := (x + w)[i..];
      TagBytes(u, n);
      if i == 0 {
        assert u == x + w && u[1] == Slash;
        if StartsWith(u, Close(b)) {
          ClosesApart(u, b, n);
        }
      } else {
        assert u[0] == ([Slash] + b + [RAngle])[i - 1];
      }
    }
  }

  /** Silent pieces make silent text. */
  lemma SilentJoin(x: seq<byte>, y: seq<byte>, w: seq<byte>, n: seq<byte>)
    requires Silent(x, y + w, n) && Silent(y, w, n)
    ensures Silent(x + y, w, n)
  {
    Reassociate(x, y, w);
    forall i | 0 <= i < |x + y|
      ensures !StartsWith((x + y + w)[i..], Open(n)) && !StartsWith((x + y + w)[i..], Close(n))
    {
      if i < |x| {
        assert (x + y + w)[i..] == (x + (y + w))[i..];
      } else {
        assert (x + y + w)[i..] == (y + w)[i - |x|..];
      }
    }
  }

  /** A proper rule's replacement holds no tag of another name. */
  lemma SilentElement(r: Rule, w: seq<byte>, n: seq<byte>)
    requires RuleOk(r) && NameOk(n) && r.name != n
    ensures Silent(r.Replacement(), w, n)
  {
    var c := r.content;
    if r.lazy {
      SilentContainers(c, Close(r.name) + w, n);
    } else {
      SilentFree(c, Close(r.name) + w, n);
    }
    SilentClose(r.name, w, n);
    SilentJoin(c, Close(r.name), w, n);
    SilentOpen(r.name, c + Close(r.name) + w, n);
    Reassociate(c, Close(r.name), w);
    SilentJoin(Open(r.name), c + Close(r.name), w, n);
    Reassociate(Open(r.name), c, Close(r.name));
  }

  /** Where neither of its tags starts, a rule does not match. */
  lemma SilentUnmatched(r: Rule, x: seq<byte>, w: seq<byte>, i: nat)
    requires Silent(x, w, r.name) && i < |x|
    ensures RuleMatcher(r)((x + w)[i..]).None?
  {
    RuleKeyed(r, (x + w)[i..]);
  }

  /** Another rule's replacement, in front of a buffer settled for `a`,
      leaves it settled: no match of `a` starts inside it. */
  lemma PrependSettled(a: Rule, b: Rule, w: seq<byte>)
    requires RuleOk(a) && RuleOk(b) && a.name != b.name
    requires Settled(RuleMatcher(a), a.Replacement(), w)
    ensures Settled(RuleMatcher(a), a.Replacement(), b.Replacement() + w)
  {
    var rB := b.Replacement();
    SilentElement(b, w, a.name);
    forall i | 0 <= i < |rB| ensures RuleMatcher(a)((rB + w)[i..]).None? {
      SilentUnmatched(a, rB, w, i);
    }
    SettledConcat(RuleMatcher(a), a.Replacement(), rB, w);
  }

  /** Another rule's rewrite copies a replacement of `a` that starts the
      buffer, and `a` still matches it there. */
  lemma HeadReplaced(a: Rule, b: Rule, u: seq<byte>)
    requires RuleOk(a) && RuleOk(b) && a.name != b.name
    requires StartsWith(u, a.Replacement())
    ensures Apply(b, u) == a.Replacement() + Apply(b, u[|a.Replacement()|..])
    ensures RuleMatcher(a)(Apply(b, u)) == Some(Hit(a.Replacement(), a.content))
  {
    var rA := a.Replacement();
    var mB := RuleMatcher(b);
    var rest := u[|rA|..];
    assert u == rA + rest;
    SilentElement(a, rest, b.name);
    forall i | 0 <= i < |rA| ensures mB(u[i..]).None? {
      SilentUnmatched(b, rA, rest, i);
    }
    GapSkip(mB, Const(b.Replacement()), u, |rA|);
    RuleFinds(a, a.content, Apply(b, rest));
  }

  /** A rule's matcher is the lazy or the delimited match of its tags. */
  lemma RuleMatch(r: Rule, x: seq<byte>)
    ensures RuleMatcher(r)(x) == if r.lazy then LazyMatch(x, Open(r.name), Close(r.name))
                                 else DelimitedMatch(x, Open(r.name), LAngle, Close(r.name), false)
  {
  }

  /** Neither tag of `n` starts inside `x`, whatever follows it. */
  ghost predicate FreeOfTags(x: seq<byte>, n: seq<byte>)
  {
    forall w :: Silent(x, w, n)
  }

  /** A proper rule's replacement holds no tag of any other name. */
  lemma ElementFreeOfTags(r: Rule, n: seq<byte>)
    requires RuleOk(r) && NameOk(n) && r.name != n
    ensures FreeOfTags(r.Replacement(), n)
  {
    forall w ensures Silent(r.Replacement(), w, n) {
      SilentElement(r, w, n);
    }
  }

  /** Where `</n>` does not start a buffer that starts with `<`, a rewrite
      to text free of `n`'s tags starts it with `<` and not with `</n>`. */
  lemma CloseNotMade(m: Matcher, r: seq<byte>, n: seq<byte>, t: seq<byte>)
    requires WellFormed(m) && |r| > 0 && r[0] == LAngle && FreeOfTags(r, n) && NameOk(n)
    requires |t| > 0 && t[0] == LAngle && !StartsWith(t, Close(n))
    ensures var s := SubAll(m, Const(r), t); |s| > 0 && s[0] == LAngle && !StartsWith(s, Close(n))
  {
    var f := Const(r);
    var s := SubAll(m, f, t);
    ConstKeepsLead(m, r, LAngle);
    match m(t)
    case Some(h) =>
      var z := SubAll(m, f, t[|h.whole|..]);
      assert s == r + z;
      assert Silent(r, z, n);
      assert (r + z)[0..] == s;
    case None =>
      assert s == [t[0]] + SubAll(m, f, t[1..]);
      if StartsWith(s, Close(n)) {
        UnmatchedHead(m, f, LAngle, t, Close(n));
      }
  }

  /** A rewrite to text free of `n`'s tags does not create a `</n>`. */
  lemma {:induction false} UnclosedStays(m: Matcher, r: seq<byte>, n: seq<byte>, w: seq<byte>)
    requires WellFormed(m) && |r| > 0 && r[0] == LAngle && FreeOfTags(r, n) && NameOk(n)
    requires Unclosed(w, n)
    ensures Unclosed(SubAll(m, Const(r), w), n)
    decreases |w|
  {
    var f := Const(r);
    var z := SubAll(m, f, w);
    if |w| == 0 {
      assert z == [];
    } else {
      match m(w)
      case Some(h) =>
        var rest := w[|h.whole|..];
        forall k | 0 <= k <= |rest| ensures !StartsWith(rest[k..], Close(n)) {
          assert rest[k..] == w[|h.whole| + k..];
        }
        UnclosedStays(m, r, n, rest);
        var z1 := SubAll(m, f, rest);
        assert z == r + z1;
        assert Silent(r, z1, n);
        forall k | 0 <= k <= |z| ensures !StartsWith(z[k..], Close(n)) {
          if k >= |r| {
            assert z[k..] == z1[k - |r|..];
          }
        }
      case None =>
        var rest := w[1..];
        forall k | 0 <= k <= |rest| ensures !StartsWith(rest[k..], Close(n)) {
          assert rest[k..] == w[1 + k..];
        }
        UnclosedStays(m, r, n, rest);
        var z1 := SubAll(m, f, rest);
        assert z == [w[0]] + z1;
        forall k | 0 <= k <= |z| ensures !StartsWith(z[k..], Close(n)) {
          if k == 0 {
            assert w[0..] == w;
            ConstKeepsLead(m, r, LAngle);
            if StartsWith(z, Close(n)) {
              UnmatchedHead(m, f, LAngle, w, Close(n));
            }
          } else {
            assert z[k..] == z1[k - 1..];
          }
        }
    }
  }

  /** A lazy element left open stays open: with no `</n>` after `<n>`, a
      rewrite of what follows to text free of `n`'s tags does not write one. */
  lemma LazyOpenStays(n: seq<byte>, m: Matcher, r: seq<byte>, u: seq<byte>)
    requires WellFormed(m) && |r| > 0 && r[0] == LAngle && FreeOfTags(r, n) && NameOk(n)
    requires StartsWith(u, Open(n)) && LazyMatch(u, Open(n), Close(n)).None?
    ensures LazyMatch(Open(n) + SubAll(m, Const(r), u[|Open(n)|..]), Open(n), Close(n)).None?
  {
    var open, close := Open(n), Close(n);
    var w := u[|open|..];
    forall k | 0 <= k <= |w| ensures !StartsWith(w[k..], close) {
      assert w[k..] == u[|open| + k..];
    }
    UnclosedStays(m, r, n, w);
    var z := SubAll(m, Const(r), w);
    var out := open + z;
    forall k | |open| <= k <= |out| ensures !StartsWith(out[k..], close) {
      assert out[k..] == z[k - |open|..];
    }
  }

  /** A simple element left unmatched stays unmatched: the text up to the
      next `<` is copied, and a rewrite to text free of `n`'s tags puts no
      `</n>` there. */
  lemma DelimitedOpenStays(n: seq<byte>, m: Matcher, r: seq<byte>, u: seq<byte>)
    requires WellFormed(m) && LeadsWith(m, LAngle) && |r| > 0 && r[0] == LAngle && FreeOfTags(r, n) && NameOk(n)
    requires StartsWith(u, Open(n)) && DelimitedMatch(u, Open(n), LAngle, Close(n), false).None?
    ensures DelimitedMatch(Open(n) + SubAll(m, Const(r), u[|Open(n)|..]), Open(n), LAngle, Close(n), false).None?
  {
    var open, close := Open(n), Close(n);
    var f := Const(r);
    var j := Span(u, |open|, NotByte(LAngle));
    SkipToLead(m, f, LAngle, u, |open|, j);
    var out := open + SubAll(m, f, u[|open|..]);
    if j == |u| {
      assert u[j..] == [] && SubAll(m, f, u[j..]) == [];
      assert out == u;
    } else {
      var s := SubAll(m, f, u[j..]);
      assert u[j..][0] == u[j] == LAngle;
      CloseNotMade(m, r, n, u[j..]);
      Reassociate(open, u[|open|..j], s);
      assert out[j..] == s;
      forall k | |open| <= k < j ensures out[k] != LAngle {
        assert out[k] == u[k];
      }
      DelimitedBlocked(out, open, LAngle, close, j);
    }
  }

  /** An element of `a` left unmatched stays unmatched under another
      rule's rewrite of what follows its opening tag. */
  lemma OpenStays(a: Rule, b: Rule, u: seq<byte>)
    requires RuleOk(a) && RuleOk(b) && a.name != b.name
    requires StartsWith(u, Open(a.name)) && RuleMatcher(a)(u).None?
    ensures RuleMatcher(a)(Open(a.name) + Apply(b, u[|Open(a.name)|..])).None?
  {
    var mB, rB := RuleMatcher(b), b.Replacement();
    ElementFreeOfTags(b, a.name);
    RuleMatch(a, u);
    RuleMatch(a, Open(a.name) + Apply(b, u[|Open(a.name)|..]));
    if a.lazy {
      LazyOpenStays(a.name, mB, rB, u);
    } else {
      DelimitedOpenStays(a.name, mB, rB, u);
    }
  }

  /** Where another rule does not match, the rewritten buffer holds, at its
      start, no match of `a` or `a`'s replacement, if the buffer did. */
  lemma HeadSettled(a: Rule, b: Rule, u: seq<byte>)
    requires RuleOk(a) && RuleOk(b) && a.name != b.name
    requires RuleMatcher(b)(u).None?
    requires RuleMatcher(a)(u).None? || RuleMatcher(a)(u).value.whole == a.Replacement()
    ensures RuleMatcher(a)(Apply(b, u)).None? || RuleMatcher(a)(Apply(b, u)).value.whole == a.Replacement()
  {
    var open := Open(a.name);
    RuleKeyed(a, Apply(b, u));
    if StartsWith(Apply(b, u), open) {
      OpenLead(a.name);
      HeadCopied(RuleMatcher(b), b.Replacement(), u, open);
      if RuleMatcher(a)(u).Some? {
        CompilePrefix(a.Pattern(), u);
        HeadReplaced(a, b, u);
      } else {
        OpenStays(a, b, u);
      }
    }
  }

  /** An opening tag holds `<` at its start only. */
  lemma OpenLead(n: seq<byte>)
    requires NameOk(n)
    ensures LAngle !in Open(n)[1..]
  {
    assert Open(n)[1..] == n + [RAngle];
  }

  /** Where a rewrite to text led by `<` does not match, an output opening
      with a tag came from an input opening with it, copied. */
  lemma HeadCopied(m: Matcher, r: seq<byte>, u: seq<byte>, open: seq<byte>)
    requires WellFormed(m) && |r| > 0 && r[0] == LAngle && m(u).None?
    requires |open| > 0 && LAngle !in open[1..] && StartsWith(SubAll(m, Const(r), u), open)
    ensures StartsWith(u, open) && SubAll(m, Const(r), u) == open + SubAll(m, Const(r), u[|open|..])
  {
    ConstKeepsLead(m, r, LAngle);
    UnmatchedHead(m, Const(r), LAngle, u, open);
  }

  /** Another rule's rewrite keeps a buffer settled for `a`. */
  lemma {:induction false} CrossRule(a: Rule, b: Rule, u: seq<byte>)
    requires RuleOk(a) && RuleOk(b) && a.name != b.name
    requires Settled(RuleMatcher(a), a.Replacement(), u)
    ensures Settled(RuleMatcher(a), a.Replacement(), Apply(b, u))
    decreases |u|
  {
    var mA, rA := RuleMatcher(a), a.Replacement();
    var mB := RuleMatcher(b);
    if |u| == 0 {
      assert Apply(b, u) == [];
    } else {
      match mB(u)
      case Some(h) =>
        SettledSuffix(mA, rA, u, |h.whole|);
        CrossRule(a, b, u[|h.whole|..]);
        assert Apply(b, u) == b.Replacement() + Apply(b, u[|h.whole|..]);
        PrependSettled(a, b, Apply(b, u[|h.whole|..]));
      case None =>
        SettledSuffix(mA, rA, u, 1);
        CrossRule(a, b, u[1..]);
        SettledHead(mA, rA, u);
        HeadSettled(a, b, u);
        var w := Apply(b, u[1..]);
        assert Apply(b, u) == [u[0]] + w;
        assert ([u[0]] + w)[0..] == Apply(b, u);
        SettledConcat(mA, rA, [u[0]], w);
    }
  }

  /** Rules that are proper and name elements other than `n`. */
  ghost predicate Others(rules: seq<Rule>, n: seq<byte>)
  {
    forall j :: 0 <= j < |rules| ==> RuleOk(rules[j]) && rules[j].name != n
  }

  /** Rewrites of other elements keep a buffer settled for `a`. */
  lemma {:induction false} KeepSettled(a: Rule, rules: seq<Rule>, u: seq<byte>)
    requires RuleOk(a) && Others(rules, a.name)
    requires Settled(RuleMatcher(a), a.Replacement(), u)
    ensures Settled(RuleMatcher(a), a.Replacement(), Rewrite(rules, u))
    decreases |rules|
  {
    if |rules| > 0 {
      CrossRule(a, rules[0], u);
      assert forall j :: 0 <= j < |rules| - 1 ==> rules[1..][j] == rules[j + 1];
      KeepSettled(a, rules[1..], Apply(rules[0], u));
    }
  }

  /** Every rule of `rules` leaves only its own replacement for its
      pattern to match in `u`. */
  ghost predicate AllSettled(rules: seq<Rule>, u: seq<byte>)
  {
    forall j :: 0 <= j < |rules| ==> Settled(RuleMatcher(rules[j]), rules[j].Replacement(), u)
  }

  /** After proper rules for different elements have run in order, each
      of them leaves only its own replacement to match. */
  lemma {:induction false} RewriteSettles(rules: seq<Rule>, t: seq<byte>)
    requires RulesOk(rules)
    ensures AllSettled(rules, Rewrite(rules, t))
    decreases |rules|
  {
    if |rules| > 0 {
      var rest := rules[1..];
      var t1 := Apply(rules[0], t);
      assert forall j :: 0 <= j < |rest| ==> rest[j] == rules[j + 1];
      assert RuleOk(rules[0]);
      RewriteSettles(rest, t1);
      RuleSettles(rules[0], t);
      KeepSettled(rules[0], rest, t1);
      forall j | 0 <= j < |rules|
        ensures Settled(RuleMatcher(rules[j]), rules[j].Replacement(), Rewrite(rules, t))
      {
        if j > 0 {
          assert rules[j] == rest[j - 1];
        }
      }
    }
  }

  /** Rules that all have settled leave the buffer alone. */
  lemma {:induction false} SettledIdle(rules: seq<Rule>, u: seq<byte>)
    requires AllSettled(rules, u)
    ensures Rewrite(rules, u) == u
    decreases |rules|
  {
    if |rules| > 0 {
      CompilePrefixing(rules[0].Pattern());
      SettledIsFixed(RuleMatcher(rules[0]), rules[0].Replacement(), u);
      assert forall j :: 0 <= j < |rules| - 1 ==> rules[1..][j] == rules[j + 1];
      SettledIdle(rules[1..], u);
    }
  }

  /** After the XMP pass, wherever any of the nine patterns matches, the
      match is that rewrite's fixed replacement. */
  lemma XmpSettles(t: seq<byte>)
    ensures AllSettled(Rules(), XmpPass(t).out)
  {
    RulesAreOk();
    RewriteSettles(Rules(), t);
  }

  /** The XMP pass is idempotent: on its own output it changes nothing and
      sets the stat again. */
  lemma XmpIdempotent(t: seq<byte>)
    ensures XmpPass(XmpPass(t).out) == XmpPass(t)
  {
    XmpSettles(t);
    SettledIdle(Rules(), XmpPass(t).out);
  }
}
