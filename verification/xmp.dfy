/** The XMP pass: nine elements of the XMP metadata packet are rewritten
    one after another to fixed contents. Six are simple elements whose text
    runs to the next `<`; the creator, title and description hold nested
    RDF containers and are matched to their nearest closing tag, across
    line breaks. The stat is set whenever the pass runs. */
module Xmp {
  import opened Bytes
  import opened Substitute
  import opened Regex
  import opened Settle
  import opened Nearest

  /** `<name>` */
  function Open(name: seq<byte>): seq<byte>
  {
    [LAngle] + name + [RAngle]
  }

  /** `</name>` */
  function Close(name: seq<byte>): seq<byte>
  {
    [LAngle, Slash] + name + [RAngle]
  }

  /** `<name>content</name>` */
  function Element(name: seq<byte>, content: seq<byte>): seq<byte>
  {
    Open(name) + content + Close(name)
  }

  /** One rewrite: the element `name`, matched up to the next `<`
      (`<name>[^<]*</name>`) or, when `lazy`, up to the nearest closing tag
      (`<name>.*?</name>` with DOTALL), becomes `<name>content</name>`. */
  datatype Rule = Rule(name: seq<byte>, lazy: bool, content: seq<byte>)
  {
    function Pattern(): Pattern
    {
      if lazy then Lazy(Open(name), Close(name)) else Delimited(Open(name), LAngle, Close(name), false)
    }

    function Replacement(): seq<byte>
    {
      Element(name, content)
    }
  }

  /** The matcher of a rule. */
  function RuleMatcher(r: Rule): (m: Matcher)
    ensures WellFormed(m) && LeadsWith(m, LAngle)
  {
    Compile(r.Pattern())
  }

  /** One rewrite applied to every element it matches. */
  function Apply(r: Rule, t: seq<byte>): seq<byte>
  {
    SubAll(RuleMatcher(r), Const(r.Replacement()), t)
  }

  /** The rewrites applied in order. */
  function Rewrite(rules: seq<Rule>, t: seq<byte>): seq<byte>
    decreases |rules|
  {
    if |rules| == 0 then t else Rewrite(rules[1..], Apply(rules[0], t))
  }

  /** `xmp:CreatorTool` */
  const CreatorToolName: seq<byte> := [120, 109, 112, 58, 67, 114, 101, 97, 116, 111, 114, 84, 111, 111, 108]
  /** `dc:creator` */
  const CreatorName: seq<byte> := [100, 99, 58, 99, 114, 101, 97, 116, 111, 114]
  /** `dc:title` */
  const TitleName: seq<byte> := [100, 99, 58, 116, 105, 116, 108, 101]
  /** `dc:description` */
  const DescriptionName: seq<byte> := [100, 99, 58, 100, 101, 115, 99, 114, 105, 112, 116, 105, 111, 110]
  /** `pdf:Producer` */
  const ProducerName: seq<byte> := [112, 100, 102, 58, 80, 114, 111, 100, 117, 99, 101, 114]
  /** `xmpMM:DocumentID` */
  const DocumentIdName: seq<byte> := [120, 109, 112, 77, 77, 58, 68, 111, 99, 117, 109, 101, 110, 116, 73, 68]
  /** `xmpMM:InstanceID` */
  const InstanceIdName: seq<byte> := [120, 109, 112, 77, 77, 58, 73, 110, 115, 116, 97, 110, 99, 101, 73, 68]
  /** `xmp:CreateDate` */
  const CreateDateName: seq<byte> := [120, 109, 112, 58, 67, 114, 101, 97, 116, 101, 68, 97, 116, 101]
  /** `xmp:ModifyDate` */
  const ModifyDateName: seq<byte> := [120, 109, 112, 58, 77, 111, 100, 105, 102, 121, 68, 97, 116, 101]

  /** `rdf:Seq` */
  const SeqName: seq<byte> := [114, 100, 102, 58, 83, 101, 113]
  /** `rdf:Alt` */
  const AltName: seq<byte> := [114, 100, 102, 58, 65, 108, 116]
  /** `rdf:li` */
  const ItemName: seq<byte> := [114, 100, 102, 58, 108, 105]
  /** ` xml:lang="x-default"` */
  const DefaultLang: seq<byte> := [32, 120, 109, 108, 58, 108, 97, 110, 103, 61, 34, 120, 45, 100, 101, 102, 97, 117, 108, 116, 34]

  /** `uuid:00000000-0000-0000-0000-000000000000`: the nil UUID. */
  const NilUuid: seq<byte> := [117, 117, 105, 100, 58, 48, 48, 48, 48, 48, 48, 48, 48, 45, 48, 48, 48, 48, 45, 48, 48, 48, 48, 45, 48, 48, 48, 48, 45, 48, 48, 48, 48, 48, 48, 48, 48, 48, 48, 48, 48]
  /** `1970-01-01T00:00:00Z`: the Unix epoch as an XMP date. */
  const EpochDate: seq<byte> := [49, 57, 55, 48, 45, 48, 49, 45, 48, 49, 84, 48, 48, 58, 48, 48, 58, 48, 48, 90]

  /** `<rdf:Seq><rdf:li></rdf:li></rdf:Seq>`: an ordered list with one
      empty item. */
  function EmptySeq(): seq<byte>
  {
    Element(SeqName, Element(ItemName, []))
  }

  /** `<rdf:Alt><rdf:li xml:lang="x-default"></rdf:li></rdf:Alt>`: a
      language alternative with one empty default entry. */
  function EmptyAlt(): seq<byte>
  {
    Element(AltName, [LAngle] + ItemName + DefaultLang + [RAngle] + Close(ItemName))
  }

  /** The nine rewrites, in the order the pass runs them. */
  function Rules(): seq<Rule>
  {
    [ Rule(CreatorToolName, false, []),
      Rule(CreatorName, true, EmptySeq()),
      Rule(TitleName, true, EmptyAlt()),
      Rule(DescriptionName, true, EmptyAlt()),
      Rule(ProducerName, false, []),
      Rule(DocumentIdName, false, NilUuid),
      Rule(InstanceIdName, false, NilUuid),
      Rule(CreateDateName, false, EpochDate),
      Rule(ModifyDateName, false, EpochDate) ]
  }

  /** The pass: the stat is set unconditionally, and text without any `<`
      holds no element to rewrite. */
  function XmpPass(t: seq<byte>): (s: Step)
    ensures s.flag
    ensures LAngle !in t ==> s.out == t
  {
    RewriteAbsent(Rules(), t);
    Step(Rewrite(Rules(), t), true)
  }

  /** No rule's opening tag stands anywhere in `t`. */
  ghost predicate Unmarked(t: seq<byte>)
  {
    forall j :: 0 <= j < |Rules()| ==> Unmentioned(t, Rules()[j].name)
  }

  /** Text in which no rule's opening tag stands comes back unchanged,
      and the stat is still set. */
  lemma XmpIdle(t: seq<byte>)
    requires Unmarked(t)
    ensures XmpPass(t) == Step(t, true)
  {
    var rules := Rules();
    assert forall j :: 0 <= j < |rules| ==> Unmentioned(t, rules[j].name);
    RewriteIdle(rules, t);
    assert Rewrite(Rules(), t) == t;
  }

  /** Text without `<` is left alone by every rewrite. */
  lemma {:induction false} RewriteAbsent(rules: seq<Rule>, t: seq<byte>)
    ensures LAngle !in t ==> Rewrite(rules, t) == t
    decreases |rules|
  {
    if |rules| > 0 && LAngle !in t {
      NoLeadNoMatch(RuleMatcher(rules[0]), LAngle, t);
      SubAllNoMatch(RuleMatcher(rules[0]), Const(rules[0].Replacement()), t);
      RewriteAbsent(rules[1..], t);
    }
  }

  /** `/` closes an element and `r` starts the `rdf:` names of the
      containers the rewrites write: neither starts a rewritten name. */
  predicate Inert(b: byte)
  {
    b == Slash || b == RdfLead
  }

  /** `r`, the first byte of the `rdf:` names. */
  const RdfLead: byte := 114

  /** Every `<` in `w` opens an `rdf:` container (`<r`) or closes one
      (`</r`). */
  ghost predicate Containers(w: seq<byte>)
  {
    forall k {:trigger w[k]} :: 0 <= k < |w| && w[k] == LAngle ==>
      (k + 1 < |w| && w[k + 1] == RdfLead) || (k + 2 < |w| && w[k + 1] == Slash && w[k + 2] == RdfLead)
  }

  /** Every `<` in `w` opens a closing tag or an `rdf:` container. */
  ghost predicate Muted(w: seq<byte>)
  {
    forall k {:trigger w[k]} :: 0 <= k < |w| && w[k] == LAngle ==> k + 1 < |w| && Inert(w[k + 1])
  }

  /** A name a rule rewrites: no angle brackets, and not inert. */
  predicate NameOk(name: seq<byte>)
  {
    |name| > 0 && LAngle !in name && RAngle !in name && !Inert(name[0])
  }

  /** `<name>` does not start anywhere in `t`. */
  ghost predicate Unmentioned(t: seq<byte>, name: seq<byte>)
  {
    forall p :: 0 <= p <= |t| ==> !StartsWith(t[p..], Open(name))
  }

  /** Text without `<` is muted. */
  lemma MutedFree(s: seq<byte>)
    requires LAngle !in s
    ensures Muted(s)
  {
  }

  /** A tag that opens with an inert byte is muted. */
  lemma MutedTag(s: seq<byte>)
    requires |s| > 0 && Inert(s[0]) && LAngle !in s
    ensures Muted([LAngle] + s)
  {
    var w := [LAngle] + s;
    forall k | 0 < k < |w| ensures w[k] != LAngle {
      assert w[k] == s[k - 1];
    }
    assert w[1] == s[0];
  }

  /** Muted pieces make muted text. */
  lemma MutedJoin(a: seq<byte>, b: seq<byte>)
    requires Muted(a) && Muted(b)
    ensures Muted(a + b)
  {
    var w := a + b;
    forall k | 0 <= k < |w| && w[k] == LAngle ensures k + 1 < |w| && Inert(w[k + 1]) {
      if k < |a| {
        assert w[k] == a[k];
        assert w[k + 1] == a[k + 1];
      } else {
        assert w[k] == b[k - |a|];
        assert w[k + 1] == b[k + 1 - |a|];
      }
    }
  }

  /** A closing tag is muted. */
  lemma MutedClose(name: seq<byte>)
    requires LAngle !in name
    ensures Muted(Close(name))
  {
    assert Close(name) == [LAngle] + ([Slash] + name + [RAngle]);
    MutedTag([Slash] + name + [RAngle]);
  }

  /** Text without `<` holds no container tag to worry about. */
  lemma ContainersFree(s: seq<byte>)
    requires LAngle !in s
    ensures Containers(s)
  {
  }

  /** A container tag: `<` followed by an `rdf:` name or by `/` and one. */
  lemma ContainersTag(s: seq<byte>)
    requires |s| >= 2 && LAngle !in s && (s[0] == RdfLead || (s[0] == Slash && s[1] == RdfLead))
    ensures Containers([LAngle] + s)
  {
    var w := [LAngle] + s;
    forall k | 0 < k < |w| ensures w[k] != LAngle {
      assert w[k] == s[k - 1];
    }
    assert w[1] == s[0] && w[2] == s[1];
  }

  /** Container text joined to container text. */
  lemma ContainersJoin(a: seq<byte>, b: seq<byte>)
    requires Containers(a) && Containers(b)
    ensures Containers(a + b)
  {
    var w := a + b;
    forall k | 0 <= k < |w| && w[k] == LAngle
      ensures (k + 1 < |w| && w[k + 1] == RdfLead) || (k + 2 < |w| && w[k + 1] == Slash && w[k + 2] == RdfLead)
    {
      if k < |a| {
        assert a[k] == LAngle;
        if k + 1 < |a| && a[k + 1] == RdfLead {
          assert w[k + 1] == a[k + 1];
        } else {
          assert w[k + 1] == a[k + 1] && w[k + 2] == a[k + 2];
        }
      } else {
        var i := k - |a|;
        assert b[i] == LAngle;
        if i + 1 < |b| && b[i + 1] == RdfLead {
          assert w[k + 1] == b[i + 1];
        } else {
          assert w[k + 1] == b[i + 1] && w[k + 2] == b[i + 2];
        }
      }
    }
  }

  /** An `rdf:` element around container content. */
  lemma ContainersElement(name: seq<byte>, c: seq<byte>)
    requires |name| > 0 && name[0] == RdfLead && LAngle !in name && Containers(c)
    ensures Containers(Element(name, c))
  {
    assert Open(name) == [LAngle] + (name + [RAngle]);
    assert Close(name) == [LAngle] + ([Slash] + name + [RAngle]);
    ContainersTag(name + [RAngle]);
    ContainersTag([Slash] + name + [RAngle]);
    ContainersJoin(Open(name), c);
    ContainersJoin(Open(name) + c, Close(name));
  }

  /** Container text is muted. */
  lemma ContainersMuted(w: seq<byte>)
    requires Containers(w)
    ensures Muted(w)
  {
    forall k | 0 <= k < |w| && w[k] == LAngle ensures k + 1 < |w| && Inert(w[k + 1]) {
    }
  }

  /** The lazy rewrite of `<n>` to `<n>c</n>` settles when `n` is a proper
      name and `c` holds only containers: `</n>` does not start inside `c`,
      where every `<` is followed by `r` or by `/r`, and `<n>` does not
      start again, since every `<` in `c</n>` is followed by an inert byte. */
  lemma LazyShaped(n: seq<byte>, c: seq<byte>)
    requires NameOk(n) && Containers(c)
    ensures LazyShape(Open(n), c, Close(n))
  {
    var close := Close(n);
    assert Open(n)[1..] == n + [RAngle];
    forall k | 0 <= k < |c| ensures !StartsWith((c + close)[k..], close) {
      var u := (c + close)[k..];
      if |u| >= |close| {
        assert u[..|close|][0] == u[0] && u[..|close|][1] == u[1] && u[..|close|][2] == u[2];
        assert u[0] == c[k];
        if c[k] == LAngle {
          assert u[1] == (c + close)[k + 1] && u[2] == (c + close)[k + 2];
          assert close[1] == Slash && close[2] == n[0];
        }
      }
    }
    ContainersMuted(c);
    MutedClose(n);
    MutedJoin(c, close);
  }


  /** Two different names cannot both open at one place: they part at a
      byte, or the shorter one's `>` meets a byte of the longer name. */
  lemma OpensApart(u: seq<byte>, n: seq<byte>, m: seq<byte>)
    requires NameOk(n) && NameOk(m) && n != m
    requires StartsWith(u, Open(n))
    ensures !StartsWith(u, Open(m))
  {
    assert u[..|Open(n)|] == Open(n);
    if |m| == |n| {
      var i :| 0 <= i < |m| && m[i] != n[i];
      assert u[i + 1] == n[i] && Open(m)[i + 1] == m[i];
    } else if |m| < |n| {
      assert u[|m| + 1] == n[|m|] && Open(m)[|m| + 1] == RAngle;
    } else {
      assert u[|n| + 1] == RAngle && Open(m)[|n| + 1] == m[|n|];
    }
  }

  /** Where `<` opens an inert tag, no rewritten name opens. */
  lemma InertApart(u: seq<byte>, m: seq<byte>)
    requires NameOk(m) && |u| >= 2 && Inert(u[1])
    ensures !StartsWith(u, Open(m))
  {
    assert Open(m)[1] == m[0];
  }

  /** In `x <n> w y`, with `x` and `y` free of `<` and `w` muted, no other
      name than `n` opens. */
  lemma ApartAt(x: seq<byte>, n: seq<byte>, w: seq<byte>, y: seq<byte>, m: seq<byte>)
    requires LAngle !in x && LAngle !in y && Muted(w)
    requires NameOk(n) && NameOk(m) && n != m
    ensures Unmentioned(x + Open(n) + w + y, m)
  {
    var t := x + Open(n) + w + y;
    var a := |x| + |Open(n)|;
    var b := a + |w|;
    forall p | 0 <= p <= |t| ensures !StartsWith(t[p..], Open(m)) {
      if p == |t| {
      } else if p < |x| {
        assert t[p] == x[p];
      } else if p == |x| {
        assert t[p..] == Open(n) + w + y;
        OpensApart(t[p..], n, m);
      } else if p < a {
        assert t[p] == Open(n)[p - |x|] == (n + [RAngle])[p - |x| - 1];
      } else if p < b && w[p - a] == LAngle {
        assert t[p..][0] == w[p - a] && t[p..][1] == w[p - a + 1];
        InertApart(t[p..], m);
      } else if p < b {
        assert t[p] == w[p - a];
      } else {
        assert t[p] == y[p - b];
      }
    }
  }

  /** A rule matches only where its opening tag stands. */
  lemma RuleKeyed(r: Rule, u: seq<byte>)
    ensures RuleMatcher(r)(u).Some? ==> StartsWith(u, Open(r.name))
  {
  }

  /** A rule whose opening tag does not occur leaves the text alone. */
  lemma UnmentionedIdle(r: Rule, t: seq<byte>)
    requires Unmentioned(t, r.name)
    ensures Apply(r, t) == t
  {
    forall i | 0 <= i <= |t| ensures RuleMatcher(r)(t[i..]).None? {
      RuleKeyed(r, t[i..]);
    }
    SubAllNoMatch(RuleMatcher(r), Const(r.Replacement()), t);
  }

  /** Rules none of whose opening tags occur leave the text alone. */
  lemma {:induction false} RewriteIdle(rules: seq<Rule>, t: seq<byte>)
    requires forall j :: 0 <= j < |rules| ==> Unmentioned(t, rules[j].name)
    ensures Rewrite(rules, t) == t
    decreases |rules|
  {
    if |rules| > 0 {
      UnmentionedIdle(rules[0], t);
      assert forall j :: 0 <= j < |rules| - 1 ==> rules[1..][j] == rules[j + 1];
      RewriteIdle(rules[1..], t);
    }
  }

  /** The rewrites before rule `i`, rule `i`, and the rewrites after it. */
  lemma {:induction false} RewriteSplit(rules: seq<Rule>, i: nat, t: seq<byte>)
    requires i < |rules|
    ensures Rewrite(rules, t) == Rewrite(rules[i + 1..], Apply(rules[i], Rewrite(rules[..i], t)))
    decreases i
  {
    if i == 0 {
      assert rules[..0] == [];
    } else {
      var t1 := Apply(rules[0], t);
      RewriteSplit(rules[1..], i - 1, t1);
      Shifted(rules, i);
    }
  }

  /** Slicing the rules after dropping the first one. */
  lemma Shifted(rules: seq<Rule>, i: nat)
    requires 0 < i < |rules|
    ensures rules[1..][i..] == rules[i + 1..] && rules[1..][i - 1] == rules[i]
    ensures |rules[..i]| > 0 && rules[..i][1..] == rules[1..][..i - 1] && rules[..i][0] == rules[0]
  {
  }

  /** A rule matches its own element, with content free of `<`, exactly. */
  lemma RuleFinds(r: Rule, v: seq<byte>, y: seq<byte>)
    requires NameOk(r.name) && ContentOk(r, v)
    ensures RuleMatcher(r)(Element(r.name, v) + y) == Some(Hit(Element(r.name, v), v))
  {
    var open, close := Open(r.name), Close(r.name);
    if r.lazy {
      LazyShaped(r.name, v);
      LazyFinds(open, v, close, y);
    } else {
      DelimitedFinds(open, LAngle, close, false, v, y);
    }
  }

  /** Content the element of `r` may hold for the argument below: free of
      `<`, or, for a lazy rule, holding only containers (with line breaks
      and any other bytes between them). */
  ghost predicate ContentOk(r: Rule, v: seq<byte>)
  {
    if r.lazy then Containers(v) else LAngle !in v
  }

  /** What the rewrite of a rule needs: a proper name, and a replacement
      whose content the rule itself may hold. */
  ghost predicate RuleOk(r: Rule)
  {
    NameOk(r.name) && ContentOk(r, r.content)
  }

  /** Such content is muted. */
  lemma ContentMuted(r: Rule, v: seq<byte>)
    requires ContentOk(r, v)
    ensures Muted(v)
  {
    if r.lazy {
      ContainersMuted(v);
    } else {
      MutedFree(v);
    }
  }

  /** Every rule is proper and no two rewrite the same element. */
  ghost predicate RulesOk(rules: seq<Rule>)
  {
    && (forall j :: 0 <= j < |rules| ==> RuleOk(rules[j]))
    && (forall j, k :: 0 <= j < |rules| && 0 <= k < |rules| && j != k ==> rules[j].name != rules[k].name)
  }

  /** The nine names hold no angle bracket and start with `x`, `d` or `p`. */
  lemma NamesOk()
    ensures NameOk(CreatorToolName) && NameOk(CreatorName) && NameOk(TitleName)
    ensures NameOk(DescriptionName) && NameOk(ProducerName) && NameOk(DocumentIdName)
    ensures NameOk(InstanceIdName) && NameOk(CreateDateName) && NameOk(ModifyDateName)
  {
  }

  /** The fixed values hold no `<`. */
  lemma ValuesFree()
    ensures LAngle !in NilUuid && LAngle !in EpochDate
  {
  }

  /** The empty list holds only containers. */
  lemma SeqContainers()
    ensures Containers(EmptySeq())
  {
    ContainersFree([]);
    ContainersElement(ItemName, []);
    ContainersElement(SeqName, Element(ItemName, []));
  }

  /** The empty language alternative holds only containers. */
  lemma AltContainers()
    ensures Containers(EmptyAlt())
  {
    var tag := ItemName + DefaultLang + [RAngle];
    assert LAngle !in tag;
    ContainersTag(tag);
    ContainersTag([Slash] + ItemName + [RAngle]);
    assert Close(ItemName) == [LAngle] + ([Slash] + ItemName + [RAngle]);
    ContainersJoin([LAngle] + tag, Close(ItemName));
    assert [LAngle] + ItemName + DefaultLang + [RAngle] + Close(ItemName) == [LAngle] + tag + Close(ItemName);
    ContainersElement(AltName, [LAngle] + tag + Close(ItemName));
  }

  /** The names that share a length part at some byte. */
  lemma NamesDistinct()
    ensures forall j, k :: 0 <= j < 9 && 0 <= k < 9 && j != k ==> Rules()[j].name != Rules()[k].name
  {
    assert DocumentIdName[6] != InstanceIdName[6];
    assert DescriptionName[0] != CreateDateName[0] && DescriptionName[0] != ModifyDateName[0];
    assert CreateDateName[4] != ModifyDateName[4];
  }

  /** The rules of the pass are proper and rewrite nine different elements. */
  lemma RulesAreOk()
    ensures |Rules()| == 9 && RulesOk(Rules())
  {
    NamesOk();
    ValuesFree();
    SeqContainers();
    AltContainers();
    NamesDistinct();
  }

  /** Every rule of `rules` is for a proper name other than `n`. */
  ghost predicate OthersOf(rules: seq<Rule>, n: seq<byte>)
  {
    forall j :: 0 <= j < |rules| ==> NameOk(rules[j].name) && rules[j].name != n
  }

  /** Rules for other proper names leave `x <n> w y` alone. */
  lemma OthersIdle(rules: seq<Rule>, x: seq<byte>, n: seq<byte>, w: seq<byte>, y: seq<byte>)
    requires LAngle !in x && LAngle !in y && Muted(w) && NameOk(n) && OthersOf(rules, n)
    ensures Rewrite(rules, x + Open(n) + w + y) == x + Open(n) + w + y
  {
    var t := x + Open(n) + w + y;
    forall j | 0 <= j < |rules| ensures Unmentioned(t, rules[j].name) {
      ApartAt(x, n, w, y, rules[j].name);
    }
    RewriteIdle(rules, t);
  }

  /** The rules before and after rule `i` name other elements. */
  lemma Neighbours(rules: seq<Rule>, i: nat)
    requires RulesOk(rules) && i < |rules|
    ensures OthersOf(rules[..i], rules[i].name) && OthersOf(rules[i + 1..], rules[i].name)
  {
    var before, after := rules[..i], rules[i + 1..];
    forall j | 0 <= j < |before| ensures NameOk(before[j].name) && before[j].name != rules[i].name {
      assert before[j] == rules[j] && RuleOk(rules[j]);
    }
    forall j | 0 <= j < |after| ensures NameOk(after[j].name) && after[j].name != rules[i].name {
      assert after[j] == rules[i + 1 + j] && RuleOk(rules[i + 1 + j]);
    }
  }

  /** A rule rewrites its own element between text free of `<`. */
  lemma ApplySplice(r: Rule, x: seq<byte>, v: seq<byte>, y: seq<byte>)
    requires NameOk(r.name) && ContentOk(r, v)
    requires LAngle !in x && LAngle !in y
    ensures Apply(r, x + Element(r.name, v) + y) == x + r.Replacement() + y
  {
    RuleFinds(r, v, y);
    SpliceOne(RuleMatcher(r), Const(r.Replacement()), LAngle, x, Element(r.name, v), y);
  }

  /** The rules before rule `i` leave its element alone. */
  lemma IdleBefore(rules: seq<Rule>, i: nat, x: seq<byte>, v: seq<byte>, y: seq<byte>)
    requires RulesOk(rules) && i < |rules| && ContentOk(rules[i], v)
    requires LAngle !in x && LAngle !in y
    ensures Rewrite(rules[..i], x + Element(rules[i].name, v) + y) == x + Element(rules[i].name, v) + y
  {
    var n := rules[i].name;
    assert RuleOk(rules[i]);
    Neighbours(rules, i);
    ContentMuted(rules[i], v);
    MutedClose(n);
    MutedJoin(v, Close(n));
    assert x + Element(n, v) + y == x + Open(n) + (v + Close(n)) + y;
    OthersIdle(rules[..i], x, n, v + Close(n), y);
  }

  /** The rules after rule `i` leave its replacement alone. */
  lemma IdleAfter(rules: seq<Rule>, i: nat, x: seq<byte>, y: seq<byte>)
    requires RulesOk(rules) && i < |rules|
    requires LAngle !in x && LAngle !in y
    ensures Rewrite(rules[i + 1..], x + rules[i].Replacement() + y) == x + rules[i].Replacement() + y
  {
    var r := rules[i];
    assert RuleOk(r);
    Neighbours(rules, i);
    ContentMuted(r, r.content);
    MutedClose(r.name);
    MutedJoin(r.content, Close(r.name));
    assert x + r.Replacement() + y == x + Open(r.name) + (r.content + Close(r.name)) + y;
    OthersIdle(rules[i + 1..], x, r.name, r.content + Close(r.name), y);
  }

  /** Under proper rules, one element between text free of `<` is rewritten
      to its replacement and nothing else changes. */
  lemma SpliceRules(rules: seq<Rule>, i: nat, x: seq<byte>, v: seq<byte>, y: seq<byte>)
    requires RulesOk(rules) && i < |rules| && ContentOk(rules[i], v)
    requires LAngle !in x && LAngle !in y
    ensures Rewrite(rules, x + Element(rules[i].name, v) + y) == x + rules[i].Replacement() + y
  {
    assert RuleOk(rules[i]);
    IdleBefore(rules, i, x, v, y);
    ApplySplice(rules[i], x, v, y);
    IdleAfter(rules, i, x, y);
    RewriteSplit(rules, i, x + Element(rules[i].name, v) + y);
  }

  /** One of the nine elements between text free of `<`: the pass writes
      that element's fixed replacement in its place and changes nothing
      else. A simple element's content is free of `<`; the creator, title
      and description may hold RDF containers and span lines. */
  lemma XmpSplice(i: nat, x: seq<byte>, v: seq<byte>, y: seq<byte>)
    requires i < |Rules()| && ContentOk(Rules()[i], v)
    requires LAngle !in x && LAngle !in y
    ensures XmpPass(x + Element(Rules()[i].name, v) + y) == Step(x + Rules()[i].Replacement() + y, true)
  {
    RulesAreOk();
    SpliceRules(Rules(), i, x, v, y);
  }

  /** After a proper rule's rewrite, every element it would match is its
      replacement. */
  lemma RuleSettles(r: Rule, t: seq<byte>)
    requires RuleOk(r)
    ensures Settled(RuleMatcher(r), r.Replacement(), Apply(r, t))
  {
    var n := r.name;
    if r.lazy {
      LazyShaped(n, r.content);
      LazySettles(Open(n), r.content, Close(n), t);
    } else {
      assert Open(n)[1..] == n + [RAngle] && Close(n)[1..] == [Slash] + n + [RAngle];
      assert DelimitedShape(Open(n), LAngle, Close(n), r.content);
      DelimitedSettles(Open(n), LAngle, Close(n), r.content, t);
    }
  }

  /** A proper rule's rewrite is idempotent. */
  lemma RuleIdempotent(r: Rule, t: seq<byte>)
    requires RuleOk(r)
    ensures Apply(r, Apply(r, t)) == Apply(r, t)
  {
    RuleSettles(r, t);
    CompilePrefixing(r.Pattern());
    SettledIsFixed(RuleMatcher(r), r.Replacement(), Apply(r, t));
  }

  /** Each of the nine rewrites, wherever it runs, leaves only its own
      replacement for its pattern to match, and running it again changes
      nothing. */
  lemma XmpRuleSettles(i: nat, t: seq<byte>)
    requires i < |Rules()|
    ensures Settled(RuleMatcher(Rules()[i]), Rules()[i].Replacement(), Apply(Rules()[i], t))
    ensures Apply(Rules()[i], Apply(Rules()[i], t)) == Apply(Rules()[i], t)
  {
    RulesAreOk();
    assert RuleOk(Rules()[i]);
    RuleSettles(Rules()[i], t);
    RuleIdempotent(Rules()[i], t);
  }
}
