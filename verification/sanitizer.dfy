/** The sanitizer itself: the options, the statistics, and the fixed order
    in which the enabled passes rewrite the document's bytes. */
module Sanitizer {
  import opened Bytes
  import opened Substitute
  import opened Settle
  import Streams
  import Timezone
  import Fields
  import Lang
  import DocId
  import Timestamps
  import Xmp

  /** The caller's options: option name to switch. A name that is absent
      counts as switched off, as `options.get(name)` is then falsy. */
  type Options = map<string, bool>

  /** The ten option names. */
  const Keys: seq<string> := [
    "remove_author", "remove_creator", "remove_producer", "remove_title", "remove_subject",
    "remove_timestamps", "remove_timezone", "remove_lang_tags", "remove_doc_id", "remove_xmp" ]

  /** The options used when the caller gives none: every name switched on. */
  function Defaults(): Options
  {
    map k | k in Keys :: true
  }

  /** The defaults switch on exactly the ten options. */
  lemma DefaultsOn()
    ensures forall k :: On(Defaults(), k) <==> k in Keys
  {
  }

  /** Whether option `k` is on. */
  predicate On(o: Options, k: string)
  {
    k in o && o[k]
  }

  /** The options in force for a call: the caller's, or the defaults. */
  function Resolve(options: Option<Options>): Options
  {
    match options
    case None => Defaults()
    case Some(o) => o
  }

  /** The flags of the statistics: `author`, `creator`, `producer`,
      `title` and `subject` (one per information entry), `timestamps`,
      `timezone`, `doc_id` and `xmp`. */
  datatype Flag = FieldFlag(field: Fields.Field) | StampFlag | ZoneFlag | IdFlag | XmpFlag

  /** The statistics returned next to the output: the flags that are true,
      and `lang_tags`, the count of language tags rewritten inside
      compressed streams. */
  datatype Stats = Stats(raised: set<Flag>, langTags: nat)

  /** The statistics every call starts from: every flag false, count 0. */
  const Cleared: Stats := Stats({}, 0)

  /** One stage of the pipeline. */
  datatype Stage =
    | CompressedLang
    | Zone
    | Info(field: Fields.Field)
    | PlainLang
    | DocumentId
    | Dates
    | Metadata

  /** The stages in the order they run. */
  const Stages: seq<Stage> := [
    CompressedLang, Zone,
    Info(Fields.Author), Info(Fields.Creator), Info(Fields.Producer), Info(Fields.Title), Info(Fields.Subject),
    PlainLang, DocumentId, Dates, Metadata ]

  /** The option that switches a stage on. Both language stages share one. */
  function Key(st: Stage): string
  {
    match st
    case CompressedLang => "remove_lang_tags"
    case Zone => "remove_timezone"
    case Info(f) =>
      (match f
      case Author => "remove_author"
      case Creator => "remove_creator"
      case Producer => "remove_producer"
      case Title => "remove_title"
      case Subject => "remove_subject")
    case PlainLang => "remove_lang_tags"
    case DocumentId => "remove_doc_id"
    case Dates => "remove_timestamps"
    case Metadata => "remove_xmp"
  }

  /** The progress reported when a stage starts, and its label. */
  function Percent(st: Stage): nat
  {
    match st
    case CompressedLang => 10
    case Zone => 20
    case Info(f) =>
      (match f
      case Author => 25
      case Creator => 30
      case Producer => 35
      case Title => 40
      case Subject => 45)
    case PlainLang => 50
    case DocumentId => 55
    case Dates => 60
    case Metadata => 70
  }

  function Label(st: Stage): string
  {
    match st
    case CompressedLang => "Processing compressed streams..."
    case Zone => "Removing timezone info..."
    case Info(f) =>
      (match f
      case Author => "Removing author..."
      case Creator => "Removing creator..."
      case Producer => "Removing producer..."
      case Title => "Removing title..."
      case Subject => "Removing subject...")
    case PlainLang => "Removing language tags..."
    case DocumentId => "Removing document ID..."
    case Dates => "Removing timestamps..."
    case Metadata => "Removing XMP metadata..."
  }

  /** The flag a stage owns; the language stages own none (the
      compressed one adds to the count instead). */
  function Owns(st: Stage): Option<Flag>
  {
    match st
    case CompressedLang => None
    case Zone => Some(ZoneFlag)
    case Info(f) => Some(FieldFlag(f))
    case PlainLang => None
    case DocumentId => Some(IdFlag)
    case Dates => Some(StampFlag)
    case Metadata => Some(XmpFlag)
  }

  /** The stage that owns a flag. */
  function Owner(g: Flag): (st: Stage)
    ensures Owns(st) == Some(g)
  {
    match g
    case FieldFlag(f) => Info(f)
    case StampFlag => Dates
    case ZoneFlag => Zone
    case IdFlag => DocumentId
    case XmpFlag => Metadata
  }

  /** Each flag has one owner. */
  lemma OwnerUnique(st: Stage, g: Flag)
    requires Owns(st) == Some(g)
    ensures Owner(g) == st
  {
  }

  /** The buffer and the statistics between stages. */
  datatype Run = Run(data: seq<byte>, stats: Stats)

  /** The passes the stages run: the compressed-stream pass (rewritten
      bytes and a count of tags), the timezone pass, the pass for each
      information entry, the uncompressed language pass, the document-ID
      pass, the timestamp pass and the XMP pass. The pipeline below is
      stated for any such passes; `Concrete` holds the sanitizer's own. */
  datatype Passes = Passes(
    streams: seq<byte> -> Streams.Outcome,
    zone: seq<byte> -> Step,
    info: (Fields.Field, seq<byte>) -> Step,
    plain: seq<byte> -> seq<byte>,
    docId: seq<byte> -> Step,
    dates: seq<byte> -> Step,
    xmp: seq<byte> -> Step)
  {
    /** What stage `st` does to `t`: the rewritten bytes and a flag (the
        outcome of its search). The language stages report no flag. */
    function Pass(st: Stage, t: seq<byte>): Step
    {
      match st
      case CompressedLang => Step(streams(t).out, false)
      case Zone => zone(t)
      case Info(f) => info(f, t)
      case PlainLang => Step(plain(t), false)
      case DocumentId => docId(t)
      case Dates => dates(t)
      case Metadata => xmp(t)
    }

    /** The tags the compressed-stream pass rewrites in `t`. */
    function Tally(t: seq<byte>): nat
    {
      streams(t).tags
    }
  }

  /** Record a pass in the statistics: the stage's own flag is raised when
      the pass found something, and the count grows by `tags`. */
  function Note(s: Stats, st: Stage, flag: bool, tags: nat): Stats
  {
    Stats(if flag && Owns(st).Some? then s.raised + {Owns(st).value} else s.raised, s.langTags + tags)
  }

  /** Run one stage. A flag ends up raised exactly when it was raised
      already or it is the stage's own and the stage's search found
      something; only the compressed-stream stage adds to the count. */
  function Perform(ps: Passes, st: Stage, s: Run): (r: Run)
    ensures forall g :: g in r.stats.raised <==> g in s.stats.raised || (Owns(st) == Some(g) && ps.Pass(st, s.data).flag)
    ensures r.stats.langTags == s.stats.langTags + (if st.CompressedLang? then ps.Tally(s.data) else 0)
  {
    var p := ps.Pass(st, s.data);
    Run(p.out, Note(s.stats, st, p.flag, if st.CompressedLang? then ps.Tally(s.data) else 0))
  }

  /** Run a stage when its option is on. */
  function Gate(ps: Passes, o: Options, st: Stage, s: Run): Run
  {
    if On(o, Key(st)) then Perform(ps, st, s) else s
  }

  /** Run `stages` in order, each only when its option is on. */
  function Pipeline(ps: Passes, o: Options, stages: seq<Stage>, s: Run): Run
    decreases |stages|
  {
    if |stages| == 0 then s else Pipeline(ps, o, stages[1..], Gate(ps, o, stages[0], s))
  }

  /** Switched-off stages change nothing. */
  lemma {:induction false} PipelineOff(ps: Passes, o: Options, stages: seq<Stage>, s: Run)
    requires forall i :: 0 <= i < |stages| ==> !On(o, Key(stages[i]))
    ensures Pipeline(ps, o, stages, s) == s
    decreases |stages|
  {
    if |stages| > 0 {
      assert !On(o, Key(stages[0]));
      PipelineOff(ps, o, stages[1..], s);
    }
  }

  /** A flag, once raised, stays raised, and a flag ends up raised only if
      it was already or its stage is among those that ran. */
  lemma {:induction false} PipelineFlags(ps: Passes, o: Options, stages: seq<Stage>, s: Run)
    ensures s.stats.raised <= Pipeline(ps, o, stages, s).stats.raised
    ensures forall g :: g in Pipeline(ps, o, stages, s).stats.raised ==> g in s.stats.raised || (Owner(g) in stages && On(o, Key(Owner(g))))
    decreases |stages|
  {
    if |stages| > 0 {
      var next := Gate(ps, o, stages[0], s);
      PipelineFlags(ps, o, stages[1..], next);
      assert forall x :: x in stages[1..] ==> x in stages;
    }
  }

  /** The count grows only through the compressed-stream stage. */
  lemma {:induction false} PipelineCount(ps: Passes, o: Options, stages: seq<Stage>, s: Run)
    requires CompressedLang !in stages
    ensures Pipeline(ps, o, stages, s).stats.langTags == s.stats.langTags
    decreases |stages|
  {
    if |stages| > 0 {
      assert stages[0] != CompressedLang;
      assert forall x :: x in stages[1..] ==> x in stages;
      PipelineCount(ps, o, stages[1..], Gate(ps, o, stages[0], s));
    }
  }

  /** The same stages run one after the other without any gate. */
  function Chain(ps: Passes, stages: seq<Stage>, s: Run): Run
    decreases |stages|
  {
    if |stages| == 0 then s else Chain(ps, stages[1..], Perform(ps, stages[0], s))
  }

  /** With every stage's option on, the gated pipeline is the ungated one. */
  lemma {:induction false} AllOn(ps: Passes, o: Options, stages: seq<Stage>, s: Run)
    requires forall i :: 0 <= i < |stages| ==> On(o, Key(stages[i]))
    ensures Pipeline(ps, o, stages, s) == Chain(ps, stages, s)
    decreases |stages|
  {
    if |stages| > 0 {
      AllOn(ps, o, stages[1..], Perform(ps, stages[0], s));
    }
  }

  /** Stages that leave the starting bytes alone leave them alone together:
      each sees the bytes the first one saw. */
  lemma {:induction false} PipelineKeeps(ps: Passes, o: Options, stages: seq<Stage>, s: Run)
    requires forall i :: 0 <= i < |stages| ==> ps.Pass(stages[i], s.data).out == s.data
    ensures Pipeline(ps, o, stages, s).data == s.data
    decreases |stages|
  {
    if |stages| > 0 {
      var next := Gate(ps, o, stages[0], s);
      assert next.data == s.data;
      forall i | 0 <= i < |stages[1..]| ensures ps.Pass(stages[1..][i], next.data).out == next.data {
        assert stages[1..][i] == stages[i + 1];
      }
      PipelineKeeps(ps, o, stages[1..], next);
    }
  }

  /** Running a list of stages is running a prefix, then the rest. */
  lemma {:induction false} PipelineSplit(ps: Passes, o: Options, stages: seq<Stage>, s: Run, i: nat)
    requires i <= |stages|
    ensures Pipeline(ps, o, stages, s) == Pipeline(ps, o, stages[i..], Pipeline(ps, o, stages[..i], s))
    decreases i
  {
    if i == 0 {
      assert stages[..0] == [] && stages[0..] == stages;
    } else {
      var next := Gate(ps, o, stages[0], s);
      PipelineSplit(ps, o, stages[1..], next, i - 1);
      assert stages[1..][i - 1..] == stages[i..];
      assert stages[..i][1..] == stages[1..][..i - 1];
      assert stages[..i][0] == stages[0];
    }
  }

  /** The progress percentages of a list of stages rise strictly. */
  ghost predicate Rising(stages: seq<Stage>)
  {
    forall i, j :: 0 <= i < j < |stages| ==> Percent(stages[i]) < Percent(stages[j])
  }

  /** Rising step by step is rising. */
  lemma {:induction false} StepsRise(stages: seq<Stage>)
    requires forall i :: 0 <= i < |stages| - 1 ==> Percent(stages[i]) < Percent(stages[i + 1])
    ensures Rising(stages)
    decreases |stages|
  {
    if |stages| > 1 {
      var rest := stages[1..];
      forall i | 0 <= i < |rest| - 1 ensures Percent(rest[i]) < Percent(rest[i + 1]) {
        assert rest[i] == stages[i + 1] && rest[i + 1] == stages[i + 2];
      }
      StepsRise(rest);
      forall i, j | 0 <= i < j < |stages| ensures Percent(stages[i]) < Percent(stages[j]) {
        assert stages[j] == rest[j - 1];
        if i > 0 {
          assert stages[i] == rest[i - 1];
        } else if j > 1 {
          assert stages[1] == rest[0];
        }
      }
    }
  }

  /** The stages run in order of their progress percentages, so none runs
      twice. */
  lemma StagesRise()
    ensures Rising(Stages)
  {
    forall i | 0 <= i < |Stages| - 1 ensures Percent(Stages[i]) < Percent(Stages[i + 1]) {
      assert i == 0 || i == 1 || i == 2 || i == 3 || i == 4 || i == 5 || i == 6 || i == 7 || i == 8 || i == 9;
    }
    StepsRise(Stages);
  }

  /** One call of the progress callback: a percentage and a label. */
  datatype Report = Report(percent: nat, text: string)

  /** What a stage reports when it starts. */
  function Announce(st: Stage): Report
  {
    Report(Percent(st), Label(st))
  }

  /** The reports of the stages among `stages` whose option is on, in
      order. */
  function Announced(o: Options, stages: seq<Stage>): seq<Report>
    decreases |stages|
  {
    if |stages| == 0 then []
    else (if On(o, Key(stages[0])) then [Announce(stages[0])] else []) + Announced(o, stages[1..])
  }

  /** The callback's calls during `sanitize_pdf`, when a callback is
      given: reading, each enabled stage, writing, done. */
  function Progress(options: Option<Options>): seq<Report>
  {
    [Report(5, "Reading PDF...")] + Announced(Resolve(options), Stages) + [Report(90, "Writing file..."), Report(100, "Complete!")]
  }

  /** The percentages of a list of reports rise strictly. */
  ghost predicate Increasing(rs: seq<Report>)
  {
    forall i, j :: 0 <= i < j < |rs| ==> rs[i].percent < rs[j].percent
  }

  /** Reports of stages whose percentages exceed `lo` exceed it too. */
  lemma {:induction false} AnnouncedAbove(o: Options, stages: seq<Stage>, lo: int)
    requires forall i :: 0 <= i < |stages| ==> lo < Percent(stages[i])
    ensures forall k :: 0 <= k < |Announced(o, stages)| ==> lo < Announced(o, stages)[k].percent
    decreases |stages|
  {
    if |stages| > 0 {
      var rest := stages[1..];
      assert forall i :: 0 <= i < |rest| ==> rest[i] == stages[i + 1];
      AnnouncedAbove(o, rest, lo);
    }
  }

  /** Every report lies between 10 and 70 percent. */
  lemma {:induction false} AnnouncedWithin(o: Options, stages: seq<Stage>)
    ensures forall k :: 0 <= k < |Announced(o, stages)| ==> 10 <= Announced(o, stages)[k].percent <= 70
    decreases |stages|
  {
    if |stages| > 0 {
      PercentsWithin();
      AnnouncedWithin(o, stages[1..]);
    }
  }

  /** The reports of stages in rising order rise too. */
  lemma {:induction false} AnnouncedRises(o: Options, stages: seq<Stage>)
    requires Rising(stages)
    ensures Increasing(Announced(o, stages))
    decreases |stages|
  {
    if |stages| > 0 {
      var rest := stages[1..];
      forall i, j | 0 <= i < j < |rest| ensures Percent(rest[i]) < Percent(rest[j]) {
        assert rest[i] == stages[i + 1] && rest[j] == stages[j + 1];
      }
      AnnouncedRises(o, rest);
      forall i | 0 <= i < |rest| ensures Percent(stages[0]) < Percent(rest[i]) {
        assert rest[i] == stages[i + 1];
      }
      AnnouncedAbove(o, rest, Percent(stages[0]));
      var head: seq<Report> := if On(o, Key(stages[0])) then [Announce(stages[0])] else [];
      var tail := Announced(o, rest);
      assert Announced(o, stages) == head + tail;
      forall i, j | 0 <= i < j < |head + tail| ensures (head + tail)[i].percent < (head + tail)[j].percent {
        if i >= |head| {
          assert (head + tail)[i] == tail[i - |head|] && (head + tail)[j] == tail[j - |head|];
        } else {
          assert (head + tail)[j] == tail[j - 1];
        }
      }
    }
  }

  /** Every stage whose option is on is reported. */
  lemma {:induction false} AnnouncedHas(o: Options, stages: seq<Stage>, i: nat)
    requires i < |stages| && On(o, Key(stages[i]))
    ensures Announce(stages[i]) in Announced(o, stages)
    decreases i
  {
    if i > 0 {
      AnnouncedHas(o, stages[1..], i - 1);
    }
  }

  /** Every report is that of a stage whose option is on. */
  lemma {:induction false} AnnouncedFrom(o: Options, stages: seq<Stage>, k: nat)
    requires k < |Announced(o, stages)|
    ensures exists i :: 0 <= i < |stages| && On(o, Key(stages[i])) && Announced(o, stages)[k] == Announce(stages[i])
    decreases |stages|
  {
    var rest := stages[1..];
    if On(o, Key(stages[0])) && k == 0 {
      assert Announced(o, stages)[0] == Announce(stages[0]);
    } else {
      var d := if On(o, Key(stages[0])) then 1 else 0;
      assert Announced(o, stages)[k] == Announced(o, rest)[k - d];
      AnnouncedFrom(o, rest, k - d);
      var i :| 0 <= i < |rest| && On(o, Key(rest[i])) && Announced(o, rest)[k - d] == Announce(rest[i]);
      assert rest[i] == stages[i + 1];
    }
  }

  /** The callback's percentages rise strictly from 5 to 100, and between
      reading and writing come the enabled stages' reports. */
  lemma ProgressRises(options: Option<Options>)
    ensures var p := Progress(options);
      && Increasing(p)
      && p[0] == Report(5, "Reading PDF...")
      && p[|p| - 2] == Report(90, "Writing file...")
      && p[|p| - 1] == Report(100, "Complete!")
      && p[1..|p| - 2] == Announced(Resolve(options), Stages)
  {
    StageReports(Resolve(options));
    Bracketed(Report(5, "Reading PDF..."), Announced(Resolve(options), Stages), Report(90, "Writing file..."), Report(100, "Complete!"));
  }

  /** The stages' reports rise, all strictly between 5 and 90 percent. */
  lemma StageReports(o: Options)
    ensures var mid := Announced(o, Stages);
      && Increasing(mid)
      && forall k :: 0 <= k < |mid| ==> 5 < mid[k].percent < 90
  {
    StagesRise();
    AnnouncedRises(o, Stages);
    AnnouncedWithin(o, Stages);
  }

  /** Every stage reports between 10 and 70 percent. */
  lemma PercentsWithin()
    ensures forall st :: 10 <= Percent(st) <= 70
  {
  }

  /** Rising reports framed by one report below them all and two above,
      in order, still rise. */
  lemma Bracketed(a: Report, mid: seq<Report>, b: Report, c: Report)
    requires Increasing(mid) && a.percent < b.percent < c.percent
    requires forall k :: 0 <= k < |mid| ==> a.percent < mid[k].percent < b.percent
    ensures var p := [a] + mid + [b, c];
      && Increasing(p) && p[0] == a && p[|p| - 2] == b && p[|p| - 1] == c && p[1..|p| - 2] == mid
  {
    var p := [a] + mid + [b, c];
    assert p[0] == a && p[|mid| + 1] == b && p[|mid| + 2] == c;
    forall i, j | 0 <= i < j < |p| ensures p[i].percent < p[j].percent {
      if i == 0 {
        if j <= |mid| {
          assert p[j] == mid[j - 1];
        }
      } else if i <= |mid| {
        assert p[i] == mid[i - 1];
        if j <= |mid| {
          assert p[j] == mid[j - 1];
        }
      }
    }
    assert p[1..|p| - 2] == mid;
  }

  /** A stage occurs neither before nor after its own position. */
  lemma Alone(st: Stage)
    ensures st !in Stages[..Position(st)] && st !in Stages[Position(st) + 1..]
  {
    Once(st);
    var i := Position(st);
    var back := Stages[i + 1..];
    forall k | 0 <= k < |back| ensures back[k] != st {
      assert back[k] == Stages[i + 1 + k];
    }
  }

  /** Where a stage sits in the pipeline. */
  function Position(st: Stage): (i: nat)
    ensures i < |Stages| && Stages[i] == st
  {
    match st
    case CompressedLang => 0
    case Zone => 1
    case Info(f) =>
      (match f
      case Author => 2
      case Creator => 3
      case Producer => 4
      case Title => 5
      case Subject => 6)
    case PlainLang => 7
    case DocumentId => 8
    case Dates => 9
    case Metadata => 10
  }

  /** A stage occurs in the pipeline only at its own position. */
  lemma Once(st: Stage)
    ensures forall k :: 0 <= k < |Stages| && k != Position(st) ==> Stages[k] != st
  {
    StagesRise();
  }

  /** The bytes a stage starts on. */
  function Before(ps: Passes, o: Options, data: seq<byte>, st: Stage): seq<byte>
  {
    Pipeline(ps, o, Stages[..Position(st)], Run(data, Cleared)).data
  }

  /** Stages that do not own a flag leave it as it was. */
  lemma Untouched(ps: Passes, o: Options, stages: seq<Stage>, s: Run, g: Flag)
    requires Owner(g) !in stages
    ensures g in Pipeline(ps, o, stages, s).stats.raised <==> g in s.stats.raised
  {
    PipelineFlags(ps, o, stages, s);
  }

  /** A flag is in the final statistics exactly when its stage's option is
      on and the stage's search found something in the bytes it started
      on. */
  lemma Exact(ps: Passes, o: Options, data: seq<byte>, g: Flag)
    ensures (g in Pipeline(ps, o, Stages, Run(data, Cleared)).stats.raised) <==> On(o, Key(Owner(g))) && ps.Pass(Owner(g), Before(ps, o, data, Owner(g))).flag
  {
    var st := Owner(g);
    var i := Position(st);
    Once(st);
    var a := Pipeline(ps, o, Stages[..i], Run(data, Cleared));
    Alone(st);
    Untouched(ps, o, Stages[..i], Run(data, Cleared), g);
    PipelineSplit(ps, o, Stages, Run(data, Cleared), i);
    assert Stages[i..][0] == st && Stages[i..][1..] == Stages[i + 1..];
    assert Pipeline(ps, o, Stages[i..], a) == Pipeline(ps, o, Stages[i + 1..], Gate(ps, o, st, a));
    Untouched(ps, o, Stages[i + 1..], Gate(ps, o, st, a), g);
  }

  /** Options name their stages apart, except that both language stages
      answer to one. */
  lemma KeysApart(a: Stage, b: Stage)
    requires Key(a) == Key(b) && Owns(a).Some?
    ensures a == b
  {
  }

  /** Option `k` is the only one on. */
  ghost predicate Only(o: Options, k: string)
  {
    forall x :: On(o, x) <==> x == k
  }

  /** When only `st`'s option is on, no other stage runs. */
  lemma OthersOff(o: Options, st: Stage, k: nat)
    requires Owns(st).Some? && Only(o, Key(st)) && k < |Stages| && k != Position(st)
    ensures !On(o, Key(Stages[k]))
  {
    Once(st);
    if Key(Stages[k]) == Key(st) {
      KeysApart(st, Stages[k]);
    }
  }

  /** When every stage but the `i`th is off, the pipeline is that stage's
      gate. */
  lemma OnlyOne(ps: Passes, o: Options, stages: seq<Stage>, s: Run, i: nat)
    requires i < |stages|
    requires forall k :: 0 <= k < |stages| && k != i ==> !On(o, Key(stages[k]))
    ensures Pipeline(ps, o, stages, s) == Gate(ps, o, stages[i], s)
  {
    var front, back := stages[..i], stages[i + 1..];
    forall k | 0 <= k < |front| ensures !On(o, Key(front[k])) {
      assert front[k] == stages[k];
    }
    forall k | 0 <= k < |back| ensures !On(o, Key(back[k])) {
      assert back[k] == stages[i + 1 + k];
    }
    PipelineOff(ps, o, front, s);
    PipelineSplit(ps, o, stages, s, i);
    assert stages[i..][0] == stages[i] && stages[i..][1..] == back;
    PipelineOff(ps, o, back, Gate(ps, o, stages[i], s));
  }

  /** With only one flag-owning stage's option on, the sanitizer is that
      stage alone. */
  lemma Solo(ps: Passes, o: Options, data: seq<byte>, st: Stage)
    requires Owns(st).Some? && Only(o, Key(st))
    ensures Pipeline(ps, o, Stages, Run(data, Cleared)) == Perform(ps, st, Run(data, Cleared))
  {
    forall k | 0 <= k < |Stages| && k != Position(st) ensures !On(o, Key(Stages[k])) {
      OthersOff(o, st, k);
    }
    assert On(o, Key(st));
    OnlyOne(ps, o, Stages, Run(data, Cleared), Position(st));
  }

  /** When every stage but the `i`th and the `j`th is off, the pipeline is
      their two gates in order. */
  lemma OnlyTwo(ps: Passes, o: Options, stages: seq<Stage>, s: Run, i: nat, j: nat)
    requires i < j < |stages|
    requires forall k :: 0 <= k < |stages| && k != i && k != j ==> !On(o, Key(stages[k]))
    ensures Pipeline(ps, o, stages, s) == Gate(ps, o, stages[j], Gate(ps, o, stages[i], s))
  {
    var front, back := stages[..j], stages[j + 1..];
    forall k | 0 <= k < |front| && k != i ensures !On(o, Key(front[k])) {
      assert front[k] == stages[k];
    }
    OnlyOne(ps, o, front, s, i);
    forall k | 0 <= k < |back| ensures !On(o, Key(back[k])) {
      assert back[k] == stages[j + 1 + k];
    }
    PipelineSplit(ps, o, stages, s, j);
    var mid := Gate(ps, o, stages[i], s);
    assert stages[j..][0] == stages[j] && stages[j..][1..] == back;
    PipelineOff(ps, o, back, Gate(ps, o, stages[j], mid));
  }

  /** Only the two language stages answer to the language-tag option. */
  lemma LangApart(k: nat)
    requires k < |Stages| && k != Position(CompressedLang) && k != Position(PlainLang)
    ensures Key(Stages[k]) != "remove_lang_tags"
  {
    Once(CompressedLang);
    Once(PlainLang);
    if Key(Stages[k]) == "remove_lang_tags" {
      KeysApart(Stages[k], PlainLang);
    }
  }

  /** With only the language-tag option on, the sanitizer is the
      compressed-stream stage followed by the uncompressed one. */
  lemma LangOnly(ps: Passes, o: Options, data: seq<byte>)
    requires Only(o, "remove_lang_tags")
    ensures Pipeline(ps, o, Stages, Run(data, Cleared)) == Perform(ps, PlainLang, Perform(ps, CompressedLang, Run(data, Cleared)))
  {
    forall k | 0 <= k < |Stages| && k != 0 && k != 7 ensures !On(o, Key(Stages[k])) {
      LangApart(k);
    }
    assert Stages[0] == CompressedLang && Stages[7] == PlainLang;
    assert On(o, Key(CompressedLang)) && On(o, Key(PlainLang));
    OnlyTwo(ps, o, Stages, Run(data, Cleared), 0, 7);
  }

  /** An information entry's pass. */
  function InfoPass(f: Fields.Field, t: seq<byte>): Step
  {
    Fields.NamesShaped(f);
    Fields.FieldPass(Fields.Name(f), t)
  }

  /** The sanitizer's own passes, with `c` standing for zlib. */
  function Concrete(c: Streams.Codec): Passes
  {
    Passes(t => Streams.StreamPass(c, t), Timezone.TimezonePass, InfoPass, Lang.LangPass, DocId.DocIdPass, Timestamps.TimestampsPass, Xmp.XmpPass)
  }

  /** The language tags the compressed-stream pass rewrites in `t`. */
  function Tags(c: Streams.Codec, t: seq<byte>): nat
  {
    Streams.StreamPass(c, t).tags
  }

  /** `sanitize_pdf` on the bytes read from the input file: the options
      given, or the defaults; statistics reset; then every stage in order,
      each when its option is on. */
  function Sanitize(c: Streams.Codec, data: seq<byte>, options: Option<Options>): Run
  {
    Pipeline(Concrete(c), Resolve(options), Stages, Run(data, Cleared))
  }

  /** A flag is raised only when its option is on, the count is the
      compressed-stream stage's (0 when it is off), and with every option
      off the bytes come back as read with nothing reported. */
  lemma SanitizeReports(c: Streams.Codec, data: seq<byte>, options: Option<Options>)
    ensures var r := Sanitize(c, data, options);
      && (forall g :: g in r.stats.raised ==> On(Resolve(options), Key(Owner(g))))
      && r.stats.langTags == (if On(Resolve(options), "remove_lang_tags") then Tags(c, data) else 0)
      && ((forall k :: k in Keys ==> !On(Resolve(options), k)) ==> r == Run(data, Cleared))
  {
    ReportsConcrete(c, Resolve(options), data);
  }

  /** What the pipeline over the sanitizer's passes reports. */
  lemma ReportsConcrete(c: Streams.Codec, o: Options, data: seq<byte>)
    ensures var r := Pipeline(Concrete(c), o, Stages, Run(data, Cleared));
      && (forall g :: g in r.stats.raised ==> On(o, Key(Owner(g))))
      && r.stats.langTags == (if On(o, "remove_lang_tags") then Tags(c, data) else 0)
      && ((forall k :: k in Keys ==> !On(o, k)) ==> r == Run(data, Cleared))
  {
    Facts(Concrete(c), o, data);
    ConcreteStreams(c, data);
  }

  /** What the pipeline over the sanitizer's stages reports, for any
      passes: flags only of stages switched on, the compressed-stream
      stage's count or 0, and nothing at all with every option off. */
  lemma Facts(ps: Passes, o: Options, data: seq<byte>)
    ensures var r := Pipeline(ps, o, Stages, Run(data, Cleared));
      && (forall g :: g in r.stats.raised ==> On(o, Key(Owner(g))))
      && r.stats.langTags == (if On(o, "remove_lang_tags") then ps.Tally(data) else 0)
      && ((forall k :: k in Keys ==> !On(o, k)) ==> r == Run(data, Cleared))
  {
    var s := Run(data, Cleared);
    PipelineFlags(ps, o, Stages, s);
    assert Stages[0] == CompressedLang && Key(CompressedLang) == "remove_lang_tags";
    Alone(CompressedLang);
    PipelineCount(ps, o, Stages[1..], Gate(ps, o, CompressedLang, s));
    AllOff(ps, o, s);
  }

  /** With every one of the ten options off, the pipeline changes nothing. */
  lemma AllOff(ps: Passes, o: Options, s: Run)
    ensures (forall k :: k in Keys ==> !On(o, k)) ==> Pipeline(ps, o, Stages, s) == s
  {
    if forall k :: k in Keys ==> !On(o, k) {
      KeysCovered();
      PipelineOff(ps, o, Stages, s);
    }
  }

  /** Every stage's option is one of the ten names. */
  lemma KeysCovered()
    ensures forall i :: 0 <= i < |Stages| ==> Key(Stages[i]) in Keys
  {
  }

  /** A flag is in the statistics `sanitize_pdf` returns exactly when its
      option is on and its stage's search found something in the bytes
      that stage started on. */
  lemma SanitizeStats(c: Streams.Codec, data: seq<byte>, options: Option<Options>, g: Flag)
    ensures var o := Resolve(options);
      (g in Sanitize(c, data, options).stats.raised) <==> On(o, Key(Owner(g))) && Concrete(c).Pass(Owner(g), Before(Concrete(c), o, data, Owner(g))).flag
  {
    Exact(Concrete(c), Resolve(options), data, g);
  }

  /** A stage whose search always succeeds raises its flag exactly when
      its option is on. */
  lemma AlwaysFound(ps: Passes, o: Options, data: seq<byte>, g: Flag)
    requires forall t :: ps.Pass(Owner(g), t).flag
    ensures On(o, Key(Owner(g))) <==> g in Pipeline(ps, o, Stages, Run(data, Cleared)).stats.raised
  {
    Exact(ps, o, data, g);
  }

  /** The XMP flag is raised whenever the XMP option is on, whatever the
      document holds. */
  lemma SanitizeXmp(c: Streams.Codec, data: seq<byte>, options: Option<Options>)
    ensures On(Resolve(options), "remove_xmp") <==> XmpFlag in Sanitize(c, data, options).stats.raised
  {
    forall t ensures Concrete(c).xmp(t).flag {
      assert Concrete(c).xmp(t) == Xmp.XmpPass(t);
    }
    XmpAlways(Concrete(c), Resolve(options), data);
  }

  /** An XMP pass that always raises its flag raises it exactly when
      `remove_xmp` is on. */
  lemma XmpAlways(ps: Passes, o: Options, data: seq<byte>)
    requires forall t :: ps.xmp(t).flag
    ensures On(o, "remove_xmp") <==> XmpFlag in Pipeline(ps, o, Stages, Run(data, Cleared)).stats.raised
  {
    forall t ensures ps.Pass(Owner(XmpFlag), t).flag {
      assert ps.Pass(Metadata, t) == ps.xmp(t);
    }
    AlwaysFound(ps, o, data, XmpFlag);
    XmpKey();
  }

  /** The XMP flag answers to `remove_xmp`. */
  lemma XmpKey()
    ensures Key(Owner(XmpFlag)) == "remove_xmp"
  {
  }

  /** Without options, every stage runs, in order. */
  lemma SanitizeDefaults(c: Streams.Codec, data: seq<byte>)
    ensures Sanitize(c, data, None) == Chain(Concrete(c), Stages, Run(data, Cleared))
  {
    DefaultsOn();
    KeysCovered();
    AllOn(Concrete(c), Defaults(), Stages, Run(data, Cleared));
  }

  /** With only one flag-owning stage's option on, the output is that
      stage's pass and the statistics hold at most its flag. */
  lemma SoloRun(ps: Passes, o: Options, data: seq<byte>, st: Stage)
    requires Owns(st).Some? && Only(o, Key(st))
    ensures var r := Pipeline(ps, o, Stages, Run(data, Cleared));
      && r.data == ps.Pass(st, data).out
      && r.stats == Stats(if ps.Pass(st, data).flag then {Owns(st).value} else {}, 0)
  {
    Solo(ps, o, data, st);
  }

  /** With only one flag-owning option on, `sanitize_pdf` runs that stage's
      pass alone, and reports its flag when its search found something. */
  lemma SanitizeSolo(c: Streams.Codec, data: seq<byte>, options: Option<Options>, st: Stage)
    requires Owns(st).Some? && Only(Resolve(options), Key(st))
    ensures var r := Sanitize(c, data, options);
      && r.data == Concrete(c).Pass(st, data).out
      && r.stats == Stats(if Concrete(c).Pass(st, data).flag then {Owns(st).value} else {}, 0)
  {
    SoloRun(Concrete(c), Resolve(options), data, st);
  }

  /** With only the language-tag option on, the output is the
      compressed-stream pass and then the uncompressed pass, and the
      statistics hold the compressed-stream count and no flag. */
  lemma LangRun(ps: Passes, o: Options, data: seq<byte>)
    requires Only(o, "remove_lang_tags")
    ensures var r := Pipeline(ps, o, Stages, Run(data, Cleared));
      && r.data == ps.plain(ps.streams(data).out)
      && r.stats == Stats({}, ps.Tally(data))
  {
    LangOnly(ps, o, data);
    var first := Perform(ps, CompressedLang, Run(data, Cleared));
    LangCounts(ps, data);
    LangKeeps(ps, first);
    LangSteps(ps, data, first.data);
  }

  /** The language stages run the compressed-stream pass and the
      uncompressed pass. */
  lemma LangSteps(ps: Passes, t: seq<byte>, u: seq<byte>)
    ensures ps.Pass(CompressedLang, t).out == ps.streams(t).out
    ensures ps.Pass(PlainLang, u).out == ps.plain(u)
  {
  }

  /** The compressed-stream stage raises no flag and counts its tags. */
  lemma LangCounts(ps: Passes, data: seq<byte>)
    ensures Perform(ps, CompressedLang, Run(data, Cleared)).stats == Stats({}, ps.Tally(data))
  {
    assert Owns(CompressedLang) == None;
  }

  /** The uncompressed language stage leaves the statistics alone. */
  lemma LangKeeps(ps: Passes, s: Run)
    ensures Perform(ps, PlainLang, s).stats == s.stats
  {
    assert Owns(PlainLang) == None;
  }

  /** With only `remove_lang_tags` on, `sanitize_pdf` rewrites the tags
      inside compressed streams, then the uncompressed ones, and reports
      how many it rewrote inside streams. */
  lemma SanitizeLang(c: Streams.Codec, data: seq<byte>, options: Option<Options>)
    requires Only(Resolve(options), "remove_lang_tags")
    ensures var r := Sanitize(c, data, options);
      && r.data == Lang.LangPass(Streams.StreamPass(c, data).out)
      && r.stats == Stats({}, Tags(c, data))
  {
    LangConcrete(c, Resolve(options), data);
  }

  /** The pipeline over the sanitizer's passes with only
      `remove_lang_tags` on. */
  lemma LangConcrete(c: Streams.Codec, o: Options, data: seq<byte>)
    requires Only(o, "remove_lang_tags")
    ensures var r := Pipeline(Concrete(c), o, Stages, Run(data, Cleared));
      && r.data == Lang.LangPass(Streams.StreamPass(c, data).out)
      && r.stats == Stats({}, Tags(c, data))
  {
    LangRun(Concrete(c), o, data);
    ConcreteStreams(c, data);
    ConcretePlain(c, Streams.StreamPass(c, data).out);
  }

  /** The sanitizer's compressed-stream pass and its count. */
  lemma ConcreteStreams(c: Streams.Codec, t: seq<byte>)
    ensures Concrete(c).streams(t) == Streams.StreamPass(c, t)
    ensures Concrete(c).Tally(t) == Tags(c, t)
  {
  }

  /** The sanitizer's uncompressed language pass. */
  lemma ConcretePlain(c: Streams.Codec, t: seq<byte>)
    ensures Concrete(c).plain(t) == Lang.LangPass(t)
  {
  }

  /** Passes that leave `t` as it is and find nothing in it, except that
      the XMP pass may still raise its flag. */
  ghost predicate Idle(ps: Passes, t: seq<byte>)
  {
    && ps.streams(t) == Streams.Outcome(t, 0)
    && ps.zone(t) == Step(t, false)
    && (forall f :: ps.info(f, t) == Step(t, false))
    && ps.plain(t) == t
    && ps.docId(t) == Step(t, false)
    && ps.dates(t) == Step(t, false)
    && ps.xmp(t).out == t
  }

  /** The flag the XMP stage adds when it runs among `stages` on `t`. */
  function XmpRaised(ps: Passes, o: Options, stages: seq<Stage>, t: seq<byte>): set<Flag>
  {
    if Metadata in stages && On(o, Key(Metadata)) && ps.xmp(t).flag then {XmpFlag} else {}
  }

  /** On idle bytes a gated stage keeps the bytes and the count, and adds
      at most the XMP flag. */
  lemma IdleGate(ps: Passes, o: Options, st: Stage, s: Run)
    requires Idle(ps, s.data)
    ensures Gate(ps, o, st, s) == Run(s.data, Stats(s.stats.raised + XmpRaised(ps, o, [st], s.data), s.stats.langTags))
  {
    var r := Gate(ps, o, st, s);
    if On(o, Key(st)) {
      assert ps.Pass(st, s.data).out == s.data;
      assert st.CompressedLang? ==> ps.Tally(s.data) == 0;
      forall g ensures g in r.stats.raised <==> g in s.stats.raised + XmpRaised(ps, o, [st], s.data) {
        if Owns(st) == Some(g) {
          OwnerUnique(st, g);
        }
      }
    }
  }

  /** On idle bytes the pipeline keeps the bytes and the count, and adds
      at most the XMP flag. */
  lemma {:induction false} IdleFold(ps: Passes, o: Options, stages: seq<Stage>, s: Run)
    requires Idle(ps, s.data)
    ensures Pipeline(ps, o, stages, s) == Run(s.data, Stats(s.stats.raised + XmpRaised(ps, o, stages, s.data), s.stats.langTags))
    decreases |stages|
  {
    if |stages| > 0 {
      var next := Gate(ps, o, stages[0], s);
      IdleGate(ps, o, stages[0], s);
      IdleFold(ps, o, stages[1..], next);
      assert Metadata in stages <==> Metadata in [stages[0]] || Metadata in stages[1..];
    }
  }

  /** Nothing in `t` for any pass to rewrite: no compressed stream holding
      a language tag once inflated, no zoned date, no value of any
      information entry, no language tag, no document ID, no creation or
      modification date, and no opening tag of a rewritten XMP element. */
  ghost predicate Clean(c: Streams.Codec, t: seq<byte>)
  {
    && Streams.NoTaggedRegion(c, t)
    && !Timezone.HasZone(t)
    && (forall f :: Fields.Unvalued(t, Fields.Name(f)))
    && !Lang.HasTag(t)
    && !Occurs(DocId.HeadMatcher(), t)
    && !Written(t, Timestamps.CreationKey, RParen, [RParen], false)
    && !Written(t, Timestamps.ModKey, RParen, [RParen], false)
    && Xmp.Unmarked(t)
  }

  /** The sanitizer's passes are idle on clean bytes. */
  lemma CleanIdle(c: Streams.Codec, t: seq<byte>)
    requires Clean(c, t)
    ensures Idle(Concrete(c), t)
  {
    StreamsIdle(c, t);
    ZoneIdle(c, t);
    InfoIdle(c, t);
    PlainIdle(c, t);
    DocIdIdle(c, t);
    DatesIdle(c, t);
    XmpKept(c, t);
  }

  /** The compressed-stream pass keeps a buffer with no tagged region and counts nothing. */
  lemma StreamsIdle(c: Streams.Codec, t: seq<byte>)
    requires Streams.NoTaggedRegion(c, t)
    ensures Concrete(c).streams(t) == Streams.Outcome(t, 0)
  {
    ConcreteStreams(c, t);
  }

  /** The timezone pass keeps bytes without a zoned date. */
  lemma ZoneIdle(c: Streams.Codec, t: seq<byte>)
    requires !Timezone.HasZone(t)
    ensures Concrete(c).zone(t) == Step(t, false)
  {
    assert Concrete(c).zone(t) == Timezone.TimezonePass(t);
  }

  /** Every information-entry pass keeps bytes without its values. */
  lemma InfoIdle(c: Streams.Codec, t: seq<byte>)
    requires forall f :: Fields.Unvalued(t, Fields.Name(f))
    ensures forall f :: Concrete(c).info(f, t) == Step(t, false)
  {
    forall f ensures Concrete(c).info(f, t) == Step(t, false) {
      Fields.NamesShaped(f);
      Fields.FieldPassNoMatch(Fields.Name(f), t);
      assert Concrete(c).info(f, t) == InfoPass(f, t);
    }
  }

  /** The uncompressed language pass keeps bytes without the tag. */
  lemma PlainIdle(c: Streams.Codec, t: seq<byte>)
    requires !Lang.HasTag(t)
    ensures Concrete(c).plain(t) == t
  {
    ConcretePlain(c, t);
  }

  /** The document-ID pass keeps bytes without an ID entry. */
  lemma DocIdIdle(c: Streams.Codec, t: seq<byte>)
    requires !Occurs(DocId.HeadMatcher(), t)
    ensures Concrete(c).docId(t) == Step(t, false)
  {
    assert Concrete(c).docId(t) == DocId.DocIdPass(t);
  }

  /** The timestamp pass keeps bytes without dates. */
  lemma DatesIdle(c: Streams.Codec, t: seq<byte>)
    requires !Written(t, Timestamps.CreationKey, RParen, [RParen], false)
    requires !Written(t, Timestamps.ModKey, RParen, [RParen], false)
    ensures Concrete(c).dates(t) == Step(t, false)
  {
    Timestamps.TimestampsNoMatch(t);
    assert Concrete(c).dates(t) == Timestamps.TimestampsPass(t);
  }

  /** The XMP pass keeps bytes without the elements it rewrites, and
      still raises its flag. */
  lemma XmpKept(c: Streams.Codec, t: seq<byte>)
    requires Xmp.Unmarked(t)
    ensures Concrete(c).xmp(t) == Step(t, true)
  {
    Xmp.XmpIdle(t);
    assert Concrete(c).xmp(t) == Xmp.XmpPass(t);
  }

  /** A document with nothing to rewrite comes back byte for byte, and the
      only thing reported is the XMP flag, raised when its option is on. */
  lemma SanitizeClean(c: Streams.Codec, data: seq<byte>, options: Option<Options>)
    requires Clean(c, data)
    ensures Sanitize(c, data, options) == Run(data, Stats(if On(Resolve(options), "remove_xmp") then {XmpFlag} else {}, 0))
  {
    CleanRun(c, data, Resolve(options));
  }

  /** The pipeline over the sanitizer's passes on clean bytes, for any
      options. */
  lemma CleanRun(c: Streams.Codec, data: seq<byte>, o: Options)
    requires Clean(c, data)
    ensures Pipeline(Concrete(c), o, Stages, Run(data, Cleared)) == Run(data, Stats(if On(o, "remove_xmp") then {XmpFlag} else {}, 0))
  {
    CleanIdle(c, data);
    XmpKept(c, data);
    IdleRun(Concrete(c), o, data);
  }

  /** On idle bytes the sanitizer's stages keep the bytes, count nothing,
      and raise at most the XMP flag, when its option is on. */
  lemma IdleRun(ps: Passes, o: Options, data: seq<byte>)
    requires Idle(ps, data) && ps.xmp(data).flag
    ensures Pipeline(ps, o, Stages, Run(data, Cleared)) == Run(data, Stats(if On(o, "remove_xmp") then {XmpFlag} else {}, 0))
  {
    IdleFold(ps, o, Stages, Run(data, Cleared));
    MetadataLast();
  }

  /** The XMP stage is among the stages and answers to `remove_xmp`. */
  lemma MetadataLast()
    ensures Metadata in Stages && Key(Metadata) == "remove_xmp"
  {
    assert Stages[10] == Metadata;
  }
}
