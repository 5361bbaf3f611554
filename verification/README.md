# PDF forensic sanitizer — a Dafny model of `sanitize_pdf`

This project models `PDFSanitizer.sanitize_pdf`, the core of a small tool
that strips identifying metadata from a PDF file. The function reads the
whole file into one byte buffer. It then runs a fixed sequence of
byte-level regular-expression rewrites over that buffer, each switched on by
one option:

1. language tags inside zlib-compressed streams;
2. the timezone suffix of PDF dates;
3. the five information entries Author, Creator, Producer, Title and Subject;
4. language tags in the raw file;
5. the document ID;
6. the creation and modification dates;
7. the XMP metadata elements.

It returns the output path and a statistics record that says which passes
found something, plus how many compressed language tags it rewrote.

The model is functional. Buffers are `seq<byte>`. Every pass is an instance
of one generic primitive, `Substitute.SubAll`: Python's `re.sub`, a
leftmost, non-overlapping, left-to-right substitute-all. It is parameterised
by a `Matcher`, which says what a pattern matches at the start of a buffer.
`Substitute.Occurs` is `re.search`.

Each pattern shape is modelled with Python's backtracking semantics:
- `key[^x]*close` and its `+` form (`Regex.DelimitedMatch`);
- the lazy DOTALL `open.*?close` (`Regex.LazyMatch`);
- a literal;
- the zoned date;
- the document-ID array;
- the stream region.

The passes are pure functions from a buffer to a `Step` (new buffer, flag).
`Sanitizer.Pipeline` folds them in the source's order. A stage runs only
when its option is on. The first stage adds to the language-tag count; every
other stage may raise its own flag. `Sanitizer.Sanitize` applies this to the
sanitizer's own passes (`Sanitizer.Concrete`). `Sanitizer.Progress` is the
sequence of progress reports the callback would receive.

zlib is a parameter: `Streams.Codec` holds a total `inflate`, which gives
`None` where `zlib.decompress` raises, and a `deflate`. No law connects the
two, except in the one lemma that asks for it (`Streams.StreamRerun`).

The buffer is a parameter. Reading and writing the files is not modelled.
The default output path is modelled separately (`Paths`).

Some consequences of the code are worth stating on their own:
- **Document ID hex strings.** The strings in the document-ID array are
  matched with `[A-Fa-f0-9]+`, so hex of any length is accepted.
- **Flags on a second run, pass by pass.** The document-ID pass, run on
  its own output, raises its flag again exactly when it raised it the
  first time: the zero ID it writes still holds `/ID[<hex>`
  (`DocId.DocIdFlagAgain`). The timestamp pass raises its flag again on the
  epoch date it writes, a non-empty `/CreationDate(...)`
  (`Timestamps.TimestampsRestamp`), but not on every output: a `/ModDate(`
  value can swallow a later `/CreationDate(` (`/ModDate(/CreationDate(x)`),
  so this flag is stated only for the shapes in
  `Timestamps.TimestampsSplice` and `Timestamps.TimestampsRestamp`. Neither
  fact carries over to a whole run: the timestamp rewrite runs after the
  document-ID rewrite and can swallow the zero ID into a date, as in
  `/CreationDate(/ID[<ab><cd>])`.
- **Bytes on a second run, pass by pass.** Each pass over the raw file,
  run on its own output, returns it unchanged
  (`Fields.FieldPassIdempotent`, `Timezone.TimezoneIdempotent`,
  `Lang.LangIdempotent`, `DocId.DocIdIdempotent`,
  `Timestamps.TimestampsIdempotent`, `XmpSettle.XmpIdempotent`). For the
  XMP pass this covers the nine rewrites together: a later rewrite never
  creates a match for an earlier one (`XmpSettle.CrossRule`). The stream
  pass copies a region it rebuilt when the codec round-trips and the
  recompressed payload holds no `\nendstream` (`Streams.StreamRerun`). A
  whole second run of the pipeline is not proved to return the same bytes
  (see "Left out").

## Model

| member | source | states |
|---|---|---|
| Sanitizer.DefaultsOn | pdf_sanitizer_full.py:28-34 | with no options given, exactly the ten option names are switched on |
| Sanitizer.SanitizeDefaults | pdf_sanitizer_full.py:28-34 | a call without options runs every stage, in order, on the cleared statistics |
| Sanitizer.Perform | pdf_sanitizer_full.py:79-86 | one stage raises only its own flag, exactly when its search found something, and only the compressed-stream stage adds to the tag count |
| Sanitizer.SanitizeReports | pdf_sanitizer_full.py:36-40 | every raised flag belongs to an enabled option; the tag count is the compressed-stream count when language tags are on and 0 otherwise; with every option off the buffer and the cleared statistics come back as they were |
| Sanitizer.ReportsConcrete | pdf_sanitizer_full.py:36-40 | the same three facts for the sanitizer's own passes under any options |
| Sanitizer.Facts | pdf_sanitizer_full.py:36-68 | the same three facts for any passes: flags only from enabled options, count only from the compressed-stream stage, nothing at all when every option is off |
| Sanitizer.SanitizeStats | pdf_sanitizer_full.py:71-155 | a flag is raised if and only if its option is on and its pass, run on the buffer as the earlier stages left it, found a match |
| Sanitizer.Exact | pdf_sanitizer_full.py:71-155 | the same if-and-only-if for any passes |
| Sanitizer.PipelineOff | pdf_sanitizer_full.py:49 | stages whose options are all off leave the buffer and the statistics unchanged |
| Sanitizer.PipelineFlags | pdf_sanitizer_full.py:71-155 | running stages never lowers a flag, and every new flag belongs to a stage that ran with its option on |
| Sanitizer.PipelineCount | pdf_sanitizer_full.py:59 | stages other than the compressed-stream one never change the tag count |
| Sanitizer.Untouched | pdf_sanitizer_full.py:71-155 | a flag whose stage is not among the stages run keeps its value |
| Sanitizer.AllOn | pdf_sanitizer_full.py:49-177 | with every option on, the stages run one after another in the fixed order |
| Sanitizer.PipelineKeeps | pdf_sanitizer_full.py:49-177 | when every pass leaves a buffer as it is, the pipeline leaves it as it is |
| Sanitizer.PipelineSplit | pdf_sanitizer_full.py:49-177 | the pipeline over a list of stages is the pipeline over its tail after the pipeline over its head |
| Sanitizer.AllOff | pdf_sanitizer_full.py:49-177 | with all ten options off the run is unchanged |
| Sanitizer.KeysCovered | pdf_sanitizer_full.py:49-152 | every stage is switched by one of the ten option names |
| Sanitizer.KeysApart | pdf_sanitizer_full.py:71-152 | two flag-owning stages with the same option are the same stage |
| Sanitizer.LangApart | pdf_sanitizer_full.py:49-128 | only the two language stages are switched by `remove_lang_tags` |
| Sanitizer.OnlyOne | pdf_sanitizer_full.py:49-177 | when only one stage's option is on, the pipeline is that stage alone |
| Sanitizer.OnlyTwo | pdf_sanitizer_full.py:49-177 | when only two stages' options are on, the pipeline is those two stages in order |
| Sanitizer.Solo | pdf_sanitizer_full.py:71-177 | with only one flag-owning option on, the pipeline is that stage run on the input with cleared statistics |
| Sanitizer.SoloRun | pdf_sanitizer_full.py:71-177 | with only one flag-owning option on, the output is that pass's output on the input, and its flag is the only one raised, exactly when that pass found something; the count is 0 |
| Sanitizer.SanitizeSolo | pdf_sanitizer_full.py:71-177 | the same for the sanitizer's own passes |
| Sanitizer.LangOnly | pdf_sanitizer_full.py:49-128 | with only `remove_lang_tags` on, the pipeline is the compressed-stream stage followed by the uncompressed stage |
| Sanitizer.LangRun | pdf_sanitizer_full.py:49-128 | with only `remove_lang_tags` on, the output is the uncompressed rewrite of the stream pass's output; no flag is raised; the count is the stream pass's count |
| Sanitizer.SanitizeLang | pdf_sanitizer_full.py:49-128 | the same with the real stream pass and the real `/Lang(he)` rewrite |
| Sanitizer.LangConcrete | pdf_sanitizer_full.py:49-128 | the same, for any options in which only `remove_lang_tags` is on |
| Sanitizer.XmpAlways | pdf_sanitizer_full.py:152-155 | for a metadata pass that always reports, the XMP flag is raised if and only if `remove_xmp` is on |
| Sanitizer.SanitizeXmp | pdf_sanitizer_full.py:152-155 | the sanitizer raises the XMP flag if and only if `remove_xmp` is on, whatever the document holds |
| Sanitizer.AlwaysFound | pdf_sanitizer_full.py:152-155 | a flag whose pass always reports is raised if and only if its option is on |
| Sanitizer.IdleRun | pdf_sanitizer_full.py:49-177 | on a buffer no pass changes, the output is the input and only the XMP flag can be raised (when its option is on) |
| Sanitizer.IdleFold | pdf_sanitizer_full.py:49-177 | on a buffer no pass changes, any run of stages keeps the buffer and the count and adds at most the XMP flag |
| Sanitizer.CleanIdle | pdf_sanitizer_full.py:53-177 | a document with no matching stream region, zoned date, field value, `/Lang(he)`, document ID, date literal or XMP element is left unchanged by every one of the sanitizer's passes |
| Sanitizer.SanitizeClean | pdf_sanitizer_full.py:21-189 | such a clean document comes back byte-identical, with no flag but the XMP one (raised exactly when `remove_xmp` is on) and count 0 |
| Sanitizer.CleanRun | pdf_sanitizer_full.py:21-189 | the same for any options |
| Sanitizer.StreamsIdle | pdf_sanitizer_full.py:53-68 | the stream pass keeps a buffer with no rewritable region and counts nothing |
| Sanitizer.DocIdIdle | pdf_sanitizer_full.py:134-140 | without `/ID[<hex>` the document-ID pass keeps the buffer and reports nothing |
| Sanitizer.ProgressRises | pdf_sanitizer_full.py:45-187 | the progress reports strictly increase; they open with 5 "Reading PDF...", close with 90 "Writing file..." and 100 "Complete!", and in between hold the reports of the enabled stages |
| Sanitizer.AnnouncedRises | pdf_sanitizer_full.py:49-154 | the enabled stages' reports strictly increase when the stages' percentages do |
| Sanitizer.StagesRise | pdf_sanitizer_full.py:51-154 | the stages' percentages strictly increase in pipeline order |
| Sanitizer.AnnouncedHas | pdf_sanitizer_full.py:49-154 | every stage whose option is on is reported |
| Sanitizer.AnnouncedFrom | pdf_sanitizer_full.py:49-154 | every report comes from a stage whose option is on |
| Sanitizer.AnnouncedWithin | pdf_sanitizer_full.py:51-154 | every stage report lies between 10 and 70 percent |
| Substitute.SubstituteAll | pdf_sanitizer_full.py:85 | the scanning loop computes the leftmost non-overlapping substitute-all |
| Substitute.Search | pdf_sanitizer_full.py:83 | the search loop answers true if and only if the pattern matches somewhere |
| Substitute.Find | pdf_sanitizer_full.py:75 | the leftmost position where the pattern matches, or none when it matches nowhere |
| Substitute.SubAllNoMatch | pdf_sanitizer_full.py:85 | a buffer in which the pattern matches nowhere is returned unchanged |
| Substitute.NextMatch | pdf_sanitizer_full.py:85 | the bytes before the first match are kept, the match is replaced, and the scan resumes after it |
| Substitute.GapSkip | pdf_sanitizer_full.py:85 | bytes where no match starts are copied as they are |
| Substitute.OccursSplit | pdf_sanitizer_full.py:83 | a pattern occurs in a buffer if and only if it matches at its start or occurs in its tail |
| Substitute.CountOccurs | pdf_sanitizer_full.py:58 | the number of matches is positive if and only if the pattern occurs |
| Substitute.TallyNoMatch | pdf_sanitizer_full.py:58-59 | where the pattern occurs nowhere, nothing is counted |
| Substitute.LengthTally | pdf_sanitizer_full.py:77 | the output length plus the per-match shrinkage adds up to the input length |
| Substitute.TallyEach | pdf_sanitizer_full.py:58-59 | adding a fixed amount per match adds that amount times the number of matches |
| Substitute.LengthShift | pdf_sanitizer_full.py:77 | when every replacement is shorter than its match by `c`, the output is shorter by `c` per match |
| Substitute.SubAllFixed | pdf_sanitizer_full.py:85 | when every match is replaced by itself, the buffer is unchanged |
| Substitute.AbsentStaysAbsent | pdf_sanitizer_full.py:85 | a byte in neither the buffer nor the replacement is not in the output |
| Substitute.FirstMatch | pdf_sanitizer_full.py:68 | when the first match of `x mid y` is exactly `mid`, `x` is copied, `mid` replaced, and both the substitution and the tally carry on with `y` |
| Substitute.SpliceOne | pdf_sanitizer_full.py:85 | one match surrounded by bytes without the pattern's first byte is the only change |
| Regex.DelimitedFound | pdf_sanitizer_full.py:83-86 | a match of `key[^x]*close` (or `+`) is the key, a run without the stop byte (non-empty for `+`), and the closing byte |
| Regex.DelimitedFinds | pdf_sanitizer_full.py:83-86 | any such key, run and close at the start of a buffer is matched, and exactly that far |
| Regex.DelimitedEmptyRejected | pdf_sanitizer_full.py:83 | the `+` form does not match an empty value |
| Regex.DelimitedUnclosed | pdf_sanitizer_full.py:85 | a key with no stop byte after it is not matched |
| Regex.DelimitedBlocked | pdf_sanitizer_full.py:85 | a key whose first stop byte does not start the closing text is not matched |
| Regex.IndexOf | pdf_sanitizer_full.py:159 | the first position at or after `i` where a literal occurs, or none |
| Regex.Span | pdf_sanitizer_full.py:85 | a greedy class run ends at the first byte outside the class |
| Regex.CompilePrefix | pdf_sanitizer_full.py:85 | what a pattern matches is a prefix of the buffer |
| Settle.DelimitedOccurs | pdf_sanitizer_full.py:83 | the search finds `key[^x]*close` if and only if the buffer holds the key, a run without the stop byte and the close |
| Settle.DelimitedSettles | pdf_sanitizer_full.py:85-86 | after the rewrite to a fixed value, every match left is that value |
| Settle.SettledIsFixed | pdf_sanitizer_full.py:85-86 | on a buffer whose every match is the fixed value, the rewrite changes nothing |
| Settle.CrossSettles | pdf_sanitizer_full.py:85-86 | the hex-string rewrite keeps the literal-string rewrite settled |
| Settle.SettledEmptyNoValue | pdf_sanitizer_full.py:83 | when every literal is the empty one, the `+` search finds nothing |
| Contained.ContainedSettles | pdf_sanitizer_full.py:136-140 | a self-contained pattern rewritten to a text that reproduces itself leaves only that text as matches |
| Nearest.LazyFound | pdf_sanitizer_full.py:159-161 | a lazy match is the open tag, content in which the close tag does not start, and the close tag |
| Nearest.LazyFinds | pdf_sanitizer_full.py:159-161 | an open tag followed by such content and the close tag is matched exactly that far |
| Nearest.NoCloseNoMatch | pdf_sanitizer_full.py:159-161 | without a close tag there is no lazy match |
| Nearest.LazySettles | pdf_sanitizer_full.py:159-167 | after rewriting to a fixed element, every lazy match left is that element |
| Clear.ClearsAll | pdf_sanitizer_full.py:77 | for a windowed pattern whose replacement can never match, nothing matches in the output |
| Fields.FieldPass | pdf_sanitizer_full.py:83-86 | the field flag is true if and only if the key has a non-empty literal or hex value |
| Fields.FieldPassClears | pdf_sanitizer_full.py:85-86 | after the pass every literal value of the key is `()`, every hex value is `<>`, and no non-empty value remains |
| Fields.FieldPassIdempotent | pdf_sanitizer_full.py:83-86 | running the pass on its own output changes nothing and raises no flag |
| Fields.FieldPassNoMatch | pdf_sanitizer_full.py:83-86 | a buffer without any value for the key is returned unchanged with the flag false |
| Fields.FieldPassSplice | pdf_sanitizer_full.py:83-86 | one `/Key(v)` among key-free bytes becomes `/Key()`, everything else kept, flag true if and only if `v` is non-empty |
| Fields.LiteralSplice | pdf_sanitizer_full.py:85 | the literal rewrite replaces one `/Key(v)` by `/Key()` and keeps the bytes around it |
| Fields.FieldPassHexSplice | pdf_sanitizer_full.py:83-86 | one `/Key<v>` with `v` free of `/`, among key-free bytes, becomes `/Key<>`, everything else kept, flag true if and only if `v` is non-empty |
| Fields.HexSplice | pdf_sanitizer_full.py:86 | the hex rewrite replaces one `/Key<v>` by `/Key<>` and keeps the bytes around it |
| Fields.EmptySpliceIdle | pdf_sanitizer_full.py:83-86 | an empty literal value is found by neither search and not by the hex rewrite |
| Fields.NamesShaped | pdf_sanitizer_full.py:80-122 | each of the five keys starts with `/` and holds no other delimiter |
| Timezone.TimezonePass | pdf_sanitizer_full.py:74-77 | the timezone flag is true if and only if a zoned date is present, and a buffer without one is unchanged |
| Timezone.ZonedParts | pdf_sanitizer_full.py:74 | a zoned date is a date stamp followed by an offset |
| Timezone.DateOccurs | pdf_sanitizer_full.py:75 | the search finds a zoned date if and only if the buffer holds one |
| Timezone.DateHit | pdf_sanitizer_full.py:74 | at a zoned date the pattern matches its 23 bytes and captures the 16-byte date stamp as group 1 |
| Timezone.ZuluBlocks | pdf_sanitizer_full.py:74 | a date already marked `Z` is not matched |
| Timezone.TimezoneClears | pdf_sanitizer_full.py:77 | no zoned date remains after the pass |
| Timezone.TimezoneIdempotent | pdf_sanitizer_full.py:74-77 | the pass on its own output changes nothing and raises no flag |
| Timezone.TimezoneLength | pdf_sanitizer_full.py:77 | each rewritten date shortens the buffer by six bytes, and the flag is true if and only if some date was rewritten |
| Timezone.TimezoneSplice | pdf_sanitizer_full.py:74-77 | one zoned date among other bytes loses its offset and gains `Z`; everything else is kept; the flag is true |
| Lang.LangPass | pdf_sanitizer_full.py:128 | the rewrite keeps the length, and a buffer without `/Lang(he)` is unchanged |
| Lang.TagOccurs | pdf_sanitizer_full.py:57 | the search finds the tag if and only if the buffer contains it |
| Lang.CountIsOccurrences | pdf_sanitizer_full.py:58 | the number of replacements equals the number of `/Lang(he)` occurrences (`bytes.count`) |
| Lang.SpliceOccurrences | pdf_sanitizer_full.py:58 | one `/Lang(he)` among slash-free bytes is counted once by `bytes.count` |
| Lang.FreeOccurrences | pdf_sanitizer_full.py:58 | slash-free bytes before a buffer add nothing to the count |
| Lang.LangClears | pdf_sanitizer_full.py:128 | no `/Lang(he)` remains after the rewrite |
| Lang.LangIdempotent | pdf_sanitizer_full.py:128 | the rewrite on its own output changes nothing |
| Lang.LangSplice | pdf_sanitizer_full.py:128 | one tag among slash-free bytes becomes `/Lang(en)`, and it is counted once |
| Streams.StreamPass | pdf_sanitizer_full.py:53-68 | a buffer with no region that decompresses to data holding `/Lang(he)` is returned unchanged with count 0 |
| Streams.UntaggedKept | pdf_sanitizer_full.py:53-68 | such a buffer is kept by the substitution and counts nothing |
| Streams.RegionShape | pdf_sanitizer_full.py:67 | a region match is `stream`, CRLF or LF, a non-empty payload, an optional CR, and `\nendstream` |
| Streams.FramedMatch | pdf_sanitizer_full.py:67 | a region framed by `stream\r\n` and `\r\nendstream` around a non-empty payload in which no `\nendstream` starts after its first byte is matched whole, with that payload as the group |
| Streams.FramedCut | pdf_sanitizer_full.py:67 | if such a `\nendstream` does start inside the payload, the lazy match ends there, short of the frame; with `FramedMatch`, the frame is matched whole exactly when the payload holds no end marker |
| Streams.TaggedFramed | pdf_sanitizer_full.py:55-62 | a payload is rewritten exactly when it decompresses to data holding `/Lang(he)` |
| Streams.PassFirst | pdf_sanitizer_full.py:53-68 | when the first region of `x mid y` is `mid`, the pass copies `x`, puts the callback's bytes for `mid`, adds its tags, and carries on with `y` |
| Streams.StreamSpliceTagged | pdf_sanitizer_full.py:53-68 | the first region, framed around a payload with no end marker inside that decompresses to data holding the tag, becomes `stream\r\n`, the recompressed rewritten data and `\r\nendstream`; the text before it is kept, the count grows by the number of tags, and the pass carries on after it |
| Streams.StreamSpliceKept | pdf_sanitizer_full.py:55-65 | the first region, framed around a payload with no end marker inside that fails to decompress or holds no tag, is put back byte for byte and counts nothing, and the pass carries on after it |
| Streams.StreamRerun | pdf_sanitizer_full.py:53-68 | when the codec round-trips and the recompressed payload holds no end marker after its first byte, a rebuilt region that comes first is copied by a second pass and counts nothing |
| DocId.DocIdPass | pdf_sanitizer_full.py:134-140 | the flag is true if and only if `/ID`, blanks, `[`, blanks and a hex string occur, and a buffer without that is unchanged |
| DocId.PartsFinds | pdf_sanitizer_full.py:134-137 | a buffer that starts with `/ID`, blanks, `[`, blanks and a hex string (then blanks, a second hex string, blanks and `]` for the full pattern), hex of any length, is matched exactly that far |
| DocId.ReadForm | pdf_sanitizer_full.py:134-137 | conversely, whatever the document-ID scan matches is such a well-formed prefix of the buffer |
| DocId.DocIdMatchForm | pdf_sanitizer_full.py:134-137 | the ID pattern matches if and only if the buffer starts with a well-formed ID (hex of any length), and then exactly that far |
| DocId.EntryHasHead | pdf_sanitizer_full.py:134-137 | wherever the full pattern matches, the flag's pattern matches too |
| DocId.HeadBeforeEntry | pdf_sanitizer_full.py:134-137 | a rewritable ID always raises the flag |
| DocId.NoHeadIdle | pdf_sanitizer_full.py:134-140 | without the flag's pattern, the rewrite changes nothing |
| DocId.DocIdSettles | pdf_sanitizer_full.py:136-140 | after the pass every full ID left is the zero ID |
| DocId.DocIdIdempotent | pdf_sanitizer_full.py:136-140 | the pass on its own output keeps the bytes |
| DocId.DocIdFlagAgain | pdf_sanitizer_full.py:134-140 | the pass on its own output raises its flag exactly when it did on the input |
| DocId.DocIdAbsent | pdf_sanitizer_full.py:134-140 | a buffer without `/` is unchanged and raises no flag |
| DocId.DocIdSplice | pdf_sanitizer_full.py:134-140 | one ID among slash-free bytes becomes the zero ID, whatever its hex lengths and blanks, and the flag is true |
| DocId.ZeroEntry | pdf_sanitizer_full.py:138 | the zero ID is itself a well-formed ID |
| Timestamps.TimestampsPass | pdf_sanitizer_full.py:146-149 | the flag is true if and only if a non-empty `/CreationDate(...)` is present |
| Timestamps.TimestampsSettle | pdf_sanitizer_full.py:148-149 | after the pass every creation and modification date left is the epoch |
| Timestamps.TimestampsIdempotent | pdf_sanitizer_full.py:148-149 | the pass on its own output keeps the bytes |
| Timestamps.TimestampsNoMatch | pdf_sanitizer_full.py:146-149 | without date literals the buffer is unchanged and the flag false |
| Timestamps.TimestampsAbsent | pdf_sanitizer_full.py:146-149 | a buffer without `/` is unchanged with the flag false |
| Timestamps.TimestampsSplice | pdf_sanitizer_full.py:146-148 | one `/CreationDate(v)` becomes the epoch date; the flag is true if and only if `v` is non-empty |
| Timestamps.TimestampsModSplice | pdf_sanitizer_full.py:149 | one `/ModDate(v)` becomes the epoch date and never raises the flag |
| Timestamps.TimestampsEmptyDate | pdf_sanitizer_full.py:146-148 | an empty creation date is rewritten but not reported |
| Timestamps.TimestampsRestamp | pdf_sanitizer_full.py:146-148 | the epoch creation date is kept but reported again |
| Timestamps.SpliceReported | pdf_sanitizer_full.py:146 | the search finds one creation date if and only if its value is non-empty |
| Timestamps.DateKeysApart | pdf_sanitizer_full.py:148-149 | a creation-date literal is not a modification-date match, and the reverse |
| Xmp.XmpPass | pdf_sanitizer_full.py:152-177 | the XMP pass always reports, and a buffer without `<` is unchanged |
| Xmp.XmpIdle | pdf_sanitizer_full.py:152-177 | a buffer that opens none of the nine elements is unchanged |
| Xmp.RewriteIdle | pdf_sanitizer_full.py:157-177 | rewrites whose elements are not opened leave the buffer alone |
| Xmp.RuleFinds | pdf_sanitizer_full.py:157-177 | an element with allowed content is matched as far as its close tag |
| Xmp.ApplySplice | pdf_sanitizer_full.py:157-177 | one element among `<`-free bytes becomes its fixed replacement |
| Xmp.SpliceRules | pdf_sanitizer_full.py:157-177 | one element among `<`-free bytes is rewritten by its own rule and left alone by the other eight |
| Xmp.XmpSplice | pdf_sanitizer_full.py:152-177 | the pass turns one such element into its fixed replacement and reports |
| Xmp.RuleSettles | pdf_sanitizer_full.py:157-177 | after a rule every match of its pattern is its replacement |
| Xmp.RuleIdempotent | pdf_sanitizer_full.py:157-177 | a rule applied twice is a rule applied once |
| Xmp.XmpRuleSettles | pdf_sanitizer_full.py:157-177 | each of the nine rules settles and is idempotent |
| Xmp.NamesDistinct | pdf_sanitizer_full.py:157-177 | the nine element names are pairwise different |
| Xmp.RulesAreOk | pdf_sanitizer_full.py:157-177 | there are nine rules with pairwise different, well-shaped element names, and each rule's fixed content is content its own pattern accepts |
| XmpSettle.SilentElement | pdf_sanitizer_full.py:156-177 | no rule's replacement holds an opening or a closing tag of another of the nine names, whatever follows it |
| XmpSettle.PrependSettled | pdf_sanitizer_full.py:156-177 | another rule's replacement put in front of a buffer where a rule has settled leaves that rule settled |
| XmpSettle.HeadReplaced | pdf_sanitizer_full.py:156-177 | another rule's rewrite copies a rule's replacement that starts the buffer, and the rule still matches exactly that replacement there |
| XmpSettle.UnclosedStays | pdf_sanitizer_full.py:158-166 | a rewrite whose replacement holds no closing tag of a name does not create one where there was none |
| XmpSettle.LazyOpenStays | pdf_sanitizer_full.py:158-166 | a creator, title or description element with no closing tag after it stays unmatched after another rule rewrites what follows |
| XmpSettle.DelimitedOpenStays | pdf_sanitizer_full.py:156-177 | a simple element that does not match stays unmatched after another rule rewrites what follows its opening tag |
| XmpSettle.HeadSettled | pdf_sanitizer_full.py:156-177 | where another rule does not match, what a rule matches at the start of the rewritten buffer is nothing or its own replacement |
| XmpSettle.CrossRule | pdf_sanitizer_full.py:156-177 | a later rule's rewrite keeps every match of an earlier rule equal to the earlier rule's replacement |
| XmpSettle.KeepSettled | pdf_sanitizer_full.py:156-177 | any run of rules for other elements keeps a rule settled |
| XmpSettle.RewriteSettles | pdf_sanitizer_full.py:156-177 | after proper rules for different elements run in order, every match of each of them is its own replacement |
| XmpSettle.SettledIdle | pdf_sanitizer_full.py:156-177 | rules that have all settled leave the buffer unchanged |
| XmpSettle.XmpSettles | pdf_sanitizer_full.py:152-177 | after the XMP pass every match of each of the nine patterns is that pattern's fixed replacement |
| XmpSettle.XmpIdempotent | pdf_sanitizer_full.py:152-177 | the XMP pass on its own output returns the same bytes and sets the stat again |
| Paths.OutputPath | pdf_sanitizer_full.py:24-26 | a given output path is used as is; otherwise `_sanitized` goes between the input's root and extension, and the result never equals the input |
| Paths.SplitExt | pdf_sanitizer_full.py:25 | root and extension join back to the path; the extension starts at the last dot of the last component, unless only dots precede it there; it is empty or one dot followed by neither dot nor slash |
| Paths.LastIndex | pdf_sanitizer_full.py:25 | the last index of a character, or -1 when it is absent |
| Paths.ExtensionFound | pdf_sanitizer_full.py:25 | a valid extension start is where the split happens |
| Paths.NoExtension | pdf_sanitizer_full.py:25 | a last dot before the last slash, or only dots before it, means no extension |

## Left out

- The graphical interface, the worker thread and the command-line entry points are not modelled: they only display, prompt and dispatch.
- Reading the input file and writing the output file are not modelled: the buffer is a parameter, and the output path is computed by `Paths.OutputPath` but nothing is written to it.
- zlib is not modelled: `Streams.Codec` holds `inflate` (`None` where decompression raises) and `deflate` as parameters with no law, except where `Streams.StreamRerun` asks for a round trip.
- Streams.StreamPass: `deflate` is total, so the case where compression raises after the count was already raised (the count then grows but the region is kept) is not modelled.
- Streams.StreamSpliceTagged: the splice lemmas (also `Streams.StreamSpliceKept` and `Streams.StreamRerun`) take a region framed by `stream\r\n` and `\r\nendstream`, the frame the pass itself writes; regions framed with a bare `\n`, or with `\r\n` before the payload but not after it, are described only by `Streams.RegionShape` and `Streams.PassFirst`.
- Fields.FieldPassHexSplice: the hex value is taken free of `/`, because a `/Key(...)` written inside it would be emptied first by the literal rewrite.
- Sanitizer.On: options are `map<string, bool>`; Python truthiness of values that are not booleans is not modelled.
- The progress callback is modelled as the list of reports it would receive (`Sanitizer.Progress`); whether a callback is given is not modelled, as it does not change the output.
- Paths.SplitExt: models the POSIX `os.path.splitext`; on Windows the backslash and the drive letter also end the last component, which is not modelled.
- Sanitizer.SanitizeReports: with all options off the output is stated equal to the input; for other options the output is stated through the individual passes rather than as a closed formula.
- The `self.stats` field is modelled as the returned statistics only; the object state that survives between calls is not modelled.
- Sanitizer.Sanitize: a whole second run is not proved to return the same bytes; each pass is proved idempotent on its own, but the whole run would also need, for every pass, that each later pass keeps it settled, which is proved only among the nine XMP rewrites (`XmpSettle.CrossRule`). With `remove_lang_tags` on it need not hold at all: the codec has no law, later passes can rewrite bytes inside a recompressed payload, and a lazy XMP rewrite can delete an `endstream`, which changes the regions a second stream pass sees.
