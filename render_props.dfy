/** What `display_definition` and `_add_pronunciation_buttons` promise about
    their output, proved of the value-level model in `Render`: when a render
    succeeds, which lines carry which tag and in what order; when it fails,
    which missing key stopped it; and which buttons appear. */
module RenderProps {
  import opened PyStr
  import opened Entry
  import opened Render

  // ---------------------------------------------------------------------
  // When does rendering raise?

  /** The keys the source reads with `obj[key]`. */
  predicate EntryKey(key: string) {
    key == "word" || key == "partOfSpeech" || key == "definitions" || key == "definition"
  }

  predicate DefinitionOk(d: Definition) {
    d.definition.Some?
  }

  predicate MeaningOk(m: Meaning) {
    && m.partOfSpeech.Some?
    && m.definitions.Some?
    && forall i :: 0 <= i < |m.definitions.value| ==> DefinitionOk(m.definitions.value[i])
  }

  /** Every key the renderer reads with `[]` is present. */
  predicate EntryOk(e: DictEntry) {
    && e.word.Some?
    && forall i :: 0 <= i < |e.meanings.GetOr([])| ==> MeaningOk(e.meanings.GetOr([])[i])
  }

  /** A `for` loop finishes without raising exactly when no element raises. */
  lemma {:induction false} RenderEachFaultFree<T>(xs: seq<T>, f: T -> Rendered)
    ensures RenderEach(xs, f).fault.None? <==> forall i :: 0 <= i < |xs| ==> f(xs[i]).fault.None?
    decreases |xs|
  {
    if xs != [] {
      RenderEachFaultFree(xs[1..], f);
      assert forall i :: 1 <= i < |xs| ==> xs[i] == xs[1..][i - 1];
    }
  }

  /** A loop that raised re-raises the exception of one of its elements. */
  lemma {:induction false} RenderEachFaultFrom<T>(xs: seq<T>, f: T -> Rendered)
    requires RenderEach(xs, f).fault.Some?
    ensures exists i :: 0 <= i < |xs| && f(xs[i]).fault == RenderEach(xs, f).fault
    decreases |xs|
  {
    if f(xs[0]).fault.None? {
      RenderEachFaultFrom(xs[1..], f);
      var i :| 0 <= i < |xs[1..]| && f(xs[1..][i]).fault == RenderEach(xs[1..], f).fault;
      assert xs[1..][i] == xs[i + 1];
    }
  }

  lemma RenderMeaningFaultFree(m: Meaning)
    ensures RenderMeaning(m).fault.None? <==> MeaningOk(m)
  {
    if m.partOfSpeech.Some? {
      RenderMeaningUnfold(m);
      if m.definitions.Some? {
        RenderEachFaultFree(m.definitions.value, RenderDefinition);
      }
    }
  }

  /** `display_definition` raises exactly when a key read with `[]` is
      missing somewhere in the entry. */
  lemma RenderEntryFaultFree(e: DictEntry)
    ensures RenderEntry(e).fault.None? <==> EntryOk(e)
  {
    if e.word.Some? {
      var ms := e.meanings.GetOr([]);
      RenderEachFaultFree(ms, RenderMeaning);
      forall i | 0 <= i < |ms| ensures RenderMeaning(ms[i]).fault.None? <==> MeaningOk(ms[i]) {
        RenderMeaningFaultFree(ms[i]);
      }
    }
  }

  lemma RenderMeaningFaultKind(m: Meaning)
    requires RenderMeaning(m).fault.Some?
    ensures RenderMeaning(m).fault.value.MissingKey?
    ensures EntryKey(RenderMeaning(m).fault.value.key)
  {
    if m.partOfSpeech.Some? {
      RenderMeaningUnfold(m);
      if m.definitions.Some? {
        RenderEachFaultFrom(m.definitions.value, RenderDefinition);
      }
    }
  }

  /** The only exception rendering raises is a `KeyError` for one of the four
      keys read with `[]`, and it is `'word'` exactly when `word` is missing. */
  lemma RenderEntryFaultKind(e: DictEntry)
    requires RenderEntry(e).fault.Some?
    ensures RenderEntry(e).fault.value.MissingKey?
    ensures EntryKey(RenderEntry(e).fault.value.key)
    ensures RenderEntry(e).fault.value == MissingKey("word") <==> e.word.None?
  {
    if e.word.Some? {
      var ms := e.meanings.GetOr([]);
      RenderEachFaultFrom(ms, RenderMeaning);
      var i :| 0 <= i < |ms| && RenderMeaning(ms[i]).fault == RenderEntry(e).fault;
      RenderMeaningFaultKind(ms[i]);
      RenderMeaningNeverWord(ms[i]);
    }
  }

  lemma RenderMeaningNeverWord(m: Meaning)
    requires RenderMeaning(m).fault.Some?
    ensures RenderMeaning(m).fault.value != MissingKey("word")
  {
    if m.partOfSpeech.Some? {
      RenderMeaningUnfold(m);
      if m.definitions.Some? {
        RenderEachFaultFrom(m.definitions.value, RenderDefinition);
        var j :| 0 <= j < |m.definitions.value|
                 && RenderDefinition(m.definitions.value[j]).fault == RenderMeaning(m).fault;
        assert "word"[0] != "definition"[0];
      } else {
        assert "word"[0] != "definitions"[0];
      }
    } else {
      assert "word"[0] != "partOfSpeech"[0];
    }
  }

  // ---------------------------------------------------------------------
  // Which lines carry which tag.

  /** The texts of the segments written with `tag`, in order. */
  function Tagged(segs: seq<Segment>, tag: Tag): seq<string> {
    if segs == [] then []
    else (if segs[0].tag == tag then [segs[0].text] else []) + Tagged(segs[1..], tag)
  }

  lemma {:induction false} TaggedAppend(a: seq<Segment>, b: seq<Segment>, tag: Tag)
    ensures Tagged(a + b, tag) == Tagged(a, tag) + Tagged(b, tag)
    decreases |a|
  {
    if a == [] {
      assert a + b == b;
    } else {
      var head := if a[0].tag == tag then [a[0].text] else [];
      assert (a + b)[1..] == a[1..] + b;
      TaggedAppend(a[1..], b, tag);
      assert Tagged(a + b, tag) == head + (Tagged(a[1..], tag) + Tagged(b, tag));
    }
  }

  /** The lines `g` gives for each element, one element after the other. */
  function Gather<T>(xs: seq<T>, g: T -> seq<string>): seq<string>
    decreases |xs|
  {
    if xs == [] then [] else g(xs[0]) + Gather(xs[1..], g)
  }

  /** When `g` gives exactly one line per element, gathering is a map. */
  lemma {:induction false} GatherSingletons<T>(xs: seq<T>, g: T -> seq<string>)
    requires forall i :: 0 <= i < |xs| ==> |g(xs[i])| == 1
    ensures |Gather(xs, g)| == |xs|
    ensures forall i :: 0 <= i < |xs| ==> Gather(xs, g)[i] == g(xs[i])[0]
    decreases |xs|
  {
    if xs != [] {
      assert forall i :: 0 <= i < |xs[1..]| ==> xs[1..][i] == xs[i + 1];
      GatherSingletons(xs[1..], g);
    }
  }

  lemma {:induction false} GatherNone<T>(xs: seq<T>, g: T -> seq<string>)
    requires forall i :: 0 <= i < |xs| ==> g(xs[i]) == []
    ensures Gather(xs, g) == []
    decreases |xs|
  {
    if xs != [] {
      assert forall i :: 0 <= i < |xs[1..]| ==> xs[1..][i] == xs[i + 1];
      GatherNone(xs[1..], g);
    }
  }

  /** Projected on one tag, a loop that does not raise writes what each
      element writes with that tag, element after element. */
  lemma {:induction false} TaggedEach<T>(xs: seq<T>, f: T -> Rendered, g: T -> seq<string>, tag: Tag)
    requires RenderEach(xs, f).fault.None?
    requires forall i :: 0 <= i < |xs| ==> Tagged(f(xs[i]).segments, tag) == g(xs[i])
    ensures Tagged(RenderEach(xs, f).segments, tag) == Gather(xs, g)
    decreases |xs|
  {
    if xs != [] {
      assert forall i :: 0 <= i < |xs[1..]| ==> xs[1..][i] == xs[i + 1];
      TaggedAppend(f(xs[0]).segments, RenderEach(xs[1..], f).segments, tag);
      TaggedEach(xs[1..], f, g, tag);
    }
  }

  function NoLines<T>(x: T): seq<string> {
    []
  }

  /** The line a definition puts under the "definition" tag. */
  function DefinitionLineOf(d: Definition): seq<string> {
    [DefinitionLine(d.definition.GetOr(""))]
  }

  /** The line a definition puts under the "example" tag, if any. */
  function ExampleLineOf(d: Definition): seq<string> {
    if HasExample(d) then [ExampleLine(d.example.value)] else []
  }

  lemma DefinitionTags(d: Definition)
    requires DefinitionOk(d)
    ensures Tagged(RenderDefinition(d).segments, DefinitionTag) == DefinitionLineOf(d)
    ensures Tagged(RenderDefinition(d).segments, ExampleTag) == ExampleLineOf(d)
    ensures Tagged(RenderDefinition(d).segments, TitleTag) == []
    ensures Tagged(RenderDefinition(d).segments, PosTag) == []
    ensures Tagged(RenderDefinition(d).segments, NoTag) == []
  {
    var def := Segment(DefinitionLine(d.definition.value), DefinitionTag);
    TaggedSingle(def, DefinitionTag);
    TaggedSingle(def, ExampleTag);
    TaggedSingle(def, TitleTag);
    TaggedSingle(def, PosTag);
    TaggedSingle(def, NoTag);
    if HasExample(d) {
      var ex := Segment(ExampleLine(d.example.value), ExampleTag);
      assert RenderDefinition(d).segments == [def] + [ex];
      TaggedAppend([def], [ex], DefinitionTag);
      TaggedAppend([def], [ex], ExampleTag);
      TaggedAppend([def], [ex], TitleTag);
      TaggedAppend([def], [ex], PosTag);
      TaggedAppend([def], [ex], NoTag);
      TaggedSingle(ex, DefinitionTag);
      TaggedSingle(ex, ExampleTag);
      TaggedSingle(ex, TitleTag);
      TaggedSingle(ex, PosTag);
      TaggedSingle(ex, NoTag);
    }
  }

  function PosLineOf(m: Meaning): seq<string> {
    [PosLine(m.partOfSpeech.GetOr(""))]
  }

  function MeaningDefinitionLines(m: Meaning): seq<string> {
    Gather(m.definitions.GetOr([]), DefinitionLineOf)
  }

  function MeaningExampleLines(m: Meaning): seq<string> {
    Gather(m.definitions.GetOr([]), ExampleLineOf)
  }

  function BlankLineOf(m: Meaning): seq<string> {
    [BlankLine]
  }

  /** One tag of the definitions loop, for a tag whose lines `g` gives. */
  lemma DefinitionsTagged(defs: seq<Definition>, g: Definition -> seq<string>, tag: Tag)
    requires forall i :: 0 <= i < |defs| ==> DefinitionOk(defs[i])
    requires forall i :: 0 <= i < |defs| ==> Tagged(RenderDefinition(defs[i]).segments, tag) == g(defs[i])
    ensures Tagged(RenderEach(defs, RenderDefinition).segments, tag) == Gather(defs, g)
  {
    RenderEachFaultFree(defs, RenderDefinition);
    TaggedEach(defs, RenderDefinition, g, tag);
  }

  /** The definitions loop writes each definition's line under "definition"
      and its example, if any, under "example", in order. */
  lemma DefinitionsLines(defs: seq<Definition>)
    requires forall i :: 0 <= i < |defs| ==> DefinitionOk(defs[i])
    ensures Tagged(RenderEach(defs, RenderDefinition).segments, DefinitionTag) == Gather(defs, DefinitionLineOf)
    ensures Tagged(RenderEach(defs, RenderDefinition).segments, ExampleTag) == Gather(defs, ExampleLineOf)
  {
    forall i | 0 <= i < |defs|
      ensures Tagged(RenderDefinition(defs[i]).segments, DefinitionTag) == DefinitionLineOf(defs[i])
      ensures Tagged(RenderDefinition(defs[i]).segments, ExampleTag) == ExampleLineOf(defs[i])
    {
      DefinitionTags(defs[i]);
    }
    DefinitionsTagged(defs, DefinitionLineOf, DefinitionTag);
    DefinitionsTagged(defs, ExampleLineOf, ExampleTag);
  }

  /** The definitions loop writes nothing under the title, pos or no tag. */
  lemma DefinitionsUntagged(defs: seq<Definition>, tag: Tag)
    requires forall i :: 0 <= i < |defs| ==> DefinitionOk(defs[i])
    requires tag == TitleTag || tag == PosTag || tag == NoTag
    ensures Tagged(RenderEach(defs, RenderDefinition).segments, tag) == []
  {
    forall i | 0 <= i < |defs|
      ensures Tagged(RenderDefinition(defs[i]).segments, tag) == NoLines(defs[i])
    {
      DefinitionTags(defs[i]);
    }
    DefinitionsTagged(defs, NoLines, tag);
    GatherNone(defs, NoLines);
  }

  lemma TaggedSingle(s: Segment, tag: Tag)
    ensures Tagged([s], tag) == if s.tag == tag then [s.text] else []
  {
    assert [s][1..] == [];
  }

  /** Projected on one tag, a meaning that does not raise writes its header,
      then its definitions, then the blank line. */
  lemma MeaningTaggedSplit(m: Meaning, tag: Tag)
    requires MeaningOk(m)
    ensures Tagged(RenderMeaning(m).segments, tag)
            == (if tag == PosTag then [PosLine(m.partOfSpeech.value)] else [])
               + Tagged(RenderEach(m.definitions.value, RenderDefinition).segments, tag)
               + (if tag == NoTag then [BlankLine] else [])
  {
    var defs := m.definitions.value;
    var header := Segment(PosLine(m.partOfSpeech.value), PosTag);
    var blank := Segment(BlankLine, NoTag);
    var body := RenderEach(defs, RenderDefinition);
    RenderMeaningUnfold(m);
    RenderEachFaultFree(defs, RenderDefinition);
    assert RenderMeaning(m).segments == [header] + body.segments + [blank];
    TaggedAppend([header] + body.segments, [blank], tag);
    TaggedAppend([header], body.segments, tag);
    TaggedSingle(header, tag);
    TaggedSingle(blank, tag);
  }

  /** A meaning writes its header under "pos", its definition and example
      lines under "definition" and "example", in order, and one untagged
      blank line. */
  lemma MeaningTags(m: Meaning)
    requires MeaningOk(m)
    ensures Tagged(RenderMeaning(m).segments, PosTag) == PosLineOf(m)
    ensures Tagged(RenderMeaning(m).segments, DefinitionTag) == MeaningDefinitionLines(m)
    ensures Tagged(RenderMeaning(m).segments, ExampleTag) == MeaningExampleLines(m)
    ensures Tagged(RenderMeaning(m).segments, NoTag) == BlankLineOf(m)
    ensures Tagged(RenderMeaning(m).segments, TitleTag) == []
  {
    var defs := m.definitions.value;
    MeaningTaggedSplit(m, PosTag);
    DefinitionsUntagged(defs, PosTag);
    MeaningTaggedSplit(m, DefinitionTag);
    MeaningTaggedSplit(m, ExampleTag);
    DefinitionsLines(defs);
    MeaningTaggedSplit(m, NoTag);
    DefinitionsUntagged(defs, NoTag);
    MeaningTaggedSplit(m, TitleTag);
    DefinitionsUntagged(defs, TitleTag);
  }

  /** One tag of the meanings loop, for a tag whose lines `g` gives. */
  lemma MeaningsTagged(ms: seq<Meaning>, g: Meaning -> seq<string>, tag: Tag)
    requires forall i :: 0 <= i < |ms| ==> MeaningOk(ms[i])
    requires forall i :: 0 <= i < |ms| ==> Tagged(RenderMeaning(ms[i]).segments, tag) == g(ms[i])
    ensures Tagged(RenderEach(ms, RenderMeaning).segments, tag) == Gather(ms, g)
  {
    forall i | 0 <= i < |ms| ensures RenderMeaning(ms[i]).fault.None? {
      RenderMeaningFaultFree(ms[i]);
    }
    RenderEachFaultFree(ms, RenderMeaning);
    TaggedEach(ms, RenderMeaning, g, tag);
  }

  /** The layout of a successful `display_definition`: the title line comes
      first and is the only title-tagged line; projected on each other tag, the
      lines are those of the meanings, meaning by meaning. */
  lemma RenderEntryLayout(e: DictEntry)
    requires EntryOk(e)
    ensures var segs := RenderEntry(e).segments;
            var ms := e.meanings.GetOr([]);
            && segs[0] == Segment(TitleLine(e.word.value, e.phonetic.GetOr("")), TitleTag)
            && Tagged(segs, TitleTag) == [TitleLine(e.word.value, e.phonetic.GetOr(""))]
            && Tagged(segs, PosTag) == Gather(ms, PosLineOf)
            && Tagged(segs, DefinitionTag) == Gather(ms, MeaningDefinitionLines)
            && Tagged(segs, ExampleTag) == Gather(ms, MeaningExampleLines)
            && Tagged(segs, NoTag) == Gather(ms, BlankLineOf)
  {
    var ms := e.meanings.GetOr([]);
    var title := Segment(TitleLine(e.word.value, e.phonetic.GetOr("")), TitleTag);
    var body := RenderEach(ms, RenderMeaning).segments;
    forall tag: Tag ensures Tagged(RenderEntry(e).segments, tag) == Tagged([title], tag) + Tagged(body, tag) {
      TaggedAppend([title], body, tag);
    }
    forall i | 0 <= i < |ms|
      ensures Tagged(RenderMeaning(ms[i]).segments, TitleTag) == NoLines(ms[i])
      ensures Tagged(RenderMeaning(ms[i]).segments, PosTag) == PosLineOf(ms[i])
      ensures Tagged(RenderMeaning(ms[i]).segments, DefinitionTag) == MeaningDefinitionLines(ms[i])
      ensures Tagged(RenderMeaning(ms[i]).segments, ExampleTag) == MeaningExampleLines(ms[i])
      ensures Tagged(RenderMeaning(ms[i]).segments, NoTag) == BlankLineOf(ms[i])
    {
      MeaningTags(ms[i]);
    }
    MeaningsTagged(ms, NoLines, TitleTag);
    GatherNone(ms, NoLines);
    MeaningsTagged(ms, PosLineOf, PosTag);
    MeaningsTagged(ms, MeaningDefinitionLines, DefinitionTag);
    MeaningsTagged(ms, MeaningExampleLines, ExampleTag);
    MeaningsTagged(ms, BlankLineOf, NoTag);
  }

  /** Counted out: one header and one blank line per meaning, in the
      meanings' order, and one definition line per definition. */
  lemma RenderEntryHeaders(e: DictEntry)
    requires EntryOk(e)
    ensures var segs := RenderEntry(e).segments;
            var ms := e.meanings.GetOr([]);
            && |Tagged(segs, PosTag)| == |ms|
            && (forall i :: 0 <= i < |ms| ==> Tagged(segs, PosTag)[i] == PosLine(ms[i].partOfSpeech.value))
            && |Tagged(segs, NoTag)| == |ms|
            && (forall i :: 0 <= i < |ms| ==> Tagged(segs, NoTag)[i] == BlankLine)
  {
    var ms := e.meanings.GetOr([]);
    RenderEntryLayout(e);
    GatherSingletons(ms, PosLineOf);
    GatherSingletons(ms, BlankLineOf);
  }

  /** Within a meaning, the definition lines are the definitions in order. */
  lemma MeaningDefinitionLinesInOrder(m: Meaning)
    ensures var defs := m.definitions.GetOr([]);
            && |MeaningDefinitionLines(m)| == |defs|
            && forall i :: 0 <= i < |defs| ==>
                 MeaningDefinitionLines(m)[i] == DefinitionLine(defs[i].definition.GetOr(""))
  {
    GatherSingletons(m.definitions.GetOr([]), DefinitionLineOf);
  }

  /** The number of definitions over all meanings. */
  function TotalDefinitions(ms: seq<Meaning>): nat
    decreases |ms|
  {
    if ms == [] then 0 else |ms[0].definitions.GetOr([])| + TotalDefinitions(ms[1..])
  }

  lemma {:induction false} DefinitionLinesCount(ms: seq<Meaning>)
    ensures |Gather(ms, MeaningDefinitionLines)| == TotalDefinitions(ms)
    decreases |ms|
  {
    if ms != [] {
      MeaningDefinitionLinesInOrder(ms[0]);
      DefinitionLinesCount(ms[1..]);
    }
  }

  /** A successful render writes one "definition" line per definition, over
      all meanings together. */
  lemma DefinitionCount(e: DictEntry)
    requires EntryOk(e)
    ensures |Tagged(RenderEntry(e).segments, DefinitionTag)| == TotalDefinitions(e.meanings.GetOr([]))
  {
    RenderEntryLayout(e);
    DefinitionLinesCount(e.meanings.GetOr([]));
  }

  // ---------------------------------------------------------------------
  // Pronunciation buttons.

  /** The audio URLs of the phonetics that have one, in order. */
  function AudioUrls(ps: seq<Phonetic>): seq<string>
    decreases |ps|
  {
    if ps == [] then []
    else (if HasAudio(ps[0]) then [ps[0].audio.value] else []) + AudioUrls(ps[1..])
  }

  lemma {:induction false} AudioUrlsAppend(ps: seq<Phonetic>, qs: seq<Phonetic>)
    ensures AudioUrls(ps + qs) == AudioUrls(ps) + AudioUrls(qs)
    decreases |ps|
  {
    if ps == [] {
      assert ps + qs == qs;
    } else {
      assert (ps + qs)[1..] == ps[1..] + qs;
      AudioUrlsAppend(ps[1..], qs);
    }
  }

  /** The frame holds one button per audio URL, in the phonetics' order,
      each labelled by the accent rule. */
  lemma {:induction false} PronunciationButtonsFollowAudio(ps: seq<Phonetic>)
    ensures |PronunciationButtons(ps)| == |AudioUrls(ps)|
    ensures forall i :: 0 <= i < |AudioUrls(ps)| ==> PronunciationButtons(ps)[i] == ButtonFor(AudioUrls(ps)[i])
    decreases |ps|
  {
    if ps != [] {
      var init := ps[..|ps| - 1];
      var last := ps[|ps| - 1];
      assert ps == init + [last];
      AudioUrlsAppend(init, [last]);
      assert [last][1..] == [];
      PronunciationButtonsFollowAudio(init);
    }
  }
}
