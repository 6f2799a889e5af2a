/** What `display_definition` writes into the result text and what
    `_add_pronunciation_buttons` puts into the pronunciation frame, as values.

    The text widget is an append-only list of `(text, tag)` segments. A render
    that hits a missing JSON key stops where Python raises: the segments
    written so far stay, and the fault travels out with them. */
module Render {
  import opened PyStr
  import opened Entry

  /** The text-widget tags the renderer uses ("title", "pos", "definition",
      "example"), and no tag at all. */
  datatype Tag = TitleTag | PosTag | DefinitionTag | ExampleTag | NoTag

  datatype Segment = Segment(text: string, tag: Tag)

  /** The segments a piece of rendering appended, and the exception that
      stopped it, if any. */
  datatype Rendered = Rendered(segments: seq<Segment>, fault: Option<Fault>)

  function Emit(segments: seq<Segment>): Rendered {
    Rendered(segments, None)
  }

  function Raise(f: Fault): Rendered {
    Rendered([], Some(f))
  }

  /** Run `a`, then `b` unless `a` raised. */
  function Then(a: Rendered, b: Rendered): Rendered {
    if a.fault.Some? then a else Rendered(a.segments + b.segments, b.fault)
  }

  /** A `for` loop that renders each element in order and stops at the first
      exception. */
  function RenderEach<T>(xs: seq<T>, f: T -> Rendered): Rendered
    decreases |xs|
  {
    if xs == [] then Emit([]) else Then(f(xs[0]), RenderEach(xs[1..], f))
  }

  // The lines of the result text (src/main.py:149-161).

  function TitleLine(word: string, phonetic: string): string {
    Capitalize(word) + " " + phonetic + "\n\n"
  }

  function PosLine(partOfSpeech: string): string {
    Capitalize(partOfSpeech) + ":\n"
  }

  function DefinitionLine(text: string): string {
    " - " + text + "\n"
  }

  function ExampleLine(example: string): string {
    "   Example: " + example + "\n"
  }

  const BlankLine: string := "\n"

  /** The walrus test `if example := definition.get('example')`: present and
      non-empty. */
  predicate HasExample(d: Definition) {
    d.example.Some? && d.example.value != ""
  }

  function RenderDefinition(d: Definition): Rendered {
    match d.definition
    case None => Raise(MissingKey("definition"))
    case Some(text) =>
      Emit([Segment(DefinitionLine(text), DefinitionTag)]
           + if HasExample(d) then [Segment(ExampleLine(d.example.value), ExampleTag)] else [])
  }

  /** The header is written before `meaning['definitions']` is read, so a
      missing `definitions` key leaves the header in place. */
  function RenderMeaning(m: Meaning): Rendered {
    match m.partOfSpeech
    case None => Raise(MissingKey("partOfSpeech"))
    case Some(pos) =>
      Then(Emit([Segment(PosLine(pos), PosTag)]),
        match m.definitions
        case None => Raise(MissingKey("definitions"))
        case Some(defs) => Then(RenderEach(defs, RenderDefinition), Emit([Segment(BlankLine, NoTag)])))
  }

  /** `RenderMeaning` spelt out once the header is written: the closing blank
      line follows only if every definition rendered. */
  lemma RenderMeaningUnfold(m: Meaning)
    requires m.partOfSpeech.Some?
    ensures var header := Segment(PosLine(m.partOfSpeech.value), PosTag);
      match m.definitions
      case None => RenderMeaning(m) == Rendered([header], Some(MissingKey("definitions")))
      case Some(defs) =>
        var body := RenderEach(defs, RenderDefinition);
        && RenderMeaning(m).segments == [header] + body.segments + (if body.fault.None? then [Segment(BlankLine, NoTag)] else [])
        && RenderMeaning(m).fault == body.fault
  {
  }

  /** The segments `display_definition` leaves in the cleared buffer: the
      title line, then the meanings in order. */
  function RenderEntry(e: DictEntry): Rendered {
    match e.word
    case None => Raise(MissingKey("word"))
    case Some(w) =>
      var body := RenderEach(e.meanings.GetOr([]), RenderMeaning);
      Rendered([Segment(TitleLine(w, e.phonetic.GetOr("")), TitleTag)] + body.segments, body.fault)
  }

  // Pronunciation buttons (src/main.py:175-186).

  /** A button in the pronunciation frame: its caption and the URL it plays. */
  datatype Button = Button(text: string, url: string)

  predicate HasAudio(p: Phonetic) {
    p.audio.Some? && p.audio.value != ""
  }

  /** The accent rule: a URL containing "uk" is the UK recording, any other
      is taken to be US; the caption is the accent followed by
      " Pronunciation". */
  function ButtonFor(url: string): (b: Button)
    ensures b.url == url
    ensures b.text == "UK Pronunciation" || b.text == "US Pronunciation"
    ensures b.text == "UK Pronunciation" <==> Contains(url, "uk")
  {
    if Contains(url, "uk") then Button("UK Pronunciation", url)
    else
      assert "UK Pronunciation"[1] != "US Pronunciation"[1];
      Button("US Pronunciation", url)
  }

  /** The buttons `_add_pronunciation_buttons` appends for `ps`, in order. */
  function PronunciationButtons(ps: seq<Phonetic>): (r: seq<Button>)
    ensures |r| <= |ps|
    ensures r == [] <==> forall i :: 0 <= i < |ps| ==> !HasAudio(ps[i])
    ensures forall k :: 0 <= k < |r| ==>
              r[k].url != "" && (r[k].text == "UK Pronunciation" || r[k].text == "US Pronunciation")
    ensures forall k :: 0 <= k < |r| ==> (r[k].text == "UK Pronunciation" <==> Contains(r[k].url, "uk"))
    decreases |ps|
  {
    if ps == [] then []
    else
      var init := ps[..|ps| - 1];
      var last := ps[|ps| - 1];
      assert forall i :: 0 <= i < |init| ==> init[i] == ps[i];
      PronunciationButtons(init) + if HasAudio(last) then [ButtonFor(last.audio.value)] else []
  }

  /** One more loop iteration: if `after` extends `before` by the buttons for
      `ps[..i]` and then by the button of `ps[i]`, when it has audio, then it
      extends `before` by the buttons for `ps[..i+1]`. */
  lemma PronunciationButtonsStep(ps: seq<Phonetic>, i: nat, before: seq<Button>, after: seq<Button>)
    requires i < |ps|
    requires after == before + PronunciationButtons(ps[..i])
                      + if HasAudio(ps[i]) then [ButtonFor(ps[i].audio.value)] else []
    ensures after == before + PronunciationButtons(ps[..i + 1])
  {
    assert ps[..i + 1][..i] == ps[..i];
  }

  // Facts about the rendering combinators, used by the imperative model.

  lemma {:induction false} RenderEachAppend<T>(xs: seq<T>, ys: seq<T>, f: T -> Rendered)
    ensures RenderEach(xs + ys, f) == Then(RenderEach(xs, f), RenderEach(ys, f))
    decreases |xs|
  {
    if xs == [] {
      assert xs + ys == ys;
    } else {
      assert (xs + ys)[0] == xs[0];
      assert (xs + ys)[1..] == xs[1..] + ys;
      RenderEachAppend(xs[1..], ys, f);
    }
  }

  /** One more loop iteration: if `xs[..i]` rendered without raising into
      what follows `before`, then after appending what `xs[i]` renders the
      text holds what `xs[..i+1]` renders, and its fault is that of `xs[i]`. */
  lemma RenderEachStep<T>(xs: seq<T>, f: T -> Rendered, i: nat, before: seq<Segment>, after: seq<Segment>)
    requires i < |xs|
    requires RenderEach(xs[..i], f).fault.None?
    requires after == before + RenderEach(xs[..i], f).segments + f(xs[i]).segments
    ensures after == before + RenderEach(xs[..i + 1], f).segments
    ensures RenderEach(xs[..i + 1], f).fault == f(xs[i]).fault
  {
    assert xs[..i + 1] == xs[..i] + [xs[i]];
    RenderEachAppend(xs[..i], [xs[i]], f);
    assert [xs[i]][1..] == [];
  }

  /** Once the loop has raised, the rest of the sequence is never rendered. */
  lemma RenderEachStopsAtFault<T>(xs: seq<T>, f: T -> Rendered, i: nat)
    requires i <= |xs|
    requires RenderEach(xs[..i], f).fault.Some?
    ensures RenderEach(xs, f) == RenderEach(xs[..i], f)
  {
    assert xs == xs[..i] + xs[i..];
    RenderEachAppend(xs[..i], xs[i..], f);
  }
}
