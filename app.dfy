/** The state `DictionaryApp` keeps between lookups and the four methods that
    update it: the read-only result text (a list of tagged segments) and the
    children of the pronunciation frame (a list of buttons). */
module App {
  import opened PyStr
  import opened Entry
  import opened Render
  import opened Lookup

  class DictionaryApp {
    /** The contents of the result text widget, in insertion order. */
    var resultText: seq<Segment>
    /** The buttons of the pronunciation frame, left to right. */
    var pronunciationButtons: seq<Button>

    constructor ()
      ensures resultText == [] && pronunciationButtons == []
    {
      resultText := [];
      pronunciationButtons := [];
    }

    /** `result_text.insert(tk.END, text, tag)`. */
    method Insert(text: string, tag: Tag)
      modifies this`resultText
      ensures resultText == old(resultText) + [Segment(text, tag)]
    {
      resultText := resultText + [Segment(text, tag)];
    }

    /** `_update_result_text`: clear the widget, then write `text` untagged.
        `isError` has no effect on what is shown. */
    method UpdateResultText(text: string, isError: bool)
      modifies this`resultText
      ensures resultText == Plain(text)
    {
      resultText := [];
      Insert(text, NoTag);
    }

    /** `for widget in pronunciation_frame.winfo_children(): widget.destroy()`. */
    method ClearPronunciationButtons()
      modifies this`pronunciationButtons
      ensures pronunciationButtons == []
    {
      var children := pronunciationButtons;
      var i := 0;
      while i < |children|
        invariant 0 <= i <= |children|
        invariant pronunciationButtons == children[i..]
      {
        pronunciationButtons := pronunciationButtons[1..];
        i := i + 1;
      }
    }

    /** `_add_pronunciation_buttons`: one button per phonetic whose `audio`
        is present and non-empty, appended in order. */
    method AddPronunciationButtons(phonetics: seq<Phonetic>)
      modifies this`pronunciationButtons
      ensures pronunciationButtons == old(pronunciationButtons) + PronunciationButtons(phonetics)
    {
      var i := 0;
      while i < |phonetics|
        invariant 0 <= i <= |phonetics|
        invariant pronunciationButtons == old(pronunciationButtons) + PronunciationButtons(phonetics[..i])
      {
        var phonetic := phonetics[i];
        if phonetic.audio.Some? && phonetic.audio.value != "" {
          pronunciationButtons := pronunciationButtons + [ButtonFor(phonetic.audio.value)];
        }
        PronunciationButtonsStep(phonetics, i, old(pronunciationButtons), pronunciationButtons);
        i := i + 1;
      }
      assert phonetics[..|phonetics|] == phonetics;
    }

    /** One pass of the inner loop of `display_definition`: the definition
        line, then the example line when the example is present and non-empty.
        A missing `definition` key raises before anything is written. */
    method DisplayDefinitionItem(definition: Definition) returns (fault: Option<Fault>)
      modifies this`resultText
      ensures resultText == old(resultText) + RenderDefinition(definition).segments
      ensures fault == RenderDefinition(definition).fault
    {
      if definition.definition.None? {
        return Some(MissingKey("definition"));
      }
      Insert(" - " + definition.definition.value + "\n", DefinitionTag);
      if definition.example.Some? && definition.example.value != "" {
        Insert("   Example: " + definition.example.value + "\n", ExampleTag);
      }
      fault := None;
    }

    /** The inner loop of `display_definition`
        (`for definition in meaning['definitions']`): each definition in
        order, stopping at the first one that raises. */
    method DisplayDefinitions(definitions: seq<Definition>) returns (fault: Option<Fault>)
      modifies this`resultText
      ensures resultText == old(resultText) + RenderEach(definitions, RenderDefinition).segments
      ensures fault == RenderEach(definitions, RenderDefinition).fault
    {
      ghost var before := resultText;
      var j := 0;
      while j < |definitions|
        invariant 0 <= j <= |definitions|
        invariant RenderEach(definitions[..j], RenderDefinition).fault.None?
        invariant resultText == before + RenderEach(definitions[..j], RenderDefinition).segments
      {
        var raised := DisplayDefinitionItem(definitions[j]);
        RenderEachStep(definitions, RenderDefinition, j, before, resultText);
        if raised.Some? {
          RenderEachStopsAtFault(definitions, RenderDefinition, j + 1);
          return raised;
        }
        j := j + 1;
      }
      assert definitions[..|definitions|] == definitions;
      fault := None;
    }

    /** One pass of the outer loop of `display_definition`: the meaning's
        header, then its definitions, then a blank line. A missing key raises
        out of it with the text written so far kept. */
    method DisplayMeaning(meaning: Meaning) returns (fault: Option<Fault>)
      modifies this`resultText
      ensures resultText == old(resultText) + RenderMeaning(meaning).segments
      ensures fault == RenderMeaning(meaning).fault
    {
      if meaning.partOfSpeech.None? {
        return Some(MissingKey("partOfSpeech"));
      }
      RenderMeaningUnfold(meaning);
      var partOfSpeech := Capitalize(meaning.partOfSpeech.value);
      Insert(partOfSpeech + ":\n", PosTag);
      if meaning.definitions.None? {
        return Some(MissingKey("definitions"));
      }
      fault := DisplayDefinitions(meaning.definitions.value);
      if fault.None? {
        Insert("\n", NoTag);
      }
    }

    /** The outer loop of `display_definition`
        (`for meaning in data.get('meanings', [])`): each meaning in order,
        stopping at the first one that raises. */
    method DisplayMeanings(meanings: seq<Meaning>) returns (fault: Option<Fault>)
      modifies this`resultText
      ensures resultText == old(resultText) + RenderEach(meanings, RenderMeaning).segments
      ensures fault == RenderEach(meanings, RenderMeaning).fault
    {
      ghost var before := resultText;
      var i := 0;
      while i < |meanings|
        invariant 0 <= i <= |meanings|
        invariant RenderEach(meanings[..i], RenderMeaning).fault.None?
        invariant resultText == before + RenderEach(meanings[..i], RenderMeaning).segments
      {
        var raised := DisplayMeaning(meanings[i]);
        RenderEachStep(meanings, RenderMeaning, i, before, resultText);
        if raised.Some? {
          RenderEachStopsAtFault(meanings, RenderMeaning, i + 1);
          return raised;
        }
        i := i + 1;
      }
      assert meanings[..|meanings|] == meanings;
      fault := None;
    }

    /** `display_definition`: clear the result text, write the title line,
        then the meanings, then add the pronunciation buttons. A missing key
        raises out of the loops; it is returned as `fault`, with the text
        written so far kept and no buttons added. */
    method DisplayDefinition(data: DictEntry) returns (fault: Option<Fault>)
      modifies this
      ensures resultText == RenderEntry(data).segments
      ensures fault == RenderEntry(data).fault
      ensures pronunciationButtons ==
                if fault.None? then old(pronunciationButtons) + PronunciationButtons(data.phonetics.GetOr([]))
                else old(pronunciationButtons)
    {
      resultText := [];
      if data.word.None? {
        return Some(MissingKey("word"));
      }
      var word := Capitalize(data.word.value);
      var phonetic := data.phonetic.GetOr("");
      Insert(word + " " + phonetic + "\n\n", TitleTag);

      fault := DisplayMeanings(data.meanings.GetOr([]));
      if fault.None? {
        AddPronunciationButtons(data.phonetics.GetOr([]));
      }
    }

    /** `search_word`: normalise the query; an empty one shows a prompt and
        issues no request. Otherwise clear the buttons, issue the GET request
        (returned as `request`; `response` is what it yields) and show the
        entry or the error. */
    method SearchWord(query: string, response: Response) returns (request: Option<string>)
      modifies this
      ensures NormalizeQuery(query) == "" ==>
                && request == None
                && resultText == Plain(EmptyQueryMessage)
                && pronunciationButtons == old(pronunciationButtons)
      ensures NormalizeQuery(query) != "" ==>
                && request == Some(ApiUrl + NormalizeQuery(query))
                && resultText == LookupView(response).segments
                && pronunciationButtons == LookupView(response).buttons
    {
      var word := NormalizeQuery(query);
      if word == "" {
        UpdateResultText(EmptyQueryMessage, true);
        return None;
      }

      ClearPronunciationButtons();

      request := Some(ApiUrl + word);
      match response
      case TransportError(msg) =>
        UpdateResultText(ErrorPrefix + Message(Raised(msg)), true);
      case Reply(status, body) =>
        if status == 200 {
          match body
          case Unparsable(msg) =>
            UpdateResultText(ErrorPrefix + Message(Raised(msg)), true);
          case Parsed(entries) =>
            if entries == [] {
              UpdateResultText(ErrorPrefix + Message(IndexOutOfRange), true);
            } else {
              var fault := DisplayDefinition(entries[0]);
              if fault.Some? {
                UpdateResultText(ErrorPrefix + Message(fault.value), true);
              }
            }
        } else {
          UpdateResultText(NotFoundMessage, true);
        }
    }
  }
}
