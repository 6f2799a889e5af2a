/** What `search_word` promises about the query it sends and the screen it
    leaves, proved of `Lookup.NormalizeQuery` and `Lookup.LookupView`. */
module LookupProps {
  import opened PyStr
  import opened Entry
  import opened Render
  import opened Lookup
  import opened RenderProps

  /** `NormalizeQuery` is `strip()` followed by `lower()`. */
  lemma {:induction false} NormalizeQueryUnfold(input: string)
    ensures NormalizeQuery(input) == Lower(Strip(input))
  {
  }

  /** `word` is the part of `s` at offset `k`, with ASCII letters
      lower-cased, and what surrounds that part in `s` is whitespace. */
  predicate LoweredInfixAt(s: string, word: string, k: int) {
    && 0 <= k && k + |word| <= |s|
    && AllSpace(s[..k])
    && AllSpace(s[k + |word|..])
    && forall i :: 0 <= i < |word| ==> word[i] == LowerChar(s[k + i])
  }

  /** The normalised query is the input with the surrounding whitespace
      dropped (starting where `lstrip()` stops) and ASCII letters lower-cased,
      character by character. */
  lemma {:induction false} NormalizeQueryFromInput(input: string)
    ensures LoweredInfixAt(input, NormalizeQuery(input), |input| - |StripLeading(input)|)
  {
    StripIsInfix(input);
    NormalizeQueryUnfold(input);
    LowerTrimmed(input, Strip(input), |input| - |StripLeading(input)|, NormalizeQuery(input));
  }

  lemma LowerTrimmed(s: string, r: string, k: int, word: string)
    requires TrimmedAt(s, r, k) && word == Lower(r)
    ensures LoweredInfixAt(s, word, k)
  {
    forall i | 0 <= i < |word| ensures word[i] == LowerChar(s[k + i]) {
      assert r[i] == s[k..k + |r|][i];
    }
  }

  /** Normalising a normalised query changes nothing. */
  lemma {:induction false} NormalizeQueryIdempotent(input: string)
    ensures NormalizeQuery(NormalizeQuery(input)) == NormalizeQuery(input)
  {
    var word := NormalizeQuery(input);
    StripKeeps(word);
    LowerKeeps(word);
  }

  /** The screen shows a dictionary entry (its first segment is the title)
      exactly when the reply is a 200 whose body parsed, is non-empty, and
      whose first entry has every key the renderer reads with `[]`. */
  lemma LookupViewShowsEntry(response: Response)
    ensures var v := LookupView(response);
            (|v.segments| > 0 && v.segments[0].tag == TitleTag)
            <==> (&& response.Reply?
                  && response.status == 200
                  && response.body.Parsed?
                  && response.body.entries != []
                  && EntryOk(response.body.entries[0]))
  {
    if response.Reply? && response.status == 200 && response.body.Parsed? && response.body.entries != [] {
      var e := response.body.entries[0];
      RenderEntryFaultFree(e);
      if EntryOk(e) {
        RenderEntryLayout(e);
      }
    }
  }

  /** Whenever no entry is shown, the screen is one untagged line and the
      pronunciation frame is empty; the line is the not-found message exactly
      when the status was not 200, and otherwise starts with the error
      prefix. */
  lemma LookupViewOtherwise(response: Response)
    requires !(&& response.Reply?
               && response.status == 200
               && response.body.Parsed?
               && response.body.entries != []
               && EntryOk(response.body.entries[0]))
    ensures var v := LookupView(response);
            && |v.segments| == 1
            && v.segments[0].tag == NoTag
            && v.buttons == []
            && (v.segments[0].text == NotFoundMessage <==> response.Reply? && response.status != 200)
            && (v.segments[0].text != NotFoundMessage ==> ErrorPrefix <= v.segments[0].text)
            && (response.TransportError? ==> v.segments[0].text == ErrorPrefix + response.msg)
            && (response.Reply? && response.status == 200 && response.body.Unparsable? ==>
                  v.segments[0].text == ErrorPrefix + response.body.msg)
            && (response == Reply(200, Parsed([])) ==>
                  v.segments[0].text == ErrorPrefix + "list index out of range")
  {
    if response.Reply? && response.status == 200 && response.body.Parsed? && response.body.entries != [] {
      RenderEntryFaultFree(response.body.entries[0]);
    }
    assert NotFoundMessage[0] != ErrorPrefix[0];
  }

  /** A reply whose first entry lacks a key read with `[]` shows
      `An error occurred: '<key>'` for one of those keys, and no buttons: the
      partly written entry is replaced. */
  lemma LookupViewMissingKey(e: DictEntry, rest: seq<DictEntry>)
    requires !EntryOk(e)
    ensures var f := RenderEntry(e).fault;
            && f.Some? && f.value.MissingKey? && EntryKey(f.value.key)
            && LookupView(Reply(200, Parsed([e] + rest)))
               == View([Segment(ErrorPrefix + "'" + f.value.key + "'", NoTag)], [])
  {
    RenderEntryFaultFree(e);
    RenderEntryFaultKind(e);
    assert ([e] + rest)[0] == e;
    var key := RenderEntry(e).fault.value.key;
    assert ErrorPrefix + Message(MissingKey(key)) == ErrorPrefix + "'" + key + "'";
  }

  /** Only the first entry of the reply is looked at. */
  lemma LookupViewFirstEntryOnly(e: DictEntry, rest: seq<DictEntry>)
    ensures LookupView(Reply(200, Parsed([e] + rest))) == LookupView(Reply(200, Parsed([e])))
  {
    assert ([e] + rest)[0] == e;
  }

  /** A shown entry is exactly what `display_definition` rendered, with one
      button per audio URL of its phonetics. */
  lemma LookupViewSuccess(e: DictEntry, rest: seq<DictEntry>)
    requires EntryOk(e)
    ensures var v := LookupView(Reply(200, Parsed([e] + rest)));
            && v.segments == RenderEntry(e).segments
            && |v.buttons| == |AudioUrls(e.phonetics.GetOr([]))|
            && forall i :: 0 <= i < |v.buttons| ==> v.buttons[i] == ButtonFor(AudioUrls(e.phonetics.GetOr([]))[i])
  {
    RenderEntryFaultFree(e);
    PronunciationButtonsFollowAudio(e.phonetics.GetOr([]));
    assert ([e] + rest)[0] == e;
  }

  /** The "hello" entry with one meaning, one definition with an example, and
      no `phonetics` key. */
  const Hello: DictEntry := DictEntry(
    Some("hello"),
    Some("/həˈloʊ/"),
    Some([Meaning(Some("exclamation"), Some([Definition(Some("used as a greeting."), Some("hello there!"))]))]),
    None)

  lemma HelloStripLeading()
    ensures StripLeading(" Hello ") == "Hello "
  {
    assert !IsSpace('H');
    assert " Hello "[1..] == "Hello ";
    assert StripLeading("Hello ") == "Hello ";
  }

  lemma HelloStripTrailing()
    ensures StripTrailing("Hello ") == "Hello"
  {
    assert !IsSpace('o');
    assert "Hello "[..5] == "Hello";
    assert StripTrailing("Hello") == "Hello";
  }

  /** The query " Hello " is sent as "hello". */
  lemma HelloQuery()
    ensures NormalizeQuery(" Hello ") == "hello"
    ensures ApiUrl + NormalizeQuery(" Hello ") == "https://api.dictionaryapi.dev/api/v2/entries/en/hello"
  {
    HelloStripLeading();
    HelloStripTrailing();
    assert Strip(" Hello ") == "Hello";
    assert LowerChar('H') == 'h';
    assert Lower("Hello") == "hello";
  }

  lemma HelloTitle()
    ensures TitleLine("hello", "/həˈloʊ/") == "Hello /həˈloʊ/\n\n"
  {
    assert UpperChar('h') == 'H';
    assert Lower("ello") == "ello";
    assert Capitalize("hello") == "Hello";
  }

  lemma HelloHeader()
    ensures PosLine("exclamation") == "Exclamation:\n"
  {
    assert UpperChar('e') == 'E';
    assert Lower("xclamation") == "xclamation";
    assert Capitalize("exclamation") == "Exclamation";
  }

  lemma HelloDefinitionLine()
    ensures DefinitionLine("used as a greeting.") == " - used as a greeting.\n"
  {
  }

  lemma HelloExampleLine()
    ensures ExampleLine("hello there!") == "   Example: hello there!\n"
  {
  }

  lemma HelloDefinition()
    ensures RenderDefinition(Definition(Some("used as a greeting."), Some("hello there!"))) == Emit(
              [ Segment(" - used as a greeting.\n", DefinitionTag),
                Segment("   Example: hello there!\n", ExampleTag) ])
  {
    HelloDefinitionLine();
    HelloExampleLine();
  }

  lemma HelloMeaning()
    ensures RenderMeaning(Hello.meanings.value[0]) == Emit(
              [ Segment("Exclamation:\n", PosTag),
                Segment(" - used as a greeting.\n", DefinitionTag),
                Segment("   Example: hello there!\n", ExampleTag),
                Segment("\n", NoTag) ])
  {
    var m := Hello.meanings.value[0];
    var body := [Segment(" - used as a greeting.\n", DefinitionTag), Segment("   Example: hello there!\n", ExampleTag)];
    HelloHeader();
    HelloDefinition();
    assert m.definitions.value[1..] == [];
    assert RenderEach(m.definitions.value, RenderDefinition) == Emit(body);
    RenderMeaningUnfold(m);
  }

  /** End to end: the reply for "hello" shows its title, header, definition,
      example and blank line, in that order and with those tags, and no
      pronunciation buttons. */
  lemma HelloLookup()
    ensures LookupView(Reply(200, Parsed([Hello]))) == View(
              [ Segment("Hello /həˈloʊ/\n\n", TitleTag),
                Segment("Exclamation:\n", PosTag),
                Segment(" - used as a greeting.\n", DefinitionTag),
                Segment("   Example: hello there!\n", ExampleTag),
                Segment("\n", NoTag) ],
              [])
  {
    HelloTitle();
    HelloMeaning();
    assert Hello.meanings.value[1..] == [];
    assert RenderEach(Hello.meanings.value, RenderMeaning) == RenderMeaning(Hello.meanings.value[0]);
  }
}
