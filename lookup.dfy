/** The decisions `search_word` takes: how the query is normalised, which
    request it issues, and which result text and buttons each response leaves
    on screen. */
module Lookup {
  import opened PyStr
  import opened Entry
  import opened Render

  const ApiUrl: string := "https://api.dictionaryapi.dev/api/v2/entries/en/"
  const EmptyQueryMessage: string := "Please enter a word."
  const NotFoundMessage: string := "Word not found. Try another word."
  const ErrorPrefix: string := "An error occurred: "

  /** `query.strip().lower()`. The query is empty exactly when the input is
      all whitespace; otherwise it has no surrounding whitespace and no
      upper-case ASCII letter. */
  function NormalizeQuery(input: string): (word: string)
    ensures |word| <= |input|
    ensures word == "" <==> forall i :: 0 <= i < |input| ==> IsSpace(input[i])
    ensures word != "" ==> !IsSpace(word[0]) && !IsSpace(word[|word| - 1])
    ensures forall i :: 0 <= i < |word| ==> !IsAsciiUpper(word[i])
  {
    var stripped := Strip(input);
    LowerKeepsSpace(stripped);
    Lower(stripped)
  }

  /** The result text after `_update_result_text(text)`: one untagged segment. */
  function Plain(text: string): seq<Segment> {
    [Segment(text, NoTag)]
  }

  /** The final result text and pronunciation buttons of a lookup. */
  datatype View = View(segments: seq<Segment>, buttons: seq<Button>)

  function ErrorView(f: Fault): View {
    View(Plain(ErrorPrefix + Message(f)), [])
  }

  /** What a lookup of a non-empty query shows for a given response. */
  function LookupView(response: Response): View {
    match response
    case TransportError(msg) => ErrorView(Raised(msg))
    case Reply(status, body) =>
      if status != 200 then View(Plain(NotFoundMessage), [])
      else
        match body
        case Unparsable(msg) => ErrorView(Raised(msg))
        case Parsed(entries) =>
          if entries == [] then ErrorView(IndexOutOfRange)
          else
            var r := RenderEntry(entries[0]);
            if r.fault.Some? then ErrorView(r.fault.value)
            else View(r.segments, PronunciationButtons(entries[0].phonetics.GetOr([])))
  }
}
