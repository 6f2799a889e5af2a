/** The data the lookup works on: one parsed dictionary entry as the web
    service returns it in JSON, the response of the lookup request, and the
    exceptions the lookup code can raise and catch. */
module Entry {

  /** Presence of a JSON key: `None` when the object has no such key. */
  datatype Option<T> = None | Some(value: T) {
    function GetOr(default: T): T {
      match this
      case Some(v) => v
      case None => default
    }
  }

  /** One element of a meaning's `definitions` array. The source reads
      `definition` with `[]` (a missing key raises) and `example` with `.get`. */
  datatype Definition = Definition(definition: Option<string>, example: Option<string>)

  /** One element of the entry's `meanings` array; both keys are read with `[]`. */
  datatype Meaning = Meaning(partOfSpeech: Option<string>, definitions: Option<seq<Definition>>)

  /** One element of the entry's `phonetics` array; `audio` is read with `.get`. */
  datatype Phonetic = Phonetic(audio: Option<string>)

  /** The first element of the response array. `word` is read with `[]`;
      `phonetic`, `meanings` and `phonetics` with `.get` and a default. */
  datatype DictEntry = DictEntry(
    word: Option<string>,
    phonetic: Option<string>,
    meanings: Option<seq<Meaning>>,
    phonetics: Option<seq<Phonetic>>)

  /** The body of an HTTP reply: the decoded JSON array, or the text of the
      decoding error `response.json()` raises. */
  datatype Body = Parsed(entries: seq<DictEntry>) | Unparsable(msg: string)

  /** What the GET request yields: a transport exception carrying its text,
      or a reply with a status code and a body. */
  datatype Response = TransportError(msg: string) | Reply(status: int, body: Body)

  /** An exception caught by the `except Exception` clause of the lookup. */
  datatype Fault =
    | Raised(msg: string)      // transport or JSON decoding error, text opaque
    | MissingKey(key: string)  // KeyError from `obj[key]`
    | IndexOutOfRange          // IndexError from `[0]` on an empty array

  /** `str(e)` for each kind of caught exception. */
  function Message(f: Fault): string {
    match f
    case Raised(msg) => msg
    case MissingKey(key) => "'" + key + "'"
    case IndexOutOfRange => "list index out of range"
  }
}
