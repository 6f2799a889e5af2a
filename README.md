# Dictionary lookup — a Dafny model

The program is a small Tk desktop dictionary. The user types a word and
presses Define. `DictionaryApp.search_word` normalises the query and sends
one GET request to `https://api.dictionaryapi.dev/api/v2/entries/en/<word>`.
`display_definition` then writes the first entry of the JSON reply into a
read-only text widget, using the tags "title", "pos", "definition" and
"example". `_add_pronunciation_buttons` adds one "UK/US Pronunciation" button
per audio recording, and `_update_result_text` replaces the whole text with
one message whenever something goes wrong.

The model has seven modules, one of which holds a class:

- `PyStr` (pystr.dfy) covers the Python `str` operations the code relies on:
  `strip()` with Python's full whitespace set, and `lower()`, `capitalize()`
  over ASCII letters. It also has the substring test `sub in s`.
- `Entry` (entry.dfy) holds the parsed JSON entry. A key that the code reads
  with `obj[key]` is an `Option`, so a missing key can be represented. It
  also holds the outcome of the request and the exceptions the lookup can
  catch, each with its `str(e)` text.
- `Render` (render.dfy) says as values what `display_definition` writes (a
  list of `(text, tag)` segments) and which buttons `_add_pronunciation_buttons`
  creates. A render that hits a missing key stops where Python raises: the
  segments written so far stay, and the fault travels out with them.
- `Lookup` (lookup.dfy) holds the query normalisation and `LookupView`. For a
  non-empty query, `LookupView` is the final screen (segments and buttons)
  for every possible outcome of the request.
- `App.DictionaryApp` (app.dfy) is the widget state as a class. It has the
  text buffer `resultText` and the button list `pronunciationButtons`, and its
  methods update them step by step, loop by loop, as the Python methods do.
  Each method is proved against the value-level functions above.
- `RenderProps` and `LookupProps` (render_props.dfy, lookup_props.dfy) prove
  what those functions promise:
  - when rendering raises, and with which key;
  - which lines carry which tag, and in what order;
  - that the buttons follow the audio URLs in order;
  - what the user sees for each kind of reply;
  - the "hello" lookup from start to finish.

The HTTP request is not performed. `SearchWord` returns the URL it would
request, and takes the request's outcome (`Response`) as a parameter: a
transport exception, or a status code with a body that either parsed or did
not.

## Model

| member | source | states |
|---|---|---|
| `PyStr.LowerChar` | src/main.py:123 | the lower-case of a character is never an upper-case ASCII letter; an upper-case ASCII letter becomes its own lower-case letter (code point plus 32), and every other character is kept |
| `PyStr.UpperChar` | src/main.py:149 | the upper-case of a character is never a lower-case ASCII letter; a lower-case letter becomes the upper-case letter whose lower-case it is; other characters are kept |
| `PyStr.StripLeading` | src/main.py:123 | `lstrip()` returns a suffix of its input; everything it drops is whitespace, and what it returns does not start with whitespace |
| `PyStr.StripTrailing` | src/main.py:123 | `rstrip()` returns a prefix of its input; everything it drops is whitespace, and what it returns does not end with whitespace |
| `PyStr.Strip` | src/main.py:123 | `strip()` is no longer than its input, neither starts nor ends with whitespace, and is empty exactly when the input is all whitespace |
| `PyStr.StripIsInfix` | src/main.py:123 | `strip()` returns the infix of the input that starts where `lstrip()` stops; the characters before and after it are all whitespace |
| `PyStr.Lower` | src/main.py:123 | `lower()` keeps the length and maps every character through `LowerChar` |
| `PyStr.Capitalize` | src/main.py:149 | `capitalize()` keeps the length. The first character is not a lower-case letter, none after it is upper-case, and every character agrees with the input's up to case |
| `PyStr.ContainsIff` | src/main.py:180 | `sub in s` holds exactly when `sub` occurs in `s` at some offset |
| `Render.ButtonFor` | src/main.py:180-184 | a button plays the URL it was made for. Its caption is "UK Pronunciation" exactly when the URL contains "uk", and "US Pronunciation" otherwise |
| `Render.PronunciationButtons` | src/main.py:175-186 | there are no more buttons than phonetics, and none at all exactly when no phonetic has a non-empty `audio`. Every button has a non-empty URL and the caption the accent rule gives |
| `Render.RenderEachAppend` | src/main.py:154-161 | a `for` loop over `xs + ys` is the loop over `xs` and then, unless it raised, the loop over `ys` |
| `Render.RenderEachStopsAtFault` | src/main.py:154-161 | once an element raises, the rest of the loop is never rendered |
| `Lookup.NormalizeQuery` | src/main.py:123-124 | the query is empty exactly when the input is all whitespace. A non-empty query has no whitespace at either end and no upper-case ASCII letter, and it is never longer than the input |
| `RenderProps.RenderEachFaultFree` | src/main.py:154-161 | a `for` loop finishes without raising exactly when no element raises |
| `RenderProps.RenderEachFaultFrom` | src/main.py:154-161 | a loop that raised re-raises the exception of one of its elements |
| `RenderProps.RenderMeaningFaultFree` | src/main.py:155-161 | a meaning renders without raising exactly when `partOfSpeech`, `definitions` and every `definition` are present |
| `RenderProps.RenderEntryFaultFree` | src/main.py:149-161 | `display_definition` raises exactly when some key that the code reads with `[]` is missing |
| `RenderProps.RenderMeaningFaultKind` | src/main.py:155-158 | a meaning can only raise a `KeyError` for `partOfSpeech`, `definitions` or `definition` |
| `RenderProps.RenderEntryFaultKind` | src/main.py:149-158 | rendering can only raise a `KeyError` for one of the four keys read with `[]`, and the error is for `word` exactly when `word` is missing |
| `RenderProps.DefinitionTags` | src/main.py:158-160 | a definition writes its line under "definition", and its example (only when present and non-empty) under "example"; nothing else |
| `RenderProps.MeaningTaggedSplit` | src/main.py:155-161 | projected on one tag, a meaning writes its header under "pos", then its definitions, then one untagged blank line |
| `RenderProps.DefinitionsLines` | src/main.py:157-160 | the definitions loop writes the definition lines and the example lines in the definitions' order |
| `RenderProps.MeaningTags` | src/main.py:154-161 | a meaning writes one "pos" line, its definition and example lines in order, one untagged blank line, and nothing under "title" |
| `RenderProps.RenderEntryLayout` | src/main.py:149-161 | in a successful render, the title line is first and is the only "title" line. Projected on each other tag (headers, definition lines, example lines, blank lines), the lines are those of the meanings, meaning by meaning |
| `RenderProps.RenderEntryHeaders` | src/main.py:154-161 | a successful render has exactly one header and one blank line per meaning, and the i-th header is that of the i-th meaning |
| `RenderProps.DefinitionCount` | src/main.py:154-158 | a successful render writes exactly one "definition" line per definition, summed over all meanings |
| `RenderProps.MeaningDefinitionLinesInOrder` | src/main.py:157-158 | a meaning has one definition line per definition, in order |
| `RenderProps.PronunciationButtonsFollowAudio` | src/main.py:175-186 | the buttons are exactly one per non-empty audio URL, in the phonetics' order, each labelled by the accent rule |
| `LookupProps.NormalizeQueryFromInput` | src/main.py:123 | the query is the input with the surrounding whitespace removed and ASCII letters lower-cased, character by character |
| `LookupProps.NormalizeQueryIdempotent` | src/main.py:123 | normalising a normalised query changes nothing |
| `LookupProps.LookupViewShowsEntry` | src/main.py:132-140 | the screen shows an entry (title first) exactly when the reply is a 200 whose JSON parsed into a non-empty array whose first entry has every key read with `[]` |
| `LookupProps.LookupViewOtherwise` | src/main.py:132-140 | otherwise the screen is one untagged line and there are no buttons. The line is "Word not found. Try another word." exactly when the status was not 200, and starts with "An error occurred: " in every other case. A transport error or an undecodable body shows exactly "An error occurred: " followed by the exception's text, and an empty array shows "An error occurred: list index out of range" |
| `LookupProps.LookupViewMissingKey` | src/main.py:135-140 | a first entry that lacks a key shows `An error occurred: '<key>'` for one of the four keys. The partly written entry is replaced and no buttons appear |
| `LookupProps.LookupViewFirstEntryOnly` | src/main.py:135 | only the first entry of the reply array matters |
| `LookupProps.LookupViewSuccess` | src/main.py:135-136 | a shown entry is exactly the rendered entry, with one button per audio URL of its phonetics, in order |
| `LookupProps.HelloQuery` | src/main.py:123-133 | the query " Hello " requests `.../entries/en/hello` |
| `LookupProps.HelloTitle` | src/main.py:149-151 | the title line of "hello" with phonetic "/həˈloʊ/" is "Hello /həˈloʊ/" followed by a blank line |
| `LookupProps.HelloHeader` | src/main.py:155-156 | the header for "exclamation" is "Exclamation:" |
| `LookupProps.HelloDefinition` | src/main.py:158-160 | the "hello" definition writes its line and its example line, in that order |
| `LookupProps.HelloMeaning` | src/main.py:154-161 | the "hello" meaning writes header, definition, example and blank line |
| `LookupProps.HelloLookup` | src/main.py:132-164 | a 200 reply for "hello" with no `phonetics` shows title, header, definition, example and blank line, with those tags, and no buttons |
| `App.DictionaryApp.constructor` | src/main.py:91-118 | a new window starts with an empty result text and no buttons |
| `App.DictionaryApp.Insert` | src/main.py:151 | `insert(tk.END, text, tag)` appends one segment and changes nothing else |
| `App.DictionaryApp.UpdateResultText` | src/main.py:205-210 | afterwards the result text is the one untagged message, whatever `is_error` says |
| `App.DictionaryApp.ClearPronunciationButtons` | src/main.py:129-130 | destroying every child empties the frame |
| `App.DictionaryApp.AddPronunciationButtons` | src/main.py:175-186 | the loop appends exactly `PronunciationButtons(phonetics)` to the existing buttons |
| `App.DictionaryApp.DisplayDefinitionItem` | src/main.py:158-160 | one pass of the inner loop appends what `RenderDefinition` gives, or raises on a missing `definition` before writing |
| `App.DictionaryApp.DisplayDefinitions` | src/main.py:157-160 | the inner loop appends what the definitions render to, and stops at the first one that raises |
| `App.DictionaryApp.DisplayMeaning` | src/main.py:155-161 | one pass of the outer loop appends what `RenderMeaning` gives, with its fault |
| `App.DictionaryApp.DisplayMeanings` | src/main.py:154-161 | the outer loop appends what the meanings render to, and stops at the first one that raises |
| `App.DictionaryApp.DisplayDefinition` | src/main.py:142-164 | the result text becomes exactly `RenderEntry(data)`. The buttons are extended by `PronunciationButtons` only when nothing raised; a raise leaves them as they were |
| `App.DictionaryApp.SearchWord` | src/main.py:121-140 | an all-whitespace query shows "Please enter a word.", sends nothing and keeps the buttons. Any other query requests the API URL plus the normalised word and leaves exactly `LookupView(response)` on screen |

## Left out

- The window itself is left out: widget construction, layout, fonts and colours (src/main.py:1-119), `_create_custom_button`, and the `tag_configure` styling (src/main.py:166-170). A button is modelled by its caption and URL.
- The widget's `normal`/`disabled` state switching (src/main.py:145, 173, 207, 210) has no effect on what is shown, so it is not modelled. When `display_definition` raises, the source leaves the widget in `normal` state until `_update_result_text` disables it again.
- `play_pronunciation` (src/main.py:188-203) is left out: it downloads the audio, writes a temporary file, plays it through pygame and deletes it on a timer.
- The program entry point (src/main.py:213-216) is left out.
- The network is not modelled. `SearchWord` returns the URL it requests, and the request's outcome is the `response` parameter. Blocking the UI thread during the request is not modelled.
- JSON decoding is not modelled. A reply body is either a list of already-typed entries or an opaque decoding error. Values of an unexpected JSON type are not represented, for example a `null` phonetic (which Python would print as "None"), a `meanings` value that is not a list, or a top-level object instead of an array. The text of a transport or decoding exception is an opaque string.
- Exceptions raised by Tk itself, or by creating a button, are not modelled.
- PyStr.Lower: lower-cases ASCII letters only. Python's `str.lower()` also lower-cases non-ASCII letters, so the model is weaker for non-English queries.
- PyStr.Capitalize: works on ASCII letters only, while Python's `str.capitalize()` covers all of Unicode (including title-case characters).
- Tk's silent dropping of an empty `insert` is not modelled. No insert in the modelled code can be empty except `_update_result_text("")`, which nothing calls.
- The nested `for` loops of `display_definition` are split into four methods, `DisplayDefinitionItem`, `DisplayDefinitions`, `DisplayMeaning` and `DisplayMeanings`, so that each loop keeps its own invariant. The statements run in the same order as in the source.
- What the code at src/main.py:121-186 does, and the model with it:
  - the only accents are UK and US: every recording whose URL does not contain "uk" is labelled US;
  - there is no placeholder when no phonetic has a recording: the frame is just left empty;
  - every definition of a meaning is rendered, each with a " - " bullet and no numbering;
  - an empty query shows "Please enter a word.".
