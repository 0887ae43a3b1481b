# jsonify-it page script, modelled in Dafny

The page script of jsonify-it lets a user paste CSV text, sniffs its
separator, builds radio lists from the header row, and collects the form
into a query string. It then POSTs the CSV text to the conversion endpoint
and shows the JSON answer in a preview pane or a final-output pane. The
model covers the script's logic:

- `JsStrings` defines the JavaScript built-ins the script relies on, as
  ECMAScript defines them. These are ToBoolean and ToString of form values,
  the first element of `split(/\n|\r/)`, `String.prototype.split` with a
  string separator, `substring` with clamped and swapped bounds, and
  `String(n)`. It also defines `Join`, which the script never calls: it is
  the reference form that the accumulate-and-cut loop of `getParams`
  (lines 159-168) is proved equal to, and the inverse `split` is proved
  against.
- `Sniffer` models `detectSep`. It takes the first row, strips the plain
  characters and counts the rest in a map. It keeps a running `maxChar`
  that a character replaces only when its count strictly exceeds the
  leader's. `Leader` is the reference fold of that loop. `IsSeparatorOf`
  characterises its answer independently: the answer has the maximal
  count and reaches that count first. Lemmas prove that the fold's answer
  satisfies this characterisation and that only one character can.
- `Radios` models `getRadioVal`: the first checked value of a list, or
  `undefined`. It also models the list entries `populateDropdowns` builds.
- `Encoder` models the loop of `getParams`. It appends `label=value&` for
  each truthy value and then drops the last character. The model proves
  that this equals the `&`-join of the truthy pieces (the omission law).
  It also proves the round trip through `split("&")`, the fixed ending
  `preview=true&file_or_input=input`, and the example query.
- `PageParams` covers the thirteen values `getParams` reads, the request
  URL, and the effect of rebuilding the column lists on the next request.
- `PageForm` is a class `Form` whose fields are the page elements the
  script reads and writes. Its methods are `detectSep`, `getParams`,
  `processData`, `populateDropdowns` and the four button handlers. Each
  method that writes has a field-level `modifies` frame, and each
  handler's ensures pin the pane it does not target.

Three behaviours of the script shape the model.

- When no separator is found, `detectSep` still writes the empty string
  into the separator field (line 111), so the previous separator is not
  kept.
- The strip pattern of `detectSep` also removes `_` (line 93).
- The process button reads the form (`getParams`, line 16) before it
  rebuilds the column lists (lines 23-24). Its request therefore carries
  the new separator together with the selections made before the click.
  The lists are rebuilt afterwards, and from then on those selections read
  as the empty `None` choice.

## Model

| member | source | states |
|---|---|---|
| JsStrings.Truthy | app/static/js/page-functionality.js:162 | the ToBoolean test of `if (allFields[i])`: `undefined`, the empty string and `false` are falsy, every other string and `true` are truthy (a definition, no contract) |
| JsStrings.ToText | app/static/js/page-functionality.js:163 | the ToString that `+` applies to a field value: `undefined` becomes `undefined`, a boolean `true` or `false`, a string itself (a definition, no contract) |
| JsStrings.Substring | app/static/js/page-functionality.js:168 | `substring(start, end)`: both bounds clamped to the string and swapped when the first is larger (a definition, no contract) |
| JsStrings.FirstLine | app/static/js/page-functionality.js:90-91 | the first row is a prefix of the text, holds no CR or LF, and is followed by a CR or LF unless it is the whole text |
| JsStrings.FirstLineOf | app/static/js/page-functionality.js:90-91 | a line without breaks followed by a break or by nothing is the first row of the whole text |
| JsStrings.IndexOf | app/static/js/page-functionality.js:185 | the result is the least position at or after `from` where the separator occurs, or -1 when there is none |
| JsStrings.Split | app/static/js/page-functionality.js:185 | an empty separator yields the single characters; otherwise there is at least one piece, no piece contains the separator, a text without the separator is its own only piece, and the first piece ends at the leftmost occurrence |
| JsStrings.SplitThenJoin | app/static/js/page-functionality.js:185 | joining the pieces of a split with the same separator gives back the text |
| JsStrings.SplitCharsJoin | app/static/js/page-functionality.js:185 | joining the single characters of a split on the empty separator gives back the text |
| JsStrings.JoinThenSplit | app/static/js/page-functionality.js:161-168 | splitting a join on a one-character separator gives back the pieces when no piece holds that character |
| JsStrings.NatToString | app/static/js/page-functionality.js:199 | `String(i)` is non-empty and has one digit exactly when `i < 10` |
| JsStrings.NatToStringInjective | app/static/js/page-functionality.js:199 | different indices give different digit strings |
| Sniffer.IsPlain | app/static/js/page-functionality.js:93 | the characters the strip pattern removes: ASCII letters of either case, digits, both quotes, the period and the underscore (a definition, no contract) |
| Sniffer.Sniff | app/static/js/page-functionality.js:88-112 | the separator `detectSep` writes: the running leader of the stripped first row (a definition, no contract; its properties are the rows below) |
| Sniffer.StripPlain | app/static/js/page-functionality.js:93 | no letter, digit, quote, period or underscore is left after stripping |
| Sniffer.StripPlainCounts | app/static/js/page-functionality.js:93 | stripping keeps every other character as often as the row has it |
| Sniffer.StripPlainAppend | app/static/js/page-functionality.js:93 | stripping a concatenation strips each part and keeps them in order, so the kept characters stay in row order |
| Sniffer.StripPlainEmptyIff | app/static/js/page-functionality.js:93 | stripping leaves nothing exactly when every character is plain |
| Sniffer.CountMapCounts | app/static/js/page-functionality.js:96-102 | the `charCounts` object after the loop has an entry exactly for the characters of the row, and each entry is that character's count |
| Sniffer.Leader | app/static/js/page-functionality.js:96-108 | the running leader is at most one character, is empty exactly for the empty row, and occurs in the row |
| Sniffer.LeaderIsSeparator | app/static/js/page-functionality.js:96-108 | the leader of a non-empty row occurs in it, no character occurs more often, and it reaches its count no later than any other character |
| Sniffer.SeparatorUnique | app/static/js/page-functionality.js:105-107 | at most one character satisfies that characterisation, so the tie rule fixes the answer |
| Sniffer.MostFrequent | app/static/js/page-functionality.js:96-108 | the counting loop returns the leader of the row, and returns the empty string exactly when the row is empty |
| Sniffer.SniffEmptyIff | app/static/js/page-functionality.js:88-112 | nothing is sniffed exactly when the first row holds plain characters only |
| Sniffer.SniffFirstLineOnly | app/static/js/page-functionality.js:90-91 | text after the first CR or LF does not change the sniffed separator |
| Sniffer.SniffIsMostFrequent | app/static/js/page-functionality.js:88-112 | a sniffed separator is a non-plain character of the first row, no non-plain character occurs there more often, and it wins the tie rule both on the stripped row and on the first row itself: at every prefix of the row where a non-plain character has reached the separator's final count, the separator has reached it too |
| Sniffer.SniffTieExample | app/static/js/page-functionality.js:105-107 | on a tie the character counted first wins: a row with one pipe before one semicolon gives the pipe |
| Sniffer.SniffMajorityExample | app/static/js/page-functionality.js:105-107 | a character that overtakes the leader replaces it: `a;b,c,d` gives `,` |
| Sniffer.SniffSemicolonExample | app/static/js/page-functionality.js:88-112 | the text `x;y`, a line break, `1;2` gives `;` |
| Radios.CheckedValue | app/static/js/page-functionality.js:118-135 | the result is `undefined` exactly when no entry is checked, and otherwise the value of the first checked entry |
| Radios.GetRadioVal | app/static/js/page-functionality.js:127-134 | the scanning loop with its early exit returns the checked value of the list |
| Radios.ButtonsForRefresh | app/static/js/page-functionality.js:2 | the four lists the buttons rebuild, in order: index, group-by, sum and average (a constant) |
| Radios.Options | app/static/js/page-functionality.js:184-186 | the options of a rebuilt list: `None`, then the first row split by the separator field (a definition, no contract) |
| Radios.IsOptionEntry | app/static/js/page-functionality.js:199-215 | the entry built at position i: id `<list>1_<i>`, name `<list>1`, the option as label, checked with an empty value for `None`, otherwise unchecked with the option as value (a definition, no contract) |
| Radios.AppendOptions | app/static/js/page-functionality.js:196-223 | the existing entries are kept and one entry per option is appended, in option order, with id `<list>1_<i>` and name `<list>1`; the `None` option is checked with an empty value, and every other option is unchecked with its own text as value |
| Radios.OptionListUnique | app/static/js/page-functionality.js:196-223 | a rebuilt list depends only on the list and its options, so rebuilding twice gives the same list and adds no duplicates |
| Radios.RebuiltListReadsEmpty | app/static/js/page-functionality.js:210-213 | a list rebuilt with the `None` sentinel first reads as the empty string, which is falsy |
| Radios.RebuiltIdsDistinct | app/static/js/page-functionality.js:199-208 | the ids of a rebuilt list are pairwise distinct |
| Radios.SplitHeaderExample | app/static/js/page-functionality.js:185 | the header `id,name` splits on `,` into `id` and `name` |
| Radios.OptionsExample | app/static/js/page-functionality.js:184-186 | the CSV text `id,name`, a line break, `1,foo` under `,` gives the options `None`, `id`, `name` |
| Encoder.FieldLabels | app/static/js/page-functionality.js:3 | the thirteen parameter names, in the order the values are collected (a constant) |
| Encoder.IncludedPairs | app/static/js/page-functionality.js:158-165 | one `label=value` piece per truthy value, in field order (a definition, no contract; its properties are the rows below) |
| Encoder.EncodeQuery | app/static/js/page-functionality.js:158-168 | the query: the included pieces joined by `&` (a definition, no contract; `EncodeParams` proves the loop computes it) |
| Encoder.TruthyIndices | app/static/js/page-functionality.js:161-162 | the positions are increasing, every one holds a truthy value, and every truthy position is listed |
| Encoder.IncludedPairsAreTruthyFields | app/static/js/page-functionality.js:161-165 | the emitted pieces are exactly `label=value` for the truthy positions, in position order; a falsy value contributes neither label nor value |
| Encoder.FalsyNotIncluded | app/static/js/page-functionality.js:162 | a falsy position is never among the included ones |
| Encoder.TerminatedIsJoin | app/static/js/page-functionality.js:161-165 | the accumulated text is the join of the pieces followed by one `&` |
| Encoder.ChopLastIsJoin | app/static/js/page-functionality.js:168 | dropping the last character of the accumulated text leaves the join, and leaves the empty string when nothing was emitted |
| Encoder.EncodeParams | app/static/js/page-functionality.js:157-168 | the loop and the final `substring` yield the `&`-join of the included pieces |
| Encoder.FlagsAreLastPieces | app/static/js/page-functionality.js:154-155 | the fixed last two values give the last two pieces, `preview=true` and `file_or_input=input` |
| Encoder.QueryIsHeadAndFlags | app/static/js/page-functionality.js:154-168 | the query is the pieces of the first eleven fields, each followed by `&`, and then the two flags |
| Encoder.QueryEndsWithFlags | app/static/js/page-functionality.js:154-168 | the query ends with `preview=true&file_or_input=input`, so never with `&` |
| Encoder.QueryStartsWithSeparator | app/static/js/page-functionality.js:143-165 | a non-empty separator field is always the first parameter of the query |
| Encoder.FirstPairLeads | app/static/js/page-functionality.js:161-165 | a truthy first value gives the first piece |
| Encoder.QueryRoundTrip | app/static/js/page-functionality.js:161-168 | splitting the query at `&` recovers the included pieces when no label or value contains `&` |
| Encoder.FalsyStretch | app/static/js/page-functionality.js:161-165 | a run of falsy values adds no piece |
| Encoder.EncodeExample | app/static/js/page-functionality.js:157-168 | separator `,`, base structure `flat`, the two flags and everything else falsy give `csv_sep=,&base_structure=flat&preview=true&file_or_input=input` |
| PageParams.ParamValues | app/static/js/page-functionality.js:143-158 | the thirteen values in field order: the separator field, the checked value of each radio list, the text fields, `true` and `input` (a definition, no contract) |
| PageParams.RequestUrl | app/static/js/page-functionality.js:171-172 | the page address, `output?` and the query (a definition, no contract) |
| PageParams.UrlShape | app/static/js/page-functionality.js:171-172 | every request URL is the page address, `output?` and a query ending with the two flags |
| PageParams.UrlLeadsWithSeparator | app/static/js/page-functionality.js:158-172 | with a non-empty separator field, the URL continues after `output?` with `csv_sep=<sep>&` |
| PageParams.RebuiltListsReadEmpty | app/static/js/page-functionality.js:144-150 | after the four column lists are rebuilt, each reads as the empty string |
| PageParams.RebuiltSelectionsAreFalsy | app/static/js/page-functionality.js:144-158 | after a rebuild, the index, group-by, sum and average values of the next request are the empty string |
| PageParams.RebuiltSelectionsOmitted | app/static/js/page-functionality.js:158-165 | after a rebuild, those four positions are not among the included ones, so the next query carries none of them |
| PageForm.Form.DetectSep | app/static/js/page-functionality.js:88-112 | the separator field becomes the sniffed separator of the text, or the empty string; nothing else changes |
| PageForm.Form.GetParams | app/static/js/page-functionality.js:140-175 | the URL is the page address, `output?` and the query built from the thirteen form values; nothing changes |
| PageForm.Form.ProcessData | app/static/js/page-functionality.js:229-246 | the target pane is emptied, the other pane is kept, and one request with the URL, the CSV text and the target is appended |
| PageForm.Form.PopulateDropdowns | app/static/js/page-functionality.js:180-224 | the named list is replaced by the option list of the first row under the current separator field; the other lists are unchanged |
| PageForm.Form.RefreshLists | app/static/js/page-functionality.js:23-24 | the index, group-by, sum and average lists are rebuilt, and the base-structure and wrapper lists are kept |
| PageForm.Form.Process | app/static/js/page-functionality.js:8-28 | the separator field becomes the sniffed separator; one preview request is sent with it and the selections from before the click; the four column lists are then rebuilt |
| PageForm.Form.Reprocess | app/static/js/page-functionality.js:30-45 | one preview request is sent with the current form, then the four column lists are rebuilt; the separator field is kept |
| PageForm.Form.UpdatePreview | app/static/js/page-functionality.js:47-59 | one preview request is sent with the current form, the preview pane is emptied, and the lists are kept |
| PageForm.Form.Convert | app/static/js/page-functionality.js:61-72 | one final-output request is sent with the current form, the final-output pane is emptied, and the preview pane is kept |

## Left out

- The `$.ajax` POST, the `JSON.parse` and `JSON.stringify(…, null, 2)` rendering of the answer, and the success callback (lines 235-245). A request is recorded in `sent` and its target pane is emptied. The text the answer later puts there is network I/O and is not modelled.
- In-flight requests racing each other: the callbacks run concurrently with the page, and the model is sequential.
- The scroll animation (line 27) and `console.log` (line 173): these have no effect on the state that is modelled.
- DOM lookups by id and tag name: the page elements are fields of `Form`, and each radio list is an entry of a map keyed by its id. A list id that is missing from the page is excluded by `Form.Valid`.
- The user's typing and clicking between button presses. The handlers read whatever state the form holds, and the model has no operation for editing it.
- The browser's one-checked-per-name rule for radio inputs. If a header column is itself called `None`, two entries of a rebuilt list are created checked; the model records both flags as set and `getRadioVal` reads the first.
- `$(label).append(opt)` parses text that looks like markup as HTML. The model keeps the option text as the label's text.
- Percent-encoding: the script concatenates values into the URL as they are, and so does the model. How the endpoint parses a value holding `&` or `=` is outside the model, and `QueryRoundTrip` assumes no `&`.
- Non-BMP characters: a model string is a sequence of Unicode scalar values (Dafny `char`), while the script works on UTF-16 code units. For a first row holding a character outside the Basic Multilingual Plane, the counting loop (lines 98-107) counts its two surrogate halves separately and can write a lone high surrogate into the separator field, and `split` (line 185) then splits on that half. For such text the sniffed character, the counts, the split pieces and all lengths differ from the model's.
- Sniffer.MostFrequent: its contract states the result as `Leader(row)` only. The maximal-count and tie-rule properties are proved about `Leader` in `LeaderIsSeparator`, not restated on the method.
- `csv_to_json.py` is not part of this model. It is a Flask application that reads files from disk, its logic is pandas DataFrame operations, and it computes floating-point means. Its routes are `/` and `/data`, not the `output?` endpoint the script calls.
