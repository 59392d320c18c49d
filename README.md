# humanlog JSON handler, modelled in Dafny

humanlog rewrites structured log lines into a human-readable form. Its `JSONHandler`
(`json_handler.go`) handles one JSON log record at a time, in these steps:

- It finds the record's time, message and level under configurable candidate field names.
  A name like `data.msg` addresses a nested object.
- It removes the consumed entries from the document.
- It turns every remaining entry into a display string, stored as a field.
- It renders the record as one line: coloured time, the level cut to at most four letters and upper-cased, the message (or
  `<no msg>`) and the sorted `key=value` segments.
- It remembers the fields it rendered, so that the next render can leave out values that
  did not change.

This project models that handler and proves what its operations compute.

Modules:

- `Json`: the decoded JSON value `JVal` and `strings.SplitN(s, ".", 2)`.
- `FieldLocator`:
  - `searchJSON`, both as the function `Search` and as the loop `SearchJSON` proved equal to it;
  - `checkEachUntilFound`;
  - `deleteJSONKey`, as the value function `DeleteJSONKey`, specified by the path it removes.
- `Text`:
  - `sort.Strings` and `sort.Stable(byLongest)`, as sorting functions;
  - `%d` rendering, with its parser and round trip;
  - ASCII `strings.ToUpper` and `strings.Join`.
- `Levels`:
  - `convertBunyanLogLevel`;
  - the level abbreviation;
  - the case-sensitive colour switch of `Prettify`.
- `Config`:
  - the options the handler reads;
  - colours;
  - the outside code the handler calls, as an `External` value of functions.
- `Extract`: what `UnmarshalJSON` computes.
  - The three searches run in the order time, message, level, each with its callback's
    rule.
  - The display strings of the remaining entries.
- `Render`: what `joinKVs` and `Prettify` produce.
  - `KVSpec` is the sorted multiset of segments of the shown fields.
- `Handler`: the class `JSONHandler` with `Level`, `Time`, `Message`, `Fields` and `last`.
  Its methods `Clear`, `UnmarshalJSON`, `TryHandle`, `SetField` and `Prettify` update that
  state. `JoinKVs` only reads it. Each method is proved against the functions above.

### The search callbacks

The search callbacks have effects. Each call overwrites `Time`, `Message` or `Level`, and
it does so even when the call rejects the value (`value.(string)` yields `""`). `Search`
therefore returns the whole trace of callback calls, not only the boolean. The handler
keeps the effect of the last call, and it deletes a key only when the call accepts it.

### Behaviour modelled as written

- A dotted candidate whose head is an object decides the search on its own. Later
  candidates are never tried.
- A dotted match hands the callback the inner key. The callback then deletes that key
  from the root document. So the nested entry stays, and a root entry with the same name
  disappears (`DottedMatchDeletesRootKey`).
- `UnmarshalJSON` adds to the existing `Fields`; it does not reset them.
- A failed `TryHandle` runs `clear`, which archives the empty fields the last render left.
  This erases the history used to suppress unchanged values (`RenderThenFailedParse`).
- The configured message colours are overwritten by high-intensity white.
- The integer test `v - floor(v) < 1e-6 && v < 1e9` has no lower bound. `int(v)`
  truncates toward zero, so -2.9999999 renders as `-2` (`NearIntegerRendering`).
- The level colour switch is case-sensitive, and it has no case for `trace`.

## Model

| member | source | states |
|---|---|---|
| Json.SplitFirstDot | json_handler.go:37-39 | No split exactly when the name has no dot. Otherwise the name is head + "." + rest, and the head has no dot. |
| Json.SplitJoined | json_handler.go:37-39 | Splitting `a.b`, where `a` has no dot, gives back `a` and `b`. |
| FieldLocator.Search | json_handler.go:35-59 | There are at most as many callback calls as candidates. A true result means the last call was accepted. Every other call was rejected. |
| FieldLocator.SearchJSON | json_handler.go:35-59 | The loop, with its early returns and recursion, returns the result and makes the callback calls that `Search` specifies. |
| FieldLocator.CheckEachUntilFound | json_handler.go:61-68 | True exactly when some candidate satisfies the predicate. |
| FieldLocator.SearchCallsResolve | json_handler.go:36-58 | The callback only sees a key that exists in the (sub)document being scanned, with that key's value. Each call is what some candidate resolves to. |
| FieldLocator.SearchUndotted | json_handler.go:49-56 | With undotted candidates the search succeeds exactly when some candidate is present and accepted. The last call is then the first such candidate in list order. |
| FieldLocator.DottedDescends | json_handler.go:37-47 | For `a.b` with `kvs[a]` an object, the outcome is the search for `b` inside it, whatever candidates follow. |
| FieldLocator.DottedSkipped | json_handler.go:37-48 | For `a.b` with `a` absent or not an object, the outcome is that of the remaining candidates. |
| FieldLocator.FindPath | json_handler.go:90-110 | The removed path exists in the document. A root key is its own path. |
| FieldLocator.DeleteJSONKey | json_handler.go:90-110 | A root key is removed and nothing else changes. An unresolvable key changes nothing. Otherwise the addressed nested entry is gone, every object on the way to it is still an object, and every path neither above nor below it is unchanged. |
| Levels.ConvertBunyanLogLevel | json_handler.go:287-304 | 10, 20, 30, 40, 50 and 60 map to trace, debug, info, warn, error and fatal, each in both directions. Every other number maps to "???". |
| Levels.LevelAbbrev | json_handler.go:216 | The length is min(4, length of the level). Each character is the upper-cased character of the level. |
| Levels.RoleOf | json_handler.go:218-231 | Case-sensitive choice of colour: debug, info, warn/warning, error, fatal/panic, and everything else unknown, in both directions. |
| Levels.BunyanLevelRoles | json_handler.go:218-231 | A Bunyan name gets its own colour except trace, which gets the unknown colour. |
| Config.SprintInjective | json_handler.go:264 | Painting two texts with one colour gives equal strings only when the texts are equal. |
| Extract.TimeAccept | json_handler.go:124-131 | The time callback is defined on every call, reads nothing, ignores the key, and accepts exactly what `tryParseTime` reports as parsed. |
| Extract.IsStringValue | json_handler.go:135-139 | The message callback accepts exactly the string values. |
| Extract.AlwaysAccept | json_handler.go:152 | The level callback accepts every call. |
| Extract.LevelConsumes | json_handler.go:143-150 | The level callback deletes the key exactly for a string or a number. |
| Extract.LevelOf | json_handler.go:143-151 | A number always gives a Bunyan name or "???". A value that is neither string nor number gives "???". |
| Extract.TimeStep | json_handler.go:124-131 | The time search adds no key to the document. |
| Extract.TimeStepRemovesOne | json_handler.go:124-131 | The time search removes at most one root key: two removed keys are the same key. |
| Extract.MessageStep | json_handler.go:133-140 | The message search adds no key to the document. |
| Extract.MessageStepRemovesOne | json_handler.go:133-140 | The message search removes at most one root key: two removed keys are the same key. |
| Extract.LevelStep | json_handler.go:142-153 | The level search adds no key to the document. |
| Extract.LevelStepRemovesOne | json_handler.go:142-153 | The level search removes at most one root key: two removed keys are the same key. |
| Extract.ExtractRecord | json_handler.go:124-153 | The three searches in order leave a document whose keys are among the original ones. |
| Extract.ExtractRemovesAtMostThree | json_handler.go:124-153 | Among any four root keys the searches removed, two are equal: a record loses at most three keys. |
| Extract.TimeStepDeletesLeaf | json_handler.go:124-131 | For any candidates, dotted ones included: with no callback call nothing changes. Otherwise some candidate resolves to a value, the time is `tryParseTime` of it, and the candidate's last name part is deleted from the root exactly when the value is accepted. |
| Extract.MessageStepDeletesLeaf | json_handler.go:133-140 | For any candidates, dotted ones included: with no callback call nothing changes. Otherwise some candidate resolves to a value; the message is that string ("" for a non-string), and the candidate's last name part is deleted from the root exactly when the value is a string. |
| Extract.LevelStepDeletesLeaf | json_handler.go:142-153 | For any candidates, dotted ones included: with no callback call nothing changes. Otherwise some candidate resolves to a value, the level is `LevelOf` of it, and the candidate's last name part is deleted from the root exactly when that value is a string or a number. |
| Extract.SearchLastPresent | json_handler.go:49-56 | With undotted candidates none of which is accepted, the last callback call is on the last present candidate. |
| Extract.SearchNonePresent | json_handler.go:49-58 | With undotted candidates none of which is present, the callback is never called and the search fails. |
| Extract.TimeStepRule | json_handler.go:124-131 | With undotted candidates the time comes from the first candidate `tryParseTime` accepts, and that key is deleted. With no acceptance the document is untouched and the time is what `tryParseTime` returned for the last present candidate. With no candidate present the time is unchanged. |
| Extract.MessageStepRule | json_handler.go:133-140 | With undotted candidates the message is the first string-valued candidate, and its key is deleted. When no candidate holds a string, the document is untouched. The message is then "" if some candidate was present, and unchanged otherwise. |
| Extract.LevelStepRule | json_handler.go:142-153 | With undotted candidates the first present candidate decides the level. A string is taken verbatim and a number goes through the Bunyan table; both delete the key. Any other value gives "???" and deletes nothing. With no candidate present nothing changes. |
| Extract.SearchPresentCalls | json_handler.go:49-56 | With undotted candidates, a present candidate means the callback is called. When every earlier candidate is absent or rejected, the callback is called with that candidate and its value. |
| Extract.DottedMatchDeletesRootKey | json_handler.go:133-140 | `data.msg` yields the nested message. It deletes the root `msg` and leaves the nested entry in place. |
| Extract.LooksIntegral | json_handler.go:162 | A number passing the test is below 1e9 and less than a millionth above its floor. Every integer below 1e9 passes, and nothing of 1e9 or more does. |
| Extract.LooksIntegralBounds | json_handler.go:162-164 | A non-negative number passing the test is within 1e-6 above its truncation. A negative non-integer passing it is almost a whole unit below its truncation. |
| Extract.DisplayString | json_handler.go:160-172 | An integer-looking number is shown as `%d` text that parses back to `int(v)`. |
| Extract.GoInt | json_handler.go:164 | `int(v)` truncates toward zero: the result lies between 0 and v, within 1 of v. |
| Extract.RenderAll | json_handler.go:159-173 | Every remaining entry gets a display string, and no other key does. |
| Extract.IntegralRoundTrip | json_handler.go:162-164 | An integer below 1e9, negative ones included, renders as decimal digits that parse back to the integer. |
| Extract.NonIntegralUsesG | json_handler.go:162-166 | Numbers of at least 1e9, or with a fraction of at least 1e-6, use `%g`. |
| Extract.NearIntegerRendering | json_handler.go:162-164 | -2.9999999 renders as "-2" and 3.0000001 renders as "3". |
| Text.SortStrings | json_handler.go:276 | The result is sorted and a permutation of the input. |
| Text.SortedUnique | json_handler.go:276 | Two sorted permutations of the same strings are equal, so the order of collection is invisible. |
| Text.SortByLength | json_handler.go:278-280 | The result is ordered by length and a permutation of the input. |
| Text.SortByLengthOfSorted | json_handler.go:276-280 | Applied after `sort.Strings`, the stable length sort orders by length and then by string order. |
| Text.FormatIntRoundTrip | json_handler.go:164 | `%d` output parses back to the integer. |
| Text.FormatInt | json_handler.go:164 | `%d` output is never empty and starts with '-' exactly for negative numbers. |
| Text.Join | json_handler.go:243 | The joined string starts with the first part. |
| Text.ToUpper | json_handler.go:216 | The length is kept and every character is upper-cased. |
| Text.JoinContains | json_handler.go:243 | Every part appears whole in the joined string. |
| Render.Truncated | json_handler.go:266-271 | The shown value starts with the value's first `TruncateLength` characters, or all of it when shorter. A longer value with truncation on continues with "..." only; otherwise the value is shown unchanged. The result is never longer than the value or `TruncateLength` + 3. |
| Render.Shown | json_handler.go:255-263 | A shown key passes `shouldShowKey`. It is hidden otherwise only when skipping is on, the previous value is the same and the key is not exempt. |
| Render.Entry | json_handler.go:264-273 | A segment starts with the coloured key. |
| Render.KVSpec | json_handler.go:251-283 | As a multiset, the segments are exactly one per shown field. |
| Render.SegmentOfShownField | json_handler.go:264-273 | A shown field's segment is among the results, and it holds the field's value, or its first `TruncateLength` characters and "..." when truncated. |
| Render.EntryHoldsValue | json_handler.go:264-273 | The truncated value appears in the segment right after the coloured key, the separator and the value colour's start sequence. |
| Render.CollectStep | json_handler.go:254-273 | Visiting a field adds its segment exactly when the field is shown. |
| Render.SortedSegments | json_handler.go:276-280 | Sorting the segments, collected in any order, gives `KVSpec`. |
| Render.KVSpecSize | json_handler.go:253-274 | There is one segment per shown field, so there are at most as many segments as fields. |
| Render.KVSpecMember | json_handler.go:254-273 | A string is a segment exactly when it is the coloured key, separator and truncated coloured value of a field that is shown. Shown means the key passes `shouldShowKey` and is not suppressed as unchanged. |
| Render.KVSpecOrder | json_handler.go:276-280 | The segments are in string order. With `SortLongest` they are in length order, then string order. |
| Render.SkipNeverAdds | json_handler.go:259-263 | Skipping unchanged values never adds a segment. |
| Render.RepeatedRecordShowsNothing | json_handler.go:259-263 | Re-rendering the previous fields with skipping shows nothing when no key is exempt. |
| Render.MessageText | json_handler.go:206-214 | Between the high-intensity white start and reset sequences stands the message, or "<no msg>" when it is empty. |
| Render.MessageTextDistinguishes | json_handler.go:206-214 | Distinct non-empty messages render differently. An empty message renders exactly like the literal "<no msg>". |
| Render.TimeColor | json_handler.go:233-238 | The time is painted with the light-background colour when `LightBg` is set, and with the dark-background colour otherwise. |
| Render.LevelColor | json_handler.go:217-231 | Each level spelling gets its configured colour, and every other level the unknown colour. |
| Render.Line | json_handler.go:239-244 | The line starts with the coloured time and ends with the segments joined by "\t ". |
| Render.LineShowsSegments | json_handler.go:239-244 | Every segment appears whole in the rendered line. |
| Handler.JSONHandler.constructor | json_handler.go:17-30 | A handler starts with the given options, empty strings, the zero time and no fields. |
| Handler.JSONHandler.Clear | json_handler.go:70-79 | `last` becomes the old fields, the fields become empty, and `Level`, `Message` and `Time` are reset. |
| Handler.JSONHandler.UnmarshalJSON | json_handler.go:113-176 | On a decoding failure nothing changes. Otherwise time, message and level are what `ExtractRecord` gives, the remaining entries are added to the existing fields, and `last` is kept. |
| Handler.JSONHandler.TakeTime | json_handler.go:124-131 | Time and document are as the time step leaves them. Nothing else changes. |
| Handler.JSONHandler.TakeMessage | json_handler.go:133-140 | Message and document are as the message step leaves them. Nothing else changes. |
| Handler.JSONHandler.TakeLevel | json_handler.go:142-153 | Level and document are as the level step leaves them. Nothing else changes. |
| Handler.JSONHandler.StoreRemaining | json_handler.go:159-173 | The fields become the old fields updated with every remaining entry's display string. Nothing else changes. |
| Handler.JSONHandler.TryHandle | json_handler.go:82-88 | On success it does what `UnmarshalJSON` does. On failure it clears the handler. |
| Handler.JSONHandler.SetField | json_handler.go:177-182 | Exactly one field is set and nothing else changes. |
| Handler.JSONHandler.CollectSegments | json_handler.go:253-274 | The appended segments are, as a multiset, exactly those of the shown fields, whatever order the fields are visited in. |
| Handler.JSONHandler.JoinKVs | json_handler.go:251-283 | The segments equal `KVSpec`, whatever order the loop visits the fields in. |
| Handler.JSONHandler.Prettify | json_handler.go:185-249 | The line is built from the time, the level, the message and the `KVSpec` segments. The handler is then cleared. |
| Handler.RenderThenFailedParse | json_handler.go:70-88 | A render followed by a failed parse leaves both `last` and `Fields` empty. |

## Left out

- Byte-level JSON decoding (`json.Unmarshal`) is not modelled. `UnmarshalJSON` takes the decoded document, with `None` standing for a decoding error.
- `tryParseTime`, `time.Time.Format`, the `%g`, `%q` and `%v` verbs, and `color.New(color.FgHiWhite)` are not part of this model. They are fields of the `External` value. Only the choice between them is modelled.
- `HandlerOptions.shouldShowKey` and `shouldShowUnchanged` are not part of this model. They are the option functions `ShowKey` and `ShowUnchanged`.
- `byLongest` is not part of this model. `SortByLength` takes it to order by ascending length.
- Text is modelled as characters. Go's `len`, slicing and `byLongest` count bytes, so for non-ASCII text the length comparison, the truncation point and the level abbreviation may differ. A Go slice that cuts a multi-byte character, or that panics after `ToUpper` changes the byte length, is not modelled.
- Levels.LevelAbbrev: upper-cases ASCII letters only; Go's `strings.ToUpper` also maps other scripts.
- Text.ToUpper: upper-cases ASCII letters only, for the same reason.
- Column alignment by `tabwriter`, the output buffer, and colour enablement are left out. `Prettify` returns the line before alignment. A disabled colour is the colour with empty start and reset sequences.
- A nil `Opts` replaced by `DefaultOptions`, and nil maps replaced by empty ones, are left out. The handler always holds options and maps.
- `deleteJSONKey` and the `raw` map are modelled as values, not updated in place. The document is a fresh local, so no other reference observes the difference.
- `sort.Strings` and `sort.Stable` are modelled as functions returning the sorted sequence, not as in-place sorts.
- Numbers are exact reals, not float64. Rounding at decoding is not modelled, nor the float64 values of the 1e-6 threshold and of the Bunyan comparisons. For example, the literal 0.00000099999999999999999 renders as "0" here, while Go decodes it to the same float64 as the threshold and renders "1e-06"; and a level of 10.0000000000000001, which Go decodes as 10, gives "???" here instead of "trace".
- Extract.GoInt: Go's `int(v)` is undefined below -2^63. The model truncates every number.
- A negative `TruncateLength` is not modelled. It is an option of type `nat`; in Go, slicing with it panics.
- Map iteration order is not modelled. The loops over `Fields` and `raw` pick keys in any order, and their results are proved not to depend on it.
