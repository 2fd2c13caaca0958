# auto-vision car actions, modelled in Dafny

This project models the server actions of the auto-vision car dealership
admin in `actions/cars.ts`. It covers two pieces of logic:

- **`processCarImageAI`**: what happens to the vision model's reply. The
  reply text has every code-fence marker (three backticks, an optional
  `json` tag, one optional line feed) deleted and is then trimmed. The result
  goes to `JSON.parse`, and the parsed value is checked for the 11 required
  field names. A parse failure or a missing name gives the fixed failure
  object `{success: false, error: 'Failed to parse AI response'}`. Only a
  missing API key or a failed model call escapes as an exception, with the
  message prefixed `'Gemini API error: '`.
- **`addCar`**: the two caller checks (an authenticated session, then a user
  record), the image loop, the empty-result check and the record create.
  - The loop skips entries that are not `data:image/` URIs.
  - For each valid entry it takes the text after the first comma as the
    payload and reads the extension from the first `data:image/<alnum>;`
    match, defaulting to `jpeg`.
  - It uploads to `cars/{carId}/image-{Date.now()}-{i}.{ext}` and collects
    the public URL.
  - The first upload error, or a valid entry without a comma, aborts the
    call.
  - Every error, including a value thrown by `auth()`, the user lookup or
    the storage client, is re-thrown as `'Error adding car: ' + message`
    (`'Unknown error'` when the thrown value is not an `Error`).

Modules:

- `Wrappers`: `Option` and `Result`.
- `JsText`: the ECMAScript `trim` whitespace set and the decimal rendering
  of a non-negative integer in a template literal.
- `Fences`: the global `replace` of the fence pattern, and the cleaned text.
- `Extraction`: JSON values after parsing, the required-field filter, the
  reply analysis and `processCarImageAI` as a whole.
- `ImageBatch`: data-URI helpers, paths and URLs, and the image loop. The
  loop is an imperative method proved against a whole-run specification
  function.
- `CarCreation`: `addCar` as a method over the batch, with the caller checks
  and the error messages.

External services are parameters:

- the model call: the reply text, or a thrown message;
- `JSON.parse`: a function from text to a parsed value or a syntax error;
- Clerk's `auth()`: the session's user id, or a thrown value;
- `db.user.findUnique`: the set of registered Clerk ids, or a thrown value;
- `createClient(cookies())`: a thrown value, if it throws;
- `uuidv4()`: the car id;
- `Date.now()`: one clock reading per loop iteration;
- Supabase upload: one outcome per iteration;
- the storage base URL;
- `db.car.create`: its failure, if any.

Behaviour worth noting:

- An upload error aborts the whole `addCar` call. No image is skipped after
  a storage failure, and no skipped count is kept.
- A value that is not an object, and a missing required field, both give
  the same `'Failed to parse AI response'` failure. No kind of error names
  the missing fields.
- Field values are not range-checked.
- Images already uploaded stay in storage when a later step fails. No
  cleanup is attempted.
- A "corrupt" entry is skipped only when it does not start with
  `data:image/`. An image data URI with no comma aborts the call, because
  `Buffer.from(undefined, 'base64')` throws.

## Model

| member | source | states |
|---|---|---|
| JsText.LeadingWhitespace | actions/cars.ts:95 | the count is exactly the length of the longest whitespace prefix |
| JsText.TrailingWhitespace | actions/cars.ts:95 | the count is exactly the length of the longest whitespace suffix |
| JsText.Trim | actions/cars.ts:95 | `trim` itself; characterised by TrimIsWhitespaceFreeCore, TrimIgnoresAppendedWhitespace and TrimIdempotent |
| JsText.TrimIsWhitespaceFreeCore | actions/cars.ts:95 | `trim` returns a slice of the input whose first and last characters are not whitespace and outside which there is only whitespace |
| JsText.TrimIgnoresAppendedWhitespace | actions/cars.ts:95 | appending whitespace does not change what `trim` returns |
| JsText.TrimIdempotent | actions/cars.ts:95 | trimming twice gives the same text as trimming once |
| JsText.DecimalString | actions/cars.ts:182 | the decimal rendering of a number in a template literal is non-empty, all digits and has no leading zero unless it is the single digit |
| JsText.DecimalRoundTrip | actions/cars.ts:182 | the digits read back to the number they render |
| JsText.DecimalStringInjective | actions/cars.ts:182 | different numbers render differently |
| Fences.MatchLength | actions/cars.ts:95 | the pattern's match at a marker is the three backticks, then `json` if it follows, then one line feed if it follows: 3 to 8 characters, never past the end |
| Fences.StripFences | actions/cars.ts:95 | the global replace never lengthens the text; characterised by StripFencesLeavesNoMarker, StripFencesKeepsMarkerFree, StripFencesIdempotent and StripFencesKeepsPlainPrefix |
| Fences.CleanResponse | actions/cars.ts:95 | replace then trim; characterised by FencedBodyCleansToBody |
| Fences.StripFencesLeavesNoMarker | actions/cars.ts:95 | after the global replace no three backticks remain anywhere |
| Fences.StripFencesKeepsMarkerFree | actions/cars.ts:95 | text without a marker is left unchanged by the replace |
| Fences.StripFencesIdempotent | actions/cars.ts:95 | replacing a second time changes nothing |
| Fences.StripFencesKeepsPlainPrefix | actions/cars.ts:95 | a prefix without backticks passes through the replace unchanged |
| Fences.FencedBodyCleansToBody | actions/cars.ts:95 | a reply of the form opening fence (with or without `json`), body without backticks, line feed and closing fence cleans to the trimmed body, the same as the bare body |
| Extraction.MissingAmong | actions/cars.ts:114-116 | the filter keeps exactly the names the object lacks and keeps them in list order |
| Extraction.MissingFields | actions/cars.ts:100-116 | `in` throws exactly when the parsed value is not an object; otherwise the list holds exactly the required names that are absent |
| Extraction.RequiredFieldsDistinct | actions/cars.ts:100-112 | the 11 required names are pairwise different |
| Extraction.MissingFieldsIsOrderedFilter | actions/cars.ts:100-116 | any list that has the absent required names as members and keeps the required order is the missing-field list |
| Extraction.AnalyzeReply | actions/cars.ts:97-134 | success exactly when the cleaned text parses to an object with all 11 names; its data is the parsed value unchanged; every failure carries 'Failed to parse AI response' |
| Extraction.MissingConfidenceRejected | actions/cars.ts:100-134 | an object lacking only `confidence` has missing list `["confidence"]` and is rejected with the fixed failure |
| Extraction.AcceptanceIgnoresValues | actions/cars.ts:114-127 | two replies whose parsed objects have the same names are both accepted or both rejected, whatever the values, and an accepted object is returned unchanged |
| Extraction.FencedReplyJudgedAsBody | actions/cars.ts:95-98 | a fenced reply is judged exactly as its bare body |
| Extraction.KeyMissing | actions/cars.ts:43 | `!process.env.GEMINI_API_KEY` holds for an unset or empty key; characterised by ProcessCarImageAI |
| Extraction.ProcessCarImageAI | actions/cars.ts:40-144 | an exception is raised exactly when the key is missing or the model call throws, always with the 'Gemini API error: ' prefix and the right message; otherwise the result is the reply analysis |
| ImageBatch.IsImageDataUri | actions/cars.ts:169 | the skip test; characterised by ValidBelow, NoValidEntryUploadsNothing and SkippedEntryLeavesNoTrace |
| ImageBatch.CommaIndex | actions/cars.ts:174 | the index is within the text, no comma precedes it, and a comma sits at it unless it is the end |
| ImageBatch.CommaIndexIs | actions/cars.ts:174 | the comma search finds the first comma |
| ImageBatch.CommaIndexAbsent | actions/cars.ts:174 | with no comma the search runs to the end |
| ImageBatch.Payload | actions/cars.ts:174 | `split(',')[1]` is defined exactly when there is a comma, and never contains a comma |
| ImageBatch.PayloadOfDataUri | actions/cars.ts:174 | a header without a comma, a comma, then data gives that data back |
| ImageBatch.FirstSubtype | actions/cars.ts:178 | the regex search returns the subtype of the leftmost `data:image/<alnum>;` match at or after a position, and nothing when there is none |
| ImageBatch.FileExtension | actions/cars.ts:178-179 | the extension is a non-empty alphanumeric run, and is `jpeg` when the pattern matches nowhere |
| ImageBatch.ExtensionOfWellFormedUri | actions/cars.ts:178-179 | `data:image/<subtype>;...` yields `<subtype>` |
| ImageBatch.UnmatchedSubtypeGivesJpeg | actions/cars.ts:178-179 | a subtype not followed by `;`, with no later match, yields `jpeg` |
| ImageBatch.DataUriParts | actions/cars.ts:169-179 | `data:image/<subtype>;base64,<data>` is valid, has extension `<subtype>` and payload `<data>` |
| ImageBatch.FolderPath | actions/cars.ts:159 | `cars/{carId}`; characterised by FilePathsDistinct |
| ImageBatch.FileName | actions/cars.ts:182 | `image-{Date.now()}-{i}.{ext}`; characterised by FilePathsDistinct |
| ImageBatch.FilePath | actions/cars.ts:183 | `{folderPath}/{fileName}`; characterised by FilePathsDistinct |
| ImageBatch.FilePathsDistinct | actions/cars.ts:182-183 | paths for different input positions differ, whatever their clock readings and extensions |
| ImageBatch.PublicUrl | actions/cars.ts:195 | the public URL template; characterised by PublicUrlInjective |
| ImageBatch.PublicUrlInjective | actions/cars.ts:195 | different paths give different public URLs |
| ImageBatch.ValidBelow | actions/cars.ts:165-172 | the positions kept by the skip test are exactly those holding `data:image/` URIs, in increasing order |
| ImageBatch.FirstFailureFrom | actions/cars.ts:174-193 | finds the first valid position whose payload is missing or whose upload fails |
| ImageBatch.ExpectedBatch | actions/cars.ts:165-198 | the loop's whole-run specification; UploadImages is proved to meet it, and UploadedIndices, UploadsAreAt, BatchPathsDistinct, SkippedEntryLeavesNoTrace, AllStoredGivesOneUrlPerValidEntry, UploadErrorAbortsBatch and NoValidEntryUploadsNothing state its properties |
| ImageBatch.UploadImages | actions/cars.ts:165-198 | the loop's URL list or error, and its uploads, are exactly the whole-run specification |
| ImageBatch.UploadedIndices | actions/cars.ts:165-193 | the positions uploaded are valid, have a payload and increase |
| ImageBatch.UploadsAreAt | actions/cars.ts:185-189 | the k-th upload is the request built for the k-th uploaded position |
| ImageBatch.BatchPathsDistinct | actions/cars.ts:182-197 | no two uploads of one call share a path, and no two returned URLs are equal |
| ImageBatch.SkippedEntryLeavesNoTrace | actions/cars.ts:169-172 | a skipped entry's position appears in no upload path and no URL |
| ImageBatch.AllStoredGivesOneUrlPerValidEntry | actions/cars.ts:165-198 | when every valid entry stores, there is one URL and one upload per valid entry in input order, each for `cars/{carId}/image-{ts}-{i}.{ext}` |
| ImageBatch.UploadErrorAbortsBatch | actions/cars.ts:190-193 | the first upload error ends the loop with that error after the earlier valid entries' uploads and its own |
| ImageBatch.NoValidEntryUploadsNothing | actions/cars.ts:169-172 | with no valid entry the loop uploads nothing and returns an empty list |
| ImageBatch.ValidInvalidValidRun | actions/cars.ts:165-198 | valid, invalid, valid entries that store give two URLs and two uploads, for positions 0 and 2 |
| ImageBatch.TwoValidAroundInvalidEntry | actions/cars.ts:165-198 | two image data URIs around an entry that is not one give two URLs, for positions 0 and 2, with their own extensions and payloads |
| CarCreation.ThrownMessage | actions/cars.ts:229-236 | the `catch` block takes an `Error`'s message and 'Unknown error' for anything else; characterised by ThrownCallsAreRethrown and CreateFailureKeepsUploads |
| CarCreation.Reason | actions/cars.ts:150-221 | the message of each error thrown inside the `try` block; characterised by ErrorMessage and the lemmas below |
| CarCreation.ErrorMessage | actions/cars.ts:229-237 | every re-thrown message starts with 'Error adding car: ' and says more after it, except for a thrown `Error` whose own message is empty |
| CarCreation.Authenticated | actions/cars.ts:150 | `!userId` rejects a missing id and the empty string; characterised by CallerChecksPrecedeUploads |
| CarCreation.ReachesLoop | actions/cars.ts:149-161 | the steps before the loop all pass; characterised by AddedExactlyWhen |
| CarCreation.ExpectedAddCar | actions/cars.ts:147-238 | the whole-call specification; AddCar is proved to meet it, and the lemmas below state its properties |
| CarCreation.AddCar | actions/cars.ts:147-238 | the outcome, the uploads and the created row are exactly the whole-call specification |
| CarCreation.CallerChecksPrecedeUploads | actions/cars.ts:149-161 | nothing is uploaded or created unless `auth()` returns a non-empty id, the lookup finds a user record and neither they nor the storage client throw; the two checks fail with 'Unauthorized' or 'User not found' |
| CarCreation.ThrownCallsAreRethrown | actions/cars.ts:149-237 | a value thrown by `auth()`, `db.user.findUnique` or `createClient(cookies())` is re-thrown with the common prefix and its message or 'Unknown error', before any upload or create |
| CarCreation.NoValidImageRejected | actions/cars.ts:200-202 | with no valid entry the call fails with 'No valid images were uploaded', uploads nothing and creates nothing |
| CarCreation.AddedExactlyWhen | actions/cars.ts:147-238 | the call succeeds exactly when both caller checks pass, none of `auth()`, the lookup and the storage client throws, no valid entry aborts, at least one entry is valid and the create succeeds |
| CarCreation.AddedRowHoldsUploadedUrls | actions/cars.ts:204-221 | the created row has the generated id, the form data unchanged and one distinct URL per valid entry in input order, each matching that entry's upload path |
| CarCreation.CreateFailureKeepsUploads | actions/cars.ts:204-237 | a failed create leaves every valid entry uploaded, creates nothing and reports the create error's message or 'Unknown error' |
| CarCreation.UploadErrorCreatesNothing | actions/cars.ts:190-193 | an upload error creates nothing and reports 'Error adding car: Failed to upload image: ' with the storage message |

## Left out

- The Gemini call, the API-key lookup, the prompt and `fileToBase64` (actions/cars.ts:43-50, 92-94). The model call is a parameter: a reply text, or a thrown message. The key is an optional string.
- `JSON.parse` is a function parameter from text to a parsed value or a syntax error. Numbers are modelled as reals, not IEEE doubles.
- Inherited property names: `in` also finds names on the prototype chain. None of the 11 required names is an `Object.prototype` or `Array.prototype` property, so only own keys are modelled.
- The base64 decode by `Buffer.from`. The payload is carried as text. Its decoding, and what storage does with the bytes, are not modelled.
- Clerk `auth()`, `db.user.findUnique`, `createClient(cookies())`, `uuidv4()`, `Date.now()`, the Supabase upload and `db.car.create` are parameters. Their own behaviour, concurrency and timing are not modelled.
- An upload call that throws instead of resolving to `{ error }` (actions/cars.ts:185-189) is not modelled. Its exception would reach the `catch` block like the others, but the model's upload outcome is only stored or a returned error, so `UploadImages`, `ExpectedAddCar` and `AddedExactlyWhen` do not cover that case. `uuidv4()` and `Date.now()` are taken not to throw.
- `revalidatePath` and all `console` logging are left out: they have no effect on results.
- Prisma's defaults for `status` and `featured`: the schema is not part of this model. The row carries the form data as given.
- An unset storage base URL renders as `undefined` in the template. The base URL is a plain string parameter.
- Listing search, status and featured updates and deletion do not appear in `actions/cars.ts` and are not modelled.
- CarCreation.ErrorMessage: the `PayloadMissing` text is the `TypeError` message of Node's `Buffer.from`, written as a constant. The exact wording depends on the Node version.
