# Resumind core logic in Dafny

Resumind is a resume-analysis web app built with React Router. Most of it is UI around a hosted storage, key-value and AI backend. This project models the parts that are plain logic and proves properties about them:

- **Cipher decoder** (`app/routes/cipher.tsx`). It has four decoders and the dispatch that picks one:
  - Caesar and Atbash are modelled as pure character maps.
  - Vigenère is a loop with a key index, and is proved against a specification function.
  - The dispatch turns the key field into a shift with `parseInt(key) || 0`. This is modelled after ECMAScript's `parseInt`: leading white space, a sign, an optional `0x` prefix and the longest run of digits.
  - JavaScript's truncating `%` is modelled explicitly as `JsText.JsRem`.
  - Strings are `seq<char>`, where a Dafny `char` is a Unicode scalar value, while JavaScript strings are UTF-16 code units. The decoders still agree with JavaScript: they change only ASCII letters, and a character outside the BMP is, in JavaScript, two surrogates that are not letters and are copied unchanged, just as the model copies the one `char`.
- **Feedback store** (`stores/feedbackStores.ts`). A class with three fields: `feedback`, `imageUrl` and `resumeUrl`.
  - Every call to `URL.revokeObjectURL` is appended to a ghost log.
  - The class invariant says that no object URL leaks: every URL the store has held is either still held or has been revoked.
- **Upload form** (`app/routes/upload.tsx`).
  - The zod schema, written as the list of issues it reports, in field order.
  - The resolver's loop that builds the field-error map.
  - The record saved for a new upload, including which path becomes its `imagePath`.
- **Data-wipe panel** (`app/components/WipeData.tsx`).
  - The selection toggle and the guard before the confirm dialog.
  - The colour of the alert.
  - `confirmDelete`, a loop that appends backend calls to an action log. Which calls throw is a parameter.
- **Home page loader** (`app/routes/home.tsx`). The loop that keeps the key-value entries holding a record with an id and an image. `JSON.parse` is a function parameter.
- **Resume card** (`app/components/ResumeCard.tsx`). The MIME type chosen from the suffix of a path.
- **File uploader** (`app/components/FileUploader.tsx`).
  - The first-file choice.
  - The icon and the type label.
  - The size limit and the accepted types, which are tied to the upload schema's.

Modules, one per file:

| module | file | models |
|---|---|---|
| `JsText` | `js_text.dfy` | `Option`, the truncating `%`, ASCII case mapping, suffix tests |
| `Records` | `records.dfy` | the resume record and its key |
| `Cipher` | `cipher.dfy` | the cipher decoders |
| `FeedbackStore` | `feedback_store.dfy` | the feedback store |
| `Upload` | `upload.dfy` | the upload form |
| `WipeData` | `wipe_data.dfy` | the data-wipe panel |
| `Home` | `home.dfy` | the home page loader |
| `ResumeCard` | `resume_card.dfy` | the resume card |
| `FileUploader` | `file_uploader.dfy` | the file uploader |

## Model

| member | source | states |
|---|---|---|
| JsText.JsRem | app/routes/cipher.tsx:36-37 | JavaScript `%`: the remainder lies strictly between `-b` and `b`. It is the Euclidean remainder for a non-negative dividend and is never positive for a negative one; `JsText.JsRem26` fixes its value for the divisor 26. |
| JsText.JsRem26 | app/routes/cipher.tsx:36-37 | For the divisor 26 that the decoder uses, the truncating remainder differs from the dividend by a multiple of 26, so it is the Euclidean remainder or that minus 26; it is zero exactly when the Euclidean one is. |
| JsText.UpperAsciiString | app/components/FileUploader.tsx:46 | `toUpperCase` on ASCII text: the same length, the same text up to ASCII case, and no lower-case letter left. |
| JsText.UpperAsciiStringUnique | app/components/FileUploader.tsx:46 | Those properties determine the result: any text of the same length that agrees up to case and has no lower-case letter is the upper-cased text. |
| Cipher.CaesarChar | app/routes/cipher.tsx:36-38 | Non-letters are unchanged. For `shift <= 26`, a letter becomes a letter of the same case at position `(p - shift) mod 26`. |
| Cipher.CaesarDecode | app/routes/cipher.tsx:31-40 | Length is preserved and non-letters are copied. For `shift <= 26`, letters stay letters and non-letters stay non-letters. |
| Cipher.CaesarKeepsLettersIff | app/routes/cipher.tsx:36-37 | Every letter decodes to a letter if and only if `shift <= 26`. |
| Cipher.CaesarDecodeZero | app/routes/cipher.tsx:31-40 | Decoding with shift 0 is the identity. |
| Cipher.CaesarDecodeInverse | app/routes/cipher.tsx:36-37 | For `0 <= s <= 26`, decoding by `s` and then by `26 - s` gives back the text. |
| Cipher.Rot13Involution | app/routes/cipher.tsx:26 | ROT13 is its own inverse. |
| Cipher.CaesarEncodeChar | app/routes/cipher.tsx:36-37 | Reference encoder: a letter moves forward `shift` places within its case, and other characters are kept. |
| Cipher.CaesarEncode | app/routes/cipher.tsx:31-40 | The reference encoder keeps length and which positions hold letters. |
| Cipher.CaesarCharRoundTrip | app/routes/cipher.tsx:36-37 | For `shift <= 26`, decoding one encoded character gives it back. |
| Cipher.CaesarRoundTrip | app/routes/cipher.tsx:31-40 | For `shift <= 26`, `caesarDecode` inverts the reference encoder on whole texts. |
| Cipher.CaesarShift27Counterexample | app/routes/cipher.tsx:36-37 | With shift 27, the code as written decodes `A` to `@`, and the round trip of `Z` fails. The corrected decoder restores `Z`. |
| Cipher.CaesarCharNormalized | app/routes/cipher.tsx:36-37 | Corrected per-character decoder: for every shift, a letter stays a letter of its case at position `(p - shift) mod 26`. |
| Cipher.CaesarDecodeNormalized | app/routes/cipher.tsx:31-40 | Corrected decoder: keeps length, keeps which positions hold letters, and copies non-letters, for every shift. |
| Cipher.CaesarNormalizedRoundTrip | app/routes/cipher.tsx:31-40 | The corrected decoder inverts the reference encoder for every integer shift. |
| Cipher.CaesarCharNormalizedRoundTrip | app/routes/cipher.tsx:31-40 | Character by character, the corrected decoder inverts the reference encoder for every integer shift. |
| Cipher.CaesarAgreesWithNormalized | app/routes/cipher.tsx:36-37 | For `shift <= 26`, the code as written and the corrected decoder agree. |
| Cipher.AtbashChar | app/routes/cipher.tsx:69-71 | Non-letters are unchanged. A letter becomes the letter of the same case at position `25 - p`. |
| Cipher.AtbashDecode | app/routes/cipher.tsx:64-73 | Length is preserved and non-letters are copied. |
| Cipher.AtbashInvolution | app/routes/cipher.tsx:64-73 | Atbash is its own inverse. |
| Cipher.LetterCount | app/routes/cipher.tsx:49-56 | The key index `j` counts letters only, so it never exceeds the text length. |
| Cipher.LetterCountStep | app/routes/cipher.tsx:52 | `j` advances by one exactly on a letter. |
| Cipher.LetterCountAllLetters | app/routes/cipher.tsx:49-56 | In a text made only of letters, the key index reaches the text length, so each letter uses the key letter at its own position. |
| Cipher.LetterCountSamePattern | app/routes/cipher.tsx:49-56 | Texts with letters at the same positions reach the same key index. |
| Cipher.NormalizeKey | app/routes/cipher.tsx:44 | The effective key holds only `a-z`. It is empty exactly when the key has no ASCII letter. |
| Cipher.NormalizeKeyChar | app/routes/cipher.tsx:44 | A single character becomes its lower-case form if it is an ASCII letter, and is dropped otherwise. |
| Cipher.NormalizeKeyConcat | app/routes/cipher.tsx:44 | Normalising works character by character: the key of a concatenation is the concatenation of the keys. |
| Cipher.NormalizeKeyExample | app/routes/cipher.tsx:44 | The key field `KEY` becomes `key`. |
| Cipher.NormalizeKeyLower | app/routes/cipher.tsx:44 | A key of lower-case letters is its own effective key. |
| Cipher.VigenereChar | app/routes/cipher.tsx:49-58 | Non-letters are copied. With an empty key, a letter becomes U+0000 (the `NaN` path). Otherwise the `j`-th letter keeps its case and is shifted back by the key letter at `j` modulo the key length, counted from `a`. |
| Cipher.VigenereLetterCode | app/routes/cipher.tsx:50-55 | For a letter and a non-empty key, the code the loop computes is a valid character and equals the specified decoding of that letter. |
| Cipher.KeyShift | app/routes/cipher.tsx:50 | The shift taken from a lower-case key letter lies in `0..25`. |
| Cipher.VigenereSpec | app/routes/cipher.tsx:42-62 | Specification of the decoder: length is preserved and non-letters are copied. |
| Cipher.VigenereSpecStep | app/routes/cipher.tsx:46-59 | One loop step extends the specification by the decoding of the next character. |
| Cipher.VigenereDecode | app/routes/cipher.tsx:42-62 | The loop computes the specification applied to the normalised key. |
| Cipher.VigenereOneLetterKey | app/routes/cipher.tsx:50-51 | A one-letter key `'a' + s` decodes exactly like Caesar with shift `s`. |
| Cipher.VigenereEncode | app/routes/cipher.tsx:42-62 | Reference encoder: keeps length and which positions hold letters. |
| Cipher.VigenereRoundTrip | app/routes/cipher.tsx:42-62 | With a non-empty key, the decoder inverts the reference encoder. |
| Cipher.VigenereEmptyKey | app/routes/cipher.tsx:50-55 | With an empty effective key, every letter decodes to U+0000. |
| Cipher.TrimStart | app/routes/cipher.tsx:19 | `parseInt` skips leading white space. The rest starts with a non-space and gains no digit. |
| Cipher.TrimStartDropsSpace | app/routes/cipher.tsx:19 | The trimmed text is a suffix of the key, and everything dropped in front of it is white space. |
| Cipher.TrimStartSpace | app/routes/cipher.tsx:19 | White space put in front of a text is removed entirely. |
| Cipher.ShiftFromKey | app/routes/cipher.tsx:19 | `parseInt(key) \|\| 0`: a key without a decimal digit gives 0. A key of decimal digits gives their value, and `-` followed by decimal digits gives the negated value. |
| Cipher.ParseIntCases | app/routes/cipher.tsx:19 | `parseInt`: `NaN` for a key without a decimal digit, the value of a key of decimal digits, and the negated value after a `-`. |
| Cipher.NoDigitNoNumber | app/routes/cipher.tsx:19 | A key with no decimal digit parses to `NaN`. |
| Cipher.ParseIntDecimal | app/routes/cipher.tsx:19 | A run of decimal digits parses to its value. |
| Cipher.ParseIntNegative | app/routes/cipher.tsx:19 | `-` followed by decimal digits parses to the negated value. |
| Cipher.ParseIntNegativeKey | app/routes/cipher.tsx:19 | A key of `-` followed by decimal digits parses to the negated value of the digits. |
| Cipher.ParseIntSkipsSpace | app/routes/cipher.tsx:19 | Leading white space does not change what a key parses to. |
| Cipher.ParseIntIgnoresTail | app/routes/cipher.tsx:19 | Decimal digits followed by a character that is neither a digit nor an `x` parse to the value of the digits alone, so `12abc` gives 12. |
| Cipher.HandleDecode | app/routes/cipher.tsx:15-29 | Caesar uses the key's shift, and a key that does not parse, or has no decimal digit, gives the text back. Vigenère and Atbash run their decoders. ROT13 ignores the key and is undone by ROT13. Any other cipher type gives `""`. |
| Cipher.CaesarExample | app/routes/cipher.tsx:31-40 | `KHOOR` with shift 3 decodes to `HELLO`. |
| Cipher.Rot13Example | app/routes/cipher.tsx:26 | `URYYB` decodes to `HELLO` under ROT13. |
| Cipher.AtbashExample | app/routes/cipher.tsx:64-73 | `SVOOL` decodes to `HELLO` under Atbash. |
| Cipher.VigenereExample | app/routes/cipher.tsx:42-62 | With `KEY` typed in the key field, `RIJVS` decodes to `HELLO`. |
| Cipher.VigenereLowerKeyExample | app/routes/cipher.tsx:42-62 | `RIJVS` with the effective key `key` decodes to `HELLO`, and the empty text decodes to the empty text. |
| FeedbackStore.FeedbackDeterminedByKeys | stores/feedbackStores.ts:98-107 | A feedback is determined by its overall score and by the score and tips under each key. |
| FeedbackStore.WithCategoryScore | stores/feedbackStores.ts:101-106 | Only the score under the key changes. Its tips, every other key and the overall score are kept. An absent ATS block gains only a score. |
| FeedbackStore.WithCategoryScoreLastWins | stores/feedbackStores.ts:98-107 | Of two updates, the second wins. Setting a block to its current score changes nothing. |
| FeedbackStore.Revocation | stores/feedbackStores.ts:58-67 | The previous URL is revoked exactly when it is truthy and differs from the new one, and nothing else is revoked. |
| FeedbackStore.RevokeIfSet | stores/feedbackStores.ts:85-86 | Dropping a URL revokes it exactly when it is truthy. |
| FeedbackStore.Store.constructor | stores/feedbackStores.ts:52-54 | All three fields start null, with nothing held or revoked. |
| FeedbackStore.Store.SetFeedback | stores/feedbackStores.ts:56 | Replaces the feedback and touches nothing else. |
| FeedbackStore.Store.SetImageUrl | stores/feedbackStores.ts:58-69 | Revokes the previous image URL when it is truthy and differs, then sets the new one. A truthy new URL joins the set of held URLs, and nothing else does. The other fields and the invariant are kept. |
| FeedbackStore.Store.SetResumeUrl | stores/feedbackStores.ts:71-81 | The same as `SetImageUrl`, for the PDF URL. |
| FeedbackStore.Store.ClearAll | stores/feedbackStores.ts:83-88 | Revokes whichever URLs are set, the image first, and leaves all three fields null. |
| FeedbackStore.Store.ResetToDefault | stores/feedbackStores.ts:90-96 | Revokes the URLs, installs the default feedback (72 overall; 75, 68, 55, 45; no tips; no ATS block) and nulls both URLs. |
| FeedbackStore.Store.UpdateCategoryScore | stores/feedbackStores.ts:98-107 | Without feedback, the state is unchanged. Otherwise only the chosen block's score changes. |
| FeedbackStore.DefaultFeedbackScores | stores/feedbackStores.ts:90-96 | The default feedback installed on reset: overall 72; tone and style 75, content 68, structure 55, skills 45; no ATS block; empty tips in every other block. |
| FeedbackStore.NothingLiveWhenCleared | stores/feedbackStores.ts:83-96 | Under the store's invariant, once both URLs are null every URL the store ever held has been revoked. |
| FeedbackStore.AtMostTwoLive | stores/feedbackStores.ts:52-96 | Under the store's invariant, at most two held URLs are unrevoked at any time: the current image and PDF URLs. |
| FeedbackStore.Store.UpdateOverallScore | stores/feedbackStores.ts:109-112 | Sets the overall score of a present feedback. A null feedback stays null, and the URLs are kept. |
| Records.KeyFor | app/components/WipeData.tsx:79 | The key of a record is `resume:` followed by its id. |
| Records.KeyForInjective | app/routes/upload.tsx:125 | Distinct ids give distinct keys. |
| Upload.TextIssues | app/routes/upload.tsx:21-23 | A text field reports an issue on its own path exactly when it is shorter than its minimum. |
| Upload.FileIssues | app/routes/upload.tsx:24-35 | Every file issue is on path `file`. There is none exactly when a file is present, at most 20·1024·1024 bytes, and of one of the five types. |
| Upload.SchemaIssues | app/routes/upload.tsx:20-36 | Every issue the schema reports lies on a one-segment path naming one of the four fields. |
| Upload.SchemaAcceptsIff | app/routes/upload.tsx:20-36 | The schema reports no issue exactly when every field rule holds. |
| Upload.FieldIssueIff | app/routes/upload.tsx:21-35 | A field has an issue exactly when its own rule fails. |
| Upload.ValidIffNoFieldFails | app/routes/upload.tsx:20-36 | The form is valid exactly when no field's rule fails. |
| Upload.SchemaParse | app/routes/upload.tsx:58 | Valid values parse to themselves. Otherwise the failure carries the non-empty issue list. Nothing else is thrown. |
| Upload.JoinPath | app/routes/upload.tsx:64 | A one-segment path joins to that segment. |
| Upload.JoinPathsOfSchema | app/routes/upload.tsx:64 | Each schema issue's key is its field name. |
| Upload.ErrorMap | app/routes/upload.tsx:63-66 | The map is empty exactly when there is no issue, and every entry has kind `validation`. |
| Upload.ErrorMapKeys | app/routes/upload.tsx:63-66 | The error map's keys are exactly the joined paths of the issues. |
| Upload.ErrorMapLastWins | app/routes/upload.tsx:63-66 | The entry under a path carries the message of the last issue on that path. |
| Upload.SchemaErrorKeys | app/routes/upload.tsx:61-70 | The error map has a key for a field exactly when that field's rule fails. |
| Upload.FileErrorMessage | app/routes/upload.tsx:24-35 | A failing file reports, in this order of precedence: a missing file; a wrong type, even if the file is also too large; the size. |
| Upload.BuildFieldErrors | app/routes/upload.tsx:62-66 | The `forEach` loop builds exactly the error map of the issues. |
| Upload.ResolveOutcome | app/routes/upload.tsx:56-74 | Success gives the values and no errors. A validation failure gives no values and the error map. Any other exception gives neither. |
| Upload.Resolver | app/routes/upload.tsx:56-74 | Values are returned exactly when the form is valid. An invalid form has a non-empty error map. A field's key is present exactly when its rule fails. |
| Upload.NewRecord | app/routes/upload.tsx:89-124 | The record has the new id and the uploaded path. A PDF's image is its rendered page; any other file is its own image. Feedback starts as `''`. |
| WipeData.Remove | app/components/WipeData.tsx:54 | The filter never lengthens the list, and a list without the id is unchanged. |
| WipeData.RemoveMultiset | app/components/WipeData.tsx:54 | The filter removes every occurrence of the id and keeps every other element with its multiplicity. |
| WipeData.RemoveConcat | app/components/WipeData.tsx:54 | The filter keeps the order of the list. |
| WipeData.Toggled | app/components/WipeData.tsx:54 | After a toggle, the id is present exactly when it was absent. An absent id is appended at the end. Other ids keep their membership. |
| WipeData.ToggleTwiceAbsent | app/components/WipeData.tsx:54 | Toggling an absent id twice restores the selection. |
| WipeData.ToggleTwicePresent | app/components/WipeData.tsx:54 | Toggling a present id twice moves it to the end, once. |
| WipeData.AlertColor | app/components/WipeData.tsx:123-124 | `error` maps to `failure`, which no other type gets. Every other type maps to its own name. |
| WipeData.HandleDelete | app/components/WipeData.tsx:57-63 | An empty selection shows the warning and leaves the dialog as it was. Otherwise the dialog opens. |
| WipeData.DecimalString | app/components/WipeData.tsx:85 | The count prints as a non-empty string of decimal digits without a leading zero (except `0` itself), whose value is the count. |
| WipeData.ResumePlan | app/components/WipeData.tsx:77-79 | The resume file is deleted if its path is non-empty. The image is deleted if its path is non-empty and differs from the resume path. The key is then blanked, and only the last call writes. |
| WipeData.ResumePlanDeletes | app/components/WipeData.tsx:77-79 | The plan deletes the resume file exactly when its path is set and the image exactly when its path is set. It deletes no other file and makes no call twice. |
| WipeData.Attempted | app/components/WipeData.tsx:76-82 | The calls made are a prefix of the plan. Either the whole plan runs, or the run stops at its first failing call. |
| WipeData.AttemptedNoFailure | app/components/WipeData.tsx:76-82 | With no failing call, the whole plan runs. |
| WipeData.Targets | app/components/WipeData.tsx:73 | The targets are exactly the resumes whose id is selected. |
| WipeData.TargetsConcat | app/components/WipeData.tsx:73 | The targets keep the order of `resumes`. |
| WipeData.EveryTargetAttempted | app/components/WipeData.tsx:75-83 | A failure on one resume does not stop the others: every target's first call is made. |
| WipeData.LogOnlyTouchesTargets | app/components/WipeData.tsx:73-83 | Every call made belongs to the plan of a selected resume. |
| WipeData.BlankedKeys | app/components/WipeData.tsx:75-83 | A target whose file deletions all succeed has its key blanked. |
| WipeData.KvWritesBlank | app/components/WipeData.tsx:79 | Every key-value write of the run writes `""` under the key of a target. |
| WipeData.DeletionLog | app/components/WipeData.tsx:73-83 | Each target makes at least one call and at most three. |
| WipeData.DeleteOne | app/components/WipeData.tsx:76-82 | One resume's `try` block makes exactly the attempted prefix of its plan. |
| WipeData.ConfirmDelete | app/components/WipeData.tsx:69-95 | The log is the deletion run over the targets in order. Afterwards the dialog is closed, the selection is cleared, deletion has ended, and the success alert reports the number of selected ids. |
| Home.EntryResumes | app/routes/home.tsx:45-61 | An entry yields a record exactly when its value is non-empty, parses, and has an id and an image. |
| Home.Accepted | app/routes/home.tsx:44-62 | At most one record per entry, and every record kept has an id and an image. |
| Home.AcceptedConcat | app/routes/home.tsx:44-62 | The result follows listing order, entry by entry. |
| Home.AcceptedMembership | app/routes/home.tsx:44-62 | A record is listed exactly when some non-empty entry parses to it and it has an id and an image. |
| Home.AcceptedBlank | app/routes/home.tsx:47-49 | A blank entry alone yields nothing. |
| Home.BlankEntryIgnored | app/routes/home.tsx:47-49 | An entry blanked by the wipe panel contributes nothing, wherever it sits. |
| Home.LoadResumes | app/routes/home.tsx:32-68 | A missing listing gives `[]`. Otherwise the loop yields the accepted records. |
| ResumeCard.PreviewMimeType | app/components/ResumeCard.tsx:32-36 | The chosen type is one of the PDF, PNG, WebP and JPEG types. |
| ResumeCard.PreviewTypeAccepted | app/components/ResumeCard.tsx:32-36 | Every chosen type passes the upload schema's type rule. |
| ResumeCard.PdfExtension | app/components/ResumeCard.tsx:32-34 | `.pdf` gives `application/pdf` whatever the stem. |
| ResumeCard.PdfUpperExtension | app/components/ResumeCard.tsx:32-34 | `.PDF` gives `application/pdf` too, because the test ignores case. |
| ResumeCard.PngExtension | app/components/ResumeCard.tsx:35 | `.png` gives `image/png` whatever the stem. |
| ResumeCard.LastExtensionWins | app/components/ResumeCard.tsx:32-35 | Only the final extension counts: `.pdf.png` gives `image/png`. |
| ResumeCard.WebpExtension | app/components/ResumeCard.tsx:36 | `.webp` gives `image/webp`. |
| ResumeCard.NoExtensionIsJpeg | app/components/ResumeCard.tsx:32-36 | A path without `.` gets `image/jpeg`. |
| ResumeCard.CaseDoesNotMatter | app/components/ResumeCard.tsx:32-36 | Paths that agree up to ASCII case get the same type. |
| ResumeCard.Extension | app/components/ResumeCard.tsx:32-36 | The extension is absent exactly when the path has no `.`. Otherwise it is the text after the last `.`, and holds no `.`. |
| ResumeCard.LastDotAt | app/components/ResumeCard.tsx:32-36 | A `.` with no `.` after it starts the extension. |
| ResumeCard.TypeOfExtension | app/components/ResumeCard.tsx:32-36 | Reference table from a lower-case extension to a type; every type it gives passes the upload schema's type rule. |
| ResumeCard.DotWordGivesExtension | app/components/ResumeCard.tsx:32-36 | A path matching `\.w$` without case has extension `w` up to case. |
| ResumeCard.ExtensionGivesDotWord | app/components/ResumeCard.tsx:32-36 | A path whose extension is `w` up to case matches `\.w$` without case. |
| ResumeCard.EndsWithDotWord | app/components/ResumeCard.tsx:32-36 | For a lower-case word `w`, the path matches `\.w$` without case exactly when its lower-cased extension is `w`. |
| ResumeCard.PreviewByExtension | app/components/ResumeCard.tsx:32-36 | The type is the table entry of the lower-cased last extension, and `image/jpeg` without an extension. |
| ResumeCard.OtherExtensionIsJpeg | app/components/ResumeCard.tsx:33-36 | Any extension other than `pdf`, `png` and `webp`, in any case, gets `image/jpeg`. |
| FileUploader.PickerMatchesSchema | app/components/FileUploader.tsx:15-26 | The picker's size limit equals the schema's, and each dropzone type passes the schema. |
| FileUploader.FirstFile | app/components/FileUploader.tsx:10-13 | The first accepted file, or null exactly when none was accepted. |
| FileUploader.FileIcon | app/components/FileUploader.tsx:32-38 | Every file gets `/images/pdf.png`. |
| FileUploader.FileTypeName | app/components/FileUploader.tsx:41-49 | `application/pdf` is labelled `PDF`, and a type that is neither PDF nor an image is labelled `File`. An image label is no longer than the subtype and holds no `/` and no lower-case letter. |
| FileUploader.BeforeSlash | app/components/FileUploader.tsx:46 | The segment is a prefix without `/` that ends at the first `/` or at the end. |
| FileUploader.ImageLabel | app/components/FileUploader.tsx:45-47 | An image type is labelled with its subtype, upper-cased. |
| FileUploader.ImageLabelStopsAtSlash | app/components/FileUploader.tsx:46 | Only the second `/`-separated part is labelled. |
| FileUploader.OtherLabel | app/components/FileUploader.tsx:48 | Any other type is labelled `File`. |
| FileUploader.PdfLabel | app/components/FileUploader.tsx:42-44 | `application/pdf` is labelled `PDF`. |
| FileUploader.PngLabel | app/components/FileUploader.tsx:45-47 | `image/png` is labelled `PNG`. |

## Left out

- Cipher.NormalizeKey: lower-cases ASCII letters only. `toLowerCase` maps a few non-ASCII characters to ASCII letters, such as U+212A (Kelvin sign) to `k` and U+0130 to `i` plus a combining dot, and such characters are not kept in the model's key.
- FileUploader.FileTypeName: upper-cases ASCII letters only. `toUpperCase` also maps non-ASCII characters, such as `ß` to `SS`.
- Strings: a lone surrogate cannot be represented as a `char`, and a character outside the BMP counts as one `char` in lengths, where JavaScript counts two code units.
- Cipher.ParseInt: the numbers are exact integers, while JavaScript numbers are doubles. Keys past 2^53 lose precision or become `Infinity` in JavaScript.
- Upload.TextIssues: a length is counted in characters of the model's strings. zod counts UTF-16 code units, and the two differ only for a description with characters outside the BMP.
- Upload: zod's handling of non-string field values is not modelled, because the form always supplies strings. The submit pipeline (uploads, PDF rendering, AI analysis and its error exits) is I/O. `NewRecord` takes the uploaded paths and the new id as parameters.
- WipeData.ConfirmDelete: whether a backend call throws is fixed per call by the `failing` set, so the same call cannot both fail and succeed.
- WipeData.ConfirmDelete: the outer `catch` with its error alert, `loadFiles`, `onDataDeleted` and the alert's timer are not modelled. The model never takes the outer error path.
- `handleDeleteAll`, `confirmDeleteAll` and the file listing of the wipe panel are not modelled. They are backend I/O, not part of the selection logic.
- `alertIcon` is not modelled. It is presentation only.
- Home.LoadResumes: `JSON.parse` is a function parameter. A record holds only the fields the app reads, and a falsy field is represented by `""`. A listing that is null and a listing that throws are both represented by `None`.
- ResumeCard: reading the blob and creating the object URL are I/O.
- FileUploader: the dropzone library's own filtering by type and size is not modelled. Only its constants are compared with the schema.
- The store's async helpers `loadFromKV` and `persistToKV` are not modelled. They are backend I/O.
- FeedbackStore: a `revokeObjectURL` call that throws is caught and ignored by the store. The model records every attempted revocation.
- React rendering, routing, modals and timers are not modelled.

## Findings

| source | as written | input that shows it | evidently intended | confidence | as-written member | corrected member |
|---|---|---|---|---|---|---|
| app/routes/cipher.tsx:36-37 | `(code - base - shift + 26) % 26` adds 26 only once before JavaScript's truncating `%`, so for `shift > 26` the remainder can be negative and a letter decodes to a non-letter | `caesarDecode("A", 27)` gives `"@"`, and `"Z"` encoded with shift 27 (`"A"`) does not decode back to `"Z"` | decode every shift modulo 26, keeping letters letters, so that decoding inverts encoding for every shift | not executed | Cipher.CaesarShift27Counterexample | Cipher.CaesarDecodeNormalized |

The dispatcher `Cipher.HandleDecode` keeps the behaviour as written. `Cipher.CaesarNormalizedRoundTrip` proves the round trip of the corrected decoder for every integer shift. `Cipher.CaesarAgreesWithNormalized` proves that the two decoders agree whenever `shift <= 26`.
