# Invoice auditor: a Dafny model of its text, recovery and retry logic

The invoice auditor reads a Russian-language invoice from a PDF and sends its text to the GigaChat chat endpoint. It then recovers a ten-field JSON record from the reply and checks that record for missing fields and an inconsistent VAT amount.

This project models the deterministic core around the OCR and HTTP calls, in `invoice_auditor.py`:

- **`TextCleaner.clean_pdf_text`** (`text_cleaner.dfy`). Its chain of `re.sub` calls and the final `str.strip()`. Each regular expression is a `Regex.Pattern`. `Regex.Sub` is Python's left-to-right, non-overlapping substitution scan. Positions index the original string, so the lookbehind of `(?<![0-9])о т` sees the right character.
- **`extract_json_from_text` and `parse_json_robust`** (`json_recovery.dfy`). These cover:
  - removing the code fences;
  - the slice from the first `{` to the last `}`;
  - the five flattening substitutions;
  - the Tier-1 parse, the Tier-2 repair and parse, and the Tier-3 regex salvage into the ten-key record.

  `json.loads` is a parameter `loads: string -> Option<Json>`: `None` is a `JSONDecodeError`. The salvage loop is a method with a loop invariant. It searches the repaired string, as the code does.
- **`validate_result`** (`validation.dfy`). The missing-field report, the truthiness gate and the VAT comparison, with numbers as `real`.
- **`GigaChatAuth`** (`auth.dfy`). A class with the two cache fields, `token` and `expiresAt`. Time is an integer number of milliseconds passed in by the caller. The OAuth reply is a `TokenReply` value: a status and body, a timeout, or any other failure of the request (a failed connection, a body that is not JSON).
- **`PDFProcessor.extract_text`** (`pdf_text.dfy`). Only the decision rule. The PDF readers and Tesseract are replaced by what they yield page by page: text, no text, or an exception.
- **The retry loop of `InvoiceAuditor.audit`** (`audit.dfy`). A method runs the three attempts over a script of per-attempt outcomes (clock reading, token reply, chat reply). It updates the `GigaChatAuth` object and returns the outcome and a trace of events: token fetches, POSTs, invalidations and sleeps. `Audit.RunFrom` is the specification the method is proved against. The lemmas about `RunFrom` state what the loop promises. The token is read inside the `try` block, so the same handlers catch its exceptions: the timeout handler catches a token-exchange timeout, and the generic handler catches any other error.

`Text.Ink` is the non-whitespace content of a text, as a list of characters (`Text.Chars`). Several properties state that a rewrite changes whitespace only: `Ink(result) == Ink(input)`.

### Behaviour worth knowing

The model follows the code in each case.

- `clean_pdf_text` reads as a normaliser, but it is not idempotent: the matches of `([а-яА-ЯЁё])\s+([а-яА-ЯЁё])` do not overlap, so `"а б в"` cleans to `"аб в"` and then to `"абв"`. `TextCleaner.CleanNotIdempotent` proves both results.
- The timeout handler does not back off: it sleeps 2 s after every timeout, the last one included (`Audit.ThreeTimeouts`).
- A 401 reply is not a free retry: it uses up one of the three iterations (`Audit.ThreeUnauthorized`).
- Running out of attempts does not always raise. An unusable reply on the third attempt returns the diagnostic record `{error, raw_response, extracted_text}` (`Audit.RunDiagnostic`).
- The Tier-2 repair does not remove every comma that precedes a closing bracket. In `,,}` only the second comma is part of a match, so `,}` remains (`JsonRecovery.DoubleCommaSurvives`). `JsonRecovery.RepairedProperties` states the removal for texts in which no comma is followed by another comma.

## Model

| member | source | states |
|---|---|---|
| Text.Strip | invoice_auditor.py:212 | `str.strip()`: the result neither starts nor ends with whitespace |
| Text.StripKeepsInk | invoice_auditor.py:212 | stripping removes whitespace only: the kept characters are unchanged |
| Text.StripEmptyIffBlank | invoice_auditor.py:276 | `s.strip()` is empty exactly when `s` is all whitespace, for the emptiness tests of `extract_text` |
| Text.InkEmptyIffBlank | invoice_auditor.py:312 | a text has no non-whitespace content exactly when it is blank |
| Text.Find | invoice_auditor.py:369 | `str.find('{')`: the first index holding the character, or -1 when none does |
| Text.FindLastSpec | invoice_auditor.py:370 | `str.rfind('}')`: the index found holds the character and no later index does |
| Text.Prefix | invoice_auditor.py:489 | `text[:n]` has length `min(len, n)` and is a prefix of the text |
| Text.ReplaceChar | invoice_auditor.py:410 | `replace("'", '"')` keeps the length and swaps exactly the matching positions |
| Regex.RunEndSpec | invoice_auditor.py:198 | a greedy class run stops at the first character outside the class, and every character before it is in the class |
| Regex.SplitValueAtSpec | invoice_auditor.py:377 | a match of `"\s*:\s*"([^"]*)\n([^"]*)"` has its quotes, colon and newline where the pattern puts them, with only whitespace around the colon |
| Regex.SplitValueAtGroups | invoice_auditor.py:377 | the quoted value holds no quote, and the newline replaced is the last one in the value (the greedy first group backs off to it) |
| Regex.NewlineRunAtSpec | invoice_auditor.py:380-382 | a match of `\s*\n\s*` covers whitespace only, holds a newline, and extends to the first non-whitespace character |
| Regex.SubUnfold | invoice_auditor.py:198-210 | `re.sub` emits the replacement of a match (or the copied character), then resumes after the match |
| Regex.SubEnd | invoice_auditor.py:198-210 | the scan emits nothing past the end of the text |
| Regex.SubShrinks | invoice_auditor.py:198-210 | with a pattern whose replacement is never longer than its match, `re.sub` never lengthens the text |
| Regex.ExpandKeeps | invoice_auditor.py:198-385 | every replacement keeps the non-erased characters of its match, for every pattern of the cleaner and of the flattening |
| Regex.SubKeeps | invoice_auditor.py:198-210 | a substitution whose replacements differ from their matches only in erased characters keeps the rest of the text's kept characters |
| Regex.SubAllKeeps | invoice_auditor.py:377-385 | such a `re.sub` drops only whitespace (or, for the trailing-comma repair, whitespace and commas) |
| Regex.SubCopies | invoice_auditor.py:198-210 | where no match starts, `re.sub` copies the text unchanged |
| Regex.SubAllNoMatch | invoice_auditor.py:198-210 | a text in which the pattern matches nowhere is returned unchanged |
| Regex.SubLast | invoice_auditor.py:377-385 | the rewrite ends with what the last step of the scan emits |
| TextCleaner.MendedShrinks | invoice_auditor.py:198-210 | the substitution chain never lengthens the text |
| TextCleaner.RepairKeepsInk | invoice_auditor.py:202-207 | each of the six split-word repairs removes only a space |
| TextCleaner.OcrFixedKeepsInk | invoice_auditor.py:202-207 | the six repairs together keep the non-whitespace content |
| TextCleaner.MendedKeepsInk | invoice_auditor.py:198-210 | the whole substitution chain keeps the non-whitespace content in order |
| TextCleaner.SpaceRunCollapses | invoice_auditor.py:210 | after `re.sub(r'  +', ' ', ...)` (two spaces, then any more) no two spaces are adjacent, and the first character is unchanged |
| TextCleaner.CleanProperties | invoice_auditor.py:195-212 | the cleaned text is no longer than the input, has the same non-whitespace content, has no whitespace at either end and no two adjacent spaces |
| TextCleaner.CleanBlank | invoice_auditor.py:195-212 | a blank text cleans to the empty string |
| TextCleaner.OcrFixedQuiet | invoice_auditor.py:202-207 | a text without the letters the repairs start with passes the six repairs unchanged |
| TextCleaner.PunctQuiet | invoice_auditor.py:199 | without `, . ; :` the space-before-punctuation rule changes nothing |
| TextCleaner.SpaceRunQuiet | invoice_auditor.py:210 | without two adjacent spaces the space-run rule changes nothing |
| TextCleaner.StripUnspaced | invoice_auditor.py:212 | a text that neither starts nor ends with whitespace strips to itself |
| TextCleaner.CleanOfCalm | invoice_auditor.py:195-212 | after the Cyrillic join, a text without punctuation, repair letters or double spaces and with non-space ends passes the rest of the chain unchanged |
| TextCleaner.JoinFirstPass | invoice_auditor.py:198 | the non-overlapping Cyrillic join turns `а б в` into `аб в` |
| TextCleaner.JoinSecondPass | invoice_auditor.py:198 | applied to `аб в` it gives `абв` |
| TextCleaner.CleanNotIdempotent | invoice_auditor.py:195-212 | cleaning `а б в` gives `аб в`, and cleaning that again gives `абв`: cleaning is not idempotent |
| JsonRecovery.CandidateFound | invoice_auditor.py:369-372 | a candidate slice exists exactly when some `{` precedes some `}` |
| JsonRecovery.CandidateShape | invoice_auditor.py:373 | the candidate `text[start:end+1]` starts with `{` and ends with `}` |
| JsonRecovery.FirstBeforeLast | invoice_auditor.py:369-370 | the first `{` is at or before any `{`, and the last `}` at or after any `}` |
| JsonRecovery.FlattenKeepsBraces | invoice_auditor.py:377-385 | each flattening substitution keeps the leading `{` and the trailing `}` |
| JsonRecovery.OnlyNewlineBraceEndsInBrace | invoice_auditor.py:377-385 | of the flattening patterns, only `\s*\n\s*}` has a match that ends in `}` |
| JsonRecovery.WhitespaceCollapses | invoice_auditor.py:385 | after `re.sub(r'\s+', ' ', ...)` every whitespace character is a single space followed by a non-whitespace character |
| JsonRecovery.CollapsedHasNoNewline | invoice_auditor.py:385 | a collapsed text holds no newline |
| JsonRecovery.FlattenedProperties | invoice_auditor.py:377-385 | the flattened candidate starts with `{`, ends with `}`, is collapsed, has no newline and the same non-whitespace content |
| JsonRecovery.ExtractJsonProperties | invoice_auditor.py:362-389 | with a `{` before a `}`, the result is braced, collapsed, newline-free and differs from the candidate only in whitespace; otherwise it is the unfenced, stripped text |
| JsonRecovery.TrailingCommaPass | invoice_auditor.py:406-407 | one trailing-comma pass over a text with no comma before a comma leaves no comma before the bracket, creates no new comma-before-`x`, and changes the first non-whitespace character only by turning a dropped comma into the bracket |
| JsonRecovery.CommaFreeIff | invoice_auditor.py:406-407 | the whole-suffix and the index-wise forms of "no comma before `x`" agree |
| JsonRecovery.CommasDroppedCloses | invoice_auditor.py:406-407 | when no comma is followed by a comma, the two passes leave no comma followed by `}` or `]` |
| JsonRecovery.TrailingCommaIsDrop | invoice_auditor.py:406-407 | the `re.sub` scan of `,\s*}` or `,\s*\]` equals `DropTrailing`: every comma whose next non-whitespace character is the bracket is dropped with the whitespace after it, and every other character is kept in order |
| JsonRecovery.DropTrailingFrame | invoice_auditor.py:406-407 | dropping trailing commas never lengthens the text, leaves it unchanged when no comma is followed by the bracket, and shortens it otherwise |
| JsonRecovery.CommasDroppedExactly | invoice_auditor.py:406-407 | the two passes are `DropTrailing` for `}` then for `]`, and they change the candidate exactly when some comma is followed, past whitespace, by `}` or `]` |
| JsonRecovery.QuotesKeepFirstInk | invoice_auditor.py:410 | replacing `'` by `"` changes the next non-whitespace character only when it is a `'` |
| JsonRecovery.QuotesKeepCommaFree | invoice_auditor.py:410 | replacing `'` by `"` keeps "no comma followed by `x`" for every other `x` |
| JsonRecovery.RepairedProperties | invoice_auditor.py:405-410 | the repaired text has no `'`, is no longer than the candidate, differs only in commas and whitespace before the quote swap, is the candidate with only the quote swap when no comma is followed by `}` or `]`, and has no trailing comma when no comma precedes a comma |
| JsonRecovery.DoubleCommaSurvives | invoice_auditor.py:406 | `,,}` repairs to `,}`: a comma is left before the `}` |
| JsonRecovery.QuotedAt | invoice_auditor.py:431 | `"([^"]*)"` captures a quote-free string |
| JsonRecovery.DigitsAt | invoice_auditor.py:435 | `([0-9.]+)` captures a non-empty run of digits and dots |
| JsonRecovery.FieldMatchAt | invoice_auditor.py:431-440 | a field pattern's group is quote-free for string fields and digits-and-dots for numeric ones; the group is missing only for the `null` alternative |
| JsonRecovery.Search | invoice_auditor.py:444 | `re.search` returns the leftmost match position, and the pattern matches nowhere before it |
| JsonRecovery.GroupValue | invoice_auditor.py:446-451 | a non-empty group of a string field is stored as that string; a numeric group is stored as the number `float` reads from it; the value is `None` exactly when the group is missing or empty, or `float` rejects it |
| JsonRecovery.FieldValue | invoice_auditor.py:443-453 | a field's value is `None` when its pattern matches nowhere, and otherwise the value of the first group of the leftmost match; a string value is non-empty and quote-free |
| JsonRecovery.FilledShape | invoice_auditor.py:443-453 | after storing the first `n` values, those keys hold their values and the rest still hold `None` |
| JsonRecovery.SalvageObject | invoice_auditor.py:417-455 | the salvaged record has exactly the ten keys, each holding its field's value |
| JsonRecovery.SalvageAmount | invoice_auditor.py:443-453 | salvaging `{"amount": 500}` stores the number 500 under `"amount"` |
| JsonRecovery.Salvage | invoice_auditor.py:443-453 | the Tier-3 loop builds exactly the salvaged record |
| JsonRecovery.FilledStep | invoice_auditor.py:445-453 | a loop turn whose search finds nothing leaves the record unchanged; otherwise it stores the group's value |
| JsonRecovery.ParseJsonRobust | invoice_auditor.py:392-455 | returns the strict parse if any; otherwise the parse of the repaired candidate; otherwise the salvage of the repaired candidate; it never fails |
| JsonRecovery.ParseDecimalDefined | invoice_auditor.py:448-451 | `float` of a digits-and-dots string succeeds exactly when it has at most one dot and at least one digit |
| JsonRecovery.ParseDecimalRejects | invoice_auditor.py:448-451 | `"."` and `"1.2.3"` are not numbers, so the salvage stores `None` |
| JsonRecovery.ParseDecimalReads | invoice_auditor.py:449 | `"20.5"` reads as 20.5 |
| Validation.MissingOf | invoice_auditor.py:460-463 | reports exactly the required keys that are absent or `None` |
| Validation.MissingOfAppend | invoice_auditor.py:460-463 | checking one more key appends it to the report exactly when it is missing, so the report keeps the order of `required_fields` |
| Validation.Get | invoice_auditor.py:466-468 | `data.get(key, 0)`: the stored value, or a falsy default |
| Validation.Round2 | invoice_auditor.py:471 | `round(x, 2)` is within half a cent of `x` |
| Validation.Validate | invoice_auditor.py:458-475 | returns the record unchanged; reports exactly the missing required fields; checks the VAT exactly when all three values are truthy; raises `TypeError` exactly when one of them is a truthy non-number; the expected VAT reported is `round(amount * vat_rate / 100, 2)`; a mismatch is reported exactly when the VAT differs from it by more than a cent |
| Validation.VatCheckAgainstExact | invoice_auditor.py:470-473 | against the exact product, a mismatch is off by more than half a cent and an accepted VAT by at most a cent and a half |
| Validation.TwentyPercentConsistent | invoice_auditor.py:470-473 | amount 1000 at 20% with VAT 200 passes the VAT comparison |
| Auth.Fetch | invoice_auditor.py:148-174 | a fetch succeeds exactly for a 200 reply carrying `access_token`; the expiry is `expires_at` if given, else now + 30 minutes; another status raises with that status; a 200 reply without `access_token` raises `KeyError`; a timeout raises `Timeout`, and it is the only fetch error that does; any other request failure raises its own error |
| Auth.TokenStep | invoice_auditor.py:178-188 | the cached token is returned with the cache unchanged unless it is unset or within five minutes of expiry; otherwise the fetch's cache and token, or its error with the cache intact |
| Auth.GigaChatAuth.constructor | invoice_auditor.py:140-142 | a new cache holds no token and no expiry |
| Auth.GigaChatAuth.Token | invoice_auditor.py:178-188 | the property read updates the fields and returns the token as `TokenStep` prescribes |
| Auth.GigaChatAuth.Invalidate | invoice_auditor.py:511 | `_token = None`, leaving the expiry |
| Auth.ReusedForTwentyFiveMinutes | invoice_auditor.py:171-188 | a token fetched without `expires_at` is served from the cache for the following 25 minutes |
| Auth.RefreshesNearExpiry | invoice_auditor.py:185-186 | from five minutes before expiry on, every read fetches |
| Auth.UnsetAlwaysFetches | invoice_auditor.py:183-184 | an absent or empty token always goes to the endpoint |
| Auth.RefusedLeavesCache | invoice_auditor.py:165-166 | a non-200 reply leaves both fields untouched, and raises exactly when a fetch was needed |
| Auth.ServedTokenNonEmpty | invoice_auditor.py:169 | a served token is the cached one, and it is non-empty unless the endpoint issued an empty one |
| PdfText.HasInkIsStripped | invoice_auditor.py:267 | `page_text.strip()` is truthy exactly when the text has a non-whitespace character |
| PdfText.ReadPages | invoice_auditor.py:262-273 | the pages read are the prefix before the first page whose reading raises |
| PdfText.OcrPass | invoice_auditor.py:279-310 | with PyMuPDF the OCR text runs up to the first exception; without it, an exception propagates |
| PdfText.ExtractText | invoice_auditor.py:250-316 | the loop yields exactly `Extracted`: not found, the embedded text, the OCR text appended, an OCR failure, or the blank-text error |
| PdfText.EmbeddedBlankIff | invoice_auditor.py:262-276 | the embedded text is blank, so OCR runs, exactly when no page read before the first exception has ink |
| PdfText.ExtractedProperties | invoice_auditor.py:250-316 | a missing file raises `FileNotFoundError`; a returned text is never blank; embedded text with ink is returned as is; otherwise the result is the embedded text followed by the OCR text |
| Audit.Accepted | invoice_auditor.py:521-529 | a reply is accepted exactly when its parse is a record with a non-null value that `validate_result` does not reject; the accepted record is returned unchanged |
| Audit.Verdicts | invoice_auditor.py:521-529 | the verdict on each of the three replies |
| Audit.Audit | invoice_auditor.py:477-551 | the method's outcome, its trace and the auth object's final state are those of `RunFrom` over the cleaned text |
| Audit.TryOnce | invoice_auditor.py:492-549 | one loop iteration yields exactly `AttemptTurn`, and leaves the auth object in the state it names |
| Audit.TurnShape | invoice_auditor.py:492-549 | an iteration's events are: a fetch exactly when the cache needs a refresh, then a POST, bearing the token and embedding `text[:4000]`, exactly when a token was had, then at most one sleep or invalidation |
| Audit.TurnCounts | invoice_auditor.py:493-549 | an iteration POSTs at most once and sleeps at most two seconds |
| Audit.TurnRetries | invoice_auditor.py:509-549 | an iteration moves on only after a 2 s sleep, a 1 s sleep that is not on the third attempt, or a 401 that cleared the token |
| Audit.TurnEnds | invoice_auditor.py:528-548 | the diagnostic comes only on the third attempt, for an unusable reply, with `text[:1000]`; a re-raise comes only on the third attempt; an audited result is the attempt's accepted verdict |
| Audit.TurnTokenFails | invoice_auditor.py:492-549 | when reading the token raises, nothing is POSTed and the cache is untouched; a timeout sleeps 2 s and moves on, the third attempt included; any other error sleeps 1 s and moves on, and on the third attempt is re-raised |
| Audit.TurnPostRules | invoice_auditor.py:509-549 | after a POST: a 401 clears the token and moves on without sleeping; a timeout sleeps 2 s and moves on; another failure sleeps 1 s, or is re-raised on the third attempt; an accepted reply is returned; an unusable reply sleeps 1 s, or gives the diagnostic on the third attempt |
| Audit.RunBounds | invoice_auditor.py:491-551 | from attempt `i` on, at most `3 - i` POSTs and `2 * (3 - i)` seconds of sleep |
| Audit.RunSends | invoice_auditor.py:489-501 | every POST embeds the same `text[:4000]` |
| Audit.RunDiagnostic | invoice_auditor.py:533-539 | a diagnostic carries the third reply, judged unusable, and the first 1000 characters of the text |
| Audit.RunReraised | invoice_auditor.py:545-548 | a re-raised POST failure is the third attempt's |
| Audit.RunExhausted | invoice_auditor.py:542-551 | the final raise follows only a last attempt that slept 2 s or met a 401 |
| Audit.RunAudited | invoice_auditor.py:528-529 | an audited record is the accepted verdict on some attempt's reply |
| Audit.AuditProperties | invoice_auditor.py:477-551 | at most three POSTs and six seconds of sleep; every POST embeds at most 4000 characters; an audited record is a reply's parsed record with a non-null value, unchanged by `validate_result`; a diagnostic carries the third reply and `text[:1000]` |
| Audit.ThreeUnauthorized | invoice_auditor.py:509-512 | three 401s use up the three iterations without sleeping: three fetches, three POSTs, three invalidations, then the final raise |
| Audit.ThreeTimeouts | invoice_auditor.py:542-544 | three timeouts sleep 2 s each, the last included, reusing the first attempt's token, then the final raise |
| Audit.PromptCut | invoice_auditor.py:489 | the prompt embeds a prefix of the cleaned text of at most 4000 characters |

## Left out

- PDF reading, rendering and OCR (PyPDF2, PyMuPDF, pdf2image, Tesseract) are foreign calls. `PdfText` replaces them by their per-page results.
- `PDFProcessor.preprocess_image` (invoice_auditor.py:218-247) is OpenCV image arithmetic on pixel arrays and is not part of this model.
- `check_dependencies` and `main` (invoice_auditor.py:70-134, 554-600) probe the environment, read arguments and write files. They are not part of this model.
- The `GIGACHAT_AUTH_KEY` check in `GigaChatAuth.__init__` (invoice_auditor.py:143-146) reads the environment. The constructor models only the two cache fields.
- HTTP requests, `uuid4`, `datetime.now` and `time.sleep` are not modelled as operations. Replies, clock readings and sleeps are script entries and trace events. Each attempt has one clock reading, used both for the refresh test and for the default expiry.
- `json.loads` is a parameter. `response.json()` and the response's structure are folded into the `PostOutcome` of each attempt.
- The prompt template is not rendered. A POST records the text it embeds, `text[:4000]`.
- `print` output, including every warning of `validate_result`, is left out. The warnings are the `missing` and `vat` fields of `Validation.Validation`.
- Auth.Fetch: `expires_at` is kept in milliseconds; the division by 1000 and the `datetime` conversion are not modelled. A non-string `access_token` or a non-numeric `expires_at` is not modelled either.
- Validation.Round2: uses exact `real` arithmetic with ties to even, not IEEE doubles. The VAT results are exact-arithmetic results.
- JsonRecovery.ParseDecimal: reads the decimal exactly, not as the nearest double.
- JsonRecovery.Json: objects are maps, so the key order of a parsed dict is not modelled.
- JsonRecovery.RepairedProperties: the claim that the repaired text has no comma followed by `}` or `]` is stated only for candidates in which no comma is followed by another comma, because for `,,}` it is false (`JsonRecovery.DoubleCommaSurvives`). The removal itself, read over the candidate's own commas, holds for every candidate (`JsonRecovery.CommasDroppedExactly`).
- Audit.AuditProperties: says that an audited record comes from some attempt's reply, not which one. `Audit.Audit`'s ensures fixes the exact run through `RunFrom`.
- Audit.Audit starts from the extracted text. The call to `extract_text` is modelled separately in `PdfText`, and its exceptions propagate before the loop.
