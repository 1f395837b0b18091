# Contact form handler of the GEC Vaishali E-Cell site, modelled in Dafny

`php/contact.php` takes the contact form's POST request and handles it in five steps:

1. It sanitizes every field: trim, `htmlspecialchars` with `ENT_QUOTES`, then `FILTER_SANITIZE_STRING`.
2. It validates the fields against a fixed list of rules and collects every violation message.
3. It screens the submission for spam with three rules: keywords in message and names, more than two links, and a short message holding a ten-digit run.
4. It builds a submission record.
5. It appends the record to the month's log file `contacts/submissions_YYYY-MM.json` and, when that write produced bytes, saves a backup of the record alone.

The file also holds a per-address rate limiter (`checkRateLimit`) with a one-hour window for five submissions. The request flow never calls it.

The model has one module per concern:

| module | file | what it holds |
|---|---|---|
| `Strings` | strings.dfy | the PHP string functions the handler relies on, as functions with contracts |
| `Sanitizer` | sanitizer.dfy | `sanitizeInput` |
| `Validator` | validator.dfy | `validateInput` and its rule set |
| `SpamFilter` | spam.dfy | `detectSpam` |
| `RateLimiter` | rate_limit.dfy | `checkRateLimit` |
| `SubmissionStore` | store.dfy | `processSubmission`, `storeSubmission` and the file names |
| `ContactHandler` | contact.dfy | the request flow |

Strings hold one byte per `char`, so `strlen` is `|s|`. Nothing bounds a `char` to 0..255. A `char` above 0xFF stands for no byte; the UTF-8 check treats it as ill-formed, so sanitizing turns any value holding one into the empty string.

Code that works step by step is kept in that form, as methods with loops and their invariants:

- `SanitizeInput` runs a loop over the fields.
- `ValidateInput` appends to the error list.
- `CheckRateLimit` increments the caller's entry, then runs an eviction loop over a snapshot of the map.
- `StoreSubmission` loads, appends and saves.

Each of these methods is proved equal to a specification function, and the properties are proved about those functions.

Each step's environment is a parameter. For `StoreSubmission` these are:

- the clock;
- the `uniqid()` value;
- `REMOTE_ADDR` and `HTTP_USER_AGENT`;
- the storage directory's decoded files;
- whether the disk accepts each write.

For `ValidateInput` the parameter is `FILTER_VALIDATE_EMAIL`. For the handler it is the result of `mail()`.

Design notes:

- The third spam rule is dead code. It asks for fewer than ten bytes that contain ten consecutive digits. `SpamFilter.SpamIsKeywordOrLinks` proves that `detectSpam` is "a keyword occurs, or more than two links start in the message".
- The response's `submission_id` comes from `processSubmission`'s `uniqid()` call. The stored record gets its id from a second call. The model therefore takes both ids: the response carries the first, and the stored record and its backup name carry the second.
- On already-escaped text, `FILTER_SANITIZE_STRING` does only one thing: its tag stripper drops NUL bytes. The model writes exactly that. Quotes and angle brackets are already gone.
- The DisplayName of `first_name` is `"First name"`, with a lower-case n, as `ucfirst(str_replace('_', ' ', ...))` produces.
- A required field counts as missing under PHP `empty` semantics: absent, `""` or `"0"`.

## Model

| member | source | states |
|---|---|---|
| Strings.Trim | php/contact.php:99 | trim() keeps the piece of its input that starts after the leading trim bytes; only bytes among " \t\n\r\0\x0B" lie before and after it, and the piece neither starts nor ends with one |
| Strings.TrimIdempotent | php/contact.php:99 | trimming twice is trimming once |
| Strings.Lower | php/contact.php:157 | strtolower() keeps the length, leaves no ASCII capital, and leaves every other byte where it was |
| Strings.LowerConcat | php/contact.php:157 | lower-casing distributes over concatenation |
| Strings.Ucfirst | php/contact.php:118 | ucfirst() keeps the length and every byte after the first; the first byte is no lower-case letter afterwards and lower-cases to what the input's did |
| Strings.ReplaceChar | php/contact.php:118 | after str_replace of one byte by a different one, that byte no longer occurs, and every other byte stays where it was |
| Strings.IndexOf | php/contact.php:160 | strpos() returns the first offset where the word occurs, and none when it never occurs |
| Strings.StrposFindsSubstring | php/contact.php:160 | `strpos(...) !== false` holds exactly when the word is a substring |
| Strings.ContainsAcrossSeparator | php/contact.php:157 | a word without the separator occurs in `a . sep . b` exactly when it occurs in a or in b |
| Strings.JoinContainsPart | php/contact.php:148 | implode(' ', ...) contains every one of its parts |
| Strings.JoinSnoc | php/contact.php:148 | imploding an extra part appends the separator and that part |
| Strings.NatToString | php/contact.php:129 | an integer concatenated to a string is a non-empty decimal digit string without a leading zero |
| Strings.ParseNatToString | php/contact.php:129 | the decimal text of n reads back to n |
| Strings.PadNatParses | php/contact.php:266 | the zero-padded fields of date() read back to the number |
| Strings.PadNatWidth | php/contact.php:266 | a number below 10^w pads to exactly w digits |
| Strings.ValidUtf8Concat | php/contact.php:100 | well-formed UTF-8 texts concatenate to well-formed UTF-8 |
| Strings.AsciiIsValidUtf8 | php/contact.php:100 | ASCII text is well-formed UTF-8 |
| Sanitizer.EscapeChar | php/contact.php:100 | htmlspecialchars maps each of & " ' < > to its entity, leaves every other byte alone, and never emits a quote or bracket |
| Sanitizer.HtmlSpecialChars | php/contact.php:100 | the escaped text has no quote or angle bracket; on valid UTF-8, decoding its entities gives the input back, and otherwise it is empty |
| Sanitizer.EscapeAllConcat | php/contact.php:100 | escaping distributes over concatenation |
| Sanitizer.EscapeRoundTrip | php/contact.php:100 | decoding the five entities undoes the escaping, so no information is lost |
| Sanitizer.FilterSanitizeString | php/contact.php:101 | the filter on escaped text keeps it free of markup, never lengthens it and removes every NUL byte |
| Sanitizer.FilterPlain | php/contact.php:101 | text without NUL bytes passes the filter unchanged |
| Sanitizer.FilterDropsNul | php/contact.php:101 | a NUL byte is dropped and not replaced: the filter gives the same text as when it was never there |
| Sanitizer.FilterKeepsUtf8 | php/contact.php:101 | the filter keeps well-formed UTF-8 well-formed |
| Sanitizer.EscapeKeepsUtf8 | php/contact.php:100 | escaping keeps well-formed UTF-8 well-formed |
| Sanitizer.SanitizedHasNoMarkup | php/contact.php:97-102 | a sanitized value has no quote, no angle bracket and no NUL byte |
| Sanitizer.SanitizedIsValidUtf8 | php/contact.php:97-102 | every sanitized value is well-formed UTF-8, whatever the request held |
| Sanitizer.SanitizedIsTrimmed | php/contact.php:97-102 | a sanitized value neither starts nor ends with trim()'s whitespace |
| Sanitizer.SanitizeInput | php/contact.php:93-107 | the loop builds exactly the sanitized copy: same keys, every value trimmed, escaped and filtered |
| Validator.ValidateInput | php/contact.php:112-150 | valid is true exactly when no rule fires; the message is "Valid" or every violation's text joined by single spaces, in the order of the checks |
| Validator.MissingFieldsExactly | php/contact.php:116-120 | a "required" violation is reported for a field exactly when it is required and empty (missing, "" or "0") |
| Validator.ValidIffNoRuleFires | php/contact.php:113-149 | the input is valid exactly when no field is missing and none of the email, length, name and phone rules fires |
| Validator.RuleReportedIffFires | php/contact.php:123-144 | each format rule's violation is reported exactly when the rule fires, and the format rules never fire on an empty field |
| Validator.ViolationsInCheckOrder | php/contact.php:113-144 | violations come out in check order: required fields, then email, length, first name, last name, phone; within the required block, MissingFieldsConcat and SiteMissingOrder fix the order |
| Validator.MissingFieldsConcat | php/contact.php:116-120 | the required check of a list split in two gives the first part's violations, then the second's, so the configured order is kept |
| Validator.RequiredMessagesFive | php/contact.php:116-148 | for five required fields the messages are one per empty field, in the listed order |
| Validator.SiteMissingOrder | php/contact.php:116-148 | under the site configuration the messages read "First name is required.", "Last name …", "Email …", "Subject …", "Message …", each exactly when its field is empty, in that order |
| Validator.MissingFieldInMessage | php/contact.php:116-148 | an empty required field makes the input invalid and its "<Field name> is required." text appears in the message |
| Validator.SiteRequiredMessages | php/contact.php:35-118 | the five required fields are announced as "First name", "Last name", "Email", "Subject" and "Message" |
| Validator.SiteTooLongMessage | php/contact.php:128-130 | the length violation reads "Message is too long. Maximum 2000 characters allowed." |
| Validator.SiteLengthBoundary | php/contact.php:128-130 | a message of at most 2000 bytes has no length violation; a longer one has it |
| SpamFilter.KeywordHit | php/contact.php:159-163 | the loop with early return succeeds exactly when some listed keyword is a substring of the text |
| SpamFilter.LinkMatchesAreLinkStarts | php/contact.php:166 | preg_match_all's count of non-overlapping /http[s]?:\/\// matches equals the number of offsets where a link starts |
| SpamFilter.DigitScanIsRegex | php/contact.php:171 | the left-to-right scan succeeds exactly when ten consecutive digits occur, which is what /[0-9]{10,}/ matches |
| SpamFilter.DigitRunNeedsLength | php/contact.php:171 | a successful digit scan needs at least ten bytes |
| SpamFilter.SpamIsKeywordOrLinks | php/contact.php:155-176 | detectSpam is exactly "a keyword occurs in lowercase(message . ' ' . first . ' ' . last), or more than two links start in the message"; the short-message rule never fires |
| SpamFilter.KeywordInSomeField | php/contact.php:157-163 | since no keyword has a space, a keyword hit is a keyword in one of the three lower-cased fields |
| SpamFilter.KeywordInMessageIsSpam | php/contact.php:156-163 | a keyword in the message, in any letter case, makes the submission spam whatever the other fields hold |
| SpamFilter.NotSpamIff | php/contact.php:155-176 | a submission is not spam exactly when no keyword occurs, in any letter case, in message, first name or last name, and at most two links start in the message |
| SpamFilter.LinkRuleThreshold | php/contact.php:166-168 | more than two links make the submission spam; with no keyword, two or fewer do not |
| RateLimiter.CallerEntry | php/contact.php:314-321 | the caller's entry becomes {old count + 1, old first_request} within the window, and {1, now} for an unseen address or a passed window |
| RateLimiter.CheckRateLimit | php/contact.php:302-334 | the caller's entry is updated and kept, allowed is count <= 5, every remaining entry is in its window, other live entries are unchanged, and no new address appears |
| RateLimiter.CallsInWindow | php/contact.php:314-333 | within one window each call adds one to the count, and a call is allowed while the count is at most five |
| RateLimiter.SixthCallRefused | php/contact.php:302-334 | from an address with no live entry, the first five calls within an hour are allowed and the sixth and later are refused |
| RateLimiter.ExpiredEntryResets | php/contact.php:317-318 | a stale entry is replaced by a new window with count one, and the call is allowed |
| SubmissionStore.LocalStampRoundTrip | php/contact.php:181-191 | processSubmission's date('Y-m-d H:i:s') timestamp, for a four-digit year, is 19 bytes: date('Y-m-d'), a space, then date('H:i:s') |
| SubmissionStore.DayStampRoundTrip | php/contact.php:184 | date('Y-m-d') is ten bytes, and year, month and day read back |
| SubmissionStore.ClockStampRoundTrip | php/contact.php:292 | the time of day is eight bytes, and hour, minute and second read back |
| SubmissionStore.MonthlyLogName | php/contact.php:266 | the log file name is the storage directory, "submissions_", date('Y-m') and ".json", in that order |
| SubmissionStore.BackupName | php/contact.php:292 | the backup file name is the storage directory, "backup_", date('Y-m-d_H-i-s'), "_", the record's id and ".json", in that order |
| SubmissionStore.BackupIsNotLog | php/contact.php:266-292 | a backup never overwrites a monthly log |
| SubmissionStore.MonthlyLogNameInjective | php/contact.php:266 | two clock readings share a log file exactly when they fall in the same year and month |
| SubmissionStore.StoreSubmission | php/contact.php:265-297 | stored holds exactly when the disk took the write and every record encodes, and then the log is the previous records followed by exactly the new one; the backup file changes only when stored holds, and then, if the disk takes it, holds the record alone; a refused write changes nothing, and no file but the log and the backup changes |
| SubmissionStore.AppendEncodable | php/contact.php:285-288 | the appended list encodes exactly when the old list and the new record do |
| SubmissionStore.StoredIffEncodable | php/contact.php:285-296 | the corrected flag is the disk's acceptance together with encodability of old and new records |
| SubmissionStore.OtherMonthsUntouched | php/contact.php:266-288 | a store never changes the log of another month |
| SubmissionStore.StoredFlagAsWrittenReportsLostRecord | php/contact.php:288-296 | with a user agent that is not UTF-8, the source reports stored while the log has been emptied |
| SubmissionStore.StoredFlagAsWrittenIffDiskOk | php/contact.php:288-296 | the source's `$saved !== false` is true exactly when the log write was not refused, whether or not json_encode succeeded |
| SubmissionStore.StoredMeansAppended | php/contact.php:278-296 | the corrected flag is true exactly when the log holds its old records followed by the new one |
| ContactHandler.HandleRequest | php/contact.php:17-88 | the method's answer and new files are those of the handler's specification function, whose properties are the two lemmas below; the stored flag in a success is the corrected one |
| ContactHandler.RefusalsLeaveFilesAlone | php/contact.php:17-88 | non-POST gives 405 "Method not allowed"; a violation gives 400 with the validation message; spam gives 400 "Spam detected"; a refusal changes no file; a success carries the thank-you text, processSubmission's id and mail()'s result |
| ContactHandler.AcceptedIffValidAndClean | php/contact.php:17-65 | a request is answered with success exactly when it is a POST whose sanitized body breaks no validation rule and is not spam |
| ContactHandler.SanitizedSubmissionIsStored | php/contact.php:285-296 | sanitized values always encode, so with well-formed names, headers and log, a write the disk accepts keeps the record |

## Left out

- js/script.js is not part of this model. It is browser DOM wiring with timers and a fetch call, and holds no server-side state.
- sendEmailNotification and sendAutoReply are not modelled. They compose text and call mail(), which is foreign I/O. The handler takes mail()'s result as a parameter.
- The response headers, http_response_code, echo, error_log and the mkdir of the storage directory are left out. They are I/O. The response is a datatype carrying the status code.
- The time(), date() and uniqid() calls are clock and randomness. They are parameters. The calls inside one storeSubmission are taken to read one instant.
- The `$_SERVER` variables are parameters.
- json_encode and json_decode are left out. Files are represented by their decoded contents. json_encode failure is modelled as "some string in the records is not valid UTF-8", its cause for this data. The writes of the rate-limit file and of the backup are not checked for encoding beyond that.
- The disk's behaviour for storeSubmission's two writes is reduced to one boolean per write. A refused write leaves the file unchanged; partial writes are not modelled.
- Only string field values are modelled. Array-valued POST fields, which sanitizeInput passes through unchanged, are not. Nor are PHP's conversion of numeric keys to integers and the key order of arrays.
- FILTER_VALIDATE_EMAIL is a library routine whose internals are not part of this model. It is the `isEmail` parameter.
- FILTER_SANITIZE_STRING is modelled only on the text htmlspecialchars has already escaped. On such text it only drops NUL bytes.
- Concurrent requests racing on the log and rate-limit files are not modelled, since the model is sequential.
- RateLimiter.CheckRateLimit: counts are unbounded integers, so PHP's overflow of an integer to a float is not modelled. The write of contacts/rate_limit.json (php/contact.php:331) is taken to succeed, and `next` is the file afterwards. The source ignores that write's result, so a refused write forgets the call; RateLimiter.CallsInWindow and RateLimiter.SixthCallRefused hold only when every such write lands.
- SubmissionStore.StoreSubmission: the result is the corrected flag (see Findings). The source's `$saved !== false` is kept as SubmissionStore.StoredFlagAsWritten.
- ContactHandler.HandleRequest: the `stored` field of a success is the corrected flag. The source answers `stored: true` where the model answers false: a request whose log write produced no bytes, such as one with the User-Agent byte 0xFF (see Findings).
- SubmissionStore.Previous: a truthy decoded value that is not a list of records is not modelled faithfully. The source appends to a decoded object, such as a backup record found at the log's path; the model starts from the empty list there. The source fails with an uncaught Error on a truthy scalar such as `5` or `"x"`, which has no representation here. Only a corrupt log file reaches these cases.

## Findings

| source | as written | input that shows it | evidently intended | confidence | as-written member | corrected member |
|---|---|---|---|---|---|---|
| php/contact.php:288-296 | `return $saved !== false;` is true when file_put_contents wrote 0 bytes, which happens when json_encode fails and returns false. The log is then replaced by an empty file, every earlier record of the month is lost, and no backup is written, yet the response says the submission was stored. | a valid POST whose User-Agent header is the single byte 0xFF; the header is not sanitized and is not valid UTF-8 | report stored only when the record reached the log, i.e. when bytes were written | not executed | SubmissionStore.StoredFlagAsWrittenReportsLostRecord | SubmissionStore.StoreSubmission |
