# Photo capture server: upload, retention and relay

A Dafny model of the server side of a small photo-capture web service (`server.js`).
The browser posts a JPEG as a data URI. The server then does the following:

- It strips the data-URI prefix.
- It decodes the base64 text.
- It stores the image as `foto_<milliseconds>.jpg` in the `Uploads` directory.
- It is meant to prune that directory to the ten `.jpg` names that sort last. As written, the first deletion throws, so an upload that leaves more than ten `.jpg` files ends in status 500 (Findings, first row).
- It forwards the image to the Telegram `sendPhoto` API, but only when the write and the pruning completed. This step retries up to three times and backs off when rate limited.
- It answers with a JSON status.

The gallery page lists the stored images under `/Uploads/`.

Modules:

- `Common`: `Option`, `Distinct`, `Elems`, and `Build`. `Build` picks between the code as written and its corrected reading, wherever the two differ (see Findings).
- `Order`: the order that `Array.prototype.sort()` puts names in, character by character. It also holds the insertion sort that models `.sort()`, and the proof that a set of names has exactly one ascending listing. So the pruning result does not depend on the order `readdirSync` returns entries in.
- `Names`: the pure helpers:
  - the data-URI prefix strip;
  - the decimal rendering of the timestamp and the file name built from it;
  - the `.jpg` filter;
  - the gallery's URL paths.
- `Telegram`: the retry loop of `sendToTelegram` as a method (`SendToTelegram`) over a script of per-attempt replies. The method is proved equal to a functional description (`Relay`). It records the attempts made and the back-off delays requested, and does not sleep. `Settle` says whether the `await` in the handler returns or throws.
- `Uploads`: the image directory as a class whose `files` map the handler changes in place. It holds `ReadDir`, the pruning loop, and the `POST /upload` handler (`HandleUpload`). `HandleUpload` is proved equal to the step-by-step description `Upload`, and the lemmas about `Upload` state what the handler promises.

Outside inputs are parameters, gathered in `Uploads.Env`:

- the clock (`Date.now()`);
- the base64 decoder (`Buffer.from`, left uninterpreted);
- whether `writeFileSync` throws, and with what message;
- the reply each relay attempt would see.

Where the code and its intended design disagree, the model follows the code (`AsWritten`). It also proves the corrected behaviour (`Corrected`):

- Deleting an old image does not go through a swallowed error path. The unlink at line 132 would propagate any failure to the handler's `catch`, which answers 500. As written, the unlink expression itself throws (Findings, first row).
- After three exhausted attempts the relay does not always fail. When the third reply is a 429, the loop ends without throwing and the upload is reported as a success (Findings, second row).
- After the third 429 the code still waits 3000 ms, although no attempt follows. `Relay` records that delay.
- Sorting the names sorts them by capture time only while the timestamps have the same number of digits (`NameOrderFollowsTime`, `NameOrderAcrossDigitCounts`). Every timestamp from September 2001 to November 2286 has 13 digits.

## Model

| member | source | states |
|---|---|---|
| `Names.StripPrefix` | server.js:120 | if the payload starts with `data:image/jpeg;base64,`, the prefix followed by the result is the payload; any other payload is returned unchanged |
| `Names.StripPrefixInverse` | server.js:120 | stripping undoes prepending the prefix, and removes only one leading copy of it |
| `Names.Decimal` | server.js:123 | the timestamp prints as at least one decimal digit, with no leading zero except for 0, and as one digit exactly below 10 |
| `Names.DecimalRoundTrip` | server.js:123 | reading the printed digits back gives the timestamp |
| `Names.DigitsOrder` | server.js:129 | for digit strings of equal length, the sort order is the numeric order |
| `Names.FileName` | server.js:123 | the stored name starts with `foto_`, ends with `.jpg` (so the pruning and gallery filters see it) and carries the decimal timestamp between them |
| `Names.IsJpg` | server.js:129 | no ensures; `FileName` (stored names pass it), `FilterJpg` and `GalleryPathsAreJpgs` state what it admits: the names ending in `.jpg` |
| `Names.FileNameInjective` | server.js:123 | distinct timestamps give distinct file names |
| `Names.NameOrderFollowsTime` | server.js:123-129 | for timestamps with equally many digits, one name sorts before another exactly when its timestamp is smaller |
| `Names.NameOrderAcrossDigitCounts` | server.js:123-129 | the name for 1000 ms sorts before the name for 999 ms, so the name order and the time order part when the digit count changes |
| `Names.FilterJpg` | server.js:129 | keeps exactly the names ending in `.jpg`, and keeps a duplicate-free listing duplicate-free |
| `Names.FilterJpgAppend` | server.js:184 | filtering keeps the listing's order: the filter of two consecutive parts is the filter of the first followed by the filter of the second |
| `Names.GalleryPathsAreJpgs` | server.js:184 | the gallery has one path per `.jpg` entry, each being `/Uploads/` followed by the name |
| `Names.GalleryPaths` | server.js:184 | no ensures; `GalleryPathsAreJpgs` and `GalleryShowsEveryImage` state its properties |
| `Order.SortNames` | server.js:129 | the sorted listing is a permutation of the listing |
| `Order.Below` | server.js:129 | no ensures; `BelowIrreflexive`, `BelowAsymmetric`, `BelowTransitive` and `BelowTotal` make it a strict total order, `DigitsOrder` ties it to numeric order on digit strings |
| `Order.SortNamesSorted` | server.js:129 | the sorted listing of distinct names is strictly ascending |
| `Order.SortedUnique` | server.js:129 | two ascending listings of the same names are equal |
| `Order.SortListingIsAscending` | server.js:129 | sorting any duplicate-free listing of a set of names gives the same sequence, whatever order the listing came in |
| `Telegram.AttemptsFrom` | server.js:150-171 | the loop makes at most 3 requests, none of the earlier ones got an ok reply, and stopping early means the last one did |
| `Telegram.Relay` | server.js:146-180 | at most 3 attempts, stopping at the first ok reply; the call returns with `ok` exactly when the last reply was ok; it rethrows exactly when the third reply was a failure other than 429; it runs past the loop exactly when the third reply was a 429; the requested delays are those `Backoff` gives for the attempts made |
| `Telegram.SendToTelegram` | server.js:146-180 | the loop's attempts, requested delays and exit are those `Relay` describes |
| `Telegram.BackoffIncreasing` | server.js:163-166 | the requested delays strictly increase, and none is below 1000 ms times the first attempt number |
| `Telegram.BackoffOnlyForRateLimits` | server.js:161-168 | every requested delay is 1000 ms times the number of an attempt whose reply carried error code 429, so other failures request none |
| `Telegram.BackoffForEveryRateLimit` | server.js:163-165 | a 429 on attempt k requests a delay of exactly 1000·k ms |
| `Telegram.Backoff` | server.js:161-166 | no ensures; `BackoffIncreasing`, `BackoffOnlyForRateLimits` and `BackoffForEveryRateLimit` state its properties, and `Relay` ties it to the delays requested |
| `Telegram.SettleAsWritten` | server.js:172-180 | as written, the relay resolves exactly when some attempt got an ok reply, or when the first two were not ok and the third was a 429 |
| `Telegram.SettleCorrected` | server.js:172-180 | corrected, the relay resolves exactly when some attempt got an ok reply; otherwise it rejects with the third reply's message (the 429 `description` included) |
| `Telegram.ThriceRateLimitedResolves` | server.js:163-180 | three 429 replies give three requests, delays of 1000, 2000 and 3000 ms and, as written, a relay that resolves |
| `Telegram.RateLimitedTwiceThenOk` | server.js:150-171 | 429, 429 and then ok give three requests with delays of 1000 and 2000 ms and a normal return |
| `Telegram.Settle` | server.js:172-180 | no ensures; `SettleAsWritten` and `SettleCorrected` state when the `await` at line 137 returns and with what message it throws |
| `Telegram.LastFailureRethrown` | server.js:168-177 | when no reply is ok and the third is a transport error or a non-429 refusal, all three attempts are made and the third attempt's message reaches the caller |
| `Uploads.SelectionLeavesSuffix` | server.js:130-131 | on an ascending listing, the names not selected for deletion are exactly the last ones |
| `Uploads.SelectionKeepsNewest` | server.js:130-131 | on an ascending listing, nothing is selected while there are at most 10 names; otherwise 10 are left, and every selected name sorts before every name left |
| `Uploads.ToDelete` | server.js:130-131 | the selection is a prefix of the sorted names that leaves min(count, 10) of them; `SelectionKeepsNewest` states which those are |
| `Uploads.DoomedEmpty` | server.js:129-131 | pruning selects nothing exactly when the directory holds at most 10 `.jpg` files |
| `Uploads.DoomedAreOldest` | server.js:129-131 | pruning selects only `.jpg` names, leaves min(count, 10) of them, and selects only names that sort before every name it leaves |
| `Uploads.ListingSelectsDoomed` | server.js:129-131 | whatever order the directory is listed in, pruning selects the same names |
| `Uploads.GreatestNotDoomed` | server.js:129-131 | the `.jpg` name that sorts last is never selected |
| `Uploads.Directory.Write` | server.js:126 | the write creates or overwrites exactly one entry |
| `Uploads.Directory.ReadDir` | server.js:129 | the listing holds every entry of the directory once, and nothing else |
| `Uploads.Directory.RemoveEach` | server.js:131-134 | as written, the loop throws the `ReferenceError` as soon as there is a name to delete and removes nothing; corrected, it removes exactly the given names |
| `Uploads.Directory.Prune` | server.js:129-135 | as written, it throws when there are more than 10 `.jpg` files and leaves the directory unchanged; corrected, it removes exactly the selected names and never fails |
| `Uploads.HandleUpload` | server.js:116-144 | the response, the directory afterwards and the relay run are those that `Upload` describes |
| `Uploads.Upload` | server.js:116-144 | no ensures; `StatusMapping`, `SuccessIffEveryStepCompletes`, `AsWrittenPruneThrows`, `CorrectedKeepsNewestTen` and the other lemmas below state its properties |
| `Uploads.StatusMapping` | server.js:116-144 | status 400 exactly for a missing or empty payload, with nothing written, pruned or relayed; status 200 exactly on success; otherwise 500 |
| `Uploads.IsMissing` | server.js:119 | no ensures; `StatusMapping` states that exactly these payloads get status 400 |
| `Uploads.SuccessIffEveryStepCompletes` | server.js:126-142 | success exactly when the write succeeded, pruning did not throw and the relay resolved; the message then names the stored file; the relay is called exactly when the write and the pruning completed |
| `Uploads.AsWrittenPruneThrows` | server.js:129-142 | as written, a write that leaves more than 10 `.jpg` files ends in status 500 with the `ReferenceError` message; nothing is deleted and nothing is relayed |
| `Uploads.AsWrittenNeverRecovers` | server.js:126-142 | as written, once 10 `.jpg` files are stored, every upload under a new name adds a file, gets status 500 and is not relayed |
| `Uploads.AsWrittenKeepsStoredFile` | server.js:126-142 | as written, whatever happens after the write, the directory is the written one: the new file persists and there is no rollback |
| `Uploads.RemoveJpgs` | server.js:131-132 | removing `.jpg` names removes them from the `.jpg` names and touches no other entry or file contents |
| `Uploads.CorrectedPrunes` | server.js:126-135 | corrected, the directory after an accepted upload is the written one less the names pruning selects |
| `Uploads.CorrectedKeepsNewestTen` | server.js:128-135 | corrected, min(count, 10) `.jpg` files remain, every removed name sorts before every kept one, other files stay, and no contents change |
| `Uploads.CorrectedKeepsNewUpload` | server.js:123-135 | corrected, an upload whose name sorts after every other stored image survives pruning, whatever the relay does |
| `Uploads.GalleryShowsEveryImage` | server.js:184 | the gallery shows exactly as many images as the directory holds `.jpg` files, and each of them |

## Left out

- The capture page, its browser script and the gallery's HTML rendering (server.js:28-114 and 186-207). They are user interface; only the gallery's path mapping is modelled.
- Express routing, JSON body parsing, static serving, the listening port, `process.env` credentials and logging. They carry no logic of the server's own.
- Creating the `Uploads` directory at startup (server.js:11-23). The model starts from whatever directory contents it is given.
- Base64 decoding (`Buffer.from(..., 'base64')`). It is the uninterpreted `decode` parameter, so there is no decode/encode round trip in the model.
- The network: `fetch`, the multipart `FormData`, the 30 s timeout and the real sleep. Each attempt's reply is an input, and delays are recorded instead of waited. The model does not capture that the same `FormData` body is re-sent on every attempt.
- Failures of `readdirSync` and `unlinkSync`. In the model, listing and removal cannot fail.
- Concurrent requests and their interleaving. Two uploads in the same millisecond get the same name, and the second write overwrites the first (`Directory.Write`).
- The character order: JavaScript sorts by UTF-16 code units, and the model by Unicode scalar values. The two agree except for names that mix characters above U+FFFF with characters from U+E000 to U+FFFF.
- `Date.now()` is taken as a non-negative whole number of milliseconds.
- A truthy `photoData` that is not a string is assumed to have no `replace` method, so it fails with 500.

## Findings

| source | as written | input that shows it | evidently intended | confidence | as-written member | corrected member |
|---|---|---|---|---|---|---|
| server.js:132 | the unlink path is built from `UploadsDir`, which is never declared; the declared name is `uploadsDir` (line 12). The first deletion throws a `ReferenceError`, the request gets 500 and the relay is skipped | any accepted upload after which the directory holds 11 `.jpg` files | delete the oldest files so that the 10 newest remain, then relay | high; not executed | `Uploads.AsWrittenPruneThrows` | `Uploads.CorrectedKeepsNewestTen` |
| server.js:163-180 | a 429 on the third attempt waits and then `continue`s out of the loop; the function returns normally and the upload reports success | three replies with `error_code` 429 | fail after the last attempt with the third reply's description, as a non-429 failure on the third attempt does | medium; not executed | `Telegram.ThriceRateLimitedResolves` | `Telegram.SettleCorrected` |
