# QuickFileProcessor handlers in Dafny

This project models the two AWS Lambda handlers of QuickFileProcessor and proves properties about them.

- **Upload handler** (`src/fileProcessorLambda.ts`). It takes an API Gateway request that carries a base64 file and a Content-Type header. It checks the request, then maps the content type to an extension (`application/pdf` → `.pdf`, `image/jpeg` → `.jpg`, `image/png` → `.png`). That extension must also be on the allow-list `.pdf`, `.jpg`, `.png`. The handler builds the key `<Date.now()>_<token><extension>`. It then awaits three calls in order: it stores the file in S3, indexes a metadata item in DynamoDB and announces the upload on SNS. It answers 200 with the key, 400 for a bad request, or 500 if any of the three calls fails.
- **Retention sweeper** (`src/cleanupLambda.ts`). It lists the bucket once. It selects the objects whose LastModified is strictly before `now − 1 800 000` ms and deletes their keys in one batch. If nothing is selected, no delete request is sent. A failure of either call is rethrown.

Layout:

- `wrappers.dfy` holds `Option`, which stands for a JavaScript value that may be `undefined`.
- `text.dfy` holds the decimal rendering of integers in template strings and the string predicates `EndsWith` and `IsInfix`.
- `aws.dfy` holds the collaborators. Each SDK call is a `Call` value. A `Cloud` object records every call in a ghost `trace`. A call fails exactly when its `Operation` is in the `failing` set of the `Cloud`. The `Cloud` also holds the `Contents` that the bucket listing returns.
- `file_processor.dfy` holds the upload handler. `Upload` is a pure function that gives the response and the calls of one invocation. `Handle` is the handler written as a method with early returns. Its contract says that it answers what `Upload` answers and appends the calls that `Upload` lists to the trace.
- `cleanup.dfy` holds the sweeper in the same shape: `SweepAt` is the pure function and `Run` is the method.

The handlers read some values from the Node runtime. These are passed in as parameters:

- the bytes that `Buffer.from(body, "base64")` yields;
- `Date.now()`;
- the random token;
- the ISO date read after the S3 upload;
- for the sweeper, its own `Date.now()`.

Behaviour of the code that the model keeps as written:

- An object exactly 30 minutes old is kept, because the code compares with a strict `<`.
- Only the first listing page is considered, and at most one delete request is sent.
- A failed SNS publish answers 500, although the file is already stored and indexed.
- The allow-list and the content-type map are constants. `ResolveExtension` takes the allow-list as a parameter, so that the lemma `AllowListStillApplies` can show that the allow-list check matters.
- There is no reactive (S3-event) handler. `S3Event` is imported but no handler implements it.

## Model

| member | source | states |
|---|---|---|
| `FileProcessor.ContentTypeOf` | src/fileProcessorLambda.ts:35 | A non-empty `content-type` header wins. Otherwise a non-empty `Content-Type` header is used. The result is missing exactly when neither header is present and non-empty. |
| `FileProcessor.ResolveExtension` | src/fileProcessorLambda.ts:44-52 | For any allow-list, a type is accepted if and only if it is a key of the three-entry map and its mapped extension is on the allow-list. The result is then that mapped extension. |
| `FileProcessor.SupportedContentTypes` | src/fileProcessorLambda.ts:44-57 | With the source's allow-list, a type is accepted if and only if it is exactly `application/pdf`, `image/jpeg` or `image/png`. These give `.pdf`, `.jpg` and `.png`. |
| `FileProcessor.AllowListStillApplies` | src/fileProcessorLambda.ts:49-57 | A mapped type whose extension is missing from the allow-list is still rejected. |
| `FileProcessor.FileKey` | src/fileProcessorLambda.ts:60 | Whatever the token, the key ends with the extension. The key starts with the decimal timestamp, which reads back as exactly `Date.now()`. |
| `FileProcessor.FileKeyInjective` | src/fileProcessorLambda.ts:60 | For one extension, equal keys come from equal timestamps and equal tokens, so two uploads get the same key only when both the time and the token match. |
| `FileProcessor.MessageMentionsItem` | src/fileProcessorLambda.ts:92 | The SNS message contains `Key: <key>`, `Extension: <ext>`, `Size: <size> bytes` and `Upload Date: <date>`, each taken from the indexed item. |
| `FileProcessor.Validate` | src/fileProcessorLambda.ts:24-57 | A request is accepted if and only if it has a non-empty body, is flagged base64, has a usable Content-Type and that type is mapped. An accepted request carries the mapped, allowed extension. A rejection is a 400 without a fileKey. |
| `FileProcessor.Attempted` | src/fileProcessorLambda.ts:71-98 | Each call is awaited in turn, and the first failure stops the rest. Either every call is made and all succeed, or the calls made end at the first failing one and all calls before it succeeded. |
| `FileProcessor.Upload` | src/fileProcessorLambda.ts:18-112 | The status is 200, 400 or 500. It is 400 exactly when validation rejects, and then no call is made. Otherwise the calls are a non-empty prefix of store, index, announce. The status is 200 exactly when all three were made and succeeded. A 500 ends at a failed call. A fileKey is present exactly on 200. |
| `FileProcessor.Handle` | src/fileProcessorLambda.ts:18-112 | The handler appends exactly the calls of `Upload` to the trace, in order, and answers what `Upload` answers. |
| `FileProcessor.BadEncodingRejected` | src/fileProcessorLambda.ts:24-29 | A missing or empty body, or `isBase64Encoded` false, gives 400 "Invalid file or encoding. Ensure the file is sent as base64." with no calls. |
| `FileProcessor.MissingContentTypeRejected` | src/fileProcessorLambda.ts:35-41 | If both headers are absent or empty, the answer is 400 "Content-Type header is required." with no calls. |
| `FileProcessor.UnsupportedTypeRejected` | src/fileProcessorLambda.ts:49-57 | Any other type gives 400 "Unsupported file type: <type>" with no calls. |
| `FileProcessor.IndexedItemDescribesFile` | src/fileProcessorLambda.ts:60-89 | After a successful put of the decoded bytes under the key, the item is indexed. Its FileKey is that key, its extension is the mapped one, its size is the decoded length, its ContentType is the declared type and its date is the one read after the put. The key ends with the extension and records `Date.now()`. |
| `FileProcessor.SuccessfulUpload` | src/fileProcessorLambda.ts:71-104 | If all three calls succeed, exactly put, index and publish are made. The answer is 200 with the stored key. The message announces the indexed item, including `Size: <size> bytes`. |
| `FileProcessor.FailureStopsPipeline` | src/fileProcessorLambda.ts:71-111 | If the put fails, one call is made. If the index fails, two are made. If the publish fails, three are made. Each case answers 500 "Failed to upload file". No call deletes anything, so nothing is rolled back. |
| `FileProcessor.PngScenario` | src/fileProcessorLambda.ts:44-104 | A 1024-byte PNG gets 200 and a key ending `.png`. The item has extension `.png` and size 1024, and the message contains "1024 bytes". |
| `FileProcessor.PlainTextScenario` | src/fileProcessorLambda.ts:52-57 | `text/plain` gives 400 "Unsupported file type: text/plain" and no calls. |
| `Aws.Cloud.Send` | src/fileProcessorLambda.ts:71-98 | An awaited SDK request is recorded in the trace whether or not it succeeds. It fails exactly when its operation is failing. |
| `Aws.Cloud.List` | src/cleanupLambda.ts:11-13 | One list request for the configured bucket is recorded. When it succeeds it yields the listing's Contents. |
| `Cleanup.ExpiredKeys` | src/cleanupLambda.ts:20-22 | Every listed object with a LastModified strictly before the cutoff has its key in the batch. Every key in the batch belongs to such an object. The batch is no longer than the listing. |
| `Cleanup.ExpiredKeysInListingOrder` | src/cleanupLambda.ts:20-22 | The batch is a subsequence of the listing's keys, in listing order. |
| `Cleanup.FreshObjectsUntouched` | src/cleanupLambda.ts:20-30 | When listing keys are unique, a key of an object that is not expired is never in the batch. |
| `Cleanup.ThirtyMinuteBoundary` | src/cleanupLambda.ts:7-21 | The cutoff is `now − 30·60·1000` ms. An object exactly 30 minutes old is kept, and one a millisecond older is selected. An object without LastModified is never selected. |
| `Cleanup.ExpiredIsMonotone` | src/cleanupLambda.ts:7-21 | An object selected at `now` is also selected at any later instant. |
| `Cleanup.SelectionGrowsWithTime` | src/cleanupLambda.ts:20-22 | Over the same listing, the batch at `now` is a subsequence of the batch at any later instant. |
| `Cleanup.NothingExpiredNoKeys` | src/cleanupLambda.ts:20-24 | A listing with no selected object gives an empty batch, so no delete request is sent. |
| `Cleanup.SecondSweepIsNoop` | src/cleanupLambda.ts:20-22 | A second sweep at the same instant, over the listing without the deleted keys, selects nothing. |
| `Cleanup.DeletedKeysNotDeletedAgain` | src/cleanupLambda.ts:20-22 | A second sweep at any instant, over the listing without the deleted keys, names none of them. |
| `Cleanup.SweepAt` | src/cleanupLambda.ts:6-39 | A run makes one list request and then at most one delete request. The delete is made exactly when the list succeeded and the selection is non-empty, and it names exactly the selected keys. The run rethrows the failure of the list or the delete, and otherwise returns normally. |
| `Cleanup.NothingListedNothingDeleted` | src/cleanupLambda.ts:15-18 | An absent or empty Contents ends the run after the list request alone. |
| `Cleanup.AgesScenario` | src/cleanupLambda.ts:7-30 | For objects 10, 35 and 40 minutes old, one batch deletes the 35- and 40-minute keys in listing order. Only the 10-minute object is left. |
| `Cleanup.Run` | src/cleanupLambda.ts:6-39 | The handler appends exactly the calls of `SweepAt` to the trace and ends with its outcome. |

## Left out

- Base64 decoding is left out: `Buffer.from(body, "base64")` is a lenient foreign decoder. Its output is an input of the model, so an accepted upload may have size 0.
- `Date.now()`, `Math.random().toString(36).substr(2, 9)` and `new Date().toISOString()` are inputs. The randomness and uniqueness of keys are not modelled.
- Clock values are non-negative millisecond counts. A negative clock or a value of 10^21 or more would print differently in a template string. Neither can occur in a real deployment.
- Logging (`console.log`, `console.error`) and the JSON encoding of response bodies are left out. A response is its status, its message and its optional fileKey.
- `event.headers` is taken to be present, as its declared type says. A null headers object would throw inside the try block and answer 500. This is not modelled.
- The content-type lookup is a plain JavaScript object. A name such as `toString` finds an inherited function rather than a string. That value is not on the allow-list, so the type is rejected exactly as an unmapped type is. The model treats such names as unmapped.
- The bucket, table and topic names come from environment variables. They are taken to be defined strings.
- `object.Key!` is taken to be present, as S3 always returns a key in a listing.
- Pagination (`IsTruncated`, continuation tokens) and the 1000-key limit of DeleteObjects are left out. Per-key `Errors` reported inside a successful DeleteObjects response are also left out. The code does none of these things, so the model does not either.
- What S3, DynamoDB and SNS do with a request is not modelled: only whether the request succeeds. Retries inside the SDK are not modelled either.
- Concurrency between sweeps and uploads is not modelled.
- The 30-minute lifecycle rule of the CDK stack and the synthesized-template tests are configuration, not handler logic.
