# Distributed image storage — a Dafny model of its core

The system is an Express/TypeORM back end.
- It receives uploaded images and checks them with one of three upload filters. They are multer configurations: the current one, an older compiled one, and an upload middleware.
- It chooses the bucket with the most free space from a ledger of buckets.
- It checks and debits that bucket's free space (in MB), stores an image row, and has the image classified by a vision service.
- It stores one label row per classifier result, uploads the file to an object store, and records the public URL.
- It also lists image rows page by page and deletes stored objects.
- On top of this sit the HTTP controllers. They map outcomes to status codes and JSON bodies. There are also the CORS origin predicates and the central error handler.

The model has one Dafny module per core source file, plus a few shared modules:
- `Common`: Option, Result, Outcome, Verdict.
- `Text`: prefix, suffix and substring tests, ASCII lower-casing, Node's `path.basename`/`path.extname`, split and join.
- `JsNumber`: JavaScript `parseInt` and decimal rendering.
- `Regex`: a small regular-expression syntax with a matching semantics. Each regex literal of the source is written in it and proved equal to the direct predicate the model uses.
- `Store`: the three tables as a `Database` class whose insert and save methods update them in place.
- `LocalDisk`: the temporary upload directory as a map from path to size.
- `Http`: JSON values and a `Response` object that records every status/body write.
- `Multer`: the order in which multer applies the file filter and the size limit.
- `JsonBody`: the JSON bodies of the replies, with decoders proved to read them back.

The remote services are parameters of the operations, as functions from arguments to `Outcome`/`Result`. These are the vision classifier and the object store (upload, delete, bucket creation). This makes it visible which bucket is asked for which object. Clock and random values are `nat` parameters. Configuration read from the environment is passed in:
- the minimum confidence;
- whether temporary files are kept;
- `NODE_ENV`.

## Model

| member | source | states |
|---|---|---|
| BucketService.MostAvailableIndex | src/services/bucket_service.ts:11-14 | the chosen index holds a storage at least that of every bucket, and no earlier bucket has as much (ties go to the first) |
| BucketService.MostAvailable | src/services/bucket_service.ts:10-15 | none exactly when the ledger is empty; otherwise a ledger bucket whose storage is at least every other bucket's |
| BucketService.MostAvailableAt | src/services/bucket_service.ts:10-15 | the selected bucket is the one at the index `MostAvailableIndex` names |
| BucketService.CreateNewBucket | src/services/bucket_service.ts:18-46 | a failed remote creation inserts nothing and fails with the remote message; a successful one appends exactly one bucket with this name and storage 100 and returns it; other tables are unchanged |
| BucketService.CreatedBucketIsSelected | src/services/bucket_service.ts:28-32 | a ledger holding only a newly created bucket selects it, with 100 MB free |
| BucketService.SelectsLargest | src/services/bucket_service.ts:11-14 | of buckets with 50 and 10 MB free, the one with 50 is selected |
| StorageService.DestinationName | src/services/storage_service.ts:18 | a non-empty destination name is used as given; a missing or empty one becomes the basename of the file path |
| StorageService.PublicUrlRoundTrip | src/services/storage_service.ts:32 | the public URL splits back into the bucket name and the destination name (bucket names have no '/') |
| StorageService.UploadImage | src/services/storage_service.ts:9-37 | no bucket fails with the prefixed no-bucket message; otherwise the most-available bucket is asked; a remote failure is rethrown with "Error al subir imagen: " and keeps the file; a success removes the local file and returns the destination name and its public URL |
| StorageService.DeleteImage | src/services/storage_service.ts:40-54 | an empty ledger fails with the prefixed no-bucket message; every failure starts with "Error al eliminar imagen: " |
| StorageService.DeleteTargetsMostAvailable | src/services/storage_service.ts:42-49 | the delete succeeds exactly when the most-available bucket holds the object, whichever bucket the object is actually in; otherwise it fails with that bucket's "No such object" message |
| ImageService.SizeInMB | src/services/image_service.ts:37-39 | the size in MB is non-negative and times 1024*1024 gives back the byte count |
| ImageService.ProcessAndSaveImage | src/services/image_service.ts:28-98 | success exactly when every stage passes; no bucket, a missing file and too little space (strictly less; equality passes) fail with their messages and change nothing; otherwise one image row with an empty URL and the chosen bucket's id is added; classifier failure cleans up, stores no labels and leaves the buckets unchanged; then one label row per result; upload failure leaves the buckets unchanged; success records the public URL, debits exactly the chosen bucket by the size in MB and removes the temporary file |
| ImageService.ProcessAccepted | src/services/image_service.ts:51-95 | the steps after the capacity check, with the same per-outcome state as above |
| ImageService.SaveAndUpload | src/services/image_service.ts:69-91 | labels are stored, then upload failure leaves images and buckets unchanged, and success updates the last image's URL and debits the chosen bucket |
| ImageService.UploadAndRecord | src/services/image_service.ts:83-91 | the bucket is written back, debited, only after the upload and the URL update succeed; a failed upload leaves every table unchanged |
| ImageService.SaveLabels | src/services/image_service.ts:69-76 | exactly one label row per result, in result order, with consecutive ids, the image id and the raw score as confidence; nothing else changes |
| ImageService.StoredLabelsPassFilter | src/services/image_service.ts:69-76 | every stored label row belongs to the image, and either passed the confidence filter or is the single placeholder with confidence 0 |
| ImageService.NewestFirst | src/services/image_service.ts:111 | the listing order is the table in reverse, row by row |
| ImageService.NewestFirstDescending | src/services/image_service.ts:111 | in that order ids strictly decrease |
| ImageService.Skip | src/services/image_service.ts:105 | with a positive limit the offset is negative exactly when the page is below 1; a zero limit gives offset 0 |
| ImageService.ListImages | src/services/image_service.ts:101-116 | fails with the SQL error exactly when the limit is negative or a positive limit meets a page below 1; the total is the count of all rows; a zero limit lists every row |
| ImageService.PageWindow | src/services/image_service.ts:105-112 | a page holds the rows at positions [(page-1)*limit, (page-1)*limit+limit) of the newest-first order, as many as exist |
| ImageService.EveryRowOnOnePage | src/services/image_service.ts:105-112 | the row at position j appears as entry j % limit of page j / limit + 1 |
| ImageService.DefaultListing | src/services/image_service.ts:101 | with the defaults page 1 and limit 50 the listing is the 50 newest rows and the total |
| VisionService.ToLabel | src/services/vision_service.ts:48-52 | a missing or empty description becomes 'Desconocido', a present one is kept, the name is never empty, and a missing score gives raw score 0 and 'N/A' |
| VisionService.Survivors | src/services/vision_service.ts:46-52 | no more results than annotations; every result has a non-zero raw score of at least the minimum, a non-empty name and its score as confidence |
| VisionService.SurvivorsAppend | src/services/vision_service.ts:46-52 | filtering keeps input order: the results for a concatenation are the concatenated results |
| VisionService.SurvivorsSingle | src/services/vision_service.ts:47-51 | one annotation survives exactly when its score is present, non-zero and at least the minimum, and then with its score as raw score |
| VisionService.SurvivorsComplete | src/services/vision_service.ts:46-52 | every annotation that passes the filter is among the results |
| VisionService.Results | src/services/vision_service.ts:55-63 | the result list is never empty |
| VisionService.PlaceholderIffNoneKept | src/services/vision_service.ts:55-63 | the result is exactly the placeholder entry when no annotation passes the filter |
| VisionService.CleanupFile | src/services/vision_service.ts:16-30 | the temporary file is removed unless temporary files are kept |
| VisionService.DetectLabels | src/services/vision_service.ts:39-71 | a classifier answer gives its results and leaves the file; a failure removes the file unless kept and fails with "Error al analizar la imagen: " and the message |
| LegacyVisionService.Descriptions | build/services/vision_service.js:47 | one name per annotation in order, a missing description replaced by the fallback |
| LegacyVisionService.DetectLandmark | build/services/vision_service.js:26-40 | success exactly when there is at least one landmark, giving the first one's description or 'Desconocido'; every failure has the one fixed message |
| LegacyVisionService.DetectLabels | build/services/vision_service.js:43-57 | success exactly when there is at least one label, giving one name per label in order ('Etiqueta desconocida' for a missing one); every failure has the one fixed message |
| ImageController.ProcessReply | src/controllers/image_controller.ts:15-27 | status 200 exactly for a completed processing; a failure is 500 with its message |
| ImageController.ProcessImage | src/controllers/image_controller.ts:7-28 | no file answers 400 and touches neither database nor disk; otherwise exactly one reply, for the processing's result; success exactly when every stage passes; the early failures change nothing, and no failure changes the buckets |
| ImageController.QueryNumber | src/controllers/image_controller.ts:34-35 | a missing query gives the default, and a non-zero default never yields 0 |
| ImageController.QueryNumberReadsLeadingDigits | src/controllers/image_controller.ts:34-35 | a numeric prefix is read ("3abc" gives 3) |
| ImageController.QueryNumberKeepsNegative | src/controllers/image_controller.ts:34-35 | a negative number passes through unchanged |
| ImageController.QueryNumberZeroFallsBack | src/controllers/image_controller.ts:34-35 | "0" gives the default |
| ImageController.QueryNumberNaNFallsBack | src/controllers/image_controller.ts:34-35 | text that does not start a number gives the default |
| ImageController.ListReply | src/controllers/image_controller.ts:31-54 | status 200 exactly when the effective page is at least 1 and the limit positive; otherwise 500 with the SQL error |
| ImageController.ListImages | src/controllers/image_controller.ts:31-54 | exactly one reply is written, the list reply for the current rows |
| ImageController.DefaultListReply | src/controllers/image_controller.ts:34-46 | without query parameters the reply is 200 with the 50 newest rows, the total, page 1 and limit 50 |
| ImageController.NegativeQueryFails | src/controllers/image_controller.ts:34-37 | a negative page or limit is passed to the listing and answers 500 |
| ImageController.DeleteReply | src/controllers/image_controller.ts:57-73 | 400 exactly for an empty file name; for a non-empty one, 200 exactly when the service's delete passes, and a failed delete is 500 carrying the service's message; the status is always 200, 400 or 500 |
| ImageController.DeleteImage | src/controllers/image_controller.ts:57-73 | exactly one reply is written, the delete reply for the current ledger |
| ImageController.DeleteReplyAgainstStore | src/controllers/image_controller.ts:57-73 | with buckets and a name, 200 exactly when the most-available bucket holds the object, else 500 with a message containing "No such object" |
| ImageController.DeleteWithoutBuckets | src/controllers/image_controller.ts:65-71 | with no bucket the reply is 500 with the prefixed no-bucket message |
| StorageController.UploadReply | src/controllers/storage_controller.ts:34-51 | 201 exactly for a successful upload; a failure is 500 with a fixed message and the error as details |
| StorageController.UploadImage | src/controllers/storage_controller.ts:8-52 | no file answers 400; a MIME type outside the four exact values answers 400 before any upload; otherwise exactly one reply, success exactly when a bucket exists and the upload passes, with name and public URL from the upload |
| StorageController.FileNamePatternMeaning | src/controllers/storage_controller.ts:69 | the regex accepts exactly the non-empty names over [A-Za-z0-9_.-] |
| StorageController.ValidNameHasNoSlash | src/controllers/storage_controller.ts:69 | an accepted name contains no '/' |
| StorageController.DeleteReply | src/controllers/storage_controller.ts:55-108 | 400 exactly for an invalid name, the empty name with its own message; for a valid name, 200 exactly when the service's delete passes, a failure whose message contains "No such object" is 404, and any other failure is 500 with the message as details; the status is always 200, 400, 404 or 500 |
| StorageController.DeleteWithoutBuckets | src/controllers/storage_controller.ts:89-106 | with no bucket in the ledger a valid delete is 500 with the prefixed no-bucket message as details, not 404 |
| StorageController.DeleteImage | src/controllers/storage_controller.ts:55-108 | exactly one reply is written, the delete reply for the current ledger |
| StorageController.DeleteReplyAgainstStore | src/controllers/storage_controller.ts:78-106 | for a valid name and a non-empty ledger, 200 exactly when the most-available bucket holds the object, and otherwise 404 |
| BucketController.MostSpaceReply | src/controllers/bucket_controller.ts:7-30 | 404 exactly when the ledger is empty; otherwise 200 |
| BucketController.GetBucketWithMostSpace | src/controllers/bucket_controller.ts:7-30 | exactly one reply is written, the most-space reply for the current ledger |
| BucketController.MostSpaceReplyNamesLargest | src/controllers/bucket_controller.ts:18-21 | the 200 body carries the selected bucket, which has at least every bucket's storage |
| BucketController.CreatedReply | src/controllers/bucket_controller.ts:46-57 | 201 exactly for a created bucket; a failure is 500 with the message |
| BucketController.CreatedReplyReadsBack | src/controllers/bucket_controller.ts:46-50 | the 201 body's data decodes back to the created bucket |
| BucketController.CreateBucket | src/controllers/bucket_controller.ts:33-58 | the replies are those of the code as written (a missing name still goes on to create); a successful remote creation appends one bucket |
| BucketController.MissingNameRepliesTwice | src/controllers/bucket_controller.ts:36-50 | as written, a missing name writes two replies, the 400 and then the creation's reply |
| BucketController.CreateBucketChecked | src/controllers/bucket_controller.ts:33-58 | with the missing return restored, a missing name answers 400 once and changes nothing |
| BucketController.CheckedRepliesOnce | src/controllers/bucket_controller.ts:36-41 | the corrected handler always writes exactly one reply, 400 exactly for a missing name |
| Multer.Admit | src/config/multer_config.ts:37-41 | a file is admitted exactly when the filter accepts and the size is within the limit if there is one; a filter's rejection is passed on; an oversized file gets "File too large" |
| MulterConfig.FileFilter | src/config/multer_config.ts:25-35 | a rejection carries the fixed message |
| MulterConfig.FileFilterMeaning | src/config/multer_config.ts:26-31 | accepted exactly when the case-insensitive unanchored pattern jpeg\|jpg\|png\|gif\|webp occurs both in the extension and in the MIME type |
| MulterConfig.AdmitMeaning | src/config/multer_config.ts:37-41 | admitted exactly when the filter accepts and the size is at most 10*1024*1024 bytes |
| MulterConfig.StoredFileNameKeepsExtension | src/config/multer_config.ts:16-21 | the stored name has the original name's extension |
| MulterConfig.AcceptsAnyTypeMentioningAFormat | src/config/multer_config.ts:26-28 | "photo.png" with MIME type "application/x-png" is accepted |
| LegacyMulterConfig.FileFilter | build/config/multer_config.js:18-28 | a rejection carries the fixed message |
| LegacyMulterConfig.FileFilterMeaning | build/config/multer_config.js:19-27 | accepted exactly when jpeg\|jpg\|png occurs in the lower-cased extension and, case-sensitively, in the MIME type |
| LegacyMulterConfig.AdmitMeaning | build/config/multer_config.js:29-32 | there is no size limit: admission is the filter's verdict |
| LegacyMulterConfig.StoredFileNameRoundTrip | build/config/multer_config.js:13-15 | the stored name splits at its first '-' into the timestamp and the original name |
| LegacyMulterConfig.RejectsUpperCaseType | build/config/multer_config.js:19-21 | MIME type "IMAGE/PNG" is rejected |
| UploadMiddleware.FileFilter | src/middlewares/upload_middleware.ts:19-25 | accepted exactly when the MIME type starts with "image/"; otherwise the fixed message |
| UploadMiddleware.AdmitMeaning | src/middlewares/upload_middleware.ts:27-31 | admitted exactly for an image MIME type of at most 5*1024*1024 bytes |
| UploadMiddleware.StoredFileNameRoundTrip | src/middlewares/upload_middleware.ts:14-16 | the stored name ends with the original name and splits at its first '_' into the timestamp and the original name |
| App.OriginVerdict | src/app.ts:48-56 | a rejection carries "No permitido por CORS" |
| App.LocalOriginMeaning | src/app.ts:52 | the anchored pattern accepts exactly "http://localhost" optionally followed by ':' and one or more digits |
| App.AcceptsLocalPort | src/app.ts:52-53 | "http://localhost:3000" is accepted |
| App.RejectsLookalikeHost | src/app.ts:52-55 | "http://localhost.evil.com" is rejected |
| App.NotFound | src/app.ts:98-100 | exactly one 404 reply with "Endpoint no encontrado" |
| CorsConfig.OriginVerdict | src/config/cors_config.ts:7-15 | a rejection carries "No permitido por CORS" |
| CorsConfig.OriginPatternMeaning | src/config/cors_config.ts:11 | the unanchored-at-end pattern matches exactly the origins starting with "http://localhost" |
| CorsConfig.LooserThanApp | src/config/cors_config.ts:11 | every origin the application's predicate accepts, this one accepts too |
| CorsConfig.AcceptsLookalikeHost | src/config/cors_config.ts:11-14 | "http://localhost.evil.com" is accepted here though the application's predicate rejects it |
| CorsConfig.PreflightHeadersReadBack | src/config/cors_config.ts:16-17 | the allowed methods and headers read back from their header values |
| ErrorHandler.StatusChoice | src/middlewares/error_handler.ts:26 | the reply's status is the error's own when present and non-zero, else 500; it is never 0 and does not depend on the environment |
| ErrorHandler.ReplyShape | src/middlewares/error_handler.ts:26-31 | the body is `{error: {message, ...}}`, the message is never empty and is the error's own when that is non-empty, and a stack member appears exactly in development with a stack |
| ErrorHandler.Handle | src/middlewares/error_handler.ts:12-33 | exactly one reply is written, the computed one |
| JsonBody.BucketRoundTrip | src/controllers/bucket_controller.ts:18-21 | a bucket's JSON decodes back to the bucket |
| JsonBody.ImageRoundTrip | src/controllers/image_controller.ts:39-47 | an image row's JSON decodes back to the row |
| JsonBody.BucketJsonInjective | src/controllers/bucket_controller.ts:18-21 | different buckets have different JSON |
| JsonBody.ImageJsonInjective | src/controllers/image_controller.ts:39-47 | different image rows have different JSON |
| Store.ReplaceByIdAt | src/services/image_service.ts:86-91 | with strictly increasing ids, saving a row whose id is at index k replaces exactly index k and keeps every other row |
| Store.ReplaceByIdKeepsKeys | src/services/image_service.ts:86-91 | saving a row keeps the table's length and every row's id, so the id order is kept |
| Store.ReplaceBucketAt | src/services/image_service.ts:90-91 | saving a bucket by id replaces exactly the ledger entry with that id |
| Store.ReplaceImageAt | src/services/image_service.ts:86-87 | saving an image row by id replaces exactly the row with that id |
| Store.Database.InsertImage | src/services/image_service.ts:56-62 | appends one row with the next id and the given columns; nothing else changes |
| Store.Database.InsertLabel | src/services/image_service.ts:70-75 | appends one label row with the next id; nothing else changes |
| Store.Database.InsertBucket | src/services/bucket_service.ts:29-35 | appends one bucket with the next id; nothing else changes |
| LocalDisk.Disk.Unlink | src/services/storage_service.ts:28 | the path is gone afterwards, and the result says whether it was there |
| Text.SplitJoin | src/config/cors_config.ts:16-17 | splitting a separator-joined list of separator-free words gives the list back |
| Text.BasenameOfJoin | src/services/storage_service.ts:18 | the basename of a directory joined with a plain name is that name |
| Text.ExtOfNameAfterPlain | src/config/multer_config.ts:19 | a dot-free prefix before a name's extension does not change the extension |
| JsNumber.ParseIntOfDecimal | src/controllers/image_controller.ts:34 | parseInt reads back a rendered natural number followed by non-digits |
| Regex.SearchAnyWord | src/config/multer_config.ts:26-28 | an unanchored search for an alternation of words succeeds exactly when one word occurs |
| Regex.ClassPlusMatches | src/controllers/storage_controller.ts:69 | a character class repeated one or more times matches exactly the non-empty strings over the class |

## Left out

- ImageService.ProcessAndSaveImage: the no-space error keeps only its first sentence. The two sizes that follow it are rendered with `toFixed(2)`, and that float formatting is not modelled.
- ImageController.ProcessImage: states the outcome stage by stage and which steps leave the state alone. The full new state after each stage is stated by ImageService.ProcessAndSaveImage, which it calls.
- JsonBody.LabelResultJson: the confidence is the number score*100, not the text `xx.xx%` the source builds with `toFixed(2)`.
- JsonBody.ImageJson: the image's bucket is written as its id, not as a nested bucket object.
- ImageService.ListImages: a negative LIMIT or OFFSET fails and a zero `take` lists every row. This is how TypeORM behaves on MySQL; the repository's own text does not fix it. The failure message keeps only the driver's opening words. The rest of the driver's text quotes the offending SQL and is not modelled.
- ImageController.ListReply: its 500 reply carries that shortened SQL error message.
- BucketService.MostAvailableIndex: ties go to the first bucket in ledger order, which is a choice of the model. `orderBy('bucket.storage', 'DESC').getOne()` leaves the order of equal storages to the database.
- ImageService.ProcessAndSaveImage: the bucket that is debited and the bucket that receives the upload are the same one. In the source they come from two separate queries (src/services/image_service.ts:31, src/services/storage_service.ts:13). With tied storages, the database could answer them differently.
- BucketController.MostSpaceReply: the 500 reply for a failing query (src/controllers/bucket_controller.ts:22-29) is not modelled, because database reads are assumed to succeed.
- StorageService.UploadImage: returns the destination name as the uploaded object's name. The source returns the name the object store reports (src/services/storage_service.ts:31), and the model assumes the two are equal.
- StorageService.UploadImage: the remote upload is not given the local disk, so a missing local file is not refused by the upload itself as the object store's client would refuse it (src/services/storage_service.ts:20-25). Every caller has already found the file: processing checks its size first, and multer has just written the uploaded file.
- StorageController.UploadImage: its 201 reply carries that destination name for the same reason.
- Database reads and writes are assumed to succeed. A TypeORM or MySQL failure is not modelled, whether on save, on insert, on the bucket query or on `findAndCount`; the one exception is the negative LIMIT/OFFSET syntax error.
- Floating-point storage and sizes are `real`: there is no rounding.
- Concurrency: requests are processed one at a time. A lost update of a bucket's storage between two interleaved requests is not modelled.
- `Date.now()` and `Math.random()` are parameters.
- The Vision client and the Cloud Storage client are function parameters, and `process.env` values are parameters (`Config`, `nodeEnv`).
- Logging (`console`, the winston logger) has no effect on the model.
- The second `fs.existsSync` check before the upload (src/services/image_service.ts:80-82) cannot fail in a sequential run after the earlier size check, so it is not modelled.
- The thin `ImageService` delegations to the vision and storage services (src/services/image_service.ts:13-25) are modelled by calling those services directly.
- The application's constructor, database initialisation, upload-directory creation, the JSON and urlencoded body parsers, the request logger and the root route (src/app.ts:59-91) are not modelled. No property is stated about them.
- The multer `destination` callbacks and the upload-directory creation in the three upload configurations are not modelled.
- src/entities/image.ts declares a `filename` column and no bucket relation. The model keeps the columns that the service passes (`file_name`, `size`, `url`, `bucket`).
- Query parameters given as arrays, route parameters that are `undefined` rather than empty, and non-string body names are not modelled: every such input is a string or is absent.
- Case mapping, `\w` and `\d` are ASCII only.
- Thrown values that are not `Error` objects are not modelled, so the "Error desconocido" branches are never reached.
- Express throws on a second write to a response that is already sent; the model records both writes instead. Invalid status codes are not modelled either.
- `parseInt` is exact on arbitrarily long digit strings. JavaScript number precision above 2^53 is not modelled.
- The vision controllers and routes, src/upload-tigre.ts, the route tables and the compiled copy of the upload middleware are not modelled.

## Findings

| source | as written | input that shows it | evidently intended | confidence | as-written member | corrected member |
|---|---|---|---|---|---|---|
| src/controllers/bucket_controller.ts:36-41 | the 400 reply for a missing name is not followed by `return`, so the handler goes on to create a bucket and writes a second reply | a POST to create a bucket without `name` | one 400 reply and no bucket creation | high, not executed | BucketController.MissingNameRepliesTwice | BucketController.CheckedRepliesOnce |
