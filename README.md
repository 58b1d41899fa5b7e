# User accounts and profile images

This project is a Dafny model of the user controller of a small account
backend and of the object-storage service it uses for profile images. The
controller's handlers are `register`, `getProfile`, `updateProfile`,
`uploadProfileImage`, `deleteProfileImage` and `deleteAccount`. The storage
service has `uploadFile` and builds the object URL.

The user collection is a map from id to record, held with a next-id counter
by the class `UserController.Backend`. The bucket is the class
`S3Service.Bucket`: a map from key to stored object, plus a ghost log of
every request it was sent. A request to the bucket may go through or fail.
Which one happens is left open (`:| true`), so every contract covers both
outcomes. Each image handler returns the ghost list of requests it sent, and
the bucket afterwards is `S3Service.Apply` of those requests to the bucket
before.

Files:

- `wrappers.dfy`: `Option`.
- `js_strings.dfy`: the JavaScript string operations the handlers rely on.
  - `trim` and the `\s` class.
  - `startsWith`.
  - `length` in UTF-16 code units.
- `validation.dfy`: the request checks.
  - The registration field rules and the order of the error list.
  - The email regular expression, decided by a direct check and proved equal
    to it.
  - The profile-update name check.
  - The upload guard.
- `key_codec.dfy`: the storage key taken from an image URL
  (`split('/').pop()`) and the generated upload file name.
- `s3_service.dfy`: the bucket, `uploadFile`, the URL format and the
  best-effort delete.
- `user_controller.dfy`: the handlers, with two invariants.
  - `Valid`: emails are unique and ids are below the next id.
  - `ImagesFromBucket`: every image reference is empty or of the form
    `UrlOf(bucket, region, n)` with `n` free of `/`. The object itself may
    have been deleted.

Behaviours of the code the model keeps on purpose:

- **Registration name length.** The length check uses the untrimmed name, so
  `" a"` passes (`Validation.PaddedNamePasses`). Registration also stores
  the name untrimmed.
- **`deleteProfileImage` and non-bucket images.** The reference is cleared
  and saved only when the image is a bucket URL. Any other value is left as
  it is.
- **Replacing an image.** The old object is deleted before the new one is
  uploaded. When the delete goes through and the upload fails, the record
  keeps pointing at an object that no longer exists
  (`UserController.FailedReplaceLeavesDanglingImage`).
- **The storage delete.** The storage service as shipped exports no
  `deleteFile`, so every delete call the controller makes throws and is
  swallowed. The model lets a delete either go through or fail, which
  covers that case.

## Model

| member | source | states |
|---|---|---|
| JsStrings.IsWhitespace | Backend/controllers/userController.js:17 | the characters `trim()` removes and `\s` matches: ECMAScript WhiteSpace and LineTerminator |
| JsStrings.StartsWith | Backend/controllers/userController.js:207 | `startsWith(prefix)`: the first characters of the string, as many as the prefix has, are the prefix |
| JsStrings.SkipLeading | Backend/controllers/userController.js:17 | the first index from `i` on that is not whitespace; everything skipped is whitespace |
| JsStrings.SkipTrailing | Backend/controllers/userController.js:17 | the end of a range once trailing whitespace is cut; everything cut is whitespace and the last kept character is not |
| JsStrings.Trim | Backend/controllers/userController.js:144 | `trim()` gives a slice of the input with only whitespace cut on either side and no whitespace at either end |
| JsStrings.BlankIffAllWhitespace | Backend/controllers/userController.js:17 | `s.trim().length === 0` exactly when every character of `s` is whitespace |
| JsStrings.TrimIdempotent | Backend/controllers/userController.js:162 | trimming an already trimmed name changes nothing |
| JsStrings.Utf16Length | Backend/controllers/userController.js:22 | `length` counts between one and two units per character, exactly one for Basic Multilingual Plane text |
| Validation.Message | Backend/controllers/userController.js:18-52 | the message pushed with each field error: one "required" and one length-or-format message per field |
| Validation.UploadedFile.Size | Backend/controllers/userController.js:196 | `req.file.size`, taken to be the length of the in-memory buffer |
| Validation.Absent | Backend/controllers/userController.js:30 | JavaScript falsiness of a field (`!email`): missing or the empty string |
| Validation.NameProblem | Backend/controllers/userController.js:16-27 | name required exactly when missing or blank; too short exactly when not blank but under 2 UTF-16 units untrimmed; accepted exactly when present, not blank and at least 2 units; never a format error |
| Validation.MatchesEmailRegex | Backend/controllers/userController.js:35 | the regular expression `^[^\s@]+@[^\s@]+\.[^\s@]+$`: some split into three non-empty runs without whitespace or `@`, joined by `@` and then `.` |
| Validation.EmailSplitAt | Backend/controllers/userController.js:35 | one match of the regular expression, with the `@` and the `.` at the given indices |
| Validation.IsValidEmail | Backend/controllers/userController.js:35 | the direct email check: no whitespace, exactly one `@` with something before it, and a `.` neither first nor last after it |
| Validation.IndexOf | Backend/controllers/userController.js:35 | the first occurrence of a character, or the length when it does not occur |
| Validation.EmailCheckSound | Backend/controllers/userController.js:35 | every string the direct check accepts matches `^[^\s@]+@[^\s@]+\.[^\s@]+$` |
| Validation.EmailCheckComplete | Backend/controllers/userController.js:35 | every string matching the regular expression passes the direct check |
| Validation.EmailCheckIsRegex | Backend/controllers/userController.js:35 | the direct check and the regular expression accept the same strings |
| Validation.EmailProblem | Backend/controllers/userController.js:29-40 | email required exactly when missing or empty; malformed exactly when present and not matching the regular expression |
| Validation.PasswordProblem | Backend/controllers/userController.js:42-53 | password required exactly when missing or empty; too short exactly when under 6 UTF-16 units |
| Validation.Collect | Backend/controllers/userController.js:14-53 | the pushed errors are in field order, one per failing field, each with that field's problem |
| Validation.RegistrationErrors | Backend/controllers/userController.js:14-56 | every failing field is reported, only those, in the order name, email, password; an empty list means all three fields are present |
| Validation.ShortNameAndBadEmail | Backend/controllers/userController.js:14-61 | `("A", "bad-email", "secret")` yields exactly a too-short name error and a malformed email error |
| Validation.NameAndEmailErrors | Backend/controllers/userController.js:14-56 | a too-short name, a malformed email and a good password give exactly those two errors, in that order |
| Validation.OneCharNameTooShort | Backend/controllers/userController.js:22 | a single non-blank Basic Multilingual Plane character is a too-short name |
| Validation.NoAtNoEmail | Backend/controllers/userController.js:35 | a non-empty string without `@` is a malformed email |
| Validation.LongPasswordPasses | Backend/controllers/userController.js:48 | every password of six or more characters is long enough |
| Validation.PaddedNamePasses | Backend/controllers/userController.js:22 | `" a"` passes the name check because the untrimmed length is measured |
| Validation.UpdateNameProblem | Backend/controllers/userController.js:144-150 | the update name is accepted exactly when present and not all whitespace |
| Validation.UploadProblemOf | Backend/controllers/userController.js:189-212 | in order: no file, size over 5 MiB (5242880 bytes), MIME type not starting with `image/`; accepted exactly when none applies |
| KeyCodec.KeyOf | Backend/controllers/userController.js:225 | `split('/').pop()` is the longest suffix without `/`, preceded by `/` when shorter than the URL |
| KeyCodec.KeyOfAfterSlash | Backend/controllers/userController.js:266 | the key of `prefix + "/" + name` is `name` when `name` has no `/` |
| KeyCodec.Decimal | Backend/controllers/userController.js:234 | the decimal form of the timestamp is non-empty, all digits, with no leading zero |
| KeyCodec.DecimalRoundTrip | Backend/controllers/userController.js:234 | reading the decimal form back gives the timestamp |
| KeyCodec.GeneratedFileName | Backend/controllers/userController.js:233-234 | the generated name has no `/`, starts with the timestamp's digits and has `_` right after them |
| S3Service.ApplyConcat | Backend/services/s3Service.js:11-20 | requests applied in two batches have the effect of the whole series |
| S3Service.UrlOf | Backend/services/s3Service.js:19 | the URL starts with `https://`, and taking its key gives back the file name when the name has no `/` |
| S3Service.Bucket.constructor | Backend/services/s3Service.js:3-9 | a bucket of the given name and region, with the given contents and an empty log |
| S3Service.Bucket.UploadFile | Backend/services/s3Service.js:11-20 | a put of body and content type under `Key = fileName`; the URL is answered only when the put went through and the object is stored exactly then |
| S3Service.Bucket.DeleteFile | Backend/controllers/userController.js:226 | a delete request that may fail; the key is removed exactly when it went through |
| UserController.Response.Status | Backend/controllers/userController.js:57 | the HTTP status of each answer: 201 for a registration, 200 for other successes, 400 for field, name and upload errors, 404 for a missing user, 409 for a taken email, 500 for a failed upload |
| UserController.EmailRegistered | Backend/controllers/userController.js:64-65 | `User.findOne({ email })` finds a record: some stored record has exactly this email |
| UserController.View | Backend/controllers/userController.js:89-94 | the user as responses show it: id, name, email and image, never the password |
| UserController.IsStoredUrl | Backend/controllers/userController.js:223 | the controller's test for a bucket image: `startsWith('https://')` |
| UserController.Hash | Backend/controllers/userController.js:81-82 | the stored password differs from the input |
| UserController.HashInjective | Backend/controllers/userController.js:82 | different passwords give different stored passwords |
| UserController.BucketImageKey | Backend/controllers/userController.js:223-225 | for an image built by the bucket, the derived key is slash-free, rebuilding the URL from it gives the image, and the image passes the `https://` test |
| UserController.InsertKeepsUnique | Backend/controllers/userController.js:64-83 | a record with an unregistered email keeps emails unique |
| UserController.RenameKeepsInvariants | Backend/controllers/userController.js:162 | renaming keeps emails unique and image references bucket-made |
| UserController.SetImageKeepsInvariants | Backend/controllers/userController.js:235-236 | storing a fresh bucket URL keeps both invariants |
| UserController.ClearImageKeepsInvariants | Backend/controllers/userController.js:271-272 | clearing an image keeps both invariants |
| UserController.RemoveKeepsInvariants | Backend/controllers/userController.js:311 | removing a record keeps both invariants |
| UserController.WriteKeepsImages | Backend/controllers/userController.js:73-83 | writing a record with an empty or bucket-made image keeps every image bucket-made |
| UserController.ReplacedImageIsStored | Backend/controllers/userController.js:233-236 | after a successful replacement the key derived from the record names the object just stored, with the uploaded body and type |
| UserController.FailedReplaceLeavesDanglingImage | Backend/controllers/userController.js:222-236 | when the old object's delete goes through and the upload fails, the record keeps the old URL and its object is gone |
| UserController.Backend.constructor | Backend/controllers/userController.js:1-6 | an empty user collection over the given bucket, with both invariants holding |
| UserController.Backend.Register | Backend/controllers/userController.js:9-104 | field errors give 400 and change nothing; a taken email gives 409 and changes nothing; otherwise one new record with the hashed password and no image, answered without the password |
| UserController.Backend.Create | Backend/controllers/userController.js:73-83 | the record is stored under a fresh id and both invariants are kept |
| UserController.Backend.GetProfile | Backend/controllers/userController.js:107-127 | the record without its password exactly when the id exists, otherwise 404 |
| UserController.Backend.UpdateProfile | Backend/controllers/userController.js:139-174 | a blank name gives 400 before any lookup; a missing user gives 404; otherwise only the name changes, to the trimmed input |
| UserController.Backend.UploadProfileImage | Backend/controllers/userController.js:186-250 | guard failures give 400 and a missing user 404, with no request to the bucket; otherwise the replacement under the generated name |
| UserController.Backend.ReplaceImage | Backend/controllers/userController.js:222-248 | best-effort delete of the old bucket object, then the put; on success the record holds the new URL, on failure 500 with the record unchanged |
| UserController.Backend.StoreReplacement | Backend/controllers/userController.js:222-235 | the bucket receives an attempted delete of the old key (only for a bucket URL), then the put |
| UserController.Backend.TryDeleteImage | Backend/controllers/userController.js:223-230 | one delete of the key after the last `/` for a bucket URL, none otherwise, failure ignored |
| UserController.Backend.DeleteProfileImage | Backend/controllers/userController.js:253-279 | 404 for a missing user; for a bucket URL one delete attempt and the reference cleared whatever the delete did; any other value untouched; success either way |
| UserController.Backend.ClearImage | Backend/controllers/userController.js:271-272 | only the image field of the record changes, to empty |
| UserController.Backend.Remove | Backend/controllers/userController.js:311 | only that record is removed |
| UserController.Backend.DeleteAccount | Backend/controllers/userController.js:289-316 | 404 for a missing user; otherwise at most one delete attempt of the image key, and the record removed whatever the delete did |
| UserController.ClearTwice | Backend/controllers/userController.js:253-279 | clearing twice: the first call answers 404 for a missing user and success otherwise, sends at most one delete of the image key and clears a bucket image; the next id is unchanged; the second answers as the first, sends nothing to the bucket and changes no record |

`UserController.Backend.Register` gives each answer per case
(`Err(InvalidFields(...))`, `Err(EmailTaken)`, `Ok(Registered(...))`), and
`Response.Status` maps each answer to its HTTP status.

Some members are kept for what they say about the model, though no
handler's proof calls them:
- `S3Service.ApplyConcat` says the bucket after a series of requests does not
  depend on how the series is split.
- `UserController.HashInjective` says the password stand-in tells inputs
  apart.
- `JsStrings.TrimIdempotent` says a stored trimmed name is already trimmed.
- `Validation.Message` writes out the message each field error carries.

## Left out

- Password hashing: bcrypt with a random salt is replaced by `Hash`. All the model relies on is that the result differs from the input and tells inputs apart.
- The document database (the Mongoose `User` model): records are a map and every lookup and write succeeds. A 500 from a failing database call is not modelled, and neither is any normalisation of emails by the schema.
- The database's id generation: ids come from a counter, `nextId`.
- Other 500 responses: only the failed upload is modelled among the exceptions. A thrown error elsewhere (database, hashing) is not.
- The storage client's construction from environment variables (`AWS_REGION`, credentials, `AWS_S3_BUCKET`): the bucket's name and region are constructor parameters.
- The Express request and response objects, the JSON bodies and the messages: a handler returns a `Response` whose `Status` is the HTTP status. `Validation.Message` holds the field error messages.
- Logging (`console.log`, `console.warn`, `console.error`): no effect on state.
- `Date.now()`, `Math.random().toString(36).substring(2, 10)` and `path.extname(...).toLowerCase()`: inputs to `UploadProfileImage`, constrained by `IsRandomToken` and `IsExtension`. Lower-casing is not modelled.
- JavaScript strings holding lone UTF-16 surrogates: a string here is a sequence of Unicode scalar values, so such strings are not modelled.
- Concurrency between requests: each handler runs alone, from start to end.
- Non-string JSON values for `name`, `email` and `password`: a field is a string or missing.
- The upload middleware's own limits and parsing: the controller receives the file, or none.
- The unused imports of the controller (`upload`, `fs`): they have no behaviour here.
- Backend/config/redis.js is not part of this model. The controller does not use it.
