# Image custom field plugin — a Dafny model

This project models the logic of `PlgFieldsImage`, a content-management plugin that adds an
"image" custom field. An editor uploads a picture through the field. Before the content is
saved, the plugin checks the upload, resizes it, turns it upright and stores it under a fresh
name. After the save, it writes the new name into the field-value store and deletes the
superseded file.

Modules, leaf first:

- `Wrappers`: `Option` and `Result`.
- `Numerals`: PHP's integer-to-string conversion, with its parse.
- `FieldConfig`: the per-field parameters (`path`, `width`, `height`, `scale_down`,
  `remove_old`) and their defaults.
- `Paths`: `trim($path, '/')` and `getPath`.
- `Naming`: stored file names `<field id>_<item id>_<uniqid>.jpg`, and how to read the
  owner back from such a name.
- `Intake`: the upload descriptor, `hasFile`, and the ordered intake checks of `uploadImage`.
- `Processing`: the resize decision and the EXIF-orientation rotation table.
- `Display`: `field_image`.
- `Commit`: the after-save replay of the upload records, as functions over the store and the
  files, with its lemmas.
- `Plugin`: the plugin object as a class. It holds the `uploaded` records, the field-value
  store, the files (a map from path to content) and a counter of `uniqid()` calls. Its
  methods are the naming loop, `uploadImage` and the four save-lifecycle hooks.

The host's services are inputs. A `Host` value gives the site root and the upload size limit.
It also gives the successive `uniqid()` values and what each temporary upload file holds:
its sniffed MIME type, its decoded size or decode error, its EXIF orientation, and whether
writing it succeeds. The fields of an item, the multipart `com_fields` upload array, the
field model's parameters and the request's `task` are method parameters.

## Model

| member | source | states |
|---|---|---|
| `Numerals.Decimal` | image.php:69 | An id spelled into a prefix is a non-empty string of digits, with a leading '0' only for zero |
| `Numerals.ParseDecimalOfDecimal` | image.php:69 | Reading back the spelling of an id gives the id |
| `FieldConfig.PathSetting` | image.php:238 | The directory setting is never empty: an absent, null or empty `path` gives the default `images`, and any other configured value is used as it is |
| `Paths.Trim` | image.php:239 | `trim($path, '/')` is no longer than the path and neither starts nor ends with a slash; `TrimIsSlice` and `TrimUnique` below determine it exactly |
| `Paths.TrimLeadingKeepsSuffix` | image.php:239 | Removes exactly the run of leading slashes: the rest is a suffix that does not start with '/' |
| `Paths.TrimTrailingKeepsPrefix` | image.php:239 | Removes exactly the run of trailing slashes: the rest is a prefix that does not end with '/' |
| `Paths.TrimIsSlice` | image.php:239 | `trim($path, '/')` is a slice of the path with only slashes outside it and no slash at either of its ends |
| `Paths.TrimUnique` | image.php:239 | Conversely, any such slice is the trimmed path, so these facts determine the trim |
| `Paths.TrimIdempotent` | image.php:239 | Trimming a trimmed directory changes nothing |
| `Paths.GetPath` | image.php:236-241 | `getPath` starts with the root and a slash and ends with a slash and the file name; the four lemma rows below state the rest |
| `Paths.GetPathExtends` | image.php:236-241 | The directory path (`getPath` with no file name) followed by a name is that name's full path, so `$path . $nurl` and `getPath($field, $nurl)` agree |
| `Paths.GetPathInjective` | image.php:236-241 | Within one field's directory, distinct file names have distinct paths |
| `Paths.GetPathDefault` | image.php:26 | With no `path` configured, or an empty one, files live under `<root>/images/` |
| `Paths.GetPathIgnoresEdgeSlashes` | image.php:238-240 | For a non-empty setting, slashes around the configured directory do not matter: the path is root, '/', the bare directory, '/', the name (with `//` when the setting is only slashes) |
| `Naming.Prefix` | image.php:69 | The `<field id>_<item id>_` prefix; no contract of its own: `Naming.OwnerOfPrefixed` and `Naming.OwnerOfCandidate` state that it identifies the field and the item |
| `Naming.Candidate` | image.php:304 | Every candidate name starts with the field-and-item prefix and ends in `.jpg`, whatever the uploaded type |
| `Naming.CandidateInjective` | image.php:304 | Distinct unique ids give distinct candidates under one prefix |
| `Naming.OwnerOfPrefixed` | image.php:302-304 | Any name carrying the prefix of a field and an item tells which field and item it belongs to |
| `Naming.OwnerOfCandidate` | image.php:303-304 | Every candidate tried for a field and an item leads back to them |
| `Intake.HasFile` | image.php:221-226 | `hasFile`; no contract of its own: `Intake.NoFileExactlyWithoutFile` states that it rejects exactly the descriptors the checks answer NO_FILE for |
| `Intake.ExtensionOf` | image.php:29-33 | The MIME search finds an extension exactly for image/jpeg, image/png and image/gif, and the one it finds is listed for that type |
| `Intake.Validate` | image.php:264-300 | An upload passes exactly when its status is OK, its size is within the limit and its sniffed type is allowed; success yields the extension of that type |
| `Intake.ValidateErrorOrder` | image.php:266-291 | The first failing check decides the error: missing or array `error` gives NOACCESS, then NO_FILE, FORM_SIZE gives FILESIZE_EXCEEDED, any other status gives UNKNOWN_ERROR, then the size limit, then INVALID_FORMAT |
| `Intake.ValidateIgnoresClientClaims` | image.php:293-300 | The client's claimed name and type and the temporary path never change the verdict |
| `Intake.NoFileExactlyWithoutFile` | image.php:221-226 | NO_FILE is reported exactly for descriptors `hasFile` rejects, so before-save, which only checks descriptors with a file, never sees it |
| `Intake.ValidateAsWritten` | image.php:295-300 | As written, an upload passes whenever its status is OK and its size within the limit: the MIME check rejects nothing |
| `Intake.AsWrittenAcceptsHtml` | image.php:297 | A text/html upload passes the checks as written, where the allow-list rejects it with INVALID_FORMAT |
| `Processing.TargetBox` | image.php:312-323 | A zero bound is derived from the other one so that the box keeps the picture's aspect ratio; a non-zero bound is kept |
| `Processing.ResizeFor` | image.php:306-329 | No resize when both bounds are 0. With `scale_down` > 0 there is always a resize. Otherwise a resize happens exactly when the box is smaller than the picture in some dimension, so a box at least as large never enlarges. Any resize targets the aspect-preserving box |
| `Processing.HeightOnlyResizesIffTaller` | image.php:315-328 | With only a height and scale-down-only, the picture is resized exactly when it is taller than the bound |
| `Processing.WidthOnlyResizesIffWider` | image.php:319-328 | With only a width and scale-down-only, the picture is resized exactly when it is wider than the bound |
| `Processing.RotationFor` | image.php:331-352 | Orientations 3, 6 and 8 rotate by 180, -90 and 90 degrees, and nothing else rotates. The rotation undoes every pure EXIF rotation |
| `Display.FieldImage` | image.php:207-212 | An empty value ("" or "0") renders as "-". Any other value renders as a thumbnail tag whose `src` is exactly the value |
| `Commit.Committed` | image.php:127-129 | The store after the replay keeps every key it had and holds a value for every record's (field, item); `Commit.CommittedLastWins` and `Commit.CommittedElsewhere` say which value |
| `Commit.Swept` | image.php:131-139 | The files after the replay's deletions: no file appears and no content changes; `Commit.SweptRemovesExactlySuperseded` says exactly which files go |
| `Commit.SweptRemovesExactlySuperseded` | image.php:127-140 | After-save deletes exactly the old paths of records whose image changed and whose field has `remove_old` > 0 (default 1); all other files stay |
| `Commit.UnchangedRecordsDeleteNothing` | image.php:131-139 | Records that carry the old value forward never delete a file |
| `Commit.NewImageIsNotItsOwnVictim` | image.php:132-137 | A record that deletes its old file never deletes its own new image |
| `Commit.CommittedLastWins` | image.php:127-129 | Each (field, item) ends up holding the image of the last record for it |
| `Commit.CommittedElsewhere` | image.php:127-129 | A (field, item) that no record mentions keeps its stored value |
| `Commit.CommitIdempotent` | image.php:127-142 | Because the record list is never cleared, a second after-save replays it; the store does not change again |
| `Commit.SweptIdempotent` | image.php:127-142 | Replaying the records a second time deletes nothing more |
| `Plugin.EligibleFields` | image.php:58-64 | Every field taken is of this plugin's type and has upload data under its name, and no more fields are taken than the item has |
| `Plugin.EligibleFieldsExactly` | image.php:58-64 | A field takes part exactly when it is one of the item's fields, is of this plugin's type and has upload data under its name |
| `Plugin.EligibleIndices` | image.php:58-64 | The positions of the eligible fields in ascending order, each eligible position once and no other |
| `Plugin.EligibleFieldsInOrder` | image.php:58-64 | The eligible fields are the item's fields at those positions, so they are taken in field order |
| `Plugin.UploadErrorOf` | image.php:264-367 | The error `uploadImage` answers for a rejected upload: the first failing intake check, else the decoder's message, else "Unknown"; it is a `Failed` message exactly when the intake checks passed |
| `Plugin.StopsAt` | image.php:58-74 | When before-save stops at an eligible field, the records made so far describe the eligible fields before it, and that field is the next eligible one |
| `Plugin.UserSaveSkipped` | image.php:153-166 | The cases in which user-after-save commits nothing; no contract of its own: `Plugin.FieldsImagePlugin.UserAfterSave` states the effect |
| `Plugin.Promoted` | image.php:190-194 | On a profile, each field's raw value becomes its display value, and nothing else about the field changes |
| `Plugin.TakenBound` | image.php:304 | Every id the naming loop draws before the free one names a distinct existing file, so the loop ends |
| `Plugin.FieldsImagePlugin.constructor` | image.php:23 | A new plugin has gathered no records |
| `Plugin.FieldsImagePlugin.NewFileName` | image.php:304 | The name is the first candidate whose path does not exist, and every id drawn before it named an existing file |
| `Plugin.FieldsImagePlugin.Output` | image.php:306-354 | The file written for an upload comes from that upload's temporary file, and is turned exactly when its EXIF orientation is 3, 6 or 8 |
| `Plugin.FieldsImagePlugin.UploadImage` | image.php:251-370 | Failed checks return their error and change no file. A decode failure returns the exception's message and a failed write returns "Unknown", changing no file. Success writes the resized, turned picture under a fresh candidate name, removes the temporary file and returns the name |
| `Plugin.FieldsImagePlugin.Gather` | image.php:64-94 | For one eligible field, a successful upload (or no file at all) yields the record the field is described by. With a file, the result is Ok exactly when `uploadImage` accepts the upload, and a failure carries `uploadImage`'s error, never NO_FILE, and changes no file. With no file nothing changes and no id is drawn. A stored upload is named with the last id drawn, its path was free, and the files gain exactly that written file and lose the temporary one |
| `Plugin.FieldsImagePlugin.BeforeSave` | image.php:47-98 | Appends one record per eligible field, in order. A record keeps the old value, and keeps it as the image when no file came; otherwise the upload was accepted and the image is a new prefixed `.jpg`. The save passes exactly when every eligible field got a record. A veto comes from the next eligible field, which sent a file that `uploadImage` rejected, and carries that upload's error (never NO_FILE); later fields get no record |
| `Plugin.FieldsImagePlugin.AfterSave` | image.php:120-143 | Stores every record's image and deletes superseded files as `Commit` describes. The record list is kept, and the result is always true |
| `Plugin.FieldsImagePlugin.UserAfterSave` | image.php:149-172 | Commits nothing when the user id is 0, the save failed, or the task is activate, block or unblock. Otherwise it runs after-save. It always answers true |
| `Plugin.FieldsImagePlugin.ContentPrepare` | image.php:184-201 | For `com_users.user` it promotes every field's display value to its raw value and registers the `users.image` helper. Any other context is left untouched |

## Findings

| source | as written | input that shows it | evidently intended | confidence | as-written member | corrected member |
|---|---|---|---|---|---|---|
| image.php:297 | The MIME search uses the undefined local `$validImageTypes`. Under PHP 7 `array_search` then returns null, which is never `=== false`, so no sniffed type is rejected | An upload with status OK, within the size limit, whose sniffed type is text/html | Search the allow-list of image.php:29-33 and reject other types with PLG_IMAGE_INVALID_FORMAT | not executed; rests on PHP 7's `array_search` returning null for a non-array (PHP 8 throws a TypeError instead, which the `catch (Exception)` does not catch) | `Intake.AsWrittenAcceptsHtml` | `Intake.Validate` |

The rest of the model, `UploadImage` included, uses the corrected `Validate`.

## Left out

- Creating the image directory (image.php:255-258) is not modelled. Directories are not part of the file map. The source creates the directory even for uploads that then fail a check.
- MIME sniffing, EXIF reading, decoding, resizing, rotating and writing the picture are host services. `Probe` supplies their results; the model records the decided resize and rotation in the written file's content instead of computing pixels. Of the image library's exceptions, only a decode failure is modelled.
- Raising the memory limit before rotation (`ini_set`) has no effect in the model.
- Language strings are not translated. An error carries its language key (`Intake.Message`).
- The application, the field model and the field helper are inputs: the fields of an item, the `com_fields` upload array (an empty map when absent), the field parameters by field id (a field without parameters gets the defaults) and the request's `task`.
- The field registry is framework code and is not part of this model. It answers with the default for a key that is absent, null or the empty string; the empty-string case is modelled for `path`, the only string setting (`FieldConfig.PathSetting`). Registry values are typed here. The source's third argument to `get` (`'int'`, `'string'`) is not a filter, and loose comparisons of strings with numbers are not modelled: status codes and orientations are integers.
- Processing.ResizeFor: bounds are divided in exact real arithmetic. The source divides in floating point, so the aspect-ratio equalities hold only up to rounding there.
- Plugin.FieldsImagePlugin.NewFileName: `uniqid()` is assumed never to repeat a value. The source relies on eventually drawing an id whose name is unused; the model's termination argument needs the stronger assumption, and the source's loop could spin forever only if every id drawn named an existing file. The check-then-write race between two concurrent requests is not modelled.
- Plugin.FieldsImagePlugin.BeforeSave: states the records and the verdict. Its effect on the files and on the `uniqid` counter is stated for each field by `Gather`, not summed over the loop.
- `onContentBeforeSave` returns false to veto and returns nothing otherwise. This is modelled as `Verdict`.
- The assignment to the local `$uploaded` at image.php:63 is never read, so it has no effect and is not modelled.
- The record's item id is the one the item has when before-save runs, as in the source.
- `onUserBeforeSave` (image.php:104-107) only calls before-save with the old user as the item, so it is `BeforeSave` with that user's id and is not modelled separately.
- The temporary upload file is removed only on success. PHP's own clean-up at the end of the request is not modelled.
- fields/image.php and tmpl/image.php (form input and read-view rendering) are not part of this model. Their URL building is the same trim-and-join as `GetPath`.
