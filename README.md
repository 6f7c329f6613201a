# Image resizer service — Dafny model

This project models the core of an image-resizing web service: one POST
handler, `resize_image`, that takes a batch of uploaded images and two form
fields, `max_size` and `quality`. It checks the fields and each filename's
extension. Each image is scaled down so that its larger side is at most
`max_size`, then re-encoded. The results go back as one zip archive.

The model is split into modules that follow the source's functions:

- `Wrappers`: the `Option` type. It stands for absent form fields, failed parses and library failures.
- `Filenames`: `allowed_file`, the extension check on the text after the last dot, with ASCII case folding.
- `Validation`: Python's `int(str)` for an optional sign followed by ASCII digits, and `validate_input`.
  The decimal rendering `ShowInt` is a reference definition. It is used only to state the parse round trip.
- `Dimensions`: the size rule of `resize` as a pure function on `Size(width, height)`, with its lemmas.
- `ResizeService`: the handler. `ResizeImage` is a method with a loop over the uploads. It writes into
  a `ZipArchive` object whose `WriteStr` appends a record, as `zipf.writestr` does. The `with
  zipfile.ZipFile(...)` block is its own method, `ArchiveUploads`. The handler is proved equal to `Handle`, a loop-free specification function, and the batch properties are lemmas
  about `Handle` and `Processed`.
  The image library is a parameter (`ImageLibrary`). `decode` stands for `Image.open`. `encode`
  stands for the LANCZOS resize to the computed size followed by `save` in the decoded format at the
  requested quality. `None` from either one stands for the exception the handler catches.

Two behaviours of the code are worth stating, because a reader might expect otherwise. The model follows the code in both:

- Duplicate filenames: `zipf.writestr` appends a second record under the same name and does not replace
  the first. The model appends, and `ProcessedKeepsDuplicates` states that both entries stay.
- Rounding of the scaled side: `int()` of the positive scaled product rounds down, not to nearest.
  The model uses the floor, and `ResizeProportional` states it.

## Model

| member | source | states |
|---|---|---|
| `Filenames.ToLower` | backend/main.py:64 | `.lower()` keeps the length and folds each ASCII capital to its lower-case letter |
| `Filenames.LastIndexOf` | backend/main.py:64 | finds the last occurrence of a character: `None` exactly when it is absent, otherwise an index holding it with no later occurrence |
| `Filenames.AllowedFile` | backend/main.py:62-64 | `allowed_file` itself, as a definition; `AllowedFileSplit` and `AllowedFileNeedsDot` together describe it on every input |
| `Filenames.Extension` | backend/main.py:64 | `rsplit('.', 1)[1]` exists exactly when the name has a dot, and is the dot-free suffix that follows a dot |
| `Filenames.AllowedFileNeedsDot` | backend/main.py:64 | a filename with no dot is refused |
| `Filenames.AllowedFileSplit` | backend/main.py:62-64 | for `stem + "." + ext` with a dot-free `ext`, the name is accepted exactly when `ext`, lower-cased, is png, jpg, jpeg or gif; earlier dots do not matter |
| `Filenames.AllowedFileCaseInsensitive` | backend/main.py:64 | lower-casing the whole filename never changes the decision |
| `Filenames.AllowedFileExampleDoubleExtension` | backend/main.py:63-64 | `a.png.exe` is refused |
| `Filenames.AllowedFileExampleUpperCase` | backend/main.py:63-64 | `a.exe.PNG` is accepted |
| `Filenames.AllowedFileExampleTrailingDot` | backend/main.py:63-64 | `a.` (empty extension) is refused |
| `Validation.ParseInt` | backend/main.py:96-100 | `int(s)` succeeds exactly on an optional sign followed by one or more digits; a negative result needs a leading `-` |
| `Validation.ParseIntPlusAndZeros` | backend/main.py:97 | a leading `+` or a leading `0` in front of digits does not change the parsed value (so "+0100" is 100) |
| `Validation.ParseShowInt` | backend/main.py:97 | parsing the decimal rendering of any integer gives that integer back |
| `Validation.ValidateInput` | backend/main.py:92-121 | true exactly when both fields are present and non-empty, parse as integers, and lie in 1..2048 and 1..100 |
| `Validation.ValidateInputDecimal` | backend/main.py:101-106 | for decimal fields, accepted exactly when `max_size` is in 1..2048 and `quality` in 1..100; so 0, 2049 and 101 are refused |
| `Validation.ValidateInputRejectsMissing` | backend/main.py:93-95 | an absent or empty field fails validation |
| `Validation.ValidateInputRejectsNonNumeric` | backend/main.py:110-114 | a field that is not an integer literal fails validation |
| `Dimensions.Resize` | backend/main.py:67-88 | the size `resize` produces: unchanged when it already fits, and always within the box for a bound of at least 1; described further by the lemmas below |
| `Dimensions.ResizeKeepsFitting` | backend/main.py:71 | an image whose sides are both within `max_size` keeps its size |
| `Dimensions.ResizeLargerSide` | backend/main.py:73-86 | an image that does not fit gets its larger side, or its height on a tie, set to exactly `max_size`; both new sides lie in 1..`max_size` and the orientation is kept |
| `Dimensions.ResizeFits` | backend/main.py:67-88 | the result always fits in the `max_size` box |
| `Dimensions.ResizeProportional` | backend/main.py:74-85 | when the exact proportional length is at least 1 the scaled side is its floor; when it is below 1 the scaled side is exactly 1 |
| `Dimensions.ResizeNeverEnlarges` | backend/main.py:71-88 | for sides of at least 1 pixel, neither side grows |
| `Dimensions.ResizeIdempotent` | backend/main.py:67-88 | resizing the result again with the same bound changes nothing |
| `ResizeService.ZipArchive.constructor` | backend/main.py:29-30 | a new archive holds no records |
| `ResizeService.ZipArchive.WriteStr` | backend/main.py:46 | a write appends one record after the existing ones; nothing is replaced |
| `ResizeService.ArchiveUploads` | backend/main.py:29-51 | the loop over the uploads returns the archive of processed uploads when no named upload is refused, and "You can only upload images" otherwise |
| `ResizeService.Refused` | backend/main.py:32-36 | the uploads that abort the batch: never an empty slot, and always a named file without a dot |
| `ResizeService.Contribution` | backend/main.py:32-46 | what one upload adds, as a definition: nothing for an empty slot or a decode or encode failure, else one entry under its filename; described by `ProcessedSkipsFailure`, `ProcessedAllSucceed` and `ProcessedKeepsDuplicates` |
| `ResizeService.Processed` | backend/main.py:31-46 | the archive of an accepted batch, as a definition; described by `ProcessedAppend`, `ProcessedLength`, `ProcessedNames`, `ProcessedAllSucceed` and `ProcessedSkipsFailure` |
| `ResizeService.Handle` | backend/main.py:13-51 | the handler's answer without its loop: an archive only for a non-empty, validated batch with no refused name; described by the `Handle*` lemmas |
| `ResizeService.ResizeImage` | backend/main.py:11-51 | the handler gives exactly the response `Handle` defines: the empty-batch and validation answers, an abort on a refused name, otherwise the archive of processed uploads |
| `ResizeService.ProcessedAppend` | backend/main.py:31-46 | the archive of a batch is the archive of its first part followed by that of its second part (submission order) |
| `ResizeService.ProcessedLength` | backend/main.py:38-46 | an archive has at most one entry per upload |
| `ResizeService.ProcessedNames` | backend/main.py:32-46 | every entry's name has an allowed extension and is the filename of some upload |
| `ResizeService.ProcessedAllSucceed` | backend/main.py:31-46 | when every upload is processed, there is one entry per upload, in order, under its filename |
| `ResizeService.ProcessedSkipsFailure` | backend/main.py:38-51 | a file that fails to decode or encode is left out and the files around it are processed as usual |
| `ResizeService.ProcessedOneFailure` | backend/main.py:38-51 | one failing file among successful ones leaves N-1 entries |
| `ResizeService.ProcessedKeepsDuplicates` | backend/main.py:46 | two successful uploads with the same filename give two entries with that name |
| `ResizeService.HandleEmpty` | backend/main.py:13-15 | an empty batch answers "No files selected", whatever the form fields hold |
| `ResizeService.HandleChecksFirst` | backend/main.py:13-24 | an empty batch answers "No files selected"; failed validation answers "Input validation failed" whatever the files and the library are |
| `ResizeService.HandleSkipsEmpty` | backend/main.py:32-33 | an upload with an empty filename is skipped: removing it from a batch of two or more leaves the answer unchanged |
| `ResizeService.HandleRefusedAnywhere` | backend/main.py:31-36 | one named upload with a refused extension, anywhere in the batch, makes the answer "You can only upload images" and no archive |
| `ResizeService.HandleArchive` | backend/main.py:29-51 | an archive answer has at most one entry per upload, each named after an upload with an allowed extension |
| `ResizeService.HandleAllImages` | backend/main.py:13-51 | a valid batch of allowed, processable images gives an archive with one entry per upload, in order, under the original filenames |

## Left out

- HTTP routing, reading the multipart request, CORS configuration, `send_file` and the response headers
  (`x-filename`, `Access-Control-Expose-Headers`) are left out. They are plumbing with no logic to state.
  The archive answer is modelled as its list of records.
- Zip serialisation and compression are left out. The archive is the sequence of `(name, bytes)` records written into it.
- Image decoding, LANCZOS resampling and re-encoding are not modelled. They are foreign library calls,
  so they are the opaque `ImageLibrary` parameter.
- The branch `len(request.files) == 0` (backend/main.py:17-18) is not modelled. It cannot be reached
  once the file list is non-empty, so its "No file selected" answer never happens.
- Dimensions.Resize: the source scales by the floating-point ratio `max_size / side` and truncates.
  The model uses the exact integer floor of `side * max_size / larger_side`. When the exact product is
  a whole number, the floating-point result can land just below it and give one pixel less.
- Validation.ParseInt: Python's `int()` also trims surrounding whitespace and accepts `_` between
  digits and non-ASCII digits. The model accepts only an optional sign and ASCII digits.
  Python 3.11 and later also refuse a numeral longer than 4300 digits, leading zeros included, so
  `validate_input("0" * 4300 + "5", "50")` is false there. The model has no length limit and accepts it.
  `ShowInt` and `ParseShowInt` likewise ignore that limit.
- Filenames.ToLower: Python's `str.lower()` folds all of Unicode. The model folds ASCII letters only.
- The `print` diagnostics in `validate_input` and in the skip branch of the handler are left out.
  They are log output only.
- A filename of `None` (a part sent without a filename) is not modelled. Filenames are strings.
