# photos-location: the decision logic, in Dafny

photos-location is a small Go program (`photos.go`). It walks a directory
tree. For every file whose extension is `.jpg`, `.jpeg`, `.png` or `.bmp`,
in any letter case, it decodes the EXIF data. When the photo's latitude and
longitude are both non-zero, it asks the Google Places nearby-search service
for a place name within 500 units of that point. Then it logs what the
service answered. A missing API key stops the program at start-up with exit
code 2. A reply of `OVER_QUERY_LIMIT` stops it with exit code 1.

This project models the decisions the program makes between its I/O calls:

- `paths.dfy` (module `PathExt`) models the classification of a path.
  `DotFrom` is the backward scan of Go's `path.Ext`. `Ext` is the suffix from
  the `.` it finds. `Lower` is ASCII lower-casing. `IsImage` is the test
  `fileTypes.Contains(strings.ToLower(path.Ext(file)))`.
- `places.dfy` (module `Places`) models the lookup. It holds the request
  parameters (`Query`, `Request`) and the chain of six status tests of
  `getLocation` (`GetLocation`).
- `photos.dfy` (module `Photos`) models the driver. `GetExif` is the
  coordinate gate of `getExif`, with its FocalLength read guarded, and
  `GetExifAsWritten` is `getExif` as written. `StepFor` is one pass of
  `main`'s loop body.
  `RunSteps` is the loop as a function: it goes on after every file and
  stops at the first exhausted quota. `ProcessFiles` is that loop as an
  imperative `while` loop, proved equal to `RunSteps`. `Run` is `main`: the
  key guard, then the loop. Its `ensures` states the filter and halting
  properties outright.

Inputs the program gets from its surroundings are parameters:

- the list built by `filepath.Walk`, with each entry's `os.Stat` directory
  bit (`Entry`);
- what opening and EXIF-decoding a path gives (`Env.extract`): an open error,
  a decode error, or a decoded block: whether its FocalLength tag can be
  read, and the latitude and longitude `LatLong` answered;
- the decoded reply the service gives to the request made for a path
  (`Env.places`): its `status` and the `Name` of each result, in order;
- the API-key flag (`KeyFlag`): the pointer `flag.String` returns, and the
  string it points to.

A status string outside the seven tested ones produces no outcome at all:
the six tests of photos.go:165-184 have no else branch. An error response
whose body does not decode reaches those tests with status `""`, which yields
"unknown". A connection failure gives `client.Do` a nil response, and
photos.go:155 then panics; that crash is not modelled.

## Model

| member | source | states |
|---|---|---|
| `PathExt.LastElement` | photos.go:94 | the last path element is the suffix of the path after its last `/`: it holds no `/`, and it is the whole path or is preceded by a `/` |
| `PathExt.DotFromSpec` | photos.go:94 | the `path.Ext` scan stops at a `.` followed by no `.` and no `/`; it answers -1 exactly when every `.` is followed by a `/` |
| `PathExt.ExtSpec` | photos.go:94 | the extension is empty exactly when the last path element holds no `.`; otherwise it ends the path, starts with `.`, holds no other `.` and no `/`, and is no longer than the last element |
| `PathExt.ExtOfLastElement` | photos.go:94 | the extension of a path equals the extension of its last element, so a `.` in a directory name never gives a file an extension |
| `PathExt.ExtLower` | photos.go:94 | taking the extension and ASCII lower-casing commute |
| `PathExt.IsImageCaseInsensitive` | photos.go:94 | two paths that are equal up to letter case get the same classification |
| `PathExt.IsImageBySuffix` | photos.go:75 | a path is an image candidate exactly when its lower-cased form ends with one of `.jpg`, `.jpeg`, `.png`, `.bmp` |
| `Places.RequestAsWrittenLosesKey` | photos.go:147 | the request as written sends fmt's rendering of the flag pointer as the key: it differs from the configured key and does not depend on it |
| `Places.Request` | photos.go:147 | the corrected request carries the configured key, the photo's latitude and longitude, and radius 500 |
| `Places.GetLocation` | photos.go:165-184 | at most one of the six status tests fires; the reply yields a quota outcome exactly when its status is `OVER_QUERY_LIMIT` |
| `Places.StatusTable` | photos.go:165-184 | `OK` yields the first result's name; `ZERO_RESULTS`, `REQUEST_DENIED`, `INVALID_REQUEST` and `OVER_QUERY_LIMIT` each yield their own outcome; `UNKNOWN_ERROR` and `""` both yield "unknown"; any other status yields nothing |
| `Photos.GetExif` | photos.go:104-141 | an open failure is an open error and a decode failure a decode error, and nothing else is an error; it never panics; decoded coordinates are looked up exactly when both are non-zero, and are otherwise "no location"; the lookup uses the corrected request and reports `getLocation`'s outcomes for the reply to it; the file ends the run exactly when that reply's status is `OVER_QUERY_LIMIT` |
| `Photos.MissingFocalLengthPanics` | photos.go:125-126 | as written, a decoded file whose FocalLength tag cannot be read panics, whatever its coordinates; with the read guarded it reaches the coordinate gate |
| `Photos.PhotoWithoutFocalLength` | photos.go:125-136 | a photo at (37.7, -122.4) without a FocalLength tag panics as written, and is looked up with the read guarded |
| `Photos.GetExifAgreesWhenFocalReadable` | photos.go:104-141 | when the FocalLength tag is readable, the written getExif never panics, takes the same branch as the guarded one, and differs only in sending the request as written |
| `Photos.RunStepsHalts` | photos.go:180-184 | the loop ends early exactly when some examined file's lookup exhausted the quota |
| `Photos.RunStepsReports` | photos.go:86-101 | without a quota stop, the run reports every visited file in list order; with one, it reports the visited files up to and including the first that stops, and none after it |
| `Photos.RunStepsLastHalts` | photos.go:180-184 | a stopped run has at least one report, and only its last report carries the quota outcome |
| `Photos.VisitedPathsSelected` | photos.go:86-101 | the files the loop body sends to `getExif` are, in order, the non-directory entries with an allow-listed extension |
| `Photos.VisitedPathsOf` | photos.go:86-101 | steps that mirror the entries one by one, visiting an entry under its own path exactly when it is not a directory and has an allow-listed extension, visit exactly the selected paths in list order |
| `Photos.RunSelects` | photos.go:86-101 | with no quota stop, the paths handed to `getExif` are the order-preserving filter of the collected list; with one, they are that filter of the list up to and including the first stopping file |
| `Photos.ErrorDoesNotStop` | photos.go:95-99 | a selected file whose opening or decoding fails is reported and never stops the run; the run goes on with the rest of the list |
| `Photos.ThreeFileScenario` | photos.go:86-101 | for the list `ScenarioWalk` (a directory, a located photo, a picture without EXIF data and a text file), the photo is located, the picture is a decode error, the run completes, and neither the directory nor the text file reaches `getExif` |
| `Photos.ProcessFiles` | photos.go:86-101 | the imperative loop skips directories, sends allow-listed files to `getExif` and stops at the first exhausted quota; its reports and its stop flag are exactly those of the loop function `RunSteps` |
| `Photos.Run` | photos.go:68-101 | an empty key gives exit code 2 before any file is examined; otherwise the reports are those of the loop function, and the code is 1 exactly when a quota stop happened and 0 otherwise; with code 0 the reported paths are the filter of the collected list; with code 1 they are the filter of the list up to the first stopping file |

## Left out

- `filepath.Walk`, `os.Stat` and `os.Open` are filesystem I/O. The walk's result is an input list. An error the walk returns is only logged (photos.go:82-84), so it is not modelled.
- `Photos.Run`: each `Entry` carries a directory bit, so the model assumes `os.Stat` succeeds. When it fails, photos.go:87-91 dereferences a nil `fileInfo`, and that crash is not modelled.
- EXIF decoding is the goexif library, which is not part of this model. This covers `exif.RegisterParsers`, `exif.Decode`, and the camera-model, focal-length and date reads (photos.go:114-131). The camera model and the date are only logged. Of the focal length the model keeps only whether its tag can be read (`focalReadable`), because reading a missing one panics (see Findings). An extraction is an open error, a decode error, or a decoded block: whether its FocalLength tag is readable, and the pair `LatLong` answered. Its error is ignored at photos.go:133. What goexif answers when the GPS tags are missing is not modelled.
- The latitude and longitude are `real`. Only their comparison with zero matters. Float NaN is not modelled: it would pass the gate. The `%g` formatting of the URL is not modelled either.
- HTTP and JSON are not modelled. This covers `http.NewRequest`, `client.Do`, `ioutil.ReadAll` and `json.Unmarshal` (photos.go:146-161). The reply is an input. `client.Do`'s error is unchecked. On a connection failure `resp` is nil, and `defer resp.Body.Close()` (photos.go:155) panics at once; that crash is not modelled, and the model assumes a reply always arrives. A body that fails to decode reaches the status tests as whatever was decoded. That is typically status `""`, which yields "unknown".
- `Places.GetLocation`: the `Reply` type admits only replies where `OK` comes with at least one result. With none, photos.go:166 would index `Results[0]` and panic.
- `Photos.GetExif`: the driver builds the corrected request (`Places.Request`), which carries the configured key. As written, photos.go:147 sends `Places.RequestAsWritten` (see Findings). The replies are inputs given per path and request, so no property of the loop depends on which request is built.
- `Photos.Run`: the driver uses the guarded `Photos.GetExif`, so a decodable file without a readable FocalLength tag goes on to the coordinate gate. As written, photos.go:126 panics there: the process ends with Go's panic exit status 2, and no later file is examined (see Findings). The code-0 promise of `Run` holds for the guarded program only.
- Replies are given per path. A path listed twice would get the same reply both times. `filepath.Walk` lists each path once.
- Logging, log severities and flag parsing are not modelled (photos.go:20-24). Outcomes are returned as data instead.
- `PathExt.Lower`: only ASCII letters are mapped. Go's `strings.ToLower` also maps other letters, but the only non-ASCII letters whose lower case is ASCII are U+0130 (to `i`) and U+212A (to `k`). Neither letter occurs in the four extensions, so the classification does not change.
- Paths are sequences of characters, while Go strings are bytes. `path.Ext` scans for the bytes `.` and `/`, and those bytes never occur inside a multi-byte UTF-8 sequence, so the scan agrees.

## Findings

| source | as written | input that shows it | evidently intended | confidence | as-written member | corrected member |
|---|---|---|---|---|---|---|
| photos.go:147 | the request is built with `fmt.Sprintf(..."key=%s", lat, long, apiKey)`, where `apiKey` is the `*string` from `flag.String`, so fmt renders the key as `%!s(*string=0x…)` | any run with `-key=AIza…` and a photo whose latitude and longitude are both non-zero: the key parameter sent is `%!s(*string=0xc…)`, never the configured key | format `*apiKey`, so the configured key is sent | high; not executed | `Places.RequestAsWrittenLosesKey` | `Places.Request` |
| photos.go:125-126 | the error of `x.Get(exif.FocalLength)` is dropped and `focal.Rat2(0)` is called on the result; a missing tag gives a nil `*tiff.Tag`, and a rational tag with no values has no first value, so the call panics | a JPEG whose EXIF block decodes but carries no FocalLength tag: the process panics at that file, before its coordinates are looked at, and no later file is examined | read the focal length only when `x.Get` succeeds and the tag holds a value, so the file goes on to the coordinate gate | medium; not executed | `Photos.MissingFocalLengthPanics` | `Photos.GetExif` |
