# Image host naming and handler decisions, in Dafny

The image host is a small Express service with three routes. `POST /upload`
takes a multipart form file. `POST /upload-url` fetches an image from a URL
the caller names. Both store the image in a directory named `uploads` and
return an address under `/uploads/` that carries the stored name. The two
routes do not resolve that directory the same way (see "## Left out").
`GET /proxy` streams a remote image back without storing it. Around the I/O
sit a few pure decisions, and this project models them:

- the scheme of a returned address (`getProtocol`);
- the extension of a stored file, using Node's POSIX `path.extname` and the
  content-type fallback of the URL route;
- the stored file's name (decimal millisecond timestamp plus extension);
- the returned address (`<scheme>://<host>/uploads/<name>`);
- the status and body each route sends, and the name of the file it opens
  a write stream on.

Modules, one per concern:

- `Options` (`options.dfy`): optional values and JavaScript truthiness of a
  possibly-undefined string.
- `Strings` (`strings.dfy`): `includes`, the `split(sep)[0]` idiom, and
  decimal rendering.
- `NodePath` (`node_path.dfy`): `path.extname`. It has a declarative
  definition, `ExtName`. The method `ExtNameScan` transliterates Node's own
  right-to-left scan, and its contract proves the scan computes `ExtName`.
- `Naming` (`naming.dfy`): scheme, extension resolution, file name and address.
- `Handlers` (`handlers.dfy`): the three routes as pure functions.

Each route takes what the request carries and what its I/O reported. The
fetch result is either the response's content type or the error message. The
write result is either `Finished` or `WriteFailed`. The host header and the
clock reading `now` are plain parameters. Each route returns an `Outcome`:
the response, plus the name of the file the route opened a write stream on,
if any.

The model follows `extname` exactly, so the URL route keeps two behaviours
that the code has as written:

- A URL without a path takes the text from the host's last dot as its
  extension: `https://x.com` gives `.com`, `https://x.com:8080` gives
  `.com:8080`, and `https://localhost` gives none.
- A dot inside a query string moves the extension into the query:
  `a.png?v=1.2` gives `.2`.

`ExtNameOfBareHost` and `ExtNameOfUrlWithDottedQuery` state both.

Three details of the error paths, as the code has them:

- `/proxy` answers a failed fetch with the fixed message
  `Failed to fetch image`.
- `/upload-url` passes the fetch error's own message on.
- A write failure on `/upload-url` is a JSON error body.

## Model

| member | source | states |
|---|---|---|
| Strings.Includes | index.js:35 | `includes` as computed (trying each start position) is true exactly when the pattern occurs at some index of the string |
| Strings.BeforeFirst | index.js:62 | `split('?')[0]` is a prefix of its input, holds no `?`, and stops only at a `?` or at the end |
| Strings.Decimal | index.js:78 | the rendered timestamp is non-empty, all decimal digits, and starts with `0` only for zero |
| Strings.DecimalRoundTrip | index.js:78 | reading the rendered digits back gives the timestamp |
| Strings.DecimalCanonical | index.js:78 | a digit string without a superfluous leading zero is the rendering of its own value, so the rendering is the only such spelling of a timestamp |
| NodePath.ExtName | index.js:62 | `path.extname` is empty or a `.` followed by text with no further `.` or `/` |
| NodePath.ExtNameScan | index.js:62 | Node's right-to-left scan (slash matching, first dot, pre-dot state, the `..` case) computes exactly `ExtName` |
| NodePath.ExtNameTakesLastDot | index.js:62 | when the last segment's last `.` is not its first character (and the segment is not `..`), the extension is the suffix from that `.`, whatever directories precede it |
| NodePath.ExtNameWithoutInnerDot | index.js:62 | a last segment with no `.` after its first character has no extension |
| NodePath.ExtNameIgnoresTrailingSlash | index.js:62 | a trailing `/` does not change the extension |
| NodePath.ExtNameOfBareHost | index.js:62 | `https://x.com` has extension `.com` |
| NodePath.ExtNameOfUrlWithQuery | index.js:62 | `https://x.com/a.png?x=1` has extension `.png?x=1` before the query is cut |
| NodePath.ExtNameOfUrlWithDottedQuery | index.js:62 | `https://x.com/a.png?v=1.2` has extension `.2` |
| NodePath.ExtNameOfFileNames | index.js:26 | an uploaded file name keeps its extension verbatim (`photo.JPG` gives `.JPG`); as a plain `extname` fact, the path `a.png/` gives `.png` |
| NodePath.ExtNameOfDotNames | index.js:26 | `.bashrc` and `..` have no extension; `...` has `.` |
| NodePath.ExtNameOfEmptyNames | index.js:26 | the empty path, `/` and a dot-free name have no extension |
| Naming.GetProtocol | index.js:34-36 | the scheme is `http` exactly when the host contains `localhost` or `127.0.0.1`, and `https` otherwise |
| Naming.UrlExtension | index.js:62 | the URL's extension is `extname` cut at its first `?`; it is empty exactly when `extname` is, and otherwise starts with `.` and holds no `?` |
| Naming.ContentTypeExtension | index.js:64-73 | `png` wins over everything; `gif` only without `png`, `jpeg`, `jpg`; `webp` only without all four; every other case, a missing header included, gives `.jpg` |
| Naming.ResolveUrlExtension | index.js:62-74 | the resolved extension is never empty, starts with `.`, and holds no `?` |
| Naming.UrlExtensionTakesPrecedence | index.js:62-63 | when the URL names an extension, that extension is used and the content type makes no difference |
| Naming.UnknownContentTypeGivesDefault | index.js:64-73 | with no URL extension, a missing or unrecognised content type gives `.jpg` |
| Naming.NoUrlExtensionMeansContentTypeDecides | index.js:63-73 | with no URL extension, the resolved extension is the content type's, in its order png, jpeg or jpg, gif, webp, then `.jpg` |
| Naming.Filename | index.js:78 | a stored name splits back into exactly the timestamp and the extension it was built from |
| Naming.FilenameRoundTrip | index.js:78 | a name splits into a timestamp and an extension exactly when it is the stored name built from them, so the split fixes the name |
| Naming.FilenameInjective | index.js:78 | two stored names are equal exactly when their timestamps and extensions are; different milliseconds give different names |
| Naming.AddressSchemeFollowsHost | index.js:85 | a returned address starts with `http://` exactly when the host contains `localhost` or `127.0.0.1` |
| Naming.Address | index.js:85 | the address starts with `<scheme>://` and ends with the stored name; a slash-free name is its last path segment, behind exactly `<scheme>://<host>/uploads/` |
| Naming.ResolvedExtensionHasNoSlash | index.js:62-74 | every resolved extension is well formed and contains no `/` |
| Naming.QueryIsCutFromUrlExtension | index.js:62 | a URL ending in `.png?x=1` yields `.png` |
| Naming.FragmentStaysInUrlExtension | index.js:62 | only a query is cut: `https://x.com/a.png#top` yields `.png#top`, which goes into the stored name |
| Naming.ExtensionlessUrl | index.js:62 | `https://x.com/image` names no extension |
| Naming.ExtensionlessUrlUsesContentType | index.js:63-69 | with no URL extension, content type `image/webp` yields `.webp` |
| Naming.ExtensionlessUrlWithoutContentType | index.js:71-73 | with no URL extension and no content type, the extension is `.jpg` |
| Naming.PngOutranksGif | index.js:66-68 | a content type naming both `png` and `gif` yields `.png` |
| Handlers.FormFilename | index.js:26 | a form upload's stored name splits back into the timestamp and `extname` of the client's file name, which may be empty; it has no `/` |
| Handlers.UrlFilename | index.js:78 | a URL upload's stored name splits back into the timestamp and the resolved extension; it has no `/` |
| Handlers.Upload | index.js:39-44 | status 400 with text `No file uploaded` and no file exactly when no file came; otherwise the address of the file written, whose name holds the timestamp and the client name's extension |
| Handlers.UploadUrl | index.js:47-98 | 400 `{error:"URL required"}` exactly when the URL is missing or empty; 200 exactly when the fetch succeeded and the write finished, and then the body's address carries the name the stream was opened on; a write stream is opened on that name exactly when the fetch succeeded; a fetch failure gives 500 with its message; a write failure gives 500 `Failed to save image` |
| Handlers.Proxy | index.js:101-121 | never writes a file; 400 text exactly when the URL is missing or empty; 500 with a fixed message exactly when the fetch failed; otherwise 200 piping the body, with the content-type header mirrored only when non-empty |
| Handlers.UrlRequiredBeforeFetch | index.js:49-50 | with a missing or empty URL, the fetch result, write result and clock make no difference to the outcome |
| Handlers.FetchErrorMessages | index.js:94-120 | the URL route passes different fetch errors on as different responses; the proxy route answers every fetch error alike |
| Handlers.FormAndUrlAnswersAgree | index.js:76-85 | with the same host, timestamp and extension, a form upload and a finished URL upload store the same name and return the same address |
| Handlers.DistinctTimestampsWriteDistinctFiles | index.js:78 | requests at different milliseconds never write the same file, for any pair of form or URL uploads (the form name at line 26 has the same shape) |
| Handlers.FormAddressNamesWrittenFile | index.js:42 | a successful form upload's address ends in the name of the file it wrote |
| Handlers.UrlAddressNamesWrittenFile | index.js:85 | a successful URL upload's address ends in the name of the file it wrote |
| Handlers.UploadSchemeFollowsHost | index.js:41-42 | a form upload's address is plain HTTP exactly when the host contains `localhost` or `127.0.0.1` |

## Left out

- Express, multer, cors and axios internals are not modelled. This covers
  CORS, JSON body parsing, multipart parsing and static file serving
  (index.js:17-31, 123-125). They are library code.
- Creating the uploads directory at start-up (index.js:12-14) is left out. It
  is one-off file-system I/O.
- Streaming is not modelled (index.js:82, 117). For `/upload-url` its outcome
  is an input, the `Write` result. For `/proxy` the stream's outcome is left
  out; the model only says that piping begins, with which header.
- The clock is not modelled. `Date.now()` is the parameter `now`, a natural
  number. A clock reading before 1970, which `String` would render with a
  leading `-`, is outside the model.
- Console logging is left out (index.js:86, 91, 95).
- The browser script (public/script.js) is left out. It only forwards form
  data and shows the returned address.
- Upload: does not model a failure of the upload middleware while it stores
  the file. Express's default error page answers that case, outside the
  route's code.
- A request with no `Host` header is not modelled. The host is a string
  parameter; without one, `getProtocol` would throw.
- UploadUrl: directories are not modelled, and the two upload routes use
  different ones. Start-up, the form route and the static route use the
  relative path `uploads`, which resolves against the working directory
  (index.js:12-13, 21, 25). The URL route writes to
  `path.join(__dirname, 'uploads', filename)`, next to the script
  (index.js:79). When the server starts from another directory, there are
  two cases. If the script's `uploads` directory does not exist, the stream
  fails to open and the route answers 500 `Failed to save image`. Otherwise
  the file lands in a directory that the returned address does not serve.
- UploadUrl: the file system is not modelled, so `written` names the file the
  route opened a write stream on (index.js:80). When the stream fails to
  open, `WriteFailed` is reported and no file exists on disk.
- UploadUrl: the body field is either absent or a string. A non-string JSON
  value (a number, an object) is not modelled.
- Proxy: the query parameter is either absent or a string. A repeated `url`
  parameter, which arrives as an array, is not modelled.
- A failure of the remote stream after piping has begun is not modelled.
- The `User-Agent` header sent with the fetch is not modelled.
- Decimal: renders every timestamp in plain digits. JavaScript switches to
  exponent notation from 10^21, far beyond any clock reading in
  milliseconds.
- Concurrent requests are not modelled. Two uploads in the same millisecond
  with the same extension overwrite each other on disk; the model only proves
  that names differ when the milliseconds or the extensions do.
- URL escaping of the returned address is not modelled. The address is the
  stored name as text (index.js:42, 85). A name holding `#`, `?` or `%` (from
  `https://x.com/a.png#top`, or a client file named `photo.jp?g`) is therefore
  not the file the static uploads route serves at that address.
- `extname` is modelled in its POSIX form. The Windows variant of Node's
  path module is not part of this model.
