/** The three routes of the image host, each a pure function from what
    the request carries and what its I/O reported to the response sent and
    the name of the file a write stream was opened on. Directories are not
    modelled: the form route stores under `./uploads` of the working
    directory, the URL route writes under `uploads` next to the script. */
module Handlers {
  import opened Options
  import opened Strings
  import opened NodePath
  import opened Naming

  const NoFileMessage: string := "No file uploaded"
  const UrlRequiredMessage: string := "URL required"
  const SaveFailedMessage: string := "Failed to save image"
  const UrlParameterMessage: string := "URL parameter required"
  const ProxyFailedMessage: string := "Failed to fetch image"

  /** A response body as the routes write it. */
  datatype Body =
    | Text(text: string)                     // res.send(text)
    | ImageJson(imageUrl: string)            // res.json({ imageUrl })
    | ErrorJson(error: string)               // res.json({ error })
    | Piped(contentType: Option<string>)     // remote bytes piped through, header mirrored

  datatype Response = Response(status: nat, body: Body)

  /** What a request leaves behind: its response, and the name of the file
      it opened a write stream on, if any. After a failed write that file may
      be incomplete, or missing when the stream never opened. */
  datatype Outcome = Outcome(response: Response, written: Option<string>)

  /** The file field of a multipart upload, by its client-side name. */
  datatype UploadedFile = UploadedFile(originalName: string)

  /** What the outbound GET reported: the response's content-type header,
      or the error's message. */
  datatype Fetch = Fetched(contentType: Option<string>) | FetchFailed(message: string)

  /** How the write stream to disk ended. */
  datatype Write = Finished | WriteFailed

  /** A success response whose address, under `/uploads/`, carries the name
      of the file just written. */
  predicate AddressesWrittenName(o: Outcome, host: string) {
    && o.written.Some?
    && o.response.body == ImageJson(Address(GetProtocol(host), host, o.written.value))
  }

  /** The name the upload middleware gives a form upload received at `now`:
      the timestamp and the client file name's extension, verbatim. */
  function FormFilename(now: nat, file: UploadedFile): (name: string)
    ensures ParseFilename(name) == Some((now, ExtName(file.originalName)))
    ensures '/' !in name
  {
    var name := Filename(now, ExtName(file.originalName));
    assert forall j :: 0 <= j < |name| ==> name[j] != '/' by {
      var d := Decimal(now);
      assert forall j :: 0 <= j < |d| ==> name[j] == d[j];
    }
    name
  }

  /** The name a URL upload received at `now` is stored under. */
  function UrlFilename(now: nat, url: string, contentType: Option<string>): (name: string)
    ensures ParseFilename(name) == Some((now, ResolveUrlExtension(url, contentType)))
    ensures '/' !in name
  {
    var ext := ResolveUrlExtension(url, contentType);
    ResolvedExtensionHasNoSlash(url, contentType);
    var name := Filename(now, ext);
    assert forall j :: 0 <= j < |name| ==> name[j] != '/' by {
      var d := Decimal(now);
      assert forall j :: 0 <= j < |d| ==> name[j] == d[j];
      assert forall j :: |d| <= j < |name| ==> name[j] == ext[j - |d|];
    }
    name
  }

  /** POST /upload: the upload middleware has already stored the file
      under its generated name; the route answers with its address. */
  function Upload(file: Option<UploadedFile>, host: string, now: nat): (o: Outcome)
    ensures o.response.status == 200 || o.response.status == 400
    ensures o.response.status == 400 <==> file.None?
    ensures file.None? ==> o.response.body == Text(NoFileMessage) && o.written.None?
    ensures file.Some? ==> AddressesWrittenName(o, host)
    ensures file.Some? ==> ParseFilename(o.written.value) == Some((now, ExtName(file.value.originalName)))
  {
    match file
    case None => Outcome(Response(400, Text(NoFileMessage)), None)
    case Some(f) =>
      var name := FormFilename(now, f);
      Outcome(Response(200, ImageJson(Address(GetProtocol(host), host, name))), Some(name))
  }

  /** POST /upload-url: fetch the image, pick its extension, stream it to
      disk, and answer once the write has ended. */
  function UploadUrl(imageUrl: Option<string>, fetch: Fetch, write: Write, host: string, now: nat): (o: Outcome)
    ensures o.response.status in {200, 400, 500}
    ensures o.response.status == 400 <==> !Truthy(imageUrl)
    ensures !Truthy(imageUrl) ==> o.response.body == ErrorJson(UrlRequiredMessage) && o.written.None?
    ensures o.response.status == 200 <==> Truthy(imageUrl) && fetch.Fetched? && write.Finished?
    ensures o.response.status == 200 ==> AddressesWrittenName(o, host)
    ensures o.written.Some? <==> Truthy(imageUrl) && fetch.Fetched?
    ensures o.written.Some? ==>
      ParseFilename(o.written.value) == Some((now, ResolveUrlExtension(imageUrl.value, fetch.contentType)))
    ensures Truthy(imageUrl) && fetch.FetchFailed? ==>
      o.response == Response(500, ErrorJson(fetch.message))
    ensures Truthy(imageUrl) && fetch.Fetched? && write.WriteFailed? ==>
      o.response == Response(500, ErrorJson(SaveFailedMessage))
  {
    if !Truthy(imageUrl) then
      Outcome(Response(400, ErrorJson(UrlRequiredMessage)), None)
    else
      match fetch
      case FetchFailed(message) => Outcome(Response(500, ErrorJson(message)), None)
      case Fetched(contentType) =>
        var name := UrlFilename(now, imageUrl.value, contentType);
        match write
        case Finished =>
          Outcome(Response(200, ImageJson(Address(GetProtocol(host), host, name))), Some(name))
        case WriteFailed =>
          Outcome(Response(500, ErrorJson(SaveFailedMessage)), Some(name))
  }

  /** GET /proxy: fetch the URL and pipe the remote body straight back,
      mirroring a non-empty content-type header; nothing touches the disk. */
  function Proxy(url: Option<string>, fetch: Fetch): (o: Outcome)
    ensures o.written.None?
    ensures o.response.status == 400 <==> !Truthy(url)
    ensures !Truthy(url) ==> o.response.body == Text(UrlParameterMessage)
    ensures o.response.status == 500 <==> Truthy(url) && fetch.FetchFailed?
    ensures o.response.status == 500 ==> o.response.body == ErrorJson(ProxyFailedMessage)
    ensures o.response.status == 200 <==> Truthy(url) && fetch.Fetched?
    ensures o.response.status == 200 ==>
      o.response.body == Piped(if Truthy(fetch.contentType) then fetch.contentType else None)
  {
    if !Truthy(url) then
      Outcome(Response(400, Text(UrlParameterMessage)), None)
    else
      match fetch
      case FetchFailed(_) => Outcome(Response(500, ErrorJson(ProxyFailedMessage)), None)
      case Fetched(contentType) =>
        var header := if Truthy(contentType) then contentType else None;
        Outcome(Response(200, Piped(header)), None)
  }

  /** A missing or empty URL is refused before anything is fetched or
      written: what the fetch and the write would have reported, and the
      clock, make no difference. */
  lemma UrlRequiredBeforeFetch(imageUrl: Option<string>, fetch1: Fetch, fetch2: Fetch,
                               write1: Write, write2: Write, host: string, now1: nat, now2: nat)
    requires !Truthy(imageUrl)
    ensures UploadUrl(imageUrl, fetch1, write1, host, now1) == UploadUrl(imageUrl, fetch2, write2, host, now2)
    ensures UploadUrl(imageUrl, fetch1, write1, host, now1)
      == Outcome(Response(400, ErrorJson(UrlRequiredMessage)), None)
  {
  }

  /** The upload-by-URL route passes the fetch error's own message on,
      while the proxy route replaces it with a fixed one. */
  lemma FetchErrorMessages(url: string, message1: string, message2: string, write: Write, host: string, now: nat)
    requires url != []
    ensures message1 != message2 ==>
      UploadUrl(Some(url), FetchFailed(message1), write, host, now)
      != UploadUrl(Some(url), FetchFailed(message2), write, host, now)
    ensures Proxy(Some(url), FetchFailed(message1)) == Proxy(Some(url), FetchFailed(message2))
  {
  }

  /** Form uploads and URL uploads build their answer the same way: with
      the same host, timestamp and extension they store the same name and
      return the same address. */
  lemma FormAndUrlAnswersAgree(originalName: string, url: string, contentType: Option<string>, host: string, now: nat)
    requires url != []
    requires ExtName(originalName) == ResolveUrlExtension(url, contentType)
    ensures Upload(Some(UploadedFile(originalName)), host, now)
      == UploadUrl(Some(url), Fetched(contentType), Finished, host, now)
  {
  }

  /** Requests handled in different milliseconds never write the same
      file, whichever route handles them and whatever they upload. */
  lemma DistinctTimestampsWriteDistinctFiles(
    file1: Option<UploadedFile>, file2: Option<UploadedFile>,
    url1: Option<string>, fetch1: Fetch, write1: Write,
    url2: Option<string>, fetch2: Fetch, write2: Write,
    host1: string, host2: string, now1: nat, now2: nat)
    requires now1 != now2
    ensures var a := Upload(file1, host1, now1).written;
            var b := Upload(file2, host2, now2).written;
            a.None? || a != b
    ensures var a := UploadUrl(url1, fetch1, write1, host1, now1).written;
            var b := UploadUrl(url2, fetch2, write2, host2, now2).written;
            a.None? || a != b
    ensures var a := Upload(file1, host1, now1).written;
            var b := UploadUrl(url2, fetch2, write2, host2, now2).written;
            a.None? || a != b
  {
  }

  /** The address a successful form upload returns has, as text, the name
      of the file it wrote as its last path segment. The name is not
      URL-escaped, so this says nothing about which path a client requests
      when the name holds `#`, `?` or `%`. */
  lemma FormAddressNamesWrittenFile(file: Option<UploadedFile>, host: string, now: nat)
    ensures var o := Upload(file, host, now);
            o.response.status == 200 ==> LastSegment(o.response.body.imageUrl) == o.written.value
  {
  }

  /** The same holds for a successful URL upload. */
  lemma UrlAddressNamesWrittenFile(imageUrl: Option<string>, fetch: Fetch, write: Write, host: string, now: nat)
    ensures var o := UploadUrl(imageUrl, fetch, write, host, now);
            o.response.status == 200 ==> LastSegment(o.response.body.imageUrl) == o.written.value
  {
  }

  /** A host containing `localhost` or `127.0.0.1` gets a plain-HTTP
      address, any other host an HTTPS one. */
  lemma UploadSchemeFollowsHost(file: UploadedFile, host: string, now: nat)
    ensures var o := Upload(Some(file), host, now);
            o.response.body.imageUrl[..7] == "http://"
            <==> Occurs(host, "localhost") || Occurs(host, "127.0.0.1")
  {
    AddressSchemeFollowsHost(host, FormFilename(now, file));
  }
}
