/** The naming decisions of the image host: the scheme of a returned
    address, the extension of a stored file, the stored file's name, and
    the address a caller gets back. */
module Naming {
  import opened Options
  import opened Strings
  import opened NodePath

  const HttpScheme: string := "http"
  const HttpsScheme: string := "https"
  /** The extension used when neither the URL nor the content type names one. */
  const DefaultExtension: string := ".jpg"

  /** The scheme of a returned address: plain HTTP for a host containing
      `localhost` or `127.0.0.1`, HTTPS for anything else. */
  function GetProtocol(host: string): (scheme: string)
    ensures scheme == HttpScheme || scheme == HttpsScheme
    ensures scheme == HttpScheme <==> Occurs(host, "localhost") || Occurs(host, "127.0.0.1")
  {
    if Includes(host, "localhost") || Includes(host, "127.0.0.1") then HttpScheme else HttpsScheme
  }

  /** An extension as `path.extname` returns one: empty, or starting with `.`. */
  predicate IsExtension(ext: string) {
    ext == [] || ext[0] == '.'
  }

  /** The extension the source URL names: `path.extname(url)` cut at its
      first `?`. */
  function UrlExtension(url: string): (ext: string)
    ensures ext <= ExtName(url)
    ensures '?' !in ext
    ensures |ext| < |ExtName(url)| ==> ExtName(url)[|ext|] == '?'
    ensures ext == [] <==> ExtName(url) == []
    ensures IsExtension(ext)
  {
    BeforeFirst(ExtName(url), '?')
  }

  /** The extension a response's content type implies, tried in the order
      png, jpeg or jpg, gif, webp; `.jpg` when none matches and when the
      header is missing or empty. */
  function ContentTypeExtension(contentType: Option<string>): (ext: string)
    ensures ext in {".png", ".jpg", ".gif", ".webp"}
    ensures ext == ".png" <==> contentType.Some? && Occurs(contentType.value, "png")
    ensures ext == ".gif" <==>
      contentType.Some? && !Occurs(contentType.value, "png")
      && !Occurs(contentType.value, "jpeg") && !Occurs(contentType.value, "jpg")
      && Occurs(contentType.value, "gif")
    ensures ext == ".webp" <==>
      contentType.Some? && !Occurs(contentType.value, "png")
      && !Occurs(contentType.value, "jpeg") && !Occurs(contentType.value, "jpg")
      && !Occurs(contentType.value, "gif") && Occurs(contentType.value, "webp")
  {
    if Truthy(contentType) then
      var t := contentType.value;
      if Includes(t, "png") then ".png"
      else if Includes(t, "jpeg") || Includes(t, "jpg") then ".jpg"
      else if Includes(t, "gif") then ".gif"
      else if Includes(t, "webp") then ".webp"
      else DefaultExtension
    else
      assert contentType.Some? ==> forall i :: !OccursAt(contentType.value, "png", i);
      assert contentType.Some? ==> forall i :: !OccursAt(contentType.value, "gif", i);
      assert contentType.Some? ==> forall i :: !OccursAt(contentType.value, "webp", i);
      DefaultExtension
  }

  /** The extension of a file fetched from `url` whose response declared
      `contentType`: the URL's own extension when it has one, the content
      type's otherwise. */
  function ResolveUrlExtension(url: string, contentType: Option<string>): (ext: string)
    ensures |ext| > 0 && ext[0] == '.' && '?' !in ext
  {
    var fromUrl := UrlExtension(url);
    if fromUrl != [] then fromUrl else ContentTypeExtension(contentType)
  }

  /** The name a file is stored under: the decimal timestamp in
      milliseconds followed by the extension. Reading the name back gives
      the timestamp and the extension it was built from. */
  function Filename(now: nat, ext: string): (name: string)
    ensures IsExtension(ext) ==> ParseFilename(name) == Some((now, ext))
  {
    var digits := Decimal(now);
    assert IsExtension(ext) ==> DigitRun(digits + ext) == |digits| by {
      if IsExtension(ext) {
        DigitRunOfDigitsThen(digits, ext);
      }
    }
    DecimalRoundTrip(now);
    assert (digits + ext)[..|digits|] == digits;
    assert (digits + ext)[|digits|..] == ext;
    digits + ext
  }

  /** Splits a stored name into its timestamp and its extension: a
      non-empty run of decimal digits with no superfluous leading zero,
      then the rest. Any other name is not one `Filename` builds. */
  function ParseFilename(name: string): Option<(nat, string)> {
    var k := DigitRun(name);
    if k == 0 || (name[0] == '0' && k > 1) then None
    else Some((DecimalValue(name[..k]), name[k..]))
  }

  /** The address a caller can fetch a stored file from: it starts with
      the scheme, and a slash-free name is its final path segment, behind
      the host and an `uploads` directory. */
  function Address(scheme: string, host: string, name: string): (address: string)
    ensures |address| >= |scheme| + 3 && address[..|scheme| + 3] == scheme + "://"
    ensures |address| >= |name| && address[|address| - |name|..] == name
    ensures '/' !in name ==> LastSegment(address) == name
    ensures '/' !in name ==>
      address[..|address| - |LastSegment(address)|] == scheme + "://" + host + "/uploads/"
  {
    var dir := scheme + "://" + host + "/uploads/";
    LastSegmentAfterSlash(dir, name);
    assert (dir + name)[..|scheme| + 3] == scheme + "://";
    assert (dir + name)[..|dir|] == dir;
    dir + name
  }

  /** A name reads back as a timestamp and an extension exactly when it is
      the stored name built from them. */
  lemma FilenameRoundTrip(name: string, now: nat, ext: string)
    requires IsExtension(ext)
    ensures ParseFilename(name) == Some((now, ext)) <==> name == Filename(now, ext)
  {
    if ParseFilename(name) == Some((now, ext)) {
      var k := DigitRun(name);
      DecimalCanonical(name[..k]);
      assert name == name[..k] + name[k..];
    }
  }

  /** Two stored names are equal only when both timestamp and extension
      are: files stored in different milliseconds never share a name. */
  lemma FilenameInjective(now1: nat, ext1: string, now2: nat, ext2: string)
    requires IsExtension(ext1) && IsExtension(ext2)
    ensures Filename(now1, ext1) == Filename(now2, ext2) <==> now1 == now2 && ext1 == ext2
  {
    FilenameRoundTrip(Filename(now1, ext1), now2, ext2);
  }

  /** Once the URL names an extension, the content type plays no part. */
  lemma UrlExtensionTakesPrecedence(url: string, contentType1: Option<string>, contentType2: Option<string>)
    requires UrlExtension(url) != []
    ensures ResolveUrlExtension(url, contentType1) == UrlExtension(url)
    ensures ResolveUrlExtension(url, contentType1) == ResolveUrlExtension(url, contentType2)
  {
  }

  /** Without an extension in the URL, a missing content type, and one
      naming none of the known formats, both give `.jpg`. */
  lemma UnknownContentTypeGivesDefault(url: string, contentType: Option<string>)
    requires UrlExtension(url) == []
    requires contentType.Some? ==>
      !Occurs(contentType.value, "png") && !Occurs(contentType.value, "jpeg")
      && !Occurs(contentType.value, "jpg") && !Occurs(contentType.value, "gif")
      && !Occurs(contentType.value, "webp")
    ensures ResolveUrlExtension(url, contentType) == DefaultExtension
  {
  }

  /** Without an extension in the URL, the content type alone decides,
      in its order png, jpeg or jpg, gif, webp. */
  lemma NoUrlExtensionMeansContentTypeDecides(url: string, contentType: Option<string>)
    requires UrlExtension(url) == []
    ensures ResolveUrlExtension(url, contentType) == ContentTypeExtension(contentType)
  {
  }

  /** The address is plain HTTP exactly when the host contains `localhost`
      or `127.0.0.1`. */
  lemma AddressSchemeFollowsHost(host: string, name: string)
    ensures Address(GetProtocol(host), host, name)[..7] == "http://"
      <==> Occurs(host, "localhost") || Occurs(host, "127.0.0.1")
  {
    var a := Address(GetProtocol(host), host, name);
    if GetProtocol(host) == HttpsScheme {
      assert a[4] == 's';
    }
  }

  /** Text after the last `/`. */
  function LastSegment(s: string): (r: string)
    ensures '/' !in r
    ensures |r| <= |s| && r == s[|s| - |r|..]
  {
    var start := SegStart(s, |s|);
    assert forall j :: 0 <= j < |s| - start ==> s[start..][j] == s[start + j];
    s[start..]
  }

  /** After a `/`, a slash-free name is the last segment. */
  lemma LastSegmentAfterSlash(dir: string, name: string)
    requires dir != [] && dir[|dir| - 1] == '/'
    ensures '/' !in name ==> LastSegment(dir + name) == name
  {
    if '/' !in name {
      var a := dir + name;
      var k := |dir|;
      assert a[k - 1] == '/';
      assert forall j :: k <= j < |a| ==> a[j] == name[j - k];
      assert forall j :: k <= j < |a| ==> a[j] != '/';
      assert SegStart(a, |a|) == k;
      assert a[k..] == name;
    }
  }


  /** Every resolved extension is a well-formed, slash-free one. */
  lemma ResolvedExtensionHasNoSlash(url: string, contentType: Option<string>)
    ensures IsExtension(ResolveUrlExtension(url, contentType))
    ensures '/' !in ResolveUrlExtension(url, contentType)
  {
  }

  /** A query string is cut off a URL's extension. */
  lemma QueryIsCutFromUrlExtension(url: string)
    requires url == "https://x.com/a.png?x=1"
    ensures UrlExtension(url) == ".png"
  {
    ExtNameOfUrlWithQuery(url);
    assert BeforeFirst(".png?x=1", '?') == ".png";
  }

  /** A URL whose last segment has no dot names no extension. */
  lemma ExtensionlessUrl(url: string)
    requires url == "https://x.com/image"
    ensures UrlExtension(url) == []
  {
    ExtNameWithoutInnerDot("https://x.com/", "image");
    assert "https://x.com/" + "image" == url;
  }

  /** Only a query is cut from the URL's extension: a fragment stays in
      it, and so in the stored name. */
  lemma FragmentStaysInUrlExtension(url: string)
    requires url == "https://x.com/a.png#top"
    ensures UrlExtension(url) == ".png#top"
  {
    ExtNameTakesLastDot("https://x.com/", "a", "png#top");
    assert "https://x.com/" + "a" + "." + "png#top" == url;
    assert '?' !in ".png#top";
  }

  /** With no extension in the URL, the content type decides. */
  lemma ExtensionlessUrlUsesContentType(url: string, contentType: string)
    requires url == "https://x.com/image" && contentType == "image/webp"
    ensures ResolveUrlExtension(url, Some(contentType)) == ".webp"
  {
    ExtensionlessUrl(url);
    assert OccursAt(contentType, "webp", 6);
    MissingCharMeansNoOccurrence(contentType, "png", 'n');
    MissingCharMeansNoOccurrence(contentType, "jpeg", 'j');
    MissingCharMeansNoOccurrence(contentType, "jpg", 'j');
    MissingCharMeansNoOccurrence(contentType, "gif", 'f');
  }

  /** With no extension in the URL and no content type, `.jpg`. */
  lemma ExtensionlessUrlWithoutContentType(url: string)
    requires url == "https://x.com/image"
    ensures ResolveUrlExtension(url, None) == ".jpg"
  {
    ExtensionlessUrl(url);
  }

  /** `png` outranks `gif` in the same content type. */
  lemma PngOutranksGif(contentType: string)
    requires contentType == "image/png; alt=gif"
    ensures ContentTypeExtension(Some(contentType)) == ".png"
  {
    assert OccursAt(contentType, "png", 6);
  }
}
