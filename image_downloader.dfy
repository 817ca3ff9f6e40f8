/** The download flow of image_downloader.py: resolve the asset token from
    the home page, then fetch sheets.png and renders.png into ./images. The
    network is a parameter: the home page reply, and a function from a URL
    to the reply its GET produces. */
module ImageDownloader {
  import opened Base
  import opened Text
  import opened AssetToken

  const BASE_REALMEYE_URL: string := "https://www.realmeye.com"
  const IMAGES_DIR: string := "./images"

  /** What `requests.get(BASE_REALMEYE_URL)` produced: a transport failure
      (a RequestException) or a status and the decoded page text. */
  datatype PageReply = PageUnreachable | Page(status: int, text: string)

  /** What a streamed `requests.get(url, stream=True)` produced: a transport
      failure, or a status, the chunks `iter_content` delivered in order and
      whether the stream then broke off with a RequestException. */
  datatype Reply = Unreachable | Reply(status: int, chunks: seq<Bytes>, brokeOff: bool)

  /** `raise_for_status()` raises for client and server errors only. */
  predicate RaisesForStatus(status: int) {
    400 <= status < 600
  }

  /** The reply got past `raise_for_status()`, so the file is opened. */
  predicate StatusPasses(reply: Reply) {
    reply.Reply? && !RaisesForStatus(reply.status)
  }

  /** `_get_asset_token()`: raises when the home page cannot be fetched or
      has an error status, and otherwise returns the first token on the
      page or "gu". */
  function GetAssetToken(home: PageReply): (r: Result<string>)
    ensures r.RequestError? <==> home.PageUnreachable? || RaisesForStatus(home.status)
    ensures r.Ok? ==> r.value == TokenFromPage(home.text)
  {
    if home.PageUnreachable? || RaisesForStatus(home.status) then RequestError
    else Ok(TokenFromPage(home.text))
  }

  /** The token `Download_Images` goes on with: the fetched one, or "gu"
      when fetching it raised. */
  function ResolvedToken(home: PageReply): (token: string)
    ensures token != [] && '/' !in token
    ensures home.PageUnreachable? || RaisesForStatus(home.status) ==> token == FALLBACK_TOKEN
    ensures home.Page? && !RaisesForStatus(home.status) ==> token == TokenFromPage(home.text)
  {
    TokenIsOneSegment(if home.Page? then home.text else "");
    match GetAssetToken(home)
    case Ok(t) => t
    case RequestError => FALLBACK_TOKEN
  }

  function SheetsUrl(token: string): string {
    BASE_REALMEYE_URL + "/s/" + token + "/img/sheets.png"
  }

  function RendersUrl(token: string): string {
    BASE_REALMEYE_URL + "/s/" + token + "/css/renders.png"
  }

  /** The token segment of an asset URL: what follows BASE_REALMEYE_URL and
      "/s/" up to the next '/'. */
  function TokenOfUrl(url: string): Option<string> {
    var p := |BASE_REALMEYE_URL| + 3;
    if |url| >= p && url[..p] == BASE_REALMEYE_URL + "/s/" then Some(url[p..IndexOf(url, '/', p)])
    else None
  }

  /** A URL built as `prefix + token + suffix` where the suffix starts with
      '/' carries exactly that token. */
  lemma TokenOfBuiltUrl(token: string, suffix: string)
    requires token != [] && '/' !in token && |suffix| > 0 && suffix[0] == '/'
    ensures TokenOfUrl(BASE_REALMEYE_URL + "/s/" + token + suffix) == Some(token)
  {
    var prefix := BASE_REALMEYE_URL + "/s/";
    var url := prefix + token + suffix;
    var p := |prefix|;
    assert url[..p] == prefix;
    assert url[p..p + |token|] == token;
    forall m | p <= m < p + |token|
      ensures url[m] != '/'
    {
      assert url[m] == token[m - p];
    }
    assert url[p + |token|] == suffix[0];
    IndexOfIs(url, '/', p, p + |token|);
  }

  /** Both asset URLs carry the one token they were built from, so both
      downloads of a run use the same token. */
  lemma AssetUrlsCarryToken(token: string)
    requires token != [] && '/' !in token
    ensures TokenOfUrl(SheetsUrl(token)) == Some(token)
    ensures TokenOfUrl(RendersUrl(token)) == Some(token)
  {
    TokenOfBuiltUrl(token, "/img/sheets.png");
    TokenOfBuiltUrl(token, "/css/renders.png");
  }

  /** The bytes a file holds after the chunks were written to it in order. */
  function Concat(chunks: seq<Bytes>): Bytes {
    if chunks == [] then [] else chunks[0] + Concat(chunks[1..])
  }

  /** Writing one more chunk appends it. */
  lemma {:induction false} ConcatSnoc(chunks: seq<Bytes>, chunk: Bytes)
    ensures Concat(chunks + [chunk]) == Concat(chunks) + chunk
  {
    if chunks != [] {
      assert (chunks + [chunk])[1..] == chunks[1..] + [chunk];
      ConcatSnoc(chunks[1..], chunk);
    }
  }

  /** `os.path.join("./images", name)` for the two names used here. */
  function ImagePath(name: string): string {
    IMAGES_DIR + "/" + name
  }

  /** The files after `_download_image(name, ...)` received `reply`: the
      file under ./images is (re)written only when the status check
      passed, and then holds the delivered chunks in order. */
  function AfterDownload(files: map<string, Bytes>, name: string, reply: Reply): (after: map<string, Bytes>)
    ensures StatusPasses(reply) ==> ImagePath(name) in after && after[ImagePath(name)] == Concat(reply.chunks)
    ensures forall p :: p in after && (p !in files || after[p] != files[p]) ==>
      p == ImagePath(name) && StatusPasses(reply)
    ensures files.Keys <= after.Keys
  {
    if StatusPasses(reply) then files[ImagePath(name) := Concat(reply.chunks)] else files
  }

  /** `_download_image` raised: the GET failed, the status check failed, or
      the stream broke off after the chunks it delivered. */
  predicate Raises(reply: Reply) {
    !StatusPasses(reply) || reply.brokeOff
  }

  /** The process's view of the outside world: the files on disk, whether
      ./images exists, and the URLs requested so far, in order. */
  class Downloader {
    var files: map<string, Bytes>
    var imagesDirMade: bool
    var requested: seq<string>

    constructor (files: map<string, Bytes>)
      ensures this.files == files && !imagesDirMade && requested == []
    {
      this.files := files;
      imagesDirMade := false;
      requested := [];
    }

    /** `_download_image(name, url)`; `ok` is false when it raised. */
    method DownloadImage(name: string, url: string, fetch: string -> Reply) returns (ok: bool)
      modifies this
      ensures requested == old(requested) + [url]
      ensures files == AfterDownload(old(files), name, fetch(url))
      ensures imagesDirMade == (old(imagesDirMade) || StatusPasses(fetch(url)))
      ensures ok == !Raises(fetch(url))
    {
      requested := requested + [url];
      var reply := fetch(url);
      if reply.Unreachable? || RaisesForStatus(reply.status) {
        return false;
      }
      imagesDirMade := true;
      var path := ImagePath(name);
      files := files[path := []];
      var i := 0;
      while i < |reply.chunks|
        invariant 0 <= i <= |reply.chunks|
        invariant files == old(files)[path := Concat(reply.chunks[..i])]
        invariant requested == old(requested) + [url] && imagesDirMade
      {
        ConcatSnoc(reply.chunks[..i], reply.chunks[i]);
        assert reply.chunks[..i + 1] == reply.chunks[..i] + [reply.chunks[i]];
        files := files[path := files[path] + reply.chunks[i]];
        i := i + 1;
      }
      assert reply.chunks[..i] == reply.chunks;
      ok := !reply.brokeOff;
    }

    /** `Download_Images()`: one GET for the token, then sheets.png and
        renders.png in that order; a failure of either download is caught
        and does not stop the other. */
    method DownloadImages(home: PageReply, fetch: string -> Reply)
      modifies this
      ensures var token := ResolvedToken(home);
        requested == old(requested) + [BASE_REALMEYE_URL, SheetsUrl(token), RendersUrl(token)]
        && files == AfterDownload(AfterDownload(old(files), "sheets.png", fetch(SheetsUrl(token))),
                                  "renders.png", fetch(RendersUrl(token)))
        && imagesDirMade == (old(imagesDirMade) || StatusPasses(fetch(SheetsUrl(token)))
                             || StatusPasses(fetch(RendersUrl(token))))
    {
      requested := requested + [BASE_REALMEYE_URL];
      var assetToken;
      match GetAssetToken(home) {
        case Ok(t) => assetToken := t;
        case RequestError => assetToken := FALLBACK_TOKEN;
      }
      var _ := DownloadImage("sheets.png", SheetsUrl(assetToken), fetch);
      var _ := DownloadImage("renders.png", RendersUrl(assetToken), fetch);
    }
  }
}
