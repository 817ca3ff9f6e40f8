# RealmDeathSnitch sprite download, modelled in Dafny

RealmDeathSnitch fetches two sprite sheets, `sheets.png` and `renders.png`,
from RealmEye. Their URLs carry an asset-versioning token that the site
rotates. This project models the two scripts that handle this.

- `image_downloader.py` reads the token from the RealmEye home page.
  The token is the first capture of `"/s/<token>/css/<rest>.css"`, or
  `"gu"` when there is no match or the page cannot be fetched. The script
  then builds both asset URLs from that token and streams each image into
  `./images/<name>`. A failed download is caught and does not stop the
  other one.
- `imageextractiontests/imageextractor.py` is a browser-driven capture
  tool. Its `on_response_received` callback records interesting responses
  in a `want` map. Its `on_loading_finished` callback consumes the entry,
  derives a file name (from Content-Disposition, else the URL basename,
  else the content type) and filters on the target key. It saves the body
  under that name when the path is free, and otherwise under the first
  free `root-i.ext` with i >= 2.

Neither script keeps a URL cache or reads any page other than the home page.

Files and modules:

- `base.dfy` (`Base`): `Option`, `Result` (returns, or raises a
  `requests` exception) and bytes.
- `text.dfy` (`Text`): ASCII `lower()`, the `in` operator, `find`/`rfind`,
  `strip`, and `str(n)` with its inverse.
- `asset_token.dfy` (`AssetToken`): the token regex.
  - `OccursWith` is a declarative reading of the regex.
  - `MatchAt` is the engine's behaviour at one position.
  - `FirstMatch` is the leftmost scan of `re.search`.
- `image_downloader.py` becomes `image_downloader.dfy` (`ImageDownloader`).
  - Pure token resolution and URL construction.
  - A `Downloader` class holding the files on disk, whether `./images`
    exists, and the log of URLs requested.
  - The network is a parameter: the home-page reply, and a function from
    URL to streamed reply.
- `url_paths.dfy` (`UrlPaths`): the path component of `urlparse` (scheme,
  netloc, fragment, query, `;params`), plus `os.path.basename`,
  `os.path.splitext` and `os.path.join`.
- `disposition.dfy` (`Disposition`): `FNAME_RE`, hand-coded with the
  backtracking order of Python's engine, and two worked examples.
- `image_extractor.dfy` (`ImageExtractor`):
  - `pick_ext_from_ct`.
  - `extract_name`: a method with the header loop, proved equal to
    `NameFor`.
  - `ensure_unique`: a method with the counter loop, proved equal to
    `UniquePath`.
  - A `Sniffer` class whose two methods are the callbacks over `want`.

## Model

| member | source | states |
|---|---|---|
| AssetToken.MatchAtComplete | image_downloader.py:15 | every occurrence of `"/s/<token>/css/<rest>.css"` (token without '/', rest without '"', both non-empty) is matched at its position with that token as the capture |
| AssetToken.MatchAtSound | image_downloader.py:15 | whatever the matcher captures at a position is the token of an occurrence of the pattern there |
| AssetToken.FirstMatch | image_downloader.py:15 | the scan stops at a position where the pattern matches, and no earlier position matches |
| AssetToken.SearchTokenCorrect | image_downloader.py:15-17 | the search captures the token of the leftmost occurrence, and finds nothing exactly when the pattern occurs nowhere |
| AssetToken.LeftmostOccurrenceWins | image_downloader.py:15-17 | when the first occurrence carries token t, the page gives t, whatever later occurrences carry |
| AssetToken.NoOccurrenceGivesFallback | image_downloader.py:15-19 | a page with no occurrence gives the fallback token "gu" |
| AssetToken.TokenIsOneSegment | image_downloader.py:15-19 | the token read from any page is non-empty and contains no '/' |
| ImageDownloader.GetAssetToken | image_downloader.py:11-19 | raises exactly when the home page is unreachable or its status is 400-599; otherwise returns the token read from the page text |
| ImageDownloader.ResolvedToken | image_downloader.py:36-40 | the token the run continues with is non-empty and '/'-free; it is "gu" when fetching the home page raised, and the page's token otherwise |
| ImageDownloader.AssetUrlsCarryToken | image_downloader.py:43-51 | both `.../s/<token>/img/sheets.png` and `.../s/<token>/css/renders.png` carry exactly the one token they were built from |
| ImageDownloader.ConcatSnoc | image_downloader.py:29-30 | writing one more chunk appends it to what the file already holds |
| ImageDownloader.AfterDownload | image_downloader.py:22-30 | `./images/<name>` is written only when the status check passed, and then holds the chunks concatenated in order; no other file changes; no file disappears |
| ImageDownloader.Downloader.DownloadImage | image_downloader.py:22-32 | logs the GET; the new files are `AfterDownload` of the old; `./images` is made only after a passing status; reports a raise for a failed GET, a 4xx/5xx status or a broken stream |
| ImageDownloader.Downloader.DownloadImages | image_downloader.py:35-56 | requests the home page, then the sheets URL, then the renders URL, all built from the one resolved token; the renders download happens whatever the sheets download did; the files end as the two downloads applied in that order |
| Text.DecimalRoundTrip | imageextractiontests/imageextractor.py:49 | reading back `str(i)` gives `i`, so different counters give different names |
| UrlPaths.UrlPath | imageextractiontests/imageextractor.py:37 | the path that `urlparse` gives never contains '#' or '?' |
| UrlPaths.Basename | imageextractiontests/imageextractor.py:37 | the basename contains no '/' and is the part of the path after its last '/' |
| UrlPaths.SplitExt | imageextractiontests/imageextractor.py:46 | root + ext is the path; when the last component has a '.' after some non-dot character, ext is everything from the last '.' on; otherwise ext is empty |
| Disposition.FilenameParam | imageextractiontests/imageextractor.py:12 | a captured file name is non-empty and holds no '"' and no ';' |
| Disposition.FirstFilename | imageextractiontests/imageextractor.py:33 | the file-name search stops at a matching position with no match before it |
| Disposition.LeftmostFilenameWins | imageextractiontests/imageextractor.py:33-35 | the capture is the one at the leftmost matching position |
| Disposition.NoFilenameWithoutKeyword | imageextractiontests/imageextractor.py:12 | a value without "filename" (in any case) yields no capture |
| Disposition.QuotedExample | imageextractiontests/imageextractor.py:12 | `attachment; filename="sheets.png"` captures `sheets.png` |
| Disposition.ExtendedExample | imageextractiontests/imageextractor.py:12 | `attachment; filename*=UTF-8''sheets.png` captures `sheets.png`, without the charset prefix |
| ImageExtractor.PickExt | imageextractiontests/imageextractor.py:17-23 | result is one of .png .jpg .webp .gif .bin; each is returned exactly when its keyword occurs (ignoring case) and no keyword of higher priority does, in the order png, jpeg/jpg, webp, gif; .bin exactly when none occurs |
| ImageExtractor.PickExtIgnoresCase | imageextractiontests/imageextractor.py:18 | content types equal up to case give the same extension |
| ImageExtractor.PickExtMissingType | imageextractiontests/imageextractor.py:18-23 | None and "" both give ".bin" |
| ImageExtractor.Get | imageextractiontests/imageextractor.py:73 | `headers.get(name)` returns a value stored under exactly that name, and None only when no header has that name |
| ImageExtractor.DispositionHeaderIsFirst | imageextractiontests/imageextractor.py:27-31 | the first header whose name lower-cases to "content-disposition" is used; later ones are ignored |
| ImageExtractor.NoDispositionHeader | imageextractiontests/imageextractor.py:27-31 | without such a header the value is "" |
| ImageExtractor.NamePriority | imageextractiontests/imageextractor.py:32-41 | name = the stripped Content-Disposition capture if there is one, else the URL path's basename if non-empty, else "image" + extension of the content type |
| ImageExtractor.StripKeepsQuoteFree | imageextractiontests/imageextractor.py:35 | the trailing `strip('"')` changes nothing, since the capture holds no quote |
| ImageExtractor.ExtractName | imageextractiontests/imageextractor.py:25-41 | the method with the header loop and `break` returns `NameFor` |
| ImageExtractor.CandidateInjective | imageextractiontests/imageextractor.py:49 | different counters give different candidate names |
| ImageExtractor.TriedGrows | imageextractiontests/imageextractor.py:48-52 | each step tries a name not tried before |
| ImageExtractor.FirstFreeIndex | imageextractiontests/imageextractor.py:47-52 | the loop ends at the first counter >= its start whose name is free, because only finitely many paths exist |
| ImageExtractor.UniquePath | imageextractiontests/imageextractor.py:43-52 | the result never exists; it is the path itself when that is free, else `root-n.ext` for the least n >= 2 that is free |
| ImageExtractor.EnsureUnique | imageextractiontests/imageextractor.py:43-52 | the method with the counter loop returns `UniquePath` |
| ImageExtractor.EmptyKeyTracksAll | imageextractiontests/imageextractor.py:76-79 | with an empty target key every response is recorded |
| ImageExtractor.Sniffer.constructor | imageextractiontests/imageextractor.py:64-67 | `want` starts empty and the output directory exists |
| ImageExtractor.Sniffer.OnResponseReceived | imageextractiontests/imageextractor.py:69-79 | the response is put in `want` under its request id exactly when its content type mentions "image", the key occurs in the URL, or the key is non-empty and occurs in a header value (all ignoring case); `want` is otherwise unchanged |
| ImageExtractor.Sniffer.OnLoadingFinished | imageextractiontests/imageextractor.py:81-101 | an untracked id changes nothing; a tracked id leaves `want` before anything else, so it is handled once; a body is saved only when it was obtained and the key is empty or occurs in the name or URL; it goes to `UniquePath(join("images", name))`; no earlier file is overwritten |

## Left out

- Playwright: browser launch, CDP session, navigation, waits and callback registration (imageextractiontests/imageextractor.py:54-62, 103-108). The callbacks are methods applied to the events the browser would deliver, with missing event fields already given their defaults (`""`, `{}`).
- Network I/O (`requests.get`, timeouts, redirects, decoding of `response.text`). A reply is a parameter: unreachable, or a status with the page text or the streamed chunks.
- Base64 decoding of response bodies (imageextractiontests/imageextractor.py:88). `OnLoadingFinished` receives the decoded bytes, or `None` when fetching the body raised.
- `print` output.
- Operating-system errors: a failing `os.makedirs`, `open` or `write`. These are caught by the generic `except Exception` branches; the model treats the filesystem as a map and a set that never fail.
- ImageExtractor.Sniffer.OnLoadingFinished: compares paths as plain strings, where `os.path.exists` resolves the paths on disk. So "images/" (from an all-whitespace file name) does not count as the existing directory "images", and a trailing '/', '.', '..' or a doubled '/' is not normalised. The source would save such a body under "images/-2"; the model saves it under "images/".
- ImageExtractor.Sniffer.OnLoadingFinished: does not model the `ValueError` that `urlparse` raises for a malformed IPv6 host; the source catches it and skips the body.
- UrlPaths.UrlPath: follows `urlparse` of current CPython. It omits stripping leading control characters and spaces, removing tab/CR/LF, and the scheme rules of older versions.
- Text.Lower: lower-cases ASCII letters only. Python's `str.lower()` and the regex `re.I` flag also fold non-ASCII letters. `str.isspace()` is modelled with its full set of whitespace characters.
