/** The parts of `urllib.parse.urlparse` and `os.path` (POSIX) that
    imageextractor.py relies on: the path of a URL, its last component,
    the split of a file name into root and extension, and `join`. */
module UrlPaths {
  import opened Text

  predicate IsAsciiLetter(c: char) {
    'a' <= c <= 'z' || 'A' <= c <= 'Z'
  }

  /** `urllib.parse.scheme_chars`. */
  predicate IsSchemeChar(c: char) {
    IsAsciiLetter(c) || '0' <= c <= '9' || c == '+' || c == '-' || c == '.'
  }

  /** The schemes for which `urlparse` splits ";params" off the path. */
  predicate UsesParams(scheme: string) {
    scheme in ["", "ftp", "hdl", "prospero", "http", "imap", "https", "shttp", "rtsp",
               "rtsps", "rtspu", "sip", "sips", "mms", "sftp", "tel"]
  }

  /** `urlsplit`'s scheme step: the text before the first ':' is the
      scheme when it is non-empty, starts with an ASCII letter and holds
      only scheme characters. Gives the lower-cased scheme and the rest. */
  function SplitScheme(url: string): (string, string) {
    var i := IndexOf(url, ':', 0);
    if 0 < i < |url| && IsAsciiLetter(url[0]) && forall k | 0 <= k < i :: IsSchemeChar(url[k])
    then (Lower(url[..i]), url[i + 1..])
    else ("", url)
  }

  /** `urlsplit`'s netloc step: after "//", the network location runs to
      the first '/', '?' or '#'; what follows it is returned. */
  function DropNetloc(rest: string): string {
    if |rest| >= 2 && rest[..2] == "//" then
      rest[FindFrom(rest, 2, c => c == '/' || c == '?' || c == '#')..]
    else rest
  }

  /** `s.split(c, 1)[0]`. */
  function Before(s: string, c: char): (r: string)
    ensures c !in r
    ensures |r| <= |s| && r == s[..|r|]
  {
    s[..IndexOf(s, c, 0)]
  }

  /** `_splitparams`: ";params" is cut from the last path segment only. */
  function DropParams(path: string): string {
    if ';' !in path then path
    else
      var slash := LastIndexOf(path, '/');
      var semi := IndexOf(path, ';', if slash < 0 then 0 else slash);
      path[..semi]
  }

  /** `urlparse(url).path`. */
  function UrlPath(url: string): (path: string)
    ensures '#' !in path && '?' !in path
  {
    var (scheme, rest) := SplitScheme(url);
    var noFragment := Before(DropNetloc(rest), '#');
    var noQuery := Before(noFragment, '?');
    assert '#' !in noQuery by {
      assert forall k :: 0 <= k < |noQuery| ==> noQuery[k] == noFragment[k];
    }
    var path := if UsesParams(scheme) then DropParams(noQuery) else noQuery;
    assert forall k :: 0 <= k < |path| ==> path[k] == noQuery[k];
    path
  }

  /** `os.path.basename(p)`: everything after the last '/'. */
  function Basename(p: string): (b: string)
    ensures '/' !in b
    ensures |b| <= |p| && p[|p| - |b|..] == b
    ensures |b| < |p| ==> p[|p| - |b| - 1] == '/'
  {
    p[LastIndexOf(p, '/') + 1..]
  }

  /** `os.path.splitext(p)`: the extension starts at the last '.' of the
      last component, unless everything before that dot in the component
      is dots too. */
  function SplitExt(p: string): (parts: (string, string))
    ensures parts.0 + parts.1 == p
    ensures parts.1 == [] || (parts.1[0] == '.' && '/' !in parts.1 && '.' !in parts.1[1..])
    ensures parts.1 != [] ==> exists k :: |p| - |parts.1| > k > LastIndexOf(p, '/') && p[k] != '.'
    ensures (exists k :: LastIndexOf(p, '/') < k < LastIndexOf(p, '.') && p[k] != '.') ==>
      parts.1 == p[LastIndexOf(p, '.')..]
  {
    var sep := LastIndexOf(p, '/');
    var dot := LastIndexOf(p, '.');
    if dot > sep && exists k | sep + 1 <= k < dot :: p[k] != '.' then
      var ext := p[dot..];
      assert forall k :: 1 <= k < |ext| ==> ext[k] == p[dot + k];
      (p[..dot], ext)
    else (p, [])
  }

  /** `os.path.join(a, b)` with two components. */
  function Join(a: string, b: string): string {
    if |b| > 0 && b[0] == '/' then b
    else if a == [] || a[|a| - 1] == '/' then a + b
    else a + "/" + b
  }
}
