/** The decision logic of imageextractor.py: naming a captured response,
    choosing a free file name, and the two network callbacks that track
    responses in `want` and save the tracked bodies. The browser is
    abstracted to the events it delivers to the callbacks. */
module ImageExtractor {
  import opened Base
  import opened Text
  import opened UrlPaths
  import opened Disposition

  const OUTDIR: string := "images"

  /** A response's headers in the order the browser reports them; a
      Python dict, so names are distinct but may differ only in case. */
  type Headers = seq<(string, string)>

  /** `pick_ext_from_ct(ct)`; `None` stands for Python's None. */
  function PickExt(ct: Option<string>): (ext: string)
    ensures ext in [".png", ".jpg", ".webp", ".gif", ".bin"]
    ensures var l := Lower(ct.GetOr(""));
      ext == ".bin" <==> !(Contains(l, "png") || Contains(l, "jpeg") || Contains(l, "jpg")
                           || Contains(l, "webp") || Contains(l, "gif"))
    ensures var l := Lower(ct.GetOr(""));
      var png, jpg := Contains(l, "png"), Contains(l, "jpeg") || Contains(l, "jpg");
      var webp, gif := Contains(l, "webp"), Contains(l, "gif");
      (ext == ".png" <==> png)
      && (ext == ".jpg" <==> !png && jpg)
      && (ext == ".webp" <==> !png && !jpg && webp)
      && (ext == ".gif" <==> !png && !jpg && !webp && gif)
  {
    var l := Lower(ct.GetOr(""));
    if Contains(l, "png") then ".png"
    else if Contains(l, "jpeg") || Contains(l, "jpg") then ".jpg"
    else if Contains(l, "webp") then ".webp"
    else if Contains(l, "gif") then ".gif"
    else ".bin"
  }

  /** The choice ignores case. */
  lemma PickExtIgnoresCase(a: string, b: string)
    requires Lower(a) == Lower(b)
    ensures PickExt(Some(a)) == PickExt(Some(b))
  {
  }

  /** A missing or empty content type gives ".bin". */
  lemma PickExtMissingType()
    ensures PickExt(None) == PickExt(Some("")) == ".bin"
  {
  }

  /** `headers.get(name)`: the value stored under exactly `name`. */
  function Get(headers: Headers, name: string): (r: Option<string>)
    ensures r.Some? ==> (name, r.value) in headers
    ensures r.None? ==> forall h :: h in headers ==> h.0 != name
  {
    if headers == [] then None
    else if headers[0].0 == name then Some(headers[0].1)
    else Get(headers[1..], name)
  }

  /** `headers.get("content-type") or headers.get("Content-Type") or ""`. */
  function ContentType(headers: Headers): string {
    var lower := Get(headers, "content-type");
    if lower.Some? && lower.value != "" then lower.value
    else
      var upper := Get(headers, "Content-Type");
      if upper.Some? && upper.value != "" then upper.value else ""
  }

  predicate IsDispositionName(name: string) {
    Lower(name) == "content-disposition"
  }

  /** The value of the first header named Content-Disposition in any case,
      or "" when there is none. */
  function DispositionHeader(headers: Headers): string {
    if headers == [] then ""
    else if IsDispositionName(headers[0].0) then headers[0].1
    else DispositionHeader(headers[1..])
  }

  /** The first Content-Disposition header is the one used; later ones are
      ignored. */
  lemma {:induction false} DispositionHeaderIsFirst(headers: Headers, i: nat)
    requires i < |headers| && IsDispositionName(headers[i].0)
    requires forall k :: 0 <= k < i ==> !IsDispositionName(headers[k].0)
    ensures DispositionHeader(headers) == headers[i].1
  {
    if i > 0 {
      DispositionHeaderIsFirst(headers[1..], i - 1);
    }
  }

  /** Without a Content-Disposition header the value is "". */
  lemma {:induction false} NoDispositionHeader(headers: Headers)
    requires forall k :: 0 <= k < |headers| ==> !IsDispositionName(headers[k].0)
    ensures DispositionHeader(headers) == ""
  {
    if headers != [] {
      NoDispositionHeader(headers[1..]);
    }
  }

  /** The name `extract_name(url, headers, ct)` returns. */
  function NameFor(url: string, headers: Headers, ct: string): string {
    var cd := DispositionHeader(headers);
    var m := if cd != "" then FilenameParam(cd) else None;
    if m.Some? then StripQuotes(Strip(m.value))
    else if Basename(UrlPath(url)) != "" then Basename(UrlPath(url))
    else "image" + PickExt(Some(ct))
  }

  /** The name comes from the Content-Disposition file name (only
      whitespace-stripped: it can hold no quote to strip), else from the
      last component of the URL path, else from the content type. */
  lemma NamePriority(url: string, headers: Headers, ct: string)
    ensures var m := FilenameParam(DispositionHeader(headers));
      var base := Basename(UrlPath(url));
      NameFor(url, headers, ct) ==
        if m.Some? then Strip(m.value)
        else if base != "" then base
        else "image" + PickExt(Some(ct))
  {
    var cd := DispositionHeader(headers);
    var m := FilenameParam(cd);
    if m.Some? {
      StripKeepsQuoteFree(m.value);
    }
    if cd == "" {
      assert FilenameParam(cd).None?;
    }
  }

  /** `strip('"')` after `strip()` changes nothing in a quote-free value. */
  lemma StripKeepsQuoteFree(v: string)
    requires '"' !in v
    ensures StripQuotes(Strip(v)) == Strip(v)
  {
    var s := Strip(v);
    assert forall c :: c in s ==> c in v;
  }

  /** `extract_name(url, headers, ct)`: the header loop is a linear search
      that stops at the first Content-Disposition header. */
  method ExtractName(url: string, headers: Headers, ct: string) returns (name: string)
    ensures name == NameFor(url, headers, ct)
  {
    var cd := "";
    var i := 0;
    while i < |headers|
      invariant 0 <= i <= |headers|
      invariant cd == ""
      invariant DispositionHeader(headers) == DispositionHeader(headers[i..])
    {
      if IsDispositionName(headers[i].0) {
        cd := headers[i].1;
        break;
      }
      assert headers[i..][1..] == headers[i + 1..];
      i := i + 1;
    }
    assert cd == DispositionHeader(headers);
    if cd != "" {
      var m := FilenameParam(cd);
      if m.Some? {
        return StripQuotes(Strip(m.value));
      }
    }
    var base := Basename(UrlPath(url));
    if base != "" {
      return base;
    }
    return "image" + PickExt(Some(ct));
  }

  /** The i-th alternative name `ensure_unique` tries: `f"{root}-{i}{ext}"`. */
  function Candidate(path: string, i: nat): string {
    var (root, ext) := SplitExt(path);
    root + "-" + Decimal(i) + ext
  }

  /** Distinct counters give distinct names. */
  lemma CandidateInjective(path: string, a: nat, b: nat)
    requires Candidate(path, a) == Candidate(path, b)
    ensures a == b
  {
    var (root, ext) := SplitExt(path);
    var x, y := Candidate(path, a), Candidate(path, b);
    assert x[|root| + 1..|x| - |ext|] == Decimal(a);
    assert y[|root| + 1..|y| - |ext|] == Decimal(b);
    DecimalInjective(a, b);
  }

  /** The names tried before counter `i`. */
  ghost function Tried(path: string, i: nat): set<string> {
    set k: nat | 2 <= k < i :: Candidate(path, k)
  }

  lemma TriedGrows(path: string, i: nat)
    requires i >= 2
    ensures Candidate(path, i) !in Tried(path, i)
    ensures Tried(path, i + 1) == Tried(path, i) + {Candidate(path, i)}
  {
    if Candidate(path, i) in Tried(path, i) {
      var k: nat :| 2 <= k < i && Candidate(path, k) == Candidate(path, i);
      CandidateInjective(path, k, i);
    }
  }

  /** The first counter from `i` on whose name is not taken. Names in
      `existing` are finitely many, so the search ends. */
  function FirstFreeIndex(path: string, existing: set<string>, i: nat): (n: nat)
    requires i >= 2
    ensures n >= i && Candidate(path, n) !in existing
    ensures forall k :: i <= k < n ==> Candidate(path, k) in existing
    decreases |existing - Tried(path, i)|
  {
    if Candidate(path, i) !in existing then i
    else
      TriedGrows(path, i);
      assert existing - Tried(path, i + 1) == (existing - Tried(path, i)) - {Candidate(path, i)};
      FirstFreeIndex(path, existing, i + 1)
  }

  /** The path `ensure_unique(path)` returns: the path itself when it is
      free, else the first free `root-i.ext` with i >= 2. */
  function UniquePath(path: string, existing: set<string>): (r: string)
    ensures r !in existing
    ensures path !in existing ==> r == path
    ensures path in existing ==>
      exists n :: (n >= 2 && r == Candidate(path, n)
                   && forall k :: 2 <= k < n ==> Candidate(path, k) in existing)
  {
    if path !in existing then path else Candidate(path, FirstFreeIndex(path, existing, 2))
  }

  /** `ensure_unique(path)` against the set of paths that exist. */
  method EnsureUnique(path: string, existing: set<string>) returns (unique: string)
    ensures unique == UniquePath(path, existing)
  {
    if path !in existing {
      return path;
    }
    var (root, ext) := SplitExt(path);
    var i := 2;
    while true
      invariant i >= 2
      invariant FirstFreeIndex(path, existing, i) == FirstFreeIndex(path, existing, 2)
      decreases |existing - Tried(path, i)|
    {
      var cand := root + "-" + Decimal(i) + ext;
      if cand !in existing {
        return cand;
      }
      TriedGrows(path, i);
      assert existing - Tried(path, i + 1) == (existing - Tried(path, i)) - {cand};
      i := i + 1;
    }
  }

  /** The condition in `on_response_received` under which a response is
      recorded in `want`. */
  predicate Tracks(key: string, url: string, headers: Headers, ctype: string) {
    Contains(Lower(ctype), "image")
    || Contains(Lower(url), Lower(key))
    || (key != "" && exists h | h in headers :: Contains(Lower(h.1), Lower(key)))
  }

  /** With an empty target key every response is recorded. */
  lemma EmptyKeyTracksAll(url: string, headers: Headers, ctype: string)
    ensures Tracks("", url, headers, ctype)
  {
    assert Lower("") == "";
    ContainsEmpty(Lower(url));
  }

  /** The condition in `on_loading_finished` under which a tracked body is
      saved. */
  predicate Keeps(key: string, name: string, url: string) {
    key == "" || Contains(Lower(name), Lower(key)) || Contains(Lower(url), Lower(key))
  }

  /** What `want` remembers of a response. */
  datatype Tracked = Tracked(url: string, headers: Headers, ctype: string)

  /** A `Network.responseReceived` event, its missing fields already
      defaulted as the callback does. */
  datatype ResponseEvent = ResponseEvent(requestId: string, url: string, headers: Headers)

  /** The state the two callbacks share: `want`, and the disk as the set of
      paths that exist plus the files the callbacks wrote. */
  class Sniffer {
    const targetKey: string
    var want: map<string, Tracked>
    var paths: set<string>
    var saved: map<string, Bytes>

    ghost predicate Valid()
      reads this
    {
      saved.Keys <= paths
    }

    /** The script's set-up: `want` starts empty and `ensure_dir(OUTDIR)`
        makes the output directory exist. */
    constructor (targetKey: string, existing: set<string>)
      ensures Valid()
      ensures this.targetKey == targetKey && want == map[]
      ensures paths == existing + {OUTDIR} && saved == map[]
    {
      this.targetKey := targetKey;
      want := map[];
      paths := existing + {OUTDIR};
      saved := map[];
    }

    /** `on_response_received(params)`. */
    method OnResponseReceived(event: ResponseEvent)
      modifies this`want
      ensures var ctype := ContentType(event.headers);
        want == if Tracks(targetKey, event.url, event.headers, ctype)
                then old(want)[event.requestId := Tracked(event.url, event.headers, ctype)]
                else old(want)
    {
      var ctype := ContentType(event.headers);
      var looksImage := Contains(Lower(ctype), "image");
      var mentionsTarget := Contains(Lower(event.url), Lower(targetKey))
        || (targetKey != "" && exists h | h in event.headers :: Contains(Lower(h.1), Lower(targetKey)));
      if looksImage || mentionsTarget {
        want := want[event.requestId := Tracked(event.url, event.headers, ctype)];
      }
    }

    /** `on_loading_finished(params)`; `body` is the decoded response body,
        or `None` when fetching it raised. */
    method OnLoadingFinished(requestId: string, body: Option<Bytes>)
      requires Valid()
      modifies this`want, this`paths, this`saved
      ensures Valid()
      ensures requestId !in old(want) ==> want == old(want) && paths == old(paths) && saved == old(saved)
      ensures requestId in old(want) ==> want == old(want) - {requestId}
      ensures requestId in old(want) ==>
        var t := old(want)[requestId];
        var name := NameFor(t.url, t.headers, t.ctype);
        var out := UniquePath(Join(OUTDIR, name), old(paths));
        if body.Some? && Keeps(targetKey, name, t.url)
        then paths == old(paths) + {out} && saved == old(saved)[out := body.value]
        else paths == old(paths) && saved == old(saved)
      ensures forall p :: p in old(saved) ==> p in saved && saved[p] == old(saved)[p]
    {
      if requestId !in want {
        return;
      }
      var t := want[requestId];
      want := want - {requestId};
      if body.None? {
        return;
      }
      var name := ExtractName(t.url, t.headers, t.ctype);
      if targetKey != "" && !Contains(Lower(name), Lower(targetKey))
         && !Contains(Lower(t.url), Lower(targetKey)) {
        return;
      }
      var out := EnsureUnique(Join(OUTDIR, name), paths);
      paths := paths + {out};
      saved := saved[out := body.value];
    }
  }
}
