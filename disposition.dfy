/** The Content-Disposition file-name pattern of imageextractor.py,
    `filename\*?=(?:UTF-8'')?"?([^";]+)"?` searched ignoring case, hand-coded
    with the backtracking order Python's engine uses. */
module Disposition {
  import opened Base
  import opened Text

  /** A character `[^";]` does not accept. */
  predicate IsValueStop(c: char) {
    c == '"' || c == ';'
  }

  /** `"?([^";]+)"?` tried at `p`. The greedy `[^";]+` takes the whole run
      up to the next '"' or ';' and the trailing `"?` always matches, so the
      capture is that run. When `"?` took a quote but no run follows it, the
      engine backtracks to not taking the quote, and the run would then have
      to start with that quote, which it cannot. */
  function QuotedValueAt(s: string, p: nat): (r: Option<string>)
    requires p <= |s|
    ensures r.Some? ==> r.value != [] && '"' !in r.value && ';' !in r.value
  {
    var start := if p < |s| && s[p] == '"' then p + 1 else p;
    var end := FindFrom(s, start, IsValueStop);
    if end > start then
      var v := s[start..end];
      assert forall k :: 0 <= k < |v| ==> v[k] == s[start + k];
      Some(v)
    else None
  }

  /** `(?:UTF-8'')?"?([^";]+)"?` tried at `p`: first with the charset
      prefix, and without it when the rest fails after the prefix. */
  function ValueAt(s: string, p: nat): Option<string>
    requires p <= |s|
  {
    if OccursAt(Lower(s), "utf-8''", p) && QuotedValueAt(s, p + 7).Some? then QuotedValueAt(s, p + 7)
    else QuotedValueAt(s, p)
  }

  /** The whole pattern tried at position `i`. `\*?=` needs no backtracking:
      after a '*' only '=' can follow. */
  function FilenameAt(s: string, i: nat): Option<string>
    requires i <= |s|
  {
    if !OccursAt(Lower(s), "filename", i) then None
    else
      var e := if i + 8 < |s| && s[i + 8] == '*' then i + 9 else i + 8;
      if e < |s| && s[e] == '=' then ValueAt(s, e + 1) else None
  }

  /** The leftmost position at or after `from` where the pattern matches. */
  function FirstFilename(s: string, from: nat): (r: Option<nat>)
    requires from <= |s|
    ensures r.Some? ==> from <= r.value <= |s| && FilenameAt(s, r.value).Some?
    ensures forall k :: from <= k <= |s| && (r.None? || k < r.value) ==> FilenameAt(s, k).None?
    decreases |s| - from
  {
    if FilenameAt(s, from).Some? then Some(from)
    else if from == |s| then None
    else FirstFilename(s, from + 1)
  }

  /** `FNAME_RE.search(cd)` and its first group: never empty, and never
      holding a quote or a semicolon. */
  function FilenameParam(cd: string): (r: Option<string>)
    ensures r.Some? ==> r.value != [] && '"' !in r.value && ';' !in r.value
  {
    match FirstFilename(cd, 0)
    case None => None
    case Some(i) => FilenameAt(cd, i)
  }

  /** The match at the leftmost position where the pattern matches is the
      one `search` reports. */
  lemma LeftmostFilenameWins(cd: string, i: nat)
    requires i <= |cd| && FilenameAt(cd, i).Some?
    requires forall k :: 0 <= k < i ==> FilenameAt(cd, k).None?
    ensures FilenameParam(cd) == FilenameAt(cd, i)
  {
    var first := FirstFilename(cd, 0);
    assert first.Some? && first.value == i;
  }

  /** A header value that does not mention "filename" in any case has no
      file-name parameter. */
  lemma NoFilenameWithoutKeyword(cd: string)
    requires !Contains(Lower(cd), "filename")
    ensures FilenameParam(cd).None?
  {
  }

  lemma QuotedExampleValue()
    ensures ValueAt("attachment; filename=\"sheets.png\"", 21) == Some("sheets.png")
  {
    var cd := "attachment; filename=\"sheets.png\"";
    assert Lower(cd)[21] == '"';
    assert cd[21] == '"';
    assert FindFrom(cd, 22, IsValueStop) == 32;
    assert cd[22..32] == "sheets.png";
  }

  lemma QuotedExampleKeyword()
    ensures OccursAt(Lower("attachment; filename=\"sheets.png\""), "filename", 12)
  {
    var cd := "attachment; filename=\"sheets.png\"";
    assert Lower(cd) == cd;
    assert cd[12..20] == "filename";
  }

  lemma QuotedExampleNotBefore(k: nat)
    requires k < 12
    ensures FilenameAt("attachment; filename=\"sheets.png\"", k).None?
  {
    var cd := "attachment; filename=\"sheets.png\"";
    assert Lower(cd)[k..k + 8][0] == Lower(cd)[k] == cd[k] != 'f';
  }

  lemma QuotedExampleAt()
    ensures FilenameAt("attachment; filename=\"sheets.png\"", 12) == Some("sheets.png")
  {
    var cd := "attachment; filename=\"sheets.png\"";
    QuotedExampleKeyword();
    QuotedExampleValue();
    assert cd[20] == '=';
  }

  /** The common quoted form. */
  lemma QuotedExample()
    ensures FilenameParam("attachment; filename=\"sheets.png\"") == Some("sheets.png")
  {
    forall k | 0 <= k < 12 ensures FilenameAt("attachment; filename=\"sheets.png\"", k).None? {
      QuotedExampleNotBefore(k);
    }
    QuotedExampleAt();
    LeftmostFilenameWins("attachment; filename=\"sheets.png\"", 12);
  }

  lemma ExtendedExampleValue()
    ensures ValueAt("attachment; filename*=UTF-8''sheets.png", 22) == Some("sheets.png")
  {
    var cd := "attachment; filename*=UTF-8''sheets.png";
    assert Lower(cd)[22..29] == "utf-8''";
    assert cd[29] != '"';
    assert FindFrom(cd, 29, IsValueStop) == 39;
    assert cd[29..39] == "sheets.png";
  }

  lemma ExtendedExampleKeyword()
    ensures OccursAt(Lower("attachment; filename*=UTF-8''sheets.png"), "filename", 12)
  {
    var cd := "attachment; filename*=UTF-8''sheets.png";
    assert cd[12] == 'f' && cd[13] == 'i' && cd[14] == 'l' && cd[15] == 'e';
    assert cd[16] == 'n' && cd[17] == 'a' && cd[18] == 'm' && cd[19] == 'e';
    assert Lower(cd)[12..20] == "filename";
  }

  lemma ExtendedExampleAt()
    ensures FilenameAt("attachment; filename*=UTF-8''sheets.png", 12) == Some("sheets.png")
  {
    var cd := "attachment; filename*=UTF-8''sheets.png";
    ExtendedExampleKeyword();
    ExtendedExampleValue();
    assert cd[20] == '*' && cd[21] == '=';
  }

  lemma ExtendedExampleNotBefore(k: nat)
    requires k < 12
    ensures FilenameAt("attachment; filename*=UTF-8''sheets.png", k).None?
  {
    var cd := "attachment; filename*=UTF-8''sheets.png";
    assert Lower(cd)[k..k + 8][0] == Lower(cd)[k] == cd[k] != 'f';
  }

  /** The RFC 5987 form: the charset prefix is not part of the name. */
  lemma ExtendedExample()
    ensures FilenameParam("attachment; filename*=UTF-8''sheets.png") == Some("sheets.png")
  {
    forall k | 0 <= k < 12 ensures FilenameAt("attachment; filename*=UTF-8''sheets.png", k).None? {
      ExtendedExampleNotBefore(k);
    }
    ExtendedExampleAt();
    LeftmostFilenameWins("attachment; filename*=UTF-8''sheets.png", 12);
  }
}
