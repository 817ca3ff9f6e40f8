/** The asset-token search of image_downloader.py: the first match of
    `"/s/([^/]+)/css/[^"]+\.css"` in the home page, or the fallback "gu". */
module AssetToken {
  import opened Base
  import opened Text

  const FALLBACK_TOKEN: string := "gu"

  /** The text the pattern matches for a given token and the part between
      "/css/" and ".css", both quotes included. */
  function Occurrence(token: string, rest: string): string {
    "\"/s/" + token + "/css/" + rest + ".css\""
  }

  /** The pattern matches at position `i` of `text` with this token and rest:
      the token is one or more characters other than '/', the rest one or
      more characters other than '"'. This is the reading of the regular
      expression itself; MatchAt below is how it is computed. */
  predicate OccursWith(text: string, i: nat, token: string, rest: string) {
    token != [] && '/' !in token && rest != [] && '"' !in rest
    && OccursAt(text, Occurrence(token, rest), i)
  }

  /** The regular expression tried at one start position: `[^/]+` runs to
      the next '/', which must begin "/css/"; `[^"]+` runs to the next '"',
      which must be preceded by ".css" and at least one more character.
      The result is the first capture group. */
  function MatchAt(text: string, i: nat): Option<string>
    requires i <= |text|
  {
    if !OccursAt(text, "\"/s/", i) then None
    else
      var j := IndexOf(text, '/', i + 4);
      if j == i + 4 || !OccursAt(text, "/css/", j) then None
      else
        var q := IndexOf(text, '"', j + 5);
        if q == |text| || q < j + 10 || text[q - 4..q] != ".css" then None
        else Some(text[i + 4..j])
  }

  /** Where the pieces of an occurrence sit. */
  lemma OccurrenceParts(token: string, rest: string)
    ensures var occ, t, r := Occurrence(token, rest), |token|, |rest|;
      |occ| == t + r + 14 && occ[..4] == "\"/s/" && occ[4..4 + t] == token
      && occ[4 + t..9 + t] == "/css/" && occ[9 + t..9 + t + r] == rest
      && occ[9 + t + r..13 + t + r] == ".css" && occ[13 + t + r] == '"'
  {
    var a := "\"/s/" + token;
    var b := a + "/css/";
    var c := b + rest;
    assert Occurrence(token, rest) == c + ".css\"";
    assert c[..|b|] == b && b[..|a|] == a;
  }

  /** In an occurrence, the token runs exactly to the next '/', which
      begins "/css/". */
  lemma OccurrenceTokenEnd(text: string, i: nat, token: string, rest: string)
    requires OccursWith(text, i, token, rest)
    ensures OccursAt(text, "\"/s/", i)
    ensures IndexOf(text, '/', i + 4) == i + 4 + |token|
    ensures text[i + 4..i + 4 + |token|] == token
    ensures OccursAt(text, "/css/", i + 4 + |token|)
  {
    var occ := Occurrence(token, rest);
    var t := |token|;
    OccurrenceParts(token, rest);
    OccursAtSlice(text, occ, i, 0, 4);
    OccursAtSlice(text, occ, i, 4, 4 + t);
    OccursAtSlice(text, occ, i, 4 + t, 9 + t);
    forall m | i + 4 <= m < i + 4 + t
      ensures text[m] != '/'
    {
      assert text[m] == text[i + 4..i + 4 + t][m - i - 4];
    }
    var j := i + 4 + t;
    assert text[j] == text[j..j + 5][0] == '/';
    IndexOfIs(text, '/', i + 4, j);
  }

  /** In an occurrence, the rest runs to the next '"', which closes ".css". */
  lemma OccurrenceRestEnd(text: string, i: nat, token: string, rest: string)
    requires OccursWith(text, i, token, rest)
    ensures var q := i + 13 + |token| + |rest|;
      q < |text| && IndexOf(text, '"', i + 9 + |token|) == q && text[q - 4..q] == ".css"
  {
    var occ := Occurrence(token, rest);
    var t, r := |token|, |rest|;
    OccurrenceParts(token, rest);
    OccursAtSlice(text, occ, i, 9 + t, 9 + t + r);
    OccursAtSlice(text, occ, i, 9 + t + r, 13 + t + r);
    var j := i + 4 + t;
    forall m | j + 5 <= m < j + 9 + r
      ensures text[m] != '"'
    {
      if m < j + 5 + r {
        assert text[m] == text[j + 5..j + 5 + r][m - j - 5];
      } else {
        assert text[m] == text[j + 5 + r..j + 9 + r][m - j - 5 - r];
      }
    }
    var q := j + 9 + r;
    assert text[q] == text[i..i + |occ|][13 + t + r] == '"';
    IndexOfIs(text, '"', j + 5, q);
  }

  /** Every occurrence of the pattern is found by MatchAt, with its token. */
  lemma MatchAtComplete(text: string, i: nat, token: string, rest: string)
    requires OccursWith(text, i, token, rest)
    ensures i <= |text| && MatchAt(text, i) == Some(token)
  {
    OccurrenceTokenEnd(text, i, token, rest);
    OccurrenceRestEnd(text, i, token, rest);
  }

  /** Whatever MatchAt finds is an occurrence of the pattern. */
  lemma MatchAtSound(text: string, i: nat)
    requires i <= |text| && MatchAt(text, i).Some?
    ensures exists rest :: OccursWith(text, i, MatchAt(text, i).value, rest)
  {
    var j := IndexOf(text, '/', i + 4);
    var q := IndexOf(text, '"', j + 5);
    assert OccursAt(text, "\"/s/", i) && j != i + 4 && OccursAt(text, "/css/", j);
    assert q < |text| && q >= j + 10 && text[q - 4..q] == ".css";
    var token := text[i + 4..j];
    var rest := text[j + 5..q - 4];
    assert MatchAt(text, i).value == token;
    assert '/' !in token by {
      forall k | 0 <= k < |token| ensures token[k] != '/' {
        assert token[k] == text[i + 4 + k];
      }
    }
    assert '"' !in rest by {
      forall k | 0 <= k < |rest| ensures rest[k] != '"' {
        assert rest[k] == text[j + 5 + k];
      }
    }
    assert text[q - 4..q + 1] == ".css\"" by {
      JoinSlices(text, q - 4, q, q + 1);
    }
    JoinSlices(text, i, i + 4, j);
    JoinSlices(text, i, j, j + 5);
    JoinSlices(text, i, j + 5, q - 4);
    JoinSlices(text, i, q - 4, q + 1);
    calc {
      text[i..q + 1];
      text[i..i + 4] + text[i + 4..j] + text[j..j + 5] + text[j + 5..q - 4] + text[q - 4..q + 1];
      "\"/s/" + token + "/css/" + rest + ".css\"";
    }
    assert OccursWith(text, i, token, rest);
  }

  /** The leftmost start position at or after `from` where the pattern
      matches, as `re.search` scans. */
  function FirstMatch(text: string, from: nat): (r: Option<nat>)
    requires from <= |text|
    ensures r.Some? ==> from <= r.value <= |text| && MatchAt(text, r.value).Some?
    ensures forall k :: from <= k <= |text| && (r.None? || k < r.value) ==> MatchAt(text, k).None?
    decreases |text| - from
  {
    if MatchAt(text, from).Some? then Some(from)
    else if from == |text| then None
    else FirstMatch(text, from + 1)
  }

  /** `re.search(...)` followed by `.group(1)`. */
  function SearchToken(text: string): Option<string> {
    match FirstMatch(text, 0)
    case None => None
    case Some(i) => MatchAt(text, i)
  }

  /** The value `_get_asset_token` returns once the page text is in hand. */
  function TokenFromPage(text: string): string {
    SearchToken(text).GetOr(FALLBACK_TOKEN)
  }

  /** SearchToken finds the token of the leftmost occurrence, and finds
      nothing exactly when the pattern occurs nowhere. */
  lemma SearchTokenCorrect(text: string)
    ensures SearchToken(text).Some? ==>
      exists i: nat, rest :: OccursWith(text, i, SearchToken(text).value, rest) &&
        forall k: nat, t, r :: k < i ==> !OccursWith(text, k, t, r)
    ensures SearchToken(text).None? <==> forall k: nat, t, r :: !OccursWith(text, k, t, r)
  {
    var first := FirstMatch(text, 0);
    forall k: nat, t, r | OccursWith(text, k, t, r) && (first.None? || k < first.value)
      ensures false
    {
      MatchAtComplete(text, k, t, r);
    }
    if first.Some? {
      var i := first.value;
      MatchAtSound(text, i);
      var rest :| OccursWith(text, i, SearchToken(text).value, rest);
      assert !forall k: nat, t, r :: !OccursWith(text, k, t, r) by {
        assert OccursWith(text, i, SearchToken(text).value, rest);
      }
    }
  }

  /** The first occurrence wins: later occurrences with other tokens are
      ignored. */
  lemma LeftmostOccurrenceWins(text: string, i: nat, token: string, rest: string)
    requires OccursWith(text, i, token, rest)
    requires forall k: nat, t, r :: k < i ==> !OccursWith(text, k, t, r)
    ensures TokenFromPage(text) == token
  {
    MatchAtComplete(text, i, token, rest);
    var first := FirstMatch(text, 0);
    if first.Some? && first.value < i {
      MatchAtSound(text, first.value);
    }
  }

  /** A page without any occurrence of the pattern gives "gu". */
  lemma NoOccurrenceGivesFallback(text: string)
    requires forall k: nat, t, r :: !OccursWith(text, k, t, r)
    ensures TokenFromPage(text) == FALLBACK_TOKEN
  {
    SearchTokenCorrect(text);
  }

  /** The token is never empty and never holds a '/', so it is exactly one
      path segment of the URLs built from it. */
  lemma TokenIsOneSegment(text: string)
    ensures TokenFromPage(text) != [] && '/' !in TokenFromPage(text)
  {
    var first := FirstMatch(text, 0);
    if first.Some? {
      MatchAtSound(text, first.value);
    }
  }
}
