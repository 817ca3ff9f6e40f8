/** The pieces of Python's `str` the two scripts use: `lower()` (on ASCII
    letters), the `in` operator, `find`, `strip` and `str(n)`. */
module Text {

  /** `c.lower()` for an ASCII character; other characters are kept. */
  function LowerChar(c: char): char {
    if 'A' <= c <= 'Z' then (c as int + 32) as char else c
  }

  /** `s.lower()`. */
  function Lower(s: string): string {
    seq(|s|, k requires 0 <= k < |s| => LowerChar(s[k]))
  }

  /** `sub` occurs in `s` starting at position `i`. */
  predicate OccursAt(s: string, sub: string, i: nat) {
    i + |sub| <= |s| && s[i..i + |sub|] == sub
  }

  /** A part of an occurrence is found at the matching place of `s`. */
  lemma OccursAtSlice(s: string, sub: string, i: nat, a: nat, b: nat)
    requires OccursAt(s, sub, i) && a <= b <= |sub|
    ensures s[i + a..i + b] == sub[a..b]
  {
    forall k | a <= k < b
      ensures s[i + k] == sub[k]
    {
      assert s[i..i + |sub|][k] == s[i + k];
    }
  }

  /** Adjacent slices join. */
  lemma JoinSlices(s: string, x: nat, y: nat, z: nat)
    requires x <= y <= z <= |s|
    ensures s[x..z] == s[x..y] + s[y..z]
  {
  }

  /** Python's `sub in s`. */
  predicate Contains(s: string, sub: string) {
    exists i: nat | i <= |s| :: OccursAt(s, sub, i)
  }

  lemma ContainsEmpty(s: string)
    ensures Contains(s, "")
  {
    assert OccursAt(s, "", 0);
  }

  /** The first index at or after `from` whose character satisfies `stop`,
      or |s| when there is none. */
  function FindFrom(s: string, from: nat, stop: char -> bool): (k: nat)
    requires from <= |s|
    ensures from <= k <= |s|
    ensures k < |s| ==> stop(s[k])
    ensures forall m :: from <= m < k ==> !stop(s[m])
    decreases |s| - from
  {
    if from == |s| || stop(s[from]) then from else FindFrom(s, from + 1, stop)
  }

  /** `s.find(c, from)`, with |s| standing for "not found". */
  function IndexOf(s: string, c: char, from: nat): (k: nat)
    requires from <= |s|
    ensures from <= k <= |s|
    ensures k < |s| ==> s[k] == c
    ensures forall m :: from <= m < k ==> s[m] != c
    decreases |s| - from
  {
    if from == |s| || s[from] == c then from else IndexOf(s, c, from + 1)
  }

  /** The first `c` at or after `from` is at `k`. */
  lemma IndexOfIs(s: string, c: char, from: nat, k: nat)
    requires from <= k <= |s|
    requires k < |s| ==> s[k] == c
    requires forall m :: from <= m < k ==> s[m] != c
    ensures IndexOf(s, c, from) == k
  {
  }

  /** `s.rfind(c)` restricted to `s[..n]`: the last index below `n` holding
      `c`, or -1. */
  function LastIndexBelow(s: string, c: char, n: nat): (k: int)
    requires n <= |s|
    ensures -1 <= k < n
    ensures k >= 0 ==> s[k] == c
    ensures forall m :: k < m < n ==> s[m] != c
  {
    if n == 0 then -1 else if s[n - 1] == c then n - 1 else LastIndexBelow(s, c, n - 1)
  }

  /** `s.rfind(c)`. */
  function LastIndexOf(s: string, c: char): (k: int)
    ensures -1 <= k < |s|
    ensures k >= 0 ==> s[k] == c
    ensures forall m :: k < m < |s| ==> s[m] != c
  {
    LastIndexBelow(s, c, |s|)
  }

  /** The characters Python's `str.isspace()` accepts. */
  predicate IsSpace(c: char) {
    ('\t' <= c <= '\r') || ('\U{1C}' <= c <= ' ') || c == '\U{85}' || c == '\U{A0}'
    || c == '\U{1680}' || ('\U{2000}' <= c <= '\U{200A}') || c == '\U{2028}'
    || c == '\U{2029}' || c == '\U{202F}' || c == '\U{205F}' || c == '\U{3000}'
  }

  /** `s.lstrip(chars)` where `drop` says which characters are in `chars`. */
  function TrimLeft(s: string, drop: char -> bool): (r: string)
    ensures |r| <= |s| && r == s[|s| - |r|..]
    ensures forall k :: 0 <= k < |s| - |r| ==> drop(s[k])
    ensures r != [] ==> !drop(r[0])
  {
    if s != [] && drop(s[0]) then TrimLeft(s[1..], drop) else s
  }

  /** `s.rstrip(chars)`. */
  function TrimRight(s: string, drop: char -> bool): (r: string)
    ensures |r| <= |s| && r == s[..|r|]
    ensures forall k :: |r| <= k < |s| ==> drop(s[k])
    ensures r != [] ==> !drop(r[|r| - 1])
  {
    if s != [] && drop(s[|s| - 1]) then TrimRight(s[..|s| - 1], drop) else s
  }

  /** `s.strip(chars)`: the longest middle part of `s` that neither starts
      nor ends with a dropped character. */
  function Trim(s: string, drop: char -> bool): (r: string)
    ensures forall c :: c in r ==> c in s
    ensures r != [] ==> !drop(r[0]) && !drop(r[|r| - 1])
    ensures (forall c :: c in s ==> !drop(c)) ==> r == s
  {
    var left := TrimLeft(s, drop);
    assert forall c :: c in left ==> c in s;
    TrimRight(left, drop)
  }

  /** `str.strip()` with no argument. */
  function Strip(s: string): string {
    Trim(s, IsSpace)
  }

  /** `s.strip('"')`. */
  function StripQuotes(s: string): string {
    Trim(s, c => c == '"')
  }

  function DigitChar(d: nat): char
    requires d < 10
  {
    ('0' as int + d) as char
  }

  /** `str(n)` for a non-negative integer: its decimal digits. */
  function Decimal(n: nat): (r: string)
    ensures |r| >= 1
    ensures forall k :: 0 <= k < |r| ==> '0' <= r[k] <= '9'
  {
    if n < 10 then [DigitChar(n)] else Decimal(n / 10) + [DigitChar(n % 10)]
  }

  /** `int(s)` for a string of decimal digits. */
  function ParseDecimal(s: string): nat
    requires forall k :: 0 <= k < |s| ==> '0' <= s[k] <= '9'
  {
    if s == [] then 0
    else
      ParseDecimal(s[..|s| - 1]) * 10 + (s[|s| - 1] as int - '0' as int)
  }

  /** Reading back `str(n)` gives `n`; so distinct numbers have distinct
      decimal strings. */
  lemma {:induction false} DecimalRoundTrip(n: nat)
    ensures ParseDecimal(Decimal(n)) == n
  {
    if n >= 10 {
      DecimalRoundTrip(n / 10);
      var s := Decimal(n);
      assert s[..|s| - 1] == Decimal(n / 10);
    }
  }

  lemma DecimalInjective(a: nat, b: nat)
    requires Decimal(a) == Decimal(b)
    ensures a == b
  {
    DecimalRoundTrip(a);
    DecimalRoundTrip(b);
  }
}
