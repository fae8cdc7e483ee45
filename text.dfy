/** The string operations the core relies on: Rust's `str::trim`,
    `trim_start_matches('\u{feff}')` and the case-insensitive ".csv" suffix test. */
module Text {

  /** The characters with the Unicode White_Space property, which is what
      Rust's `char::is_whitespace` (and so `str::trim`) removes.  U+FEFF is
      not among them. */
  predicate IsWhitespace(c: char)
  {
    || c == ' '
    || ('\t' <= c <= '\r')
    || c == '\U{85}' || c == '\U{A0}' || c == '\U{1680}'
    || ('\U{2000}' <= c <= '\U{200A}')
    || c == '\U{2028}' || c == '\U{2029}' || c == '\U{202F}'
    || c == '\U{205F}' || c == '\U{3000}'
  }

  predicate AllWhitespace(s: string)
  {
    forall k :: 0 <= k < |s| ==> IsWhitespace(s[k])
  }

  const Bom: char := '\U{FEFF}'

  /** Drops leading whitespace. */
  function TrimStart(s: string): string
  {
    if s != [] && IsWhitespace(s[0]) then TrimStart(s[1..]) else s
  }

  /** The result of TrimStart is the suffix of `s` that starts at the first
      non-whitespace character. */
  lemma {:induction false} TrimStartShape(s: string)
    ensures var r := TrimStart(s);
      && |r| <= |s| && r == s[|s| - |r|..]
      && AllWhitespace(s[..|s| - |r|])
      && (r == [] || !IsWhitespace(r[0]))
  {
    if s != [] && IsWhitespace(s[0]) {
      TrimStartShape(s[1..]);
      var r := TrimStart(s[1..]);
      assert s[1..][..|s| - 1 - |r|] == s[1..|s| - |r|];
    }
  }

  /** Drops trailing whitespace. */
  function TrimEnd(s: string): string
  {
    if s != [] && IsWhitespace(s[|s| - 1]) then TrimEnd(s[..|s| - 1]) else s
  }

  /** The result of TrimEnd is the prefix of `s` that ends at the last
      non-whitespace character. */
  lemma {:induction false} TrimEndShape(s: string)
    ensures var r := TrimEnd(s);
      && |r| <= |s| && r == s[..|r|]
      && AllWhitespace(s[|r|..])
      && (r == [] || !IsWhitespace(r[|r| - 1]))
  {
    if s != [] && IsWhitespace(s[|s| - 1]) {
      TrimEndShape(s[..|s| - 1]);
      var r := TrimEnd(s[..|s| - 1]);
      assert s[..|s| - 1][|r|..] + [s[|s| - 1]] == s[|r|..];
    }
  }

  /** Rust's `str::trim`. */
  function Trim(s: string): (r: string)
  {
    TrimEnd(TrimStart(s))
  }

  /** Rust's `trim_start_matches('\u{feff}')`: every leading byte-order mark
      goes, nothing else does. */
  function TrimLeadingBoms(s: string): (r: string)
    ensures |r| <= |s| && r == s[|s| - |r|..]
    ensures forall k :: 0 <= k < |s| - |r| ==> s[k] == Bom
    ensures r == [] || r[0] != Bom
  {
    if s != [] && s[0] == Bom then TrimLeadingBoms(s[1..]) else s
  }

  /** `trim()` leaves a contiguous piece of its input with no whitespace at
      either end, and everything it cut off is whitespace. */
  lemma {:induction false} TrimIsCore(s: string)
    ensures exists i, j ::
      && 0 <= i <= j <= |s| && Trim(s) == s[i..j]
      && AllWhitespace(s[..i]) && AllWhitespace(s[j..])
    ensures Trim(s) == [] || (!IsWhitespace(Trim(s)[0]) && !IsWhitespace(Trim(s)[|Trim(s)| - 1]))
  {
    var t := TrimStart(s);
    var r := TrimEnd(t);
    TrimStartShape(s);
    TrimEndShape(t);
    var i := |s| - |t|;
    var j := i + |r|;
    assert r == s[i..j];
    assert s[j..] == t[|r|..];
    if r != [] {
      assert r[0] == t[0];
    }
  }

  /** `trim().is_empty()` holds exactly for all-whitespace strings. */
  lemma {:induction false} TrimEmptyIffBlank(s: string)
    ensures Trim(s) == [] <==> AllWhitespace(s)
  {
    var t := TrimStart(s);
    TrimStartShape(s);
    TrimEndShape(t);
    if t != [] {
      assert !IsWhitespace(s[|s| - |t|]);
      assert TrimEnd(t)[0] == t[0];
    }
  }

  /** ASCII case folding: `to_lowercase` restricted to the characters that
      can end up in the suffix ".csv". */
  function LowerAscii(c: char): (d: char)
    ensures 'A' <= c <= 'Z' ==> 'a' <= d <= 'z' && d as int - c as int == 32
    ensures !('A' <= c <= 'Z') ==> d == c
  {
    if 'A' <= c <= 'Z' then (c as int + 32) as char else c
  }

  /** `name.to_lowercase().ends_with(".csv")`. */
  predicate HasCsvExtension(name: string)
  {
    |name| >= 4
    && name[|name| - 4] == '.'
    && LowerAscii(name[|name| - 3]) == 'c'
    && LowerAscii(name[|name| - 2]) == 's'
    && LowerAscii(name[|name| - 1]) == 'v'
  }

  /** Exactly the names whose last four characters spell ".csv" in any
      mix of cases. */
  lemma CsvExtensionCases(name: string)
    ensures HasCsvExtension(name) <==>
      && |name| >= 4
      && name[|name| - 4] == '.'
      && name[|name| - 3] in {'c', 'C'}
      && name[|name| - 2] in {'s', 'S'}
      && name[|name| - 1] in {'v', 'V'}
  {
  }
}
