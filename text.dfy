/** Text operations the tool relies on: lower-casing, whitespace stripping, taking the text
    after the last separator, the lexicographic order Python uses to compare strings, and
    decimal rendering of counters. */
module Text {

  /** One character as `str.lower()` (Python) and `toLowerCase()` (JavaScript) lower it, for
      every character whose lower-case form is plain ASCII: the capitals A-Z and the Kelvin
      sign U+212A, which lowers to 'k'. Every other character is kept. */
  function LowerChar(c: char): (l: char)
    ensures 'A' <= c <= 'Z' ==> l as int == c as int + 32
    ensures l == '.' <==> c == '.'
    ensures !('A' <= c <= 'Z') && c != '\U{212A}' ==> l == c
  {
    if 'A' <= c <= 'Z' then (c as int + 32) as char
    else if c == '\U{212A}' then 'k'
    else c
  }

  function Lower(s: string): (r: string)
    ensures |r| == |s|
    ensures forall i :: 0 <= i < |s| ==> r[i] == LowerChar(s[i])
  {
    seq(|s|, i requires 0 <= i < |s| => LowerChar(s[i]))
  }

  /** The characters for which Python's `str.isspace()` holds. */
  predicate IsPySpace(c: char) {
    c == ' ' || '\t' <= c <= '\r' || '\U{1C}' <= c <= '\U{1F}' || c == '\U{85}' || c == '\U{A0}'
    || c == '\U{1680}' || '\U{2000}' <= c <= '\U{200A}' || c == '\U{2028}' || c == '\U{2029}'
    || c == '\U{202F}' || c == '\U{205F}' || c == '\U{3000}'
  }

  /** The characters JavaScript's `String.prototype.trim()` removes (white space and line
      terminators). */
  predicate IsJsSpace(c: char) {
    c == ' ' || '\t' <= c <= '\r' || c == '\U{A0}' || c == '\U{1680}'
    || '\U{2000}' <= c <= '\U{200A}' || c == '\U{2028}' || c == '\U{2029}'
    || c == '\U{202F}' || c == '\U{205F}' || c == '\U{3000}' || c == '\U{FEFF}'
  }

  /** The number of space characters `s` starts with. */
  function LeadingSpace(s: string, space: char -> bool): (n: nat)
    ensures n <= |s|
    ensures forall j :: 0 <= j < n ==> space(s[j])
    ensures n < |s| ==> !space(s[n])
  {
    if s == [] || !space(s[0]) then 0
    else
      var n := 1 + LeadingSpace(s[1..], space);
      assert forall j :: 1 <= j < n ==> s[j] == s[1..][j - 1];
      n
  }

  /** Where the trailing space characters of `s` begin. */
  function TrailingSpace(s: string, space: char -> bool): (n: nat)
    ensures n <= |s|
    ensures forall j :: n <= j < |s| ==> space(s[j])
    ensures n > 0 ==> !space(s[n - 1])
  {
    if s == [] || !space(s[|s| - 1]) then |s|
    else TrailingSpace(s[..|s| - 1], space)
  }

  /** `s.strip()` / `s.trim()`: the longest infix of `s` that neither starts nor ends with a
      space character, everything around it being space. */
  function Strip(s: string, space: char -> bool): (r: string)
    ensures r == [] || (!space(r[0]) && !space(r[|r| - 1]))
    ensures var i := LeadingSpace(s, space);
              i + |r| <= |s| && r == s[i..i + |r|]
              && (forall j :: 0 <= j < i ==> space(s[j]))
              && (forall j :: i + |r| <= j < |s| ==> space(s[j]))
  {
    var i := LeadingSpace(s, space);
    var e := TrailingSpace(s, space);
    if e <= i then [] else s[i..e]
  }

  /** Stripping leaves nothing exactly when the text is all space. */
  lemma {:induction false} StripEmptyIffBlank(s: string, space: char -> bool)
    ensures Strip(s, space) == [] <==> forall i :: 0 <= i < |s| ==> space(s[i])
  {
    var i := LeadingSpace(s, space);
    var e := TrailingSpace(s, space);
    if forall k :: 0 <= k < |s| ==> space(s[k]) {
      assert i == |s|;
    }
  }

  function PyStrip(s: string): string { Strip(s, IsPySpace) }

  /** Nothing but Python white space (the empty text included). */
  predicate IsBlank(s: string) {
    forall i :: 0 <= i < |s| ==> IsPySpace(s[i])
  }

  function JsTrim(s: string): string { Strip(s, IsJsSpace) }

  /** The text after the last character of `seps` (all of `s` when it has none): the last
      element of `s.split(sep)` in both Python and JavaScript, and `os.path.basename` for
      POSIX paths when `seps` is {'/'}. */
  function AfterLast(s: string, seps: set<char>): (r: string)
    ensures |r| <= |s| && r == s[|s| - |r|..]
    ensures forall i :: 0 <= i < |r| ==> r[i] !in seps
    ensures |r| < |s| ==> s[|s| - |r| - 1] in seps
  {
    if s == [] || s[|s| - 1] in seps then []
    else AfterLast(s[..|s| - 1], seps) + [s[|s| - 1]]
  }

  /** `a <= b` for Python (and JavaScript) strings: lexicographic on code points, a proper
      prefix coming first. */
  predicate Below(a: string, b: string) {
    a == [] || (b != [] && (a[0] < b[0] || (a[0] == b[0] && Below(a[1..], b[1..]))))
  }

  lemma {:induction false} BelowTotal(a: string, b: string)
    ensures Below(a, b) || Below(b, a)
  {
    if a != [] && b != [] && a[0] == b[0] {
      BelowTotal(a[1..], b[1..]);
    }
  }

  lemma {:induction false} BelowAntisymmetric(a: string, b: string)
    requires Below(a, b) && Below(b, a)
    ensures a == b
  {
    if a != [] && b != [] {
      BelowAntisymmetric(a[1..], b[1..]);
      assert a == [a[0]] + a[1..] && b == [b[0]] + b[1..];
    }
  }

  lemma {:induction false} BelowTransitive(a: string, b: string, c: string)
    requires Below(a, b) && Below(b, c)
    ensures Below(a, c)
  {
    if a != [] && b != [] && c != [] && a[0] == b[0] == c[0] {
      BelowTransitive(a[1..], b[1..], c[1..]);
    }
  }

  lemma BelowReflexive(a: string)
    ensures Below(a, a)
  {
  }

  predicate IsDigit(c: char) { '0' <= c <= '9' }

  predicate AllDigits(s: string) { forall i :: 0 <= i < |s| ==> IsDigit(s[i]) }

  /** The number a run of decimal digits denotes (`int(s)`). */
  function DigitsValue(s: string): (n: nat)
    requires AllDigits(s)
  {
    if s == [] then 0
    else DigitsValue(s[..|s| - 1]) * 10 + (s[|s| - 1] as int - '0' as int)
  }

  /** The longest run of digits `s` starts with. */
  function LeadingDigits(s: string): (d: string)
    ensures |d| <= |s| && d == s[..|d|] && AllDigits(d)
    ensures |d| < |s| ==> !IsDigit(s[|d|])
  {
    if s != [] && IsDigit(s[0]) then [s[0]] + LeadingDigits(s[1..]) else []
  }

  /** The digits in front of a non-digit are exactly the leading digits. */
  lemma {:induction false} LeadingDigitsOf(d: string, z: string)
    requires AllDigits(d) && (z == [] || !IsDigit(z[0]))
    ensures LeadingDigits(d + z) == d
    decreases |d|
  {
    if d != [] {
      assert (d + z)[1..] == d[1..] + z;
      LeadingDigitsOf(d[1..], z);
    }
  }

  /** The decimal rendering of a natural number, as JavaScript's template literals and
      Python's f-strings write it. */
  function Decimal(n: nat): (s: string)
    ensures s != [] && AllDigits(s)
    ensures |s| > 1 ==> s[0] != '0'
  {
    var d := ['0' + ((n % 10) as char)];
    if n < 10 then d else Decimal(n / 10) + d
  }

  /** Reading back a rendered number gives the number: the rendering loses nothing. */
  lemma {:induction false} DecimalRoundTrip(n: nat)
    ensures DigitsValue(Decimal(n)) == n
  {
    var s := Decimal(n);
    if n >= 10 {
      DecimalRoundTrip(n / 10);
      assert s[..|s| - 1] == Decimal(n / 10);
    }
  }

  /** Distinct numbers are rendered differently. */
  lemma DecimalInjective(m: nat, n: nat)
    requires Decimal(m) == Decimal(n)
    ensures m == n
  {
    DecimalRoundTrip(m);
    DecimalRoundTrip(n);
  }

  /** `pat` occurs in `s` starting at index `i`. */
  predicate OccursAt(s: string, pat: string, i: int) {
    0 <= i && i + |pat| <= |s| && s[i..i + |pat|] == pat
  }

  /** `s.replace(pat, rep)`: every occurrence of `pat`, scanned from the left without overlap,
      replaced by `rep`. */
  function ReplaceAll(s: string, pat: string, rep: string): string
    requires pat != []
  {
    if |s| < |pat| then s
    else if s[..|pat|] == pat then rep + ReplaceAll(s[|pat|..], pat, rep)
    else [s[0]] + ReplaceAll(s[1..], pat, rep)
  }

  /** Without an occurrence of the pattern, replacing changes nothing; with one, a longer
      replacement makes the text longer, so the text comes back unchanged exactly when the
      pattern does not occur. */
  lemma {:induction false} ReplaceAllLength(s: string, pat: string, rep: string)
    requires pat != [] && |rep| > |pat|
    ensures (forall i :: !OccursAt(s, pat, i)) ==> ReplaceAll(s, pat, rep) == s
    ensures (exists i :: OccursAt(s, pat, i)) ==> |ReplaceAll(s, pat, rep)| > |s|
    ensures |ReplaceAll(s, pat, rep)| >= |s|
    decreases |s|
  {
    if |s| >= |pat| {
      if s[..|pat|] == pat {
        assert OccursAt(s, pat, 0);
        ReplaceAllLength(s[|pat|..], pat, rep);
      } else {
        var t := s[1..];
        ReplaceAllLength(t, pat, rep);
        forall i | OccursAt(t, pat, i) ensures OccursAt(s, pat, i + 1) {
          assert s[i + 1..i + 1 + |pat|] == t[i..i + |pat|];
        }
        if exists i :: OccursAt(s, pat, i) {
          var i :| OccursAt(s, pat, i);
          assert i != 0;
          assert OccursAt(t, pat, i - 1) by {
            assert t[i - 1..i - 1 + |pat|] == s[i..i + |pat|];
          }
        }
      }
    } else {
      forall i ensures !OccursAt(s, pat, i) { }
    }
  }
}
