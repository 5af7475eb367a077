/**
  The parts of Python's `str` that the converter relies on: `isspace`,
  `isalnum`, `strip`/`lstrip`/`rstrip`, the decimal rendering of an `int`
  inside an f-string, and `lower` as far as the `.pdf` suffix test needs it.
  Strings are sequences of code points, as in Python 3.
 */
module Text {

  /** `str.isspace` for one character: the code points Python classes as whitespace. */
  predicate IsSpace(c: char) {
    || ('\t' <= c <= '\r')
    || ('\U{1C}' <= c <= '\U{1F}')
    || c == ' '
    || c == '\U{85}'
    || c == '\U{A0}'
    || c == '\U{1680}'
    || ('\U{2000}' <= c <= '\U{200A}')
    || c == '\U{2028}'
    || c == '\U{2029}'
    || c == '\U{202F}'
    || c == '\U{205F}'
    || c == '\U{3000}'
  }

  /** `str.isalnum` for one character, restricted to ASCII letters and digits. */
  predicate IsAlnum(c: char) {
    ('a' <= c <= 'z') || ('A' <= c <= 'Z') || ('0' <= c <= '9')
  }

  /** `s.lstrip()`; `LStripSpec` states what it keeps and drops. */
  function LStrip(s: string): (r: string)
    ensures |r| <= |s|
  {
    if s == [] || !IsSpace(s[0]) then s else LStrip(s[1..])
  }

  /** `lstrip` drops the leading whitespace and nothing else. */
  lemma {:induction false} LStripSpec(s: string)
    ensures var r := LStrip(s);
      && r == s[|s| - |r|..]
      && (r == [] || !IsSpace(r[0]))
      && forall i :: 0 <= i < |s| - |r| ==> IsSpace(s[i])
  {
    if s != [] && IsSpace(s[0]) {
      LStripSpec(s[1..]);
    }
  }

  /** `s.rstrip()`; `RStripSpec` states what it keeps and drops. */
  function RStrip(s: string): (r: string)
    ensures |r| <= |s|
  {
    if s == [] || !IsSpace(s[|s| - 1]) then s else RStrip(s[..|s| - 1])
  }

  /** `rstrip` drops the trailing whitespace and nothing else. */
  lemma {:induction false} RStripSpec(s: string)
    ensures var r := RStrip(s);
      && r == s[..|r|]
      && (r == [] || !IsSpace(r[|r| - 1]))
      && forall i :: |r| <= i < |s| ==> IsSpace(s[i])
  {
    if s != [] && IsSpace(s[|s| - 1]) {
      RStripSpec(s[..|s| - 1]);
    }
  }

  /** `s.strip()`; `StripSpec` states what it keeps and drops. */
  function Strip(s: string): (r: string)
    ensures |r| <= |s|
  {
    RStrip(LStrip(s))
  }

  /** `strip` keeps a middle part of `s`: every character it keeps comes from `s`. */
  lemma StripSlice(s: string)
    ensures Strip(s) == s[|s| - |LStrip(s)|..][..|Strip(s)|]
    ensures forall c :: c in Strip(s) ==> c in s
  {
    var l := LStrip(s);
    LStripSpec(s);
    RStripSpec(l);
    var r := Strip(s);
    forall c | c in r ensures c in s {
      var i :| 0 <= i < |r| && r[i] == c;
      assert r[i] == l[i] == s[|s| - |l| + i];
    }
  }

  /** The result of `strip` neither starts nor ends with whitespace. */
  lemma StripEnds(s: string)
    ensures var r := Strip(s); r == [] || (!IsSpace(r[0]) && !IsSpace(r[|r| - 1]))
  {
    var l := LStrip(s);
    LStripSpec(s);
    RStripSpec(l);
    if Strip(s) != [] {
      assert Strip(s)[0] == l[0];
    }
  }

  /** `strip` gives the empty string exactly when `s` is all whitespace. */
  lemma StripEmpty(s: string)
    ensures (forall i :: 0 <= i < |s| ==> IsSpace(s[i])) <==> Strip(s) == []
  {
    var l := LStrip(s);
    LStripSpec(s);
    RStripSpec(l);
  }

  /** A character that is not whitespace is kept by `strip`. */
  lemma StripKeepsNonSpace(s: string, i: nat)
    requires i < |s| && !IsSpace(s[i])
    ensures s[i] in Strip(s)
  {
    var l := LStrip(s);
    LStripSpec(s);
    RStripSpec(l);
    var d := |s| - |l|;
    assert l[i - d] == s[i];
    assert Strip(s)[i - d] == s[i];
  }

  /** Text that neither starts nor ends with whitespace is its own `strip`. */
  lemma StripNoop(s: string)
    requires s == [] || (!IsSpace(s[0]) && !IsSpace(s[|s| - 1]))
    ensures Strip(s) == s
  {
  }

  predicate IsDigit(c: char) {
    '0' <= c <= '9'
  }

  predicate IsDigits(s: string) {
    forall i :: 0 <= i < |s| ==> IsDigit(s[i])
  }

  function DigitChar(d: nat): (c: char)
    requires d < 10
    ensures IsDigit(c)
  {
    ('0' as int + d) as char
  }

  function DigitValue(c: char): (d: nat)
    requires IsDigit(c)
    ensures d < 10 && DigitChar(d) == c
  {
    c as int - '0' as int
  }

  /** The text Python's f-string gives for a non-negative `int`: decimal digits, no leading zero. */
  function Decimal(n: nat): (r: string)
    ensures |r| >= 1 && IsDigits(r)
    ensures r[0] == '0' ==> n == 0
  {
    if n < 10 then [DigitChar(n)] else Decimal(n / 10) + [DigitChar(n % 10)]
  }

  /** Reads a string of decimal digits back as a number. */
  function DecimalValue(s: string): nat
    requires IsDigits(s)
  {
    if s == [] then 0 else 10 * DecimalValue(s[..|s| - 1]) + DigitValue(s[|s| - 1])
  }

  lemma {:induction false} DecimalRoundTrip(n: nat)
    ensures DecimalValue(Decimal(n)) == n
  {
    if n >= 10 {
      var d := Decimal(n);
      assert d[..|d| - 1] == Decimal(n / 10);
      DecimalRoundTrip(n / 10);
    }
  }

  /** Different numbers never render to the same text. */
  lemma DecimalInjective(a: nat, b: nat)
    ensures Decimal(a) == Decimal(b) ==> a == b
  {
    DecimalRoundTrip(a);
    DecimalRoundTrip(b);
  }

  /** `str.lower` on one character, for ASCII letters. */
  function LowerChar(c: char): (r: char)
    ensures 'A' <= c <= 'Z' ==> 'a' <= r <= 'z' && r as int - c as int == 32
    ensures !('A' <= c <= 'Z') ==> r == c
  {
    if 'A' <= c <= 'Z' then (c as int + 32) as char else c
  }

  function Lower(s: string): (r: string)
    ensures |r| == |s|
    ensures forall i :: 0 <= i < |s| ==> r[i] == LowerChar(s[i])
  {
    seq(|s|, i requires 0 <= i < |s| => LowerChar(s[i]))
  }

  /** The first index at or after `j` that holds `c`, or `|s|` when there is none: where a run of `[^c]*` stops. */
  function NextIndexOf(s: string, j: nat, c: char): (k: nat)
    requires j <= |s|
    ensures j <= k <= |s|
    ensures forall t :: j <= t < k ==> s[t] != c
    ensures k < |s| ==> s[k] == c
    decreases |s| - j
  {
    if j == |s| || s[j] == c then j else NextIndexOf(s, j + 1, c)
  }

  /** `^` under `re.MULTILINE`: the start of the text or just after a line break. */
  predicate LineStart(s: string, p: nat)
    requires p <= |s|
  {
    p == 0 || s[p - 1] == '\n'
  }

  predicate EndsWith(s: string, suffix: string) {
    |suffix| <= |s| && s[|s| - |suffix|..] == suffix
  }
}
