/** Character classes and string operations with the meaning Python 3 gives them
    (`str.isspace`, `str.strip`, `str.split()`, `in`, `int()`, ...), shared by both
    extractors. Strings are sequences of Unicode scalar values. */
module Text {

  datatype Option<T> = None | Some(value: T)

  type String = seq<char>

  // ---------------------------------------------------------------------------
  // Character classes
  // ---------------------------------------------------------------------------

  /** Python's `str.isspace()`; `\s` in a `str` pattern matches exactly these. */
  predicate IsSpace(c: char) {
    ('\t' <= c <= '\r') || ('\U{1C}' <= c <= ' ') || c == '\U{85}' || c == '\U{A0}'
    || c == '\U{1680}' || ('\U{2000}' <= c <= '\U{200A}') || c == '\U{2028}'
    || c == '\U{2029}' || c == '\U{202F}' || c == '\U{205F}' || c == '\U{3000}'
  }

  predicate NotSpace(c: char) { !IsSpace(c) }

  predicate IsNewline(c: char) { c == '\n' }

  predicate IsAsciiDigit(c: char) { '0' <= c <= '9' }

  /** The ten Arabic-Indic digits U+0660 .. U+0669. */
  predicate IsIndicDigit(c: char) { '\U{0660}' <= c <= '\U{0669}' }

  /** The Extended Arabic-Indic digits U+06F0 .. U+06F9. */
  predicate IsExtIndicDigit(c: char) { '\U{06F0}' <= c <= '\U{06F9}' }

  /** The decimal digits of the scripts this corpus can contain; `\d` and `int()`
      accept them (and the digits of further scripts, which are not modelled). */
  predicate IsDecimalDigit(c: char) { IsAsciiDigit(c) || IsIndicDigit(c) || IsExtIndicDigit(c) }

  /** The class `[٠-٩0-9]` of the footnote-marker patterns. */
  predicate IsFootnoteDigit(c: char) { IsIndicDigit(c) || IsAsciiDigit(c) }

  /** The class `[أ-ي]`: U+0623 (alef with hamza above) .. U+064A (yeh). */
  predicate IsArabicLetter(c: char) { '\U{0623}' <= c <= '\U{064A}' }

  function DigitValue(c: char): (d: nat)
    requires IsDecimalDigit(c)
    ensures d < 10
  {
    if IsAsciiDigit(c) then (c as int - '0' as int) as nat
    else if IsIndicDigit(c) then (c as int - '\U{0660}' as int) as nat
    else (c as int - '\U{06F0}' as int) as nat
  }

  function AsciiDigit(d: nat): (c: char)
    requires d < 10
    ensures IsAsciiDigit(c) && DigitValue(c) == d
  {
    (d + '0' as int) as char
  }

  // ---------------------------------------------------------------------------
  // Substrings
  // ---------------------------------------------------------------------------

  /** `p` occurs in `s` starting at index `i`. */
  predicate HasAt(s: String, p: String, i: nat) {
    i + |p| <= |s| && s[i..i + |p|] == p
  }

  predicate StartsWith(s: String, p: String) { HasAt(s, p, 0) }

  /** An occurrence of `x + y` is an occurrence of `x` followed by one of `y`. */
  lemma HasAtParts(s: String, x: String, y: String, i: nat)
    requires HasAt(s, x + y, i)
    ensures HasAt(s, x, i) && HasAt(s, y, i + |x|)
  {
    assert s[i..i + |x|] == (x + y)[..|x|];
    assert s[i + |x|..i + |x| + |y|] == (x + y)[|x|..];
  }

  /** Python's `p in s`. */
  predicate Contains(s: String, p: String) {
    exists i: nat | i + |p| <= |s| :: HasAt(s, p, i)
  }

  /** A string that contains `b` contains everything `b` contains. */
  lemma ContainsTransitive(t: String, b: String, a: String)
    requires Contains(b, a) && Contains(t, b)
    ensures Contains(t, a)
  {
    var i: nat :| i + |a| <= |b| && HasAt(b, a, i);
    var j: nat :| j + |b| <= |t| && HasAt(t, b, j);
    assert forall k | 0 <= k < |a| :: t[j + i + k] == b[i + k] == a[k];
    assert t[j + i..j + i + |a|] == a;
    assert HasAt(t, a, j + i);
  }

  /** No character of `s` satisfies `P`. */
  predicate NoneOf(s: String, P: char -> bool) {
    forall k | 0 <= k < |s| :: !P(s[k])
  }

  /** A slice has no character that the whole lacks. */
  lemma NoneOfSlice(s: String, a: nat, b: nat, P: char -> bool)
    requires a <= b <= |s| && NoneOf(s, P)
    ensures NoneOf(s[a..b], P)
  {
    assert forall k | 0 <= k < b - a :: s[a..b][k] == s[a + k];
  }

  // ---------------------------------------------------------------------------
  // Scanning runs of characters
  // ---------------------------------------------------------------------------

  /** The end of the run of characters satisfying `P` that starts at `i`. */
  function SkipWhile(s: String, i: nat, P: char -> bool): (r: nat)
    requires i <= |s|
    ensures i <= r <= |s|
    ensures forall k | i <= k < r :: P(s[k])
    ensures r < |s| ==> !P(s[r])
    decreases |s| - i
  {
    if i == |s| || !P(s[i]) then i else SkipWhile(s, i + 1, P)
  }

  /** The same scan as `SkipWhile` with only its bounds in the contract, for
      scanners that are unfolded often; `RunIsSkipWhile` gives the rest. */
  function Run(s: String, i: nat, P: char -> bool): (r: nat)
    requires i <= |s|
    ensures i <= r <= |s|
    decreases |s| - i
  {
    if i == |s| || !P(s[i]) then i else Run(s, i + 1, P)
  }

  lemma {:induction false} RunIsSkipWhile(s: String, i: nat, P: char -> bool)
    requires i <= |s|
    ensures Run(s, i, P) == SkipWhile(s, i, P)
    decreases |s| - i
  {
    if i < |s| && P(s[i]) { RunIsSkipWhile(s, i + 1, P); }
  }

  /** The start of the run of characters satisfying `P` that ends just before `j`. */
  function SkipBack(s: String, j: nat, P: char -> bool): (r: nat)
    requires j <= |s|
    ensures r <= j
    ensures forall k | r <= k < j :: P(s[k])
    ensures r > 0 ==> !P(s[r - 1])
  {
    if j == 0 || !P(s[j - 1]) then j else SkipBack(s, j - 1, P)
  }

  /** The end of the run of characters not satisfying `P` that starts at `i`. */
  function SkipUntil(s: String, i: nat, P: char -> bool): (r: nat)
    requires i <= |s|
    ensures i <= r <= |s|
    ensures forall k | i <= k < r :: !P(s[k])
    ensures r < |s| ==> P(s[r])
    decreases |s| - i
  {
    if i == |s| || P(s[i]) then i else SkipUntil(s, i + 1, P)
  }

  /** A run ends where its characters stop satisfying the predicate. */
  lemma {:induction false} SkipWhileStops(s: String, i: nat, P: char -> bool, r: nat)
    requires i <= r <= |s|
    requires forall k | i <= k < r :: P(s[k])
    requires r < |s| ==> !P(s[r])
    ensures SkipWhile(s, i, P) == r
    decreases |s| - i
  {
    if i < r { SkipWhileStops(s, i + 1, P, r); }
  }

  lemma {:induction false} SkipUntilStops(s: String, i: nat, P: char -> bool, r: nat)
    requires i <= r <= |s|
    requires forall k | i <= k < r :: !P(s[k])
    requires r < |s| ==> P(s[r])
    ensures SkipUntil(s, i, P) == r
    decreases |s| - i
  {
    if i < r { SkipUntilStops(s, i + 1, P, r); }
  }

  // ---------------------------------------------------------------------------
  // strip, rstrip, split, join
  // ---------------------------------------------------------------------------

  /** The bounds of `s.strip()` inside `s`. */
  function StripRange(s: String): (p: (nat, nat))
    ensures p.0 <= p.1 <= |s|
    ensures forall k | 0 <= k < p.0 :: IsSpace(s[k])
    ensures forall k | p.1 <= k < |s| :: IsSpace(s[k])
    ensures p.0 < p.1 ==> !IsSpace(s[p.0]) && !IsSpace(s[p.1 - 1])
  {
    var e := SkipBack(s, |s|, IsSpace);
    var a := SkipWhile(s[..e], 0, IsSpace);
    (a, e)
  }

  /** Python's `s.strip()`. */
  function Strip(s: String): String {
    s[StripRange(s).0..StripRange(s).1]
  }

  /** Python's `s.rstrip(chars)` for the characters satisfying `P`. */
  function RStripWhere(s: String, P: char -> bool): (r: String)
    ensures |r| <= |s| && r == s[..|r|]
    ensures forall k | |r| <= k < |s| :: P(s[k])
    ensures r == [] || !P(r[|r| - 1])
  {
    s[..SkipBack(s, |s|, P)]
  }

  lemma StripIsTrimmed(s: String)
    ensures var r := Strip(s); r == [] || (NotSpace(r[0]) && NotSpace(r[|r| - 1]))
  {
  }

  /** A string that is already stripped is its own strip. */
  lemma StripOfTrimmed(s: String)
    requires s == [] || (NotSpace(s[0]) && NotSpace(s[|s| - 1]))
    ensures Strip(s) == s
  {
    var p := StripRange(s);
    if s != [] {
      assert p.1 == |s|;
      assert p.0 == 0;
    }
  }

  /** Stripping is idempotent. */
  lemma StripIdempotent(s: String)
    ensures Strip(Strip(s)) == Strip(s)
  {
    StripIsTrimmed(s);
    StripOfTrimmed(Strip(s));
  }

  /** A prefix of a slice is a slice. */
  lemma PrefixOfSlice<T>(t: seq<T>, i: nat, j: nat, k: nat)
    requires i <= j <= |t| && k <= j - i
    ensures t[i..j][..k] == t[i..i + k]
  {
  }

  /** The maximal runs of characters not satisfying `sep`, in order; with
      `sep == IsSpace` this is Python's `s.split()`. */
  function Tokens(s: String, sep: char -> bool): (ws: seq<String>)
    ensures forall w | w in ws :: w != [] && NoneOf(w, sep)
    decreases |s|
  {
    if s == [] then []
    else if sep(s[0]) then Tokens(s[1..], sep)
    else
      var b := SkipUntil(s, 0, sep);
      [s[..b]] + Tokens(s[b..], sep)
  }

  /** Python's `s.split()`. */
  function Words(s: String): seq<String> {
    Tokens(s, IsSpace)
  }

  /** Python's `' '.join(ws)`. */
  function Join(ws: seq<String>): String
    decreases |ws|
  {
    if ws == [] then [] else if |ws| == 1 then ws[0] else ws[0] + [' '] + Join(ws[1..])
  }

  /** Python's `xs[:n]`. */
  function Take<T>(xs: seq<T>, n: nat): (r: seq<T>)
    ensures |r| <= n && |r| <= |xs| && r == xs[..|r|]
    ensures |xs| <= n ==> r == xs
  {
    if |xs| <= n then xs else xs[..n]
  }

  /** A string all of whose characters are separators has no tokens. */
  lemma {:induction false} TokensOfSeparators(s: String, sep: char -> bool)
    requires forall k | 0 <= k < |s| :: sep(s[k])
    ensures Tokens(s, sep) == []
    decreases |s|
  {
    if s != [] {
      TokensOfSeparators(s[1..], sep);
    }
  }

  /** Leading separators do not change the tokens. */
  lemma {:induction false} TokensAfterSeparators(s: String, a: nat, sep: char -> bool)
    requires a <= |s|
    requires forall k | 0 <= k < a :: sep(s[k])
    ensures Tokens(s[a..], sep) == Tokens(s, sep)
    decreases a
  {
    if a > 0 {
      assert s[1..][a - 1..] == s[a..];
      TokensAfterSeparators(s[1..], a - 1, sep);
    }
  }

  /** Cutting a string never adds tokens. */
  lemma {:induction false} TokensOfPrefix(s: String, n: nat, sep: char -> bool)
    requires n <= |s|
    ensures |Tokens(s[..n], sep)| <= |Tokens(s, sep)|
    decreases |s|
  {
    if n == 0 {
    } else if sep(s[0]) {
      assert s[..n][1..] == s[1..][..n - 1];
      TokensOfPrefix(s[1..], n - 1, sep);
    } else {
      var b := SkipUntil(s, 0, sep);
      var b' := SkipUntil(s[..n], 0, sep);
      if n <= b {
        SkipUntilStops(s[..n], 0, sep, n);
        assert s[..n][b'..] == [];
        TokensOfSeparators(s[..n][b'..], sep);
      } else {
        SkipUntilStops(s[..n], 0, sep, b);
        assert b' == b;
        assert s[..n][b..] == s[b..][..n - b];
        TokensOfPrefix(s[b..], n - b, sep);
      }
    }
  }

  /** Splitting the join of separator-free, non-empty words gives them back. */
  lemma {:induction false} WordsOfJoin(ws: seq<String>)
    requires forall w | w in ws :: w != [] && NoneOf(w, IsSpace)
    ensures Words(Join(ws)) == ws
    decreases |ws|
  {
    if ws == [] {
    } else {
      var w := ws[0];
      assert w in ws;
      var j := Join(ws);
      assert |ws| > 1 ==> j == w + [' '] + Join(ws[1..]);
      assert j[..|w|] == w;
      assert forall k | 0 <= k < |w| :: !IsSpace(j[k]) by {
        forall k | 0 <= k < |w| ensures !IsSpace(j[k]) {
          assert j[k] == w[k];
        }
      }
      assert |w| < |j| ==> IsSpace(j[|w|]);
      SkipUntilStops(j, 0, IsSpace, |w|);
      assert Words(j) == [w] + Tokens(j[|w|..], IsSpace);
      if |ws| == 1 {
        assert j[|w|..] == [];
      } else {
        assert forall v | v in ws[1..] :: v in ws;
        WordsOfJoin(ws[1..]);
        var rest := j[|w|..];
        assert rest == [' '] + Join(ws[1..]);
        assert rest[1..] == Join(ws[1..]);
        assert Tokens(rest, IsSpace) == Tokens(rest[1..], IsSpace);
      }
    }
  }

  /** Stripping whitespace does not change the words. */
  lemma WordsOfStrip(s: String)
    ensures Words(Strip(s)) == Words(s)
  {
    var p := StripRange(s);
    assert Strip(s) == s[..p.1][p.0..];
    TokensAfterSeparators(s[..p.1], p.0, IsSpace);
    TokensOfSuffixSeparators(s, p.1);
  }

  /** Trailing whitespace does not change the words. */
  lemma {:induction false} TokensOfSuffixSeparators(s: String, e: nat)
    requires e <= |s|
    requires forall k | e <= k < |s| :: IsSpace(s[k])
    ensures Words(s[..e]) == Words(s)
    decreases |s|
  {
    if e == 0 {
      TokensOfSeparators(s, IsSpace);
    } else if IsSpace(s[0]) {
      assert s[..e][1..] == s[1..][..e - 1];
      TokensOfSuffixSeparators(s[1..], e - 1);
    } else {
      var b := SkipUntil(s, 0, IsSpace);
      assert e < |s| ==> IsSpace(s[e]);
      assert b <= e;
      SkipUntilStops(s[..e], 0, IsSpace, b);
      assert s[..e][..b] == s[..b];
      assert s[..e][b..] == s[b..][..e - b];
      TokensOfSuffixSeparators(s[b..], e - b);
      assert Words(s[..e]) == [s[..b]] + Words(s[..e][b..]);
    }
  }

  // ---------------------------------------------------------------------------
  // Decimal numbers
  // ---------------------------------------------------------------------------

  predicate AllDigits(s: String) {
    forall k | 0 <= k < |s| :: IsDecimalDigit(s[k])
  }

  /** The value of a string of decimal digits (of any of the modelled scripts). */
  function DigitsValue(s: String): nat
    requires AllDigits(s)
  {
    if s == [] then 0 else DigitsValue(s[..|s| - 1]) * 10 + DigitValue(s[|s| - 1])
  }

  /** The shortest ASCII decimal representation of `n` (Python's `str(n)`). */
  function Decimal(n: nat): (s: String)
    ensures s != [] && forall k | 0 <= k < |s| :: IsAsciiDigit(s[k])
  {
    if n < 10 then [AsciiDigit(n)] else Decimal(n / 10) + [AsciiDigit(n % 10)]
  }

  /** Python's `''.join(xs)`. */
  function Concat(xs: seq<String>): String
    decreases |xs|
  {
    if xs == [] then [] else xs[0] + Concat(xs[1..])
  }

  /** The list `[f(0), ..., f(n - 1)]`, as a loop appending one value per step builds it. */
  function Tabulate<T>(n: nat, f: nat --> T): (r: seq<T>)
    requires forall k: nat :: k < n ==> f.requires(k)
    ensures |r| == n
  {
    if n == 0 then [] else Tabulate(n - 1, f) + [f(n - 1)]
  }

  lemma {:induction false} TabulateAt<T>(n: nat, f: nat --> T, k: nat)
    requires forall k: nat :: k < n ==> f.requires(k)
    requires k < n
    ensures Tabulate(n, f)[k] == f(k)
  {
    if k < n - 1 {
      TabulateAt(n - 1, f, k);
    }
  }

  function Repeat(c: char, n: nat): (s: String)
    ensures |s| == n && forall k | 0 <= k < n :: s[k] == c
  {
    if n == 0 then [] else Repeat(c, n - 1) + [c]
  }

  /** Python's `s.zfill(width)` for a string without a sign. */
  function ZeroFill(s: String, width: nat): (r: String)
    ensures |r| == if |s| < width then width else |s|
  {
    if |s| < width then Repeat('0', width - |s|) + s else s
  }

  lemma {:induction false} DecimalValue(n: nat)
    ensures AllDigits(Decimal(n)) && DigitsValue(Decimal(n)) == n
  {
    if n >= 10 {
      DecimalValue(n / 10);
      var s := Decimal(n);
      assert s[..|s| - 1] == Decimal(n / 10);
    }
  }

  /** Leading zeros do not change the value of a digit string. */
  lemma {:induction false} LeadingZerosValue(z: nat, s: String)
    requires AllDigits(s)
    ensures AllDigits(Repeat('0', z) + s) && DigitsValue(Repeat('0', z) + s) == DigitsValue(s)
    decreases |s|
  {
    var t := Repeat('0', z) + s;
    assert forall k | 0 <= k < |t| :: IsDecimalDigit(t[k]) by {
      forall k | 0 <= k < |t| ensures IsDecimalDigit(t[k]) {
        if k >= z { assert t[k] == s[k - z]; }
      }
    }
    if s == [] {
      assert t == Repeat('0', z);
      ZerosValue(z);
    } else {
      LeadingZerosValue(z, s[..|s| - 1]);
      assert t[..|t| - 1] == Repeat('0', z) + s[..|s| - 1];
    }
  }

  lemma {:induction false} ZerosValue(z: nat)
    ensures AllDigits(Repeat('0', z)) && DigitsValue(Repeat('0', z)) == 0
  {
    if z > 0 {
      ZerosValue(z - 1);
      assert Repeat('0', z)[..z - 1] == Repeat('0', z - 1);
    }
  }

  /** Zero-padding a decimal representation keeps its value. */
  lemma ZeroFillDecimalValue(n: nat, width: nat)
    ensures AllDigits(ZeroFill(Decimal(n), width))
    ensures DigitsValue(ZeroFill(Decimal(n), width)) == n
  {
    DecimalValue(n);
    var s := Decimal(n);
    if |s| < width {
      LeadingZerosValue(width - |s|, s);
    }
  }

  /** Python's `int(s)` on a string: surrounding whitespace, an optional sign and
      decimal digits; anything else raises `ValueError`, modelled as `None`. */
  function ParseInt(s: String): (r: Option<int>)
    ensures r.Some? ==> Strip(s) != []
  {
    var t := Strip(s);
    if t == [] then None
    else
      var neg := t[0] == '-';
      var body := if t[0] == '-' || t[0] == '+' then t[1..] else t;
      if body != [] && AllDigits(body) then
        Some(if neg then -(DigitsValue(body) as int) else DigitsValue(body) as int)
      else None
  }

  lemma ParseIntOfDecimal(n: nat)
    ensures ParseInt(Decimal(n)) == Some(n)
  {
    DecimalValue(n);
    StripOfTrimmed(Decimal(n));
  }

  // ---------------------------------------------------------------------------
  // Scanning for the matches of a pattern
  // ---------------------------------------------------------------------------

  /** Where a match lies in the text: `start` included, `end` excluded. */
  datatype Span = Span(start: nat, end: nat)

  /** Python's `re.finditer` over a text of length `n` from position `i`: the
      leftmost match, then the leftmost one from where it ended, and so on.
      `matchAt(p)` is where the match that starts at `p` ends, if there is one;
      a match is never empty. */
  function Scan(n: nat, i: nat, matchAt: nat -> Option<nat>): (ms: seq<Span>)
    requires i <= n
    ensures forall k | 0 <= k < |ms| :: i <= ms[k].start < ms[k].end <= n
    ensures forall k | 0 <= k < |ms| - 1 :: ms[k].end <= ms[k + 1].start
    decreases n - i
  {
    if i == n then []
    else if matchAt(i).Some? && i < matchAt(i).value <= n then [Span(i, matchAt(i).value)] + Scan(n, matchAt(i).value, matchAt)
    else Scan(n, i + 1, matchAt)
  }

  /** A match starts where the pattern matches and ends where that match ends. */
  predicate IsMatch(n: nat, matchAt: nat -> Option<nat>, m: Span) {
    matchAt(m.start).Some? && m.start < matchAt(m.start).value <= n && m.end == matchAt(m.start).value
  }

  /** Every element of the scan is a match. */
  lemma {:induction false} ScanMatches(n: nat, i: nat, matchAt: nat -> Option<nat>, k: nat)
    requires i <= n && k < |Scan(n, i, matchAt)|
    ensures IsMatch(n, matchAt, Scan(n, i, matchAt)[k])
    decreases n - i
  {
    if matchAt(i).Some? && i < matchAt(i).value <= n {
      if k > 0 { ScanMatches(n, matchAt(i).value, matchAt, k - 1); }
    } else {
      ScanMatches(n, i + 1, matchAt, k);
    }
  }

  /** No match is skipped: where the scan has a gap (`k == -1` stands for the gap
      before its first element), no match starts. */
  lemma {:induction false} ScanLeftmost(n: nat, i: nat, matchAt: nat -> Option<nat>, k: int, j: nat)
    requires i <= n && -1 <= k < |Scan(n, i, matchAt)|
    requires (if k < 0 then i else Scan(n, i, matchAt)[k].end) <= j
    requires j < (if k + 1 < |Scan(n, i, matchAt)| then Scan(n, i, matchAt)[k + 1].start else n)
    ensures !(matchAt(j).Some? && j < matchAt(j).value <= n)
    decreases n - i
  {
    if matchAt(i).Some? && i < matchAt(i).value <= n {
      if k >= 0 { ScanLeftmost(n, matchAt(i).value, matchAt, k - 1, j); }
    } else if j > i {
      ScanLeftmost(n, i + 1, matchAt, k, j);
    }
  }

  // ---------------------------------------------------------------------------
  // Deleting the matches of a pattern
  // ---------------------------------------------------------------------------

  /** Python's `re.sub(pattern, '', s)` for a pattern that never matches the empty
      string and looks neither behind nor at the start of the string: `matchAt(t)`
      is the length of the match of the pattern at the start of `t`, if any. The
      scan resumes after each deleted match. */
  function RemoveMatches(s: String, matchAt: String -> Option<nat>): (r: String)
    decreases |s|
  {
    if s == [] then []
    else if matchAt(s).Some? && 0 < matchAt(s).value <= |s| then RemoveMatches(s[matchAt(s).value..], matchAt)
    else [s[0]] + RemoveMatches(s[1..], matchAt)
  }

  /** A match of a pattern whose matches all begin with `c`, after text without
      `c`, is deleted, and the scan carries on after it. */
  lemma {:induction false} MatchDeleted(a: String, x: String, b: String, matchAt: String -> Option<nat>, c: char)
    requires forall k | 0 <= k < |a| :: a[k] != c
    requires forall t: String {:trigger matchAt(t)} :: matchAt(t).Some? ==> t != [] && t[0] == c
    requires 0 < |x| && matchAt(x + b) == Some(|x|)
    ensures RemoveMatches(a + x + b, matchAt) == a + RemoveMatches(b, matchAt)
    decreases |a|
  {
    var s := a + x + b;
    if a == [] {
      assert s == x + b && s[|x|..] == b;
    } else {
      assert s[0] == a[0] && s[1..] == a[1..] + x + b;
      assert matchAt(s).None?;
      MatchDeleted(a[1..], x, b, matchAt, c);
      assert a == [a[0]] + a[1..];
    }
  }

  /** Deleting matches only deletes characters. */
  lemma {:induction false} RemoveMatchesSubseq(s: String, matchAt: String -> Option<nat>)
    ensures IsSubseq(RemoveMatches(s, matchAt), s)
    decreases |s|
  {
    if s == [] {
    } else if matchAt(s).Some? && 0 < matchAt(s).value <= |s| {
      var n := matchAt(s).value;
      RemoveMatchesSubseq(s[n..], matchAt);
      SubseqSkip(RemoveMatches(s[n..], matchAt), s[..n], s[n..]);
      assert s[..n] + s[n..] == s;
    } else {
      RemoveMatchesSubseq(s[1..], matchAt);
      SubseqCons(s[0], RemoveMatches(s[1..], matchAt), s[1..]);
      assert [s[0]] + s[1..] == s;
    }
  }

  // ---------------------------------------------------------------------------
  // Distinct elements, subsequences
  // ---------------------------------------------------------------------------

  predicate NoDup<T(==)>(xs: seq<T>) {
    forall i, j | 0 <= i < j < |xs| :: xs[i] != xs[j]
  }

  /** `a` can be obtained from `b` by deleting elements. */
  predicate IsSubseq<T(==)>(a: seq<T>, b: seq<T>)
    decreases |b|
  {
    if a == [] then true
    else if b == [] then false
    else if a[0] == b[0] then IsSubseq(a[1..], b[1..])
    else IsSubseq(a, b[1..])
  }

  lemma {:induction false} SubseqShorter<T>(a: seq<T>, b: seq<T>)
    requires IsSubseq(a, b)
    ensures |a| <= |b|
    decreases |b|
  {
    if a != [] {
      if a[0] == b[0] { SubseqShorter(a[1..], b[1..]); } else { SubseqShorter(a, b[1..]); }
    }
  }

  lemma {:induction false} SubseqCons<T>(c: T, a: seq<T>, b: seq<T>)
    requires IsSubseq(a, b)
    ensures IsSubseq([c] + a, [c] + b)
  {
    assert ([c] + a)[1..] == a;
    assert ([c] + b)[1..] == b;
  }

  /** Dropping the first character of `a` keeps it a subsequence, and so does
      putting a character in front of `b`. */
  lemma {:induction false} SubseqWeaken<T>(a: seq<T>, b: seq<T>, c: T)
    requires IsSubseq(a, b)
    ensures a != [] ==> IsSubseq(a[1..], b)
    ensures IsSubseq(a, [c] + b)
    decreases |b|, 1
  {
    var cb := [c] + b;
    assert cb[1..] == b;
    if a != [] {
      assert [b[0]] + b[1..] == b;
      if a[0] == b[0] {
        SubseqWeaken(a[1..], b[1..], b[0]);
      } else {
        SubseqWeaken(a, b[1..], b[0]);
        SubseqWeaken(a[1..], b[1..], b[0]);
      }
      if a[0] != c {
        assert IsSubseq(a, cb);
      } else {
        assert IsSubseq(a[1..], b);
      }
    }
  }

  lemma {:induction false} SubseqSkip<T>(a: seq<T>, p: seq<T>, b: seq<T>)
    requires IsSubseq(a, b)
    ensures IsSubseq(a, p + b)
    decreases |p|
  {
    if p == [] {
      assert p + b == b;
    } else {
      SubseqSkip(a, p[1..], b);
      SubseqWeaken(a, p[1..] + b, p[0]);
      assert [p[0]] + (p[1..] + b) == p + b;
    }
  }

  lemma {:induction false} SubseqRefl<T>(s: seq<T>)
    ensures IsSubseq(s, s)
    decreases |s|
  {
    if s != [] { SubseqRefl(s[1..]); }
  }

  lemma {:induction false} SubseqTrans<T>(a: seq<T>, b: seq<T>, c: seq<T>)
    requires IsSubseq(a, b) && IsSubseq(b, c)
    ensures IsSubseq(a, c)
    decreases |c|
  {
    if a == [] {
    } else if b[0] == c[0] {
      if a[0] == b[0] {
        SubseqTrans(a[1..], b[1..], c[1..]);
      } else {
        SubseqTrans(a, b[1..], c[1..]);
        SubseqWeaken(a, c[1..], c[0]);
        assert [c[0]] + c[1..] == c;
      }
    } else {
      SubseqTrans(a, b, c[1..]);
      SubseqWeaken(a, c[1..], c[0]);
      assert [c[0]] + c[1..] == c;
    }
  }

  /** An element missing from `b` is missing from every subsequence of `b`. */
  lemma {:induction false} SubseqKeepsAbsence<T>(a: seq<T>, b: seq<T>, x: T)
    requires IsSubseq(a, b) && x !in b
    ensures x !in a
    decreases |b|
  {
    if a != [] {
      if a[0] == b[0] { SubseqKeepsAbsence(a[1..], b[1..], x); }
      else { SubseqKeepsAbsence(a, b[1..], x); }
    }
  }

  /** Appending the same element to both sides, or to the longer side only,
      keeps a subsequence. */
  lemma {:induction false} SubseqSnoc<T>(a: seq<T>, b: seq<T>, x: T)
    requires IsSubseq(a, b)
    ensures IsSubseq(a, b + [x])
    ensures IsSubseq(a + [x], b + [x])
    decreases |b|
  {
    var bx := b + [x];
    if b == [] {
      assert a == [];
      assert bx == [x] && bx[1..] == [];
    } else {
      assert bx[0] == b[0] && bx[1..] == b[1..] + [x];
      if a == [] {
        SubseqSnoc(a, b[1..], x);
      } else if a[0] == b[0] {
        SubseqSnoc(a[1..], b[1..], x);
        assert (a + [x])[1..] == a[1..] + [x];
      } else {
        SubseqSnoc(a, b[1..], x);
      }
    }
  }

  /** Python's `list(dict.fromkeys(xs))`: the first occurrence of every element,
      in order: an element placed before another appears in `xs` before every
      occurrence of the other. */
  function Dedup<T(==)>(xs: seq<T>): (r: seq<T>)
    ensures NoDup(r)
    ensures forall x | x in r :: x in xs
    ensures forall x | x in xs :: x in r
    ensures IsSubseq(r, xs)
    ensures NoDup(xs) ==> r == xs
    ensures forall i, j, k | 0 <= i < j < |r| && 0 <= k < |xs| && xs[k] == r[j] :: r[i] in xs[..k]
    decreases |xs|
  {
    if xs == [] then []
    else
      var d := Dedup(xs[..|xs| - 1]);
      var x := xs[|xs| - 1];
      assert xs == xs[..|xs| - 1] + [x];
      SubseqSnoc(d, xs[..|xs| - 1], x);
      assert forall k | 0 <= k < |xs| - 1 :: xs[..k] == xs[..|xs| - 1][..k];
      if x in d then d else d + [x]
  }

  /** Elements of a subsequence of a sequence without repetitions are distinct. */
  lemma {:induction false} SubseqIndices<T>(a: seq<T>, b: seq<T>, i: nat, j: nat)
    requires IsSubseq(a, b) && NoDup(b) && i < j < |a|
    ensures a[i] != a[j]
    decreases |b|
  {
    if a[0] == b[0] {
      if i == 0 {
        SubseqMember(a[1..], b[1..], j - 1);
        assert forall k | 0 < k < |b| :: b[k] != b[0];
      } else {
        SubseqIndices(a[1..], b[1..], i - 1, j - 1);
      }
    } else {
      SubseqIndices(a, b[1..], i, j);
    }
  }

  /** Every element of a subsequence is an element of the sequence. */
  lemma {:induction false} SubseqMember<T>(a: seq<T>, b: seq<T>, i: nat)
    requires IsSubseq(a, b) && i < |a|
    ensures a[i] in b
    decreases |b|
  {
    if a[0] == b[0] {
      if i > 0 { SubseqMember(a[1..], b[1..], i - 1); }
    } else {
      SubseqMember(a, b[1..], i);
    }
  }
}
