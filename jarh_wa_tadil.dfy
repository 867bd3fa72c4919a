/** The text side of `JarhWaTadilExtractor` (jarh_tadeel_extract.py): footnote
    removal, the cutting of a page into entries and the narrator's name (the
    teachers and students, the judgements and the records have modules of
    their own). Every regular expression is written out as a scanner with the
    same matches as Python's `re`, including the backtracking that decides
    where a match ends. */
module JarhWaTadil {
  import opened Text
  import opened Numerals

  // ---------------------------------------------------------------------------
  // remove_footnotes
  // ---------------------------------------------------------------------------

  /** `\(\s*[٠-٩0-9]+\s*\)` at the start of `t`: the length of the match. */
  function ParenNoteAt(t: String): (r: Option<nat>)
    ensures r.Some? ==> 2 < r.value <= |t| && t[0] == '(' && t[r.value - 1] == ')'
  {
    if t == [] || t[0] != '(' then None
    else
      var a := SkipWhile(t, 1, IsSpace);
      var b := SkipWhile(t, a, IsFootnoteDigit);
      var c := SkipWhile(t, b, IsSpace);
      if a < b && c < |t| && t[c] == ')' then Some(c + 1) else None
  }

  predicate IsCloseBracket(c: char) { c == ']' }

  /** `\[\s*[^]]+?\s*\]` at the start of `t`. No part of the pattern matches `]`,
      so a match runs to the first `]`, and it needs one character before it. */
  function BracketNoteAt(t: String): (r: Option<nat>)
    ensures r.Some? ==> 2 < r.value <= |t| && t[0] == '[' && t[r.value - 1] == ']'
  {
    if t == [] || t[0] != '[' then None
    else
      var e := SkipUntil(t, 1, IsCloseBracket);
      if 1 < e < |t| then Some(e + 1) else None
  }

  /** `remove_footnotes`: parenthesised footnote numbers are deleted first, then
      bracketed notes. */
  function RemoveFootnotes(text: String): String {
    RemoveMatches(RemoveMatches(text, ParenNoteAt), BracketNoteAt)
  }

  /** Removing footnotes only deletes characters. */
  lemma {:induction false} RemoveFootnotesSubseq(text: String)
    ensures IsSubseq(RemoveFootnotes(text), text)
    ensures |RemoveFootnotes(text)| <= |text|
  {
    var once := RemoveMatches(text, ParenNoteAt);
    RemoveMatchesSubseq(text, ParenNoteAt);
    RemoveMatchesSubseq(once, BracketNoteAt);
    SubseqTrans(RemoveFootnotes(text), once, text);
    SubseqShorter(RemoveFootnotes(text), text);
  }

  predicate IsOpenParen(c: char) { c == '(' }

  /** Every parenthesised footnote number is deleted by the first pass: a note
      `x` after text `a` without `(` goes, and the pass carries on after it. */
  lemma {:induction false} ParenNoteDeleted(a: String, x: String, b: String)
    requires NoneOf(a, IsOpenParen) && ParenNoteAt(x + b) == Some(|x|)
    ensures RemoveMatches(a + x + b, ParenNoteAt) == a + RemoveMatches(b, ParenNoteAt)
  {
    assert forall k | 0 <= k < |a| :: a[k] != '(' by {
      assert forall k | 0 <= k < |a| :: !IsOpenParen(a[k]);
    }
    forall t: String | ParenNoteAt(t).Some?
      ensures t != [] && t[0] == '('
    {
    }
    MatchDeleted(a, x, b, ParenNoteAt, '(');
  }

  /** The bracket pattern matches nowhere in `r`. */
  predicate NoBracketNote(r: String) {
    forall i | 0 <= i < |r| :: BracketNoteAt(r[i..]).None?
  }

  /** Nothing that the bracket pattern matches is left after the bracket pass. */
  lemma {:induction false} NoBracketNoteLeft(s: String)
    ensures NoBracketNote(RemoveMatches(s, BracketNoteAt))
    decreases |s|
  {
    var r := RemoveMatches(s, BracketNoteAt);
    if s == [] {
    } else if BracketNoteAt(s).Some? {
      var n := BracketNoteAt(s).value;
      var r2 := RemoveMatches(s[n..], BracketNoteAt);
      NoBracketNoteLeft(s[n..]);
      assert r == r2;
    } else {
      var rest := RemoveMatches(s[1..], BracketNoteAt);
      NoBracketNoteLeft(s[1..]);
      assert r == [s[0]] + rest;
      forall i | 0 <= i < |r| ensures BracketNoteAt(r[i..]).None? {
        if i > 0 {
          assert r[i..] == rest[i - 1..];
        } else if s[0] == '[' {
          var e := SkipUntil(s, 1, IsCloseBracket);
          RemoveMatchesSubseq(s[1..], BracketNoteAt);
          if e == |s| {
            // no `]` follows, and none can appear in what is kept
            assert forall k | 0 <= k < |s[1..]| :: !IsCloseBracket(s[1..][k]);
            NoCloseBracketKept(s[1..], rest);
            SkipUntilStops(r, 1, IsCloseBracket, |r|);
          } else {
            // `[]`: the `]` right after is kept
            assert e == 1 && s[1] == ']';
            assert BracketNoteAt(s[1..]).None?;
            assert rest == [s[1]] + RemoveMatches(s[2..], BracketNoteAt) by {
              assert s[1..][1..] == s[2..];
            }
            assert r[1] == ']';
          }
        }
      }
    }
  }

  lemma {:induction false} NoCloseBracketKept(s: String, r: String)
    requires IsSubseq(r, s)
    requires forall k | 0 <= k < |s| :: !IsCloseBracket(s[k])
    ensures forall k | 0 <= k < |r| :: !IsCloseBracket(r[k])
  {
    forall k | 0 <= k < |r| ensures !IsCloseBracket(r[k]) {
      SubseqMember(r, s, k);
    }
  }

  /** Every bracketed note is gone from the result of `remove_footnotes`. */
  lemma {:induction false} NoBracketNoteAfter(text: String)
    ensures NoBracketNote(RemoveFootnotes(text))
  {
    NoBracketNoteLeft(RemoveMatches(text, ParenNoteAt));
  }

  /** A pass that matches at no position deletes nothing. */
  lemma {:induction false} RemoveNothing(s: String, matchAt: String -> Option<nat>)
    requires forall k | 0 <= k < |s| :: matchAt(s[k..]).None?
    ensures RemoveMatches(s, matchAt) == s
    decreases |s|
  {
    if s != [] {
      assert matchAt(s[0..]).None?;
      forall k | 0 <= k < |s| - 1
        ensures matchAt(s[1..][k..]).None?
      {
        assert s[1..][k..] == s[k + 1..];
      }
      RemoveNothing(s[1..], matchAt);
      assert [s[0]] + s[1..] == s;
    }
  }

  /** The footnote pass leaves "(1[x])" alone: its parenthesis does not close
      right after the digit. */
  lemma ParenPassKeeps()
    ensures RemoveMatches("(1[x])", ParenNoteAt) == "(1[x])"
  {
    var s: String := "(1[x])";
    assert SkipWhile(s, 1, IsSpace) == 1;
    assert SkipWhile(s, 1, IsFootnoteDigit) == 2;
    assert SkipWhile(s, 2, IsSpace) == 2;
    forall k | 0 <= k < |s|
      ensures ParenNoteAt(s[k..]).None?
    {
      if k > 0 {
        assert s[k..][0] == s[k] != '(';
      }
    }
    RemoveNothing(s, ParenNoteAt);
  }

  /** The bracket pass turns "(1[x])" into "(1)". */
  lemma BracketPassUncovers()
    ensures RemoveMatches("(1[x])", BracketNoteAt) == "(1)"
  {
    var t: String := "[x])";
    assert SkipUntil(t, 1, IsCloseBracket) == 2;
    assert BracketNoteAt(t) == Some(3) && t[3..] == ")";
    var u: String := ")";
    assert BracketNoteAt(u).None? && u[1..] == [];
    assert RemoveMatches(u, BracketNoteAt) == ")";
    assert RemoveMatches(t, BracketNoteAt) == ")";
    var s: String := "(1[x])";
    assert s[1..] == "1[x])" && s[1..][1..] == t;
    assert BracketNoteAt(s).None? && BracketNoteAt(s[1..]).None?;
  }

  /** The footnote pass deletes all of "(1)". */
  lemma ParenPassDeletes()
    ensures RemoveMatches("(1)", ParenNoteAt) == ""
  {
    var u: String := "(1)";
    assert SkipWhile(u, 1, IsSpace) == 1;
    assert SkipWhile(u, 1, IsFootnoteDigit) == 2;
    assert SkipWhile(u, 2, IsSpace) == 2;
    assert ParenNoteAt(u) == Some(3) && u[3..] == [];
  }

  /** Removing footnotes is not idempotent: the footnote pass runs before the
      bracket pass, so a footnote number that a bracketed note separates from
      its closing parenthesis is only uncovered by the first application and
      deleted by the second. */
  lemma RemoveFootnotesTwice()
    ensures RemoveFootnotes("(1[x])") == "(1)"
    ensures RemoveFootnotes(RemoveFootnotes("(1[x])")) == ""
  {
    ParenPassKeeps();
    BracketPassUncovers();
    ParenPassDeletes();
    assert RemoveMatches("", BracketNoteAt) == "";
  }

  // ---------------------------------------------------------------------------
  // segment_entries
  // ---------------------------------------------------------------------------

  /** `\d+\s*-` at position `q`. */
  predicate MarkerHeadAt(s: String, q: nat)
    requires q <= |s|
  {
    var d := SkipWhile(s, q, IsDecimalDigit);
    var r := SkipWhile(s, d, IsSpace);
    q < d && r < |s| && s[r] == '-'
  }

  /** The lookahead `(?=\n?\d+\s*-\s*)` at position `p`. */
  predicate EntryAhead(s: String, p: nat)
    requires p <= |s|
  {
    (p < |s| && s[p] == '\n' && MarkerHeadAt(s, p + 1)) || MarkerHeadAt(s, p)
  }

  /** Where `re.split` cuts: every position where the lookahead holds. */
  function Cuts(s: String): nat -> bool {
    (p: nat) => p < |s| && EntryAhead(s, p)
  }

  /** `re.split` on a zero-width pattern: the text from `start` on, cut before
      every position `q >= p` with `cut(q)`. A cut at the very start gives an
      empty first part. */
  function SplitBefore(s: String, start: nat, p: nat, cut: nat -> bool): (parts: seq<String>)
    requires start <= p <= |s|
    ensures parts != []
    decreases |s| - p
  {
    if p == |s| then [s[start..]]
    else if cut(p) then [s[start..p]] + SplitBefore(s, p, p + 1, cut)
    else SplitBefore(s, start, p + 1, cut)
  }

  /** `re.match(r'^\d+\s*-\s*', p)`. */
  function StartsEntry(): String -> bool {
    (p: String) => MarkerHeadAt(p, 0)
  }

  /** `[p.strip() for p in parts if keep(p)]`. */
  function KeepEntries(parts: seq<String>, keep: String -> bool): seq<String> {
    if parts == [] then []
    else
      var last := parts[|parts| - 1];
      KeepEntries(parts[..|parts| - 1], keep) + (if keep(last) then [Strip(last)] else [])
  }

  /** `segment_entries`. */
  function SegmentEntries(text: String): seq<String> {
    var s := ToWestern(text);
    KeepEntries(SplitBefore(s, 0, 0, Cuts(s)), StartsEntry())
  }

  /** The parts tile the text: nothing is lost, repeated or reordered. */
  lemma {:induction false} SplitBeforeTiles(s: String, start: nat, p: nat, cut: nat -> bool)
    requires start <= p <= |s|
    ensures Concat(SplitBefore(s, start, p, cut)) == s[start..]
    decreases |s| - p
  {
    if p == |s| {
      assert Concat([s[start..]]) == s[start..] + Concat([]);
    } else if cut(p) {
      var rest := SplitBefore(s, p, p + 1, cut);
      SplitBeforeTiles(s, p, p + 1, cut);
      assert ([s[start..p]] + rest)[1..] == rest;
      assert s[start..p] + s[p..] == s[start..];
    } else {
      SplitBeforeTiles(s, start, p + 1, cut);
    }
  }

  /** A part is a piece of the text, so it has no character the text lacks. */
  lemma {:induction false} SplitBeforeKeeps(s: String, start: nat, p: nat, cut: nat -> bool, P: char -> bool)
    requires start <= p <= |s| && NoneOf(s[start..], P)
    ensures forall q | q in SplitBefore(s, start, p, cut) :: NoneOf(q, P)
    decreases |s| - p
  {
    if p == |s| {
    } else if cut(p) {
      assert forall k | 0 <= k < p - start :: s[start..p][k] == s[start..][k];
      assert forall k | 0 <= k < |s| - p :: s[p..][k] == s[start..][k + p - start];
      SplitBeforeKeeps(s, p, p + 1, cut, P);
    } else {
      SplitBeforeKeeps(s, start, p + 1, cut, P);
    }
  }

  /** Stripping a part that starts with a marker keeps the marker. */
  lemma {:induction false} StripKeepsMarker(p: String)
    requires p != [] && MarkerHeadAt(p, 0)
    ensures MarkerHeadAt(Strip(p), 0)
  {
    var d := SkipWhile(p, 0, IsDecimalDigit);
    var r := SkipWhile(p, d, IsSpace);
    var pr := StripRange(p);
    assert pr.0 == 0;
    assert r < pr.1;
    var t := Strip(p);
    assert t == p[..pr.1];
    assert forall k | 0 <= k < r + 1 :: t[k] == p[k];
    SkipWhileStops(t, 0, IsDecimalDigit, d);
    SkipWhileStops(t, d, IsSpace, r);
  }

  /** The shape of an entry: stripped, starting with a marker, and without a
      character satisfying `P`. */
  predicate EntryShaped(e: String, P: char -> bool) {
    Strip(e) == e && MarkerHeadAt(e, 0) && NoneOf(e, P)
  }

  lemma {:induction false} PartShaped(q: String, P: char -> bool)
    requires MarkerHeadAt(q, 0) && NoneOf(q, P)
    ensures EntryShaped(Strip(q), P)
  {
    StripIdempotent(q);
    StripKeepsMarker(q);
    NoneOfSlice(q, StripRange(q).0, StripRange(q).1, P);
  }

  /** Every kept part becomes a shaped entry. */
  lemma {:induction false} KeepEntriesShape(parts: seq<String>, P: char -> bool)
    requires forall q | q in parts :: NoneOf(q, P)
    ensures forall e | e in KeepEntries(parts, StartsEntry()) :: EntryShaped(e, P)
  {
    if parts != [] {
      var last := parts[|parts| - 1];
      assert forall q | q in parts[..|parts| - 1] :: q in parts;
      KeepEntriesShape(parts[..|parts| - 1], P);
      if StartsEntry()(last) {
        PartShaped(last, P);
      }
    }
  }

  /** Every entry is stripped, begins with `digits, optional space, -`, and holds
      no Arabic-Indic digit. */
  lemma {:induction false} SegmentEntriesShape(text: String)
    ensures forall e | e in SegmentEntries(text) :: EntryShaped(e, IsIndicDigit)
  {
    var s := ToWestern(text);
    NoIndicDigitsAfter(text);
    assert s[0..] == s;
    SplitBeforeKeeps(s, 0, 0, Cuts(s), IsIndicDigit);
    KeepEntriesShape(SplitBefore(s, 0, 0, Cuts(s)), IsIndicDigit);
  }

  /** The positions of the parts that `keep` accepts, in increasing order. */
  function KeptIndices(parts: seq<String>, keep: String -> bool): seq<nat> {
    if parts == [] then []
    else KeptIndices(parts[..|parts| - 1], keep) + (if keep(parts[|parts| - 1]) then [|parts| - 1] else [])
  }

  /** The accepted positions are increasing, in range, and exactly those of the
      parts `keep` accepts. */
  lemma {:induction false} KeptIndicesExact(parts: seq<String>, keep: String -> bool)
    ensures |KeptIndices(parts, keep)| <= |parts|
    ensures forall k | 0 <= k < |KeptIndices(parts, keep)| :: KeptIndices(parts, keep)[k] < |parts|
    ensures forall k, l | 0 <= k < l < |KeptIndices(parts, keep)| ::
      KeptIndices(parts, keep)[k] < KeptIndices(parts, keep)[l]
    ensures forall i | 0 <= i < |parts| :: keep(parts[i]) <==> i in KeptIndices(parts, keep)
  {
    if parts != [] {
      var n := |parts| - 1;
      var init := parts[..n];
      KeptIndicesExact(init, keep);
      var idx0 := KeptIndices(init, keep);
      var idx := KeptIndices(parts, keep);
      assert idx == idx0 + (if keep(parts[n]) then [n] else []);
      assert forall i | 0 <= i < n :: parts[i] == init[i];
      assert n !in idx0;
    }
  }

  /** The `k`-th entry is the strip of the part at the `k`-th accepted position. */
  lemma {:induction false} KeepEntriesAt(parts: seq<String>, keep: String -> bool)
    ensures |KeepEntries(parts, keep)| == |KeptIndices(parts, keep)|
    ensures forall k | 0 <= k < |KeptIndices(parts, keep)| ::
      KeptIndices(parts, keep)[k] < |parts| &&
      KeepEntries(parts, keep)[k] == Strip(parts[KeptIndices(parts, keep)[k]])
  {
    if parts != [] {
      var n := |parts| - 1;
      var init := parts[..n];
      KeepEntriesAt(init, keep);
      var idx0 := KeptIndices(init, keep);
      var es0 := KeepEntries(init, keep);
      var idx := KeptIndices(parts, keep);
      var es := KeepEntries(parts, keep);
      assert idx == idx0 + (if keep(parts[n]) then [n] else []);
      assert es == es0 + (if keep(parts[n]) then [Strip(parts[n])] else []);
      assert forall k | 0 <= k < |idx0| :: idx[k] == idx0[k] && es[k] == es0[k] && parts[idx0[k]] == init[idx0[k]];
    }
  }

  /** The entries come from the parts in order: the `k`-th entry is the strip of
      the `k`-th part that `keep` accepts, and every accepted part gives one. */
  lemma {:induction false} KeepEntriesOrder(parts: seq<String>, keep: String -> bool)
    ensures |KeepEntries(parts, keep)| == |KeptIndices(parts, keep)| <= |parts|
    ensures forall k | 0 <= k < |KeptIndices(parts, keep)| ::
      KeptIndices(parts, keep)[k] < |parts| &&
      KeepEntries(parts, keep)[k] == Strip(parts[KeptIndices(parts, keep)[k]])
    ensures forall k, l | 0 <= k < l < |KeptIndices(parts, keep)| ::
      KeptIndices(parts, keep)[k] < KeptIndices(parts, keep)[l]
    ensures forall i | 0 <= i < |parts| :: keep(parts[i]) <==> i in KeptIndices(parts, keep)
    ensures forall e | e in KeepEntries(parts, keep) :: exists q | q in parts :: keep(q) && e == Strip(q)
  {
    KeptIndicesExact(parts, keep);
    KeepEntriesAt(parts, keep);
    var idx := KeptIndices(parts, keep);
    var es := KeepEntries(parts, keep);
    forall e | e in es
      ensures exists q | q in parts :: keep(q) && e == Strip(q)
    {
      var k :| 0 <= k < |es| && es[k] == e;
      assert parts[idx[k]] in parts && idx[k] in idx;
    }
  }

  /** The lookahead holds at every digit of a multi-digit marker number, not only
      at its first: the page is also cut inside the number, and the part that
      begins at its first digit is a lone digit run, which is not an entry. */
  lemma {:induction false} CutInsideNumber(s: String, q: nat)
    requires q + 1 < |s| && MarkerHeadAt(s, q) && IsDecimalDigit(s[q + 1])
    ensures Cuts(s)(q) && Cuts(s)(q + 1)
    ensures !StartsEntry()(s[q..q + 1])
  {
    assert SkipWhile(s, q, IsDecimalDigit) == SkipWhile(s, q + 1, IsDecimalDigit);
    var one := s[q..q + 1];
    assert SkipWhile(one, 1, IsDecimalDigit) == 1;
  }

  // ---------------------------------------------------------------------------
  // extract_name
  // ---------------------------------------------------------------------------

  /** `entry.split('\n', 1)[0]`: everything before the first newline. */
  function FirstLine(entry: String): (line: String)
    ensures |line| <= |entry| && entry[..|line|] == line
    ensures NoneOf(line, IsNewline)
    ensures |line| < |entry| ==> entry[|line|] == '\n'
  {
    entry[..SkipUntil(entry, 0, IsNewline)]
  }

  const Bin: String := "بن"
  const Ibn: String := "ابن"

  /** The most `بن`/`ابن` links a name may have. */
  const MaxLinks: nat := 6

  /** A character of the captured name: `[أ-ي]` or `\s`. */
  predicate IsNameChar(c: char) { IsArabicLetter(c) || IsSpace(c) }

  /** `(?:بن|ابن)` at `a`: where the connective ends, or `a` when neither
      word is there. Alternatives are tried in order, and they begin with
      different letters. */
  function ConnectiveEnd(h: String, a: nat): (b: nat)
    requires a <= |h|
    ensures a <= b <= |h|
  {
    if a + 2 <= |h| && h[a] == 'ب' && h[a + 1] == 'ن' then a + 2
    else if a + 3 <= |h| && h[a] == 'ا' && h[a + 1] == 'ب' && h[a + 2] == 'ن' then a + 3
    else a
  }

  /** A connective is a `Bin` or an `Ibn`, and consists of letters. */
  lemma ConnectiveLetters(h: String, a: nat)
    requires a <= |h|
    ensures var b := ConnectiveEnd(h, a);
      (b == a || h[a..b] == Bin || h[a..b] == Ibn) &&
      forall k | a <= k < b :: IsArabicLetter(h[k])
  {
    var b := ConnectiveEnd(h, a);
    if b == a + 2 {
      assert h[a..b] == [h[a], h[a + 1]] == Bin;
    } else if b == a + 3 {
      assert h[a..b] == [h[a], h[a + 1], h[a + 2]] == Ibn;
    }
  }

  /** `\s+(?:بن|ابن)\s+[أ-ي]+` at `p`: where the group ends. The connective
      itself consists of letters, so the name that follows must be separated from
      it by space. */
  function LinkEnd(h: String, p: nat): (r: Option<nat>)
    requires p <= |h|
    ensures r.Some? ==> p < r.value <= |h|
  {
    var a := Run(h, p, IsSpace);
    var b := ConnectiveEnd(h, a);
    var c := Run(h, b, IsSpace);
    var d := Run(h, c, IsArabicLetter);
    if p < a < b < c < d then Some(d) else None
  }

  /** A link consists of letters and spaces and ends with a letter. */
  lemma {:induction false} LinkEndShape(h: String, p: nat)
    requires p <= |h| && LinkEnd(h, p).Some?
    ensures IsArabicLetter(h[LinkEnd(h, p).value - 1])
    ensures forall k | p <= k < LinkEnd(h, p).value :: IsNameChar(h[k])
  {
    var a := Run(h, p, IsSpace);
    var b := ConnectiveEnd(h, a);
    var c := Run(h, b, IsSpace);
    RunIsSkipWhile(h, p, IsSpace);
    RunIsSkipWhile(h, b, IsSpace);
    RunIsSkipWhile(h, c, IsArabicLetter);
    ConnectiveLetters(h, a);
  }

  /** The repetition `(?:...){0,n}` from `p`, greedy: the end of the last of at
      most `n` consecutive links. A link that does not match ends the
      repetition. */
  function LinksEnd(h: String, p: nat, n: nat): (r: nat)
    requires p <= |h|
    ensures p <= r <= |h|
    ensures 0 < n && LinkEnd(h, p).Some? ==> p < r
    decreases n
  {
    if n == 0 then p
    else match LinkEnd(h, p)
      case None => p
      case Some(q) => LinksEnd(h, q, n - 1)
  }

  /** The links read consist of letters and spaces, and end with a letter. */
  lemma {:induction false} LinksEndShape(h: String, p: nat, n: nat)
    requires p <= |h|
    ensures forall k | p <= k < LinksEnd(h, p, n) :: IsNameChar(h[k])
    ensures p < LinksEnd(h, p, n) ==> IsArabicLetter(h[LinksEnd(h, p, n) - 1])
    decreases n
  {
    if n > 0 && LinkEnd(h, p).Some? {
      var q := LinkEnd(h, p).value;
      var r := LinksEnd(h, q, n - 1);
      assert LinksEnd(h, p, n) == r;
      LinkEndShape(h, p);
      assert forall k | p <= k < q :: IsNameChar(h[k]);
      LinksEndShape(h, q, n - 1);
      assert forall k | q <= k < r :: IsNameChar(h[k]);
      if r == q {
        assert IsArabicLetter(h[q - 1]);
      } else {
        assert IsArabicLetter(h[r - 1]);
      }
    }
  }

  /** A captured name: nonempty, Arabic letters and spaces only, beginning and
      ending with a letter. */
  predicate NameShaped(n: String) {
    n != [] && IsArabicLetter(n[0]) && IsArabicLetter(n[|n| - 1]) &&
    forall k | 0 <= k < |n| :: IsNameChar(n[k])
  }

  /** `^\d+\s*-\s*` at the start of `h`: where the name may begin. */
  function HeadEnd(h: String): (r: Option<nat>)
    ensures r.Some? ==> 0 < r.value <= |h|
  {
    var d := Run(h, 0, IsDecimalDigit);
    var m := Run(h, d, IsSpace);
    if 0 < d && m < |h| && h[m] == '-' then Some(Run(h, m + 1, IsSpace)) else None
  }

  /** `[أ-ي]+(?:\s+(?:بن|ابن)\s+[أ-ي]+){1,cap}` at `a`: where the name ends. */
  function LineageEnd(h: String, a: nat, cap: nat): (r: Option<nat>)
    requires a <= |h|
    ensures r.Some? ==> a < r.value <= |h|
  {
    var w := Run(h, a, IsArabicLetter);
    var e := LinksEnd(h, w, cap);
    if a < w < e then Some(e) else None
  }

  /** A lineage is shaped as a name. */
  lemma {:induction false} LineageShaped(h: String, a: nat, cap: nat)
    requires a <= |h| && 0 < cap && LineageEnd(h, a, cap).Some?
    ensures NameShaped(h[a..LineageEnd(h, a, cap).value])
  {
    var w := Run(h, a, IsArabicLetter);
    RunIsSkipWhile(h, a, IsArabicLetter);
    var e := LinksEnd(h, w, cap);
    LinksEndShape(h, w, cap);
    assert forall k | a <= k < w :: IsArabicLetter(h[k]);
    CaptureShaped(h, a, w, e);
  }

  /** `re.match(r'^\d+\s*-\s*([أ-ي]+(?:\s+(?:بن|ابن)\s+[أ-ي]+){1,6})', h)`: the
      captured group. */
  function NameIn(h: String): Option<String> {
    NameWithin(h, MaxLinks)
  }

  /** The same match with at most `cap` links. */
  function NameWithin(h: String, cap: nat): Option<String> {
    match HeadEnd(h)
    case None => None
    case Some(a) =>
      match LineageEnd(h, a, cap)
      case None => None
      case Some(e) => Some(h[a..e])
  }

  /** The captured group is shaped as a name. */
  lemma {:induction false} NameInShaped(h: String)
    requires NameIn(h).Some?
    ensures NameShaped(NameIn(h).value)
  {
    NameWithinShaped(h, MaxLinks);
  }

  lemma {:induction false} NameWithinShaped(h: String, cap: nat)
    requires 0 < cap && NameWithin(h, cap).Some?
    ensures NameShaped(NameWithin(h, cap).value)
  {
    LineageShaped(h, HeadEnd(h).value, cap);
  }

  lemma {:induction false} CaptureShaped(h: String, a: nat, w: nat, e: nat)
    requires a < w < e <= |h|
    requires forall k | a <= k < w :: IsArabicLetter(h[k])
    requires forall k | w <= k < e :: IsNameChar(h[k])
    requires IsArabicLetter(h[e - 1])
    ensures NameShaped(h[a..e])
  {
    assert forall k | 0 <= k < e - a :: h[a..e][k] == h[a + k];
  }

  /** `extract_name`: the name captured from the first line of the entry, after
      its footnotes are removed, and stripped. The capture begins and ends with a
      letter, so the strip changes nothing and a name is never empty. */
  function ExtractName(entry: String): (r: Option<String>)
    ensures r.Some? ==> NameShaped(r.value)
  {
    var header := RemoveFootnotes(FirstLine(entry));
    match NameIn(header)
    case None => None
    case Some(n) =>
      NameInShaped(header);
      ShapedIsStripped(n);
      Some(Strip(n))
  }

  /** A name that begins and ends with a letter is its own strip. */
  lemma {:induction false} ShapedIsStripped(n: String)
    requires NameShaped(n)
    ensures Strip(n) == n
  {
    LetterIsNotSpace(n[0]);
    LetterIsNotSpace(n[|n| - 1]);
    StripOfTrimmed(n);
  }

  lemma {:induction false} LetterIsNotSpace(c: char)
    requires IsArabicLetter(c)
    ensures NotSpace(c)
  {
  }

  /** Only the first line counts: whatever follows the first newline is ignored. */
  lemma {:induction false} FirstLineOnly(line: String, rest: String)
    requires NoneOf(line, IsNewline)
    ensures ExtractName(line + "\n" + rest) == ExtractName(line)
  {
    var s := line + "\n" + rest;
    assert s == line + ("\n" + rest);
    FirstLineOf(line, "\n" + rest);
    assert FirstLine(line) == line by {
      FirstLineOf(line, []);
      assert line + [] == line;
    }
    assert FirstLine(s) == FirstLine(line);
  }

  lemma {:induction false} FirstLineOf(line: String, rest: String)
    requires NoneOf(line, IsNewline) && (rest == [] || rest[0] == '\n')
    ensures FirstLine(line + rest) == line
  {
    var s := line + rest;
    SkipUntilStops(s, 0, IsNewline, |line|);
    assert s[..|line|] == line;
  }

  // A heading written out from its parts, and the name read back from it.

  /** One link of a lineage as it is written: the spaces before the connective,
      whether the connective is `ابن` rather than `بن`, the spaces after it, and
      the name. */
  datatype Link = Link(before: String, ibn: bool, after: String, name: String)

  predicate Gap(g: String) { g != [] && forall k | 0 <= k < |g| :: IsSpace(g[k]) }
  predicate Word(w: String) { w != [] && forall k | 0 <= k < |w| :: IsArabicLetter(w[k]) }

  predicate LinkShaped(l: Link) { Gap(l.before) && Gap(l.after) && Word(l.name) }

  function Connective(l: Link): String { if l.ibn then Ibn else Bin }

  function LinkText(l: Link): String {
    l.before + Connective(l) + l.after + l.name
  }

  function LinksText(ls: seq<Link>): String
    decreases |ls|
  {
    if ls == [] then [] else LinkText(ls[0]) + LinksText(ls[1..])
  }

  /** A run of characters satisfying `P` written at `i`, followed by one that does
      not, is what `SkipWhile` skips. */
  lemma {:induction false} SkipRun(s: String, i: nat, x: String, P: char -> bool)
    requires HasAt(s, x, i) && forall k | 0 <= k < |x| :: P(x[k])
    requires i + |x| < |s| ==> !P(s[i + |x|])
    ensures SkipWhile(s, i, P) == i + |x|
  {
    assert forall k | i <= k < i + |x| :: s[k] == x[k - i];
    SkipWhileStops(s, i, P, i + |x|);
  }

  /** A written link is matched as a whole when no letter follows it. */
  lemma {:induction false} LinkEndOf(s: String, p: nat, l: Link)
    requires LinkShaped(l) && HasAt(s, LinkText(l), p)
    requires p + |LinkText(l)| < |s| ==> !IsArabicLetter(s[p + |LinkText(l)|])
    ensures LinkEnd(s, p) == Some(p + |LinkText(l)|)
  {
    var a := p + |l.before|;
    var b := a + |Connective(l)|;
    var d := b + |l.after|;
    LinkRunBefore(s, p, l);
    LinkRunAfter(s, p, l);
    LinkRunName(s, p, l);
    LinkEndFrom(s, p, a, b, d, p + |LinkText(l)|);
  }

  lemma {:induction false} LinkRunBefore(s: String, p: nat, l: Link)
    requires LinkShaped(l) && HasAt(s, LinkText(l), p)
    ensures Run(s, p, IsSpace) == p + |l.before|
    ensures ConnectiveEnd(s, p + |l.before|) == p + |l.before| + |Connective(l)|
  {
    LinkPieces(s, p, l);
    ConnectiveAt(s, p + |l.before|, l.ibn);
    SkipRun(s, p, l.before, IsSpace);
    RunIsSkipWhile(s, p, IsSpace);
  }

  lemma {:induction false} LinkRunAfter(s: String, p: nat, l: Link)
    requires LinkShaped(l) && HasAt(s, LinkText(l), p)
    ensures Run(s, p + |l.before| + |Connective(l)|, IsSpace) == p + |l.before| + |Connective(l)| + |l.after|
  {
    LinkPieces(s, p, l);
    var d := p + |l.before| + |Connective(l)| + |l.after|;
    assert s[d] == l.name[0];
    SkipRun(s, p + |l.before| + |Connective(l)|, l.after, IsSpace);
    RunIsSkipWhile(s, p + |l.before| + |Connective(l)|, IsSpace);
  }

  lemma {:induction false} LinkRunName(s: String, p: nat, l: Link)
    requires LinkShaped(l) && HasAt(s, LinkText(l), p)
    requires p + |LinkText(l)| < |s| ==> !IsArabicLetter(s[p + |LinkText(l)|])
    ensures Run(s, p + |l.before| + |Connective(l)| + |l.after|, IsArabicLetter) == p + |LinkText(l)|
    ensures |LinkText(l)| == |l.before| + |Connective(l)| + |l.after| + |l.name|
    ensures 0 < |l.before| && 0 < |Connective(l)| && 0 < |l.after| && 0 < |l.name|
  {
    LinkPieces(s, p, l);
    SkipRun(s, p + |l.before| + |Connective(l)| + |l.after|, l.name, IsArabicLetter);
    RunIsSkipWhile(s, p + |l.before| + |Connective(l)| + |l.after|, IsArabicLetter);
  }

  /** `LinkEnd` from the four runs it scans. */
  lemma {:induction false} LinkEndFrom(s: String, p: nat, a: nat, b: nat, c: nat, d: nat)
    requires p < a < b < c < d <= |s|
    requires a == Run(s, p, IsSpace) && b == ConnectiveEnd(s, a)
    requires c == Run(s, b, IsSpace) && d == Run(s, c, IsArabicLetter)
    ensures LinkEnd(s, p) == Some(d)
  {
  }

  lemma {:induction false} LinkPieces(s: String, p: nat, l: Link)
    requires HasAt(s, LinkText(l), p)
    ensures HasAt(s, l.before, p)
    ensures HasAt(s, Connective(l), p + |l.before|)
    ensures HasAt(s, l.after, p + |l.before| + |Connective(l)|)
    ensures HasAt(s, l.name, p + |l.before| + |Connective(l)| + |l.after|)
    ensures |LinkText(l)| == |l.before| + |Connective(l)| + |l.after| + |l.name|
  {
    var c := Connective(l);
    HasAtParts(s, l.before + c + l.after, l.name, p);
    HasAtParts(s, l.before + c, l.after, p);
    HasAtParts(s, l.before, c, p);
  }

  /** The connective is matched as written, and it does not start with a space. */
  lemma {:induction false} ConnectiveAt(s: String, a: nat, ibn: bool)
    requires HasAt(s, if ibn then Ibn else Bin, a)
    ensures ConnectiveEnd(s, a) == a + |if ibn then Ibn else Bin|
    ensures !IsSpace(s[a])
  {
    if ibn {
      assert s[a..a + 3] == Ibn;
      assert s[a] == Ibn[0] && s[a + 1] == Ibn[1] && s[a + 2] == Ibn[2];
    } else {
      assert s[a..a + 2] == Bin;
      assert s[a] == Bin[0] && s[a + 1] == Bin[1];
    }
  }
  /** The link matcher over `h` as a step function on positions. */
  function LinkStep(h: String): nat -> Option<nat> {
    (q: nat) => if q <= |h| then LinkEnd(h, q) else None
  }

  /** At most `n` steps from `p`, stopping at the first position where `step`
      fails. This is the shape of `LinksEnd` with the link matcher abstracted. */
  function Chain(step: nat -> Option<nat>, p: nat, n: nat): nat
    decreases n
  {
    if n == 0 then p
    else match step(p)
      case None => p
      case Some(q) => Chain(step, q, n - 1)
  }

  lemma {:induction false} LinksEndIsChain(h: String, p: nat, n: nat)
    requires p <= |h|
    ensures LinksEnd(h, p, n) == Chain(LinkStep(h), p, n)
    decreases n
  {
    if n > 0 {
      assert LinkStep(h)(p) == LinkEnd(h, p);
      match LinkEnd(h, p)
      case None =>
      case Some(q) => LinksEndIsChain(h, q, n - 1);
    }
  }

  /** Each link of `ls`, laid end to end from `p`, is one step. */
  predicate ReadsChain(step: nat -> Option<nat>, p: nat, ls: seq<Link>)
    decreases |ls|
  {
    ls == [] ||
    (step(p) == Some(p + |LinkText(ls[0])|) &&
     ReadsChain(step, p + |LinkText(ls[0])|, ls[1..]))
  }

  /** The length of the first `n` links of a chain. */
  lemma {:induction false} LinksTextTakeLength(ls: seq<Link>, n: nat)
    requires ls != [] && 0 < n
    ensures |LinksText(Take(ls, n))| == |LinkText(ls[0])| + |LinksText(Take(ls[1..], n - 1))|
  {
    var t := Take(ls, n);
    assert t != [] && t[0] == ls[0];
    assert t[1..] == Take(ls[1..], n - 1);
  }

  /** A chain whose links are each one step, after which no step is taken when
      fewer than `n` links are written (`e` is where the chain ends), is followed
      up to the end of its first `n` links. */
  lemma {:induction false} ChainOf(step: nat -> Option<nat>, p: nat, ls: seq<Link>, n: nat, e: nat)
    requires e == p + |LinksText(ls)| && ReadsChain(step, p, ls)
    requires |ls| < n ==> step(e).None?
    ensures Chain(step, p, n) == p + |LinksText(Take(ls, n))|
    decreases n
  {
    if n == 0 {
      assert Take(ls, n) == [];
    } else if ls == [] {
      assert Take(ls, n) == [] && LinksText(ls) == [] && e == p;
    } else {
      var q := p + |LinkText(ls[0])|;
      assert q + |LinksText(ls[1..])| == e;
      ChainOf(step, q, ls[1..], n - 1, e);
      LinksTextTakeLength(ls, n);
    }
  }

  /** `step` reads every well-formed link written in `s`, followed by no letter,
      as one link. */
  ghost predicate ReadsEveryLink(step: nat -> Option<nat>, s: String) {
    forall q: nat, l: Link {:trigger HasAt(s, LinkText(l), q)} ::
      LinkShaped(l) && HasAt(s, LinkText(l), q) &&
      (q + |LinkText(l)| < |s| ==> !IsArabicLetter(s[q + |LinkText(l)|])) ==>
        step(q) == Some(q + |LinkText(l)|)
  }

  /** The link matcher reads every written link. */
  lemma LinkStepReadsEveryLink(s: String)
    ensures ReadsEveryLink(LinkStep(s), s)
  {
    forall q: nat, l: Link |
      LinkShaped(l) && HasAt(s, LinkText(l), q) &&
      (q + |LinkText(l)| < |s| ==> !IsArabicLetter(s[q + |LinkText(l)|]))
      ensures LinkStep(s)(q) == Some(q + |LinkText(l)|)
    {
      LinkEndOf(s, q, l);
    }
  }

  /** Well-formed links written at `p`, and followed by no letter, are each read
      as one link by a step that reads every written link. */
  lemma {:induction false} ReadsLinksOf(step: nat -> Option<nat>, s: String, p: nat, ls: seq<Link>)
    requires ReadsEveryLink(step, s)
    requires forall i | 0 <= i < |ls| :: LinkShaped(ls[i])
    requires HasAt(s, LinksText(ls), p)
    requires p + |LinksText(ls)| < |s| ==> !IsArabicLetter(s[p + |LinksText(ls)|])
    ensures ReadsChain(step, p, ls)
    decreases |ls|
  {
    if ls != [] {
      var l := ls[0];
      var rest := ls[1..];
      var q := p + |LinkText(l)|;
      HasAtParts(s, LinkText(l), LinksText(rest), p);
      if rest != [] {
        LinkStartsWithSpace(s, q, rest);
      }
      assert step(p) == Some(q);
      assert forall i | 0 <= i < |rest| :: LinkShaped(rest[i]);
      ReadsLinksOf(step, s, q, rest);
      ReadsChainCons(step, p, ls);
    }
  }

  lemma ReadsChainCons(step: nat -> Option<nat>, p: nat, ls: seq<Link>)
    requires ls != [] && step(p) == Some(p + |LinkText(ls[0])|)
    requires ReadsChain(step, p + |LinkText(ls[0])|, ls[1..])
    ensures ReadsChain(step, p, ls)
  {
  }

  /** A chain whose links are each read as one, and after which no link is
      read when fewer than `n` are written, is read up to the end of its first
      `n` links. */
  lemma {:induction false} LinksEndOf(s: String, p: nat, ls: seq<Link>, n: nat)
    requires p + |LinksText(ls)| <= |s| && ReadsChain(LinkStep(s), p, ls)
    requires |ls| < n ==> LinkEnd(s, p + |LinksText(ls)|).None?
    ensures LinksEnd(s, p, n) == p + |LinksText(Take(ls, n))|
  {
    var e := p + |LinksText(ls)|;
    var step := LinkStep(s);
    assert |ls| < n ==> LinkEnd(s, e).None?;
    assert step(e) == LinkEnd(s, e);
    ChainOf(step, p, ls, n, e);
    LinksEndIsChain(s, p, n);
  }

  /** The text of the first `n` links begins the text of all of them. */
  lemma {:induction false} LinksTextTakePrefix(ls: seq<Link>, n: nat)
    ensures |LinksText(Take(ls, n))| <= |LinksText(ls)|
    ensures LinksText(ls)[..|LinksText(Take(ls, n))|] == LinksText(Take(ls, n))
    decreases n
  {
    if n > 0 && ls != [] {
      LinksTextTakePrefix(ls[1..], n - 1);
      LinksTextTakeLength(ls, n);
      var t := Take(ls, n);
      assert t != [] && t[0] == ls[0] && t[1..] == Take(ls[1..], n - 1);
      assert LinksText(t) == LinkText(ls[0]) + LinksText(Take(ls[1..], n - 1));
    } else {
      assert n == 0 || |ls| <= n;
    }
  }

  /** The first word of a name runs up to the space that begins its first link. */
  lemma {:induction false} FirstWordEnd(h: String, a: nat, first: String, ls: seq<Link>)
    requires Word(first) && ls != [] && LinkShaped(ls[0])
    requires HasAt(h, first + LinksText(ls), a)
    ensures Run(h, a, IsArabicLetter) == a + |first|
    ensures HasAt(h, LinksText(ls), a + |first|)
  {
    HasAtParts(h, first, LinksText(ls), a);
    LinkStartsWithSpace(h, a + |first|, ls);
    RunOver(h, a, first, IsArabicLetter);
  }

  /** `LineageEnd` from the end of the first word, where a link begins. */
  lemma {:induction false} LineageEndFrom(h: String, a: nat, w: nat, cap: nat)
    requires a < w <= |h| && 0 < cap
    requires w == Run(h, a, IsArabicLetter) && w < LinksEnd(h, w, cap)
    ensures LineageEnd(h, a, cap) == Some(LinksEnd(h, w, cap))
  {
  }

  /** A chain of links each read as one, after which no link is read when
      fewer than `cap` are written, is read by `LinksEnd` as its first `cap`
      links. */
  lemma {:induction false} ChainLinks(h: String, w: nat, ls: seq<Link>, cap: nat)
    requires 0 < cap && ls != [] && w + |LinksText(ls)| <= |h| && ReadsChain(LinkStep(h), w, ls)
    requires |ls| < cap ==> LinkEnd(h, w + |LinksText(ls)|).None?
    ensures w < LinksEnd(h, w, cap) == w + |LinksText(Take(ls, cap))|
  {
    assert LinkStep(h)(w).Some?;
    LinksEndOf(h, w, ls, cap);
  }

  /** The lineage after a first word ending at `w`, once the links after it
      are known to be read up to the end of the first `cap` of them. */
  lemma {:induction false} LineageEndAt(h: String, a: nat, w: nat, ls: seq<Link>, cap: nat)
    requires a < w <= |h| && 0 < cap && w == Run(h, a, IsArabicLetter)
    requires w < LinksEnd(h, w, cap) == w + |LinksText(Take(ls, cap))|
    ensures LineageEnd(h, a, cap) == Some(w + |LinksText(Take(ls, cap))|)
  {
    LineageEndFrom(h, a, w, cap);
  }

  /** The lineage after a first word ending at `w`, from a written chain of
      links. */
  lemma {:induction false} LineageEndOfLinks(h: String, a: nat, w: nat, ls: seq<Link>, cap: nat)
    requires a < w && 0 < cap && ls != []
    requires forall i | 0 <= i < |ls| :: LinkShaped(ls[i])
    requires HasAt(h, LinksText(ls), w) && w == Run(h, a, IsArabicLetter)
    requires w + |LinksText(ls)| < |h| ==> !IsArabicLetter(h[w + |LinksText(ls)|])
    requires |ls| < cap ==> LinkEnd(h, w + |LinksText(ls)|).None?
    ensures LineageEnd(h, a, cap) == Some(w + |LinksText(Take(ls, cap))|)
  {
    LinkStepReadsEveryLink(h);
    ReadsLinksOf(LinkStep(h), h, w, ls);
    ChainLinks(h, w, ls, cap);
    LineageEndAt(h, a, w, ls, cap);
  }

  /** What is read is what was written. */
  lemma {:induction false} ReadBack(h: String, a: nat, first: String, ls: seq<Link>, cap: nat)
    requires HasAt(h, first + LinksText(ls), a)
    ensures a + |first| + |LinksText(Take(ls, cap))| <= |h|
    ensures h[a..a + |first| + |LinksText(Take(ls, cap))|] == first + LinksText(Take(ls, cap))
  {
    LinksTextTakePrefix(ls, cap);
    var x := LinksText(Take(ls, cap));
    var y := first + LinksText(ls);
    assert y[..|first| + |x|] == first + x;
    assert h[a..a + |first| + |x|] == y[..|first| + |x|];
  }

  /** Where the lineage written at `a` is read to: the end of its first word and
      of its first `cap` links. */
  lemma {:induction false} LineageEndWritten(h: String, a: nat, first: String, ls: seq<Link>, cap: nat)
    requires 0 < cap && Word(first) && ls != []
    requires forall i | 0 <= i < |ls| :: LinkShaped(ls[i])
    requires HasAt(h, first + LinksText(ls), a)
    requires a + |first| + |LinksText(ls)| < |h| ==> !IsArabicLetter(h[a + |first| + |LinksText(ls)|])
    requires |ls| < cap ==> LinkEnd(h, a + |first| + |LinksText(ls)|).None?
    ensures LineageEnd(h, a, cap) == Some(a + |first| + |LinksText(Take(ls, cap))|)
  {
    FirstWordEnd(h, a, first, ls);
    LineageEndOfLinks(h, a, a + |first|, ls, cap);
  }

  /** A word and a chain of links written at `a` are read as the lineage, up to
      the end of its first `cap` links. */
  lemma {:induction false} LineageEndOf(h: String, a: nat, first: String, ls: seq<Link>, cap: nat)
    requires 0 < cap && Word(first) && ls != []
    requires forall i | 0 <= i < |ls| :: LinkShaped(ls[i])
    requires HasAt(h, first + LinksText(ls), a)
    requires a + |first| + |LinksText(ls)| < |h| ==> !IsArabicLetter(h[a + |first| + |LinksText(ls)|])
    requires |ls| < cap ==> LinkEnd(h, a + |first| + |LinksText(ls)|).None?
    ensures LineageEnd(h, a, cap).Some?
    ensures h[a..LineageEnd(h, a, cap).value] == first + LinksText(Take(ls, cap))
  {
    LineageEndWritten(h, a, first, ls, cap);
    ReadBack(h, a, first, ls, cap);
  }

  /** The numbered head of an entry as it is written: the number, the spaces
      before the dash, the dash and the spaces after it. */
  function HeadText(number: String, g1: String, g2: String): String {
    number + g1 + "-" + g2
  }

  /** A run of characters satisfying `P` written at `i`, followed by one that does
      not, is what `Run` skips. */
  lemma {:induction false} RunOver(s: String, i: nat, x: String, P: char -> bool)
    requires HasAt(s, x, i) && forall k | 0 <= k < |x| :: P(x[k])
    requires i + |x| < |s| ==> !P(s[i + |x|])
    ensures Run(s, i, P) == i + |x|
  {
    SkipRun(s, i, x, P);
    RunIsSkipWhile(s, i, P);
  }

  lemma {:induction false} HeadPieces(h: String, number: String, g1: String, g2: String)
    requires HasAt(h, HeadText(number, g1, g2), 0)
    ensures HasAt(h, number, 0) && HasAt(h, g1, |number|)
    ensures h[|number| + |g1|] == '-' && HasAt(h, g2, |number| + |g1| + 1)
    ensures |HeadText(number, g1, g2)| == |number| + |g1| + 1 + |g2|
  {
    HasAtParts(h, number + g1 + "-", g2, 0);
    HasAtParts(h, number + g1, "-", 0);
    HasAtParts(h, number, g1, 0);
  }

  /** `HeadEnd` from the three runs it scans. */
  lemma {:induction false} HeadEndFrom(h: String, d: nat, m: nat, e: nat)
    requires 0 < d && d == Run(h, 0, IsDecimalDigit) && m == Run(h, d, IsSpace)
    requires m < |h| && h[m] == '-' && e == Run(h, m + 1, IsSpace)
    ensures HeadEnd(h) == Some(e)
  {
  }

  /** `^\d+\s*-\s*` reads a number, optional spaces, a dash and optional spaces,
      when no space follows. */
  lemma {:induction false} HeadEndOf(h: String, number: String, g1: String, g2: String)
    requires number != [] && forall k | 0 <= k < |number| :: IsDecimalDigit(number[k])
    requires forall k | 0 <= k < |g1| :: IsSpace(g1[k])
    requires forall k | 0 <= k < |g2| :: IsSpace(g2[k])
    requires HasAt(h, HeadText(number, g1, g2), 0)
    requires |HeadText(number, g1, g2)| < |h| && !IsSpace(h[|HeadText(number, g1, g2)|])
    ensures HeadEnd(h) == Some(|HeadText(number, g1, g2)|)
  {
    var d := |number|;
    var m := d + |g1|;
    HeadPieces(h, number, g1, g2);
    assert !IsDecimalDigit(h[d]) by {
      if |g1| > 0 { assert h[d] == g1[0]; }
    }
    RunOver(h, 0, number, IsDecimalDigit);
    RunOver(h, d, g1, IsSpace);
    RunOver(h, m + 1, g2, IsSpace);
    HeadEndFrom(h, d, m, m + 1 + |g2|);
  }

  /** `NameWithin` from where the head and the lineage end. */
  lemma {:induction false} NameWithinFrom(h: String, a: nat, cap: nat)
    requires HeadEnd(h) == Some(a) && LineageEnd(h, a, cap).Some?
    ensures NameWithin(h, cap) == Some(h[a..LineageEnd(h, a, cap).value])
  {
  }

  lemma {:induction false} NameWithinOf(h: String, number: String, g1: String, g2: String, first: String, ls: seq<Link>, cap: nat)
    requires 0 < cap
    requires number != [] && forall k | 0 <= k < |number| :: IsDecimalDigit(number[k])
    requires forall k | 0 <= k < |g1| :: IsSpace(g1[k])
    requires forall k | 0 <= k < |g2| :: IsSpace(g2[k])
    requires Word(first) && ls != [] && forall i | 0 <= i < |ls| :: LinkShaped(ls[i])
    requires HasAt(h, HeadText(number, g1, g2) + first + LinksText(ls), 0)
    requires |HeadText(number, g1, g2) + first + LinksText(ls)| < |h| ==>
      !IsArabicLetter(h[|HeadText(number, g1, g2) + first + LinksText(ls)|])
    requires |ls| < cap ==> LinkEnd(h, |HeadText(number, g1, g2) + first + LinksText(ls)|).None?
    ensures NameWithin(h, cap) == Some(first + LinksText(Take(ls, cap)))
  {
    var head := HeadText(number, g1, g2);
    var a := |head|;
    var e := a + |first| + |LinksText(ls)|;
    assert head + first + LinksText(ls) == head + (first + LinksText(ls));
    assert |head + first + LinksText(ls)| == e;
    HasAtParts(h, head, first + LinksText(ls), 0);
    assert h[a] == first[0];
    HeadEndOf(h, number, g1, g2);
    LineageEndOf(h, a, first, ls, cap);
    NameWithinFrom(h, a, cap);
  }

  /** A heading written out from its parts: the numbered head, the first word
      and a chain of links, is read back as the name, cut after its sixth link,
      when it is followed neither by a letter nor, with fewer than six links
      written, by a further link. */
  lemma {:induction false} NameInOf(h: String, number: String, g1: String, g2: String, first: String, ls: seq<Link>)
    requires number != [] && forall k | 0 <= k < |number| :: IsDecimalDigit(number[k])
    requires forall k | 0 <= k < |g1| :: IsSpace(g1[k])
    requires forall k | 0 <= k < |g2| :: IsSpace(g2[k])
    requires Word(first) && ls != [] && forall i | 0 <= i < |ls| :: LinkShaped(ls[i])
    requires HasAt(h, HeadText(number, g1, g2) + first + LinksText(ls), 0)
    requires |HeadText(number, g1, g2) + first + LinksText(ls)| < |h| ==>
      !IsArabicLetter(h[|HeadText(number, g1, g2) + first + LinksText(ls)|])
    requires |ls| < MaxLinks ==> LinkEnd(h, |HeadText(number, g1, g2) + first + LinksText(ls)|).None?
    ensures NameIn(h) == Some(first + LinksText(Take(ls, MaxLinks)))
  {
    NameWithinOf(h, number, g1, g2, first, ls, MaxLinks);
  }

  lemma {:induction false} LinkStartsWithSpace(s: String, q: nat, ls: seq<Link>)
    requires ls != [] && LinkShaped(ls[0]) && HasAt(s, LinksText(ls), q)
    ensures q < |s| && IsSpace(s[q])
  {
    var l := ls[0];
    HasAtParts(s, LinkText(l), LinksText(ls[1..]), q);
    LinkPieces(s, q, l);
    assert s[q] == l.before[0];
  }

  // A name that is read was written: the parts of a heading, taken back apart.

  /** The parts a heading is written from: a number, the optional spaces around
      the dash, a first word and at least one well-formed link. */
  predicate HeadingParts(number: String, g1: String, g2: String, first: String, ls: seq<Link>) {
    number != [] && (forall k | 0 <= k < |number| :: IsDecimalDigit(number[k])) &&
    (forall k | 0 <= k < |g1| :: IsSpace(g1[k])) &&
    (forall k | 0 <= k < |g2| :: IsSpace(g2[k])) &&
    Word(first) && ls != [] && forall i | 0 <= i < |ls| :: LinkShaped(ls[i])
  }

  /** Adjacent slices join. */
  lemma SliceJoin(h: String, i: nat, j: nat, k: nat)
    requires i <= j <= k <= |h|
    ensures h[i..j] + h[j..k] == h[i..k]
  {
  }

  /** A slice of a stretch whose characters all satisfy `P`. */
  lemma {:induction false} AllOfSlice(h: String, i: nat, j: nat, P: char -> bool)
    requires i <= j <= |h| && forall k | i <= k < j :: P(h[k])
    ensures forall k | 0 <= k < |h[i..j]| :: P(h[i..j][k])
  {
    assert forall k | 0 <= k < j - i :: h[i..j][k] == h[i + k];
  }

  /** The link `LinkEnd` reads at `p`, taken apart into its four runs. */
  function LinkRead(h: String, p: nat): Link
    requires p <= |h|
  {
    var a := Run(h, p, IsSpace);
    var b := ConnectiveEnd(h, a);
    var c := Run(h, b, IsSpace);
    var d := Run(h, c, IsArabicLetter);
    Link(h[p..a], h[a..b] == Ibn, h[b..c], h[c..d])
  }

  /** Four runs that make a link: spaces, a connective, spaces and letters. */
  lemma {:induction false} LinkParts(h: String, p: nat, a: nat, b: nat, c: nat, d: nat)
    requires p < a < b < c < d <= |h|
    requires forall k | p <= k < a :: IsSpace(h[k])
    requires h[a..b] == Bin || h[a..b] == Ibn
    requires forall k | b <= k < c :: IsSpace(h[k])
    requires forall k | c <= k < d :: IsArabicLetter(h[k])
    ensures LinkShaped(Link(h[p..a], h[a..b] == Ibn, h[b..c], h[c..d]))
    ensures LinkText(Link(h[p..a], h[a..b] == Ibn, h[b..c], h[c..d])) == h[p..d]
  {
    AllOfSlice(h, p, a, IsSpace);
    AllOfSlice(h, b, c, IsSpace);
    AllOfSlice(h, c, d, IsArabicLetter);
    SliceJoin(h, p, a, b);
    SliceJoin(h, p, b, c);
    SliceJoin(h, p, c, d);
  }

  /** A link that is read is a well-formed link, written where it was read. */
  lemma {:induction false} LinkReadOf(h: String, p: nat)
    requires p <= |h| && LinkEnd(h, p).Some?
    ensures LinkShaped(LinkRead(h, p))
    ensures LinkText(LinkRead(h, p)) == h[p..LinkEnd(h, p).value]
  {
    var a := Run(h, p, IsSpace);
    var b := ConnectiveEnd(h, a);
    var c := Run(h, b, IsSpace);
    var d := Run(h, c, IsArabicLetter);
    RunIsSkipWhile(h, p, IsSpace);
    RunIsSkipWhile(h, b, IsSpace);
    RunIsSkipWhile(h, c, IsArabicLetter);
    ConnectiveLetters(h, a);
    LinkParts(h, p, a, b, c, d);
  }

  /** The links a step function reads at its positions, read from `p` on for at
      most `n` steps, as `Chain` follows them. */
  function ChainRead(step: nat -> Option<nat>, read: nat -> Link, p: nat, n: nat): seq<Link>
    decreases n
  {
    if n == 0 then []
    else match step(p)
      case None => []
      case Some(q) => [read(p)] + ChainRead(step, read, q, n - 1)
  }

  /** Every step moves forward within `h` over a well-formed link, written there. */
  ghost predicate ReadsAsWritten(step: nat -> Option<nat>, read: nat -> Link, h: String) {
    forall q: nat {:trigger step(q)} :: step(q).Some? ==>
      q < step(q).value <= |h| && LinkShaped(read(q)) && LinkText(read(q)) == h[q..step(q).value]
  }

  lemma {:induction false} ChainReadOf(step: nat -> Option<nat>, read: nat -> Link, h: String, p: nat, n: nat)
    requires ReadsAsWritten(step, read, h) && p <= |h|
    ensures |ChainRead(step, read, p, n)| <= n
    ensures forall i | 0 <= i < |ChainRead(step, read, p, n)| :: LinkShaped(ChainRead(step, read, p, n)[i])
    ensures ChainRead(step, read, p, n) != [] <==> p < Chain(step, p, n)
    ensures p <= Chain(step, p, n) <= |h|
    ensures LinksText(ChainRead(step, read, p, n)) == h[p..Chain(step, p, n)]
    decreases n
  {
    if n > 0 && step(p).Some? {
      var q := step(p).value;
      var rest := ChainRead(step, read, q, n - 1);
      var ls := ChainRead(step, read, p, n);
      ChainReadOf(step, read, h, q, n - 1);
      assert ls == [read(p)] + rest && ls[1..] == rest;
      assert forall i | 1 <= i < |ls| :: ls[i] == rest[i - 1];
      SliceJoin(h, p, q, Chain(step, q, n - 1));
    } else {
      assert h[p..p] == [];
    }
  }

  /** The link reader over `h` as a function on positions. */
  function LinkReader(h: String): nat -> Link {
    (q: nat) => if q <= |h| then LinkRead(h, q) else Link([], false, [], [])
  }

  lemma LinkStepReadsAsWritten(h: String)
    ensures ReadsAsWritten(LinkStep(h), LinkReader(h), h)
  {
    forall q: nat | LinkStep(h)(q).Some?
      ensures q < LinkStep(h)(q).value <= |h| && LinkShaped(LinkReader(h)(q)) &&
        LinkText(LinkReader(h)(q)) == h[q..LinkStep(h)(q).value]
    {
      LinkReadOf(h, q);
    }
  }

  /** The links `LinksEnd` reads from `p`. */
  function LinksRead(h: String, p: nat, n: nat): seq<Link> {
    ChainRead(LinkStep(h), LinkReader(h), p, n)
  }

  /** The links that are read are well-formed, at most `n` of them, none exactly
      when no link is read, and written where they were read. */
  lemma {:induction false} LinksReadOf(h: String, p: nat, n: nat)
    requires p <= |h|
    ensures |LinksRead(h, p, n)| <= n
    ensures forall i | 0 <= i < |LinksRead(h, p, n)| :: LinkShaped(LinksRead(h, p, n)[i])
    ensures LinksRead(h, p, n) != [] <==> p < LinksEnd(h, p, n)
    ensures LinksText(LinksRead(h, p, n)) == h[p..LinksEnd(h, p, n)]
  {
    LinkStepReadsAsWritten(h);
    ChainReadOf(LinkStep(h), LinkReader(h), h, p, n);
    LinksEndIsChain(h, p, n);
  }

  /** Three runs and a dash that make a numbered head. */
  lemma {:induction false} HeadParts(h: String, d: nat, m: nat, e: nat, a: nat)
    requires 0 < d <= m && e == m + 1 && e <= a <= |h| && h[m] == '-'
    requires forall k | 0 <= k < d :: IsDecimalDigit(h[k])
    requires forall k | d <= k < m :: IsSpace(h[k])
    requires forall k | e <= k < a :: IsSpace(h[k])
    ensures h[0..d] != [] && forall k | 0 <= k < |h[0..d]| :: IsDecimalDigit(h[0..d][k])
    ensures forall k | 0 <= k < |h[d..m]| :: IsSpace(h[d..m][k])
    ensures forall k | 0 <= k < |h[e..a]| :: IsSpace(h[e..a][k])
    ensures HeadText(h[0..d], h[d..m], h[e..a]) == h[..a]
  {
    AllOfSlice(h, 0, d, IsDecimalDigit);
    AllOfSlice(h, d, m, IsSpace);
    AllOfSlice(h, e, a, IsSpace);
    assert h[m..e] == "-";
    SliceJoin(h, 0, d, m);
    SliceJoin(h, 0, m, e);
    SliceJoin(h, 0, e, a);
    assert h[..a] == h[0..a];
  }

  /** The numbered head that `HeadEnd` reads, as it is written. */
  lemma {:induction false} HeadRead(h: String) returns (number: String, g1: String, g2: String)
    requires HeadEnd(h).Some?
    ensures number != [] && forall k | 0 <= k < |number| :: IsDecimalDigit(number[k])
    ensures forall k | 0 <= k < |g1| :: IsSpace(g1[k])
    ensures forall k | 0 <= k < |g2| :: IsSpace(g2[k])
    ensures HeadText(number, g1, g2) == h[..HeadEnd(h).value]
  {
    var d := Run(h, 0, IsDecimalDigit);
    var m := Run(h, d, IsSpace);
    var a := Run(h, m + 1, IsSpace);
    RunIsSkipWhile(h, 0, IsDecimalDigit);
    RunIsSkipWhile(h, d, IsSpace);
    RunIsSkipWhile(h, m + 1, IsSpace);
    HeadParts(h, d, m, m + 1, a);
    number, g1, g2 := h[0..d], h[d..m], h[m + 1..a];
  }

  /** The other half of `NameInOf`: a name the pattern captures was written as a
      numbered head, a first word and one to six links, at the start of `h`. */
  lemma {:induction false} NameInSound(h: String) returns (number: String, g1: String, g2: String, first: String, ls: seq<Link>)
    requires NameIn(h).Some?
    ensures HeadingParts(number, g1, g2, first, ls) && |ls| <= MaxLinks
    ensures NameIn(h).value == first + LinksText(ls)
    ensures HasAt(h, HeadText(number, g1, g2) + NameIn(h).value, 0)
  {
    number, g1, g2 := HeadRead(h);
    var a := HeadEnd(h).value;
    var w := Run(h, a, IsArabicLetter);
    RunIsSkipWhile(h, a, IsArabicLetter);
    AllOfSlice(h, a, w, IsArabicLetter);
    var e := LinksEnd(h, w, MaxLinks);
    LinksReadOf(h, w, MaxLinks);
    first, ls := h[a..w], LinksRead(h, w, MaxLinks);
    assert NameIn(h).value == h[a..e];
    SliceJoin(h, a, w, e);
    SliceJoin(h, 0, a, e);
    assert h[..a] == h[0..a];
  }

  /** A name `extract_name` returns was written, as a numbered head, a first word
      and one to six links, at the start of the entry's first line once its
      footnotes are removed: there is no other way to get a name. */
  lemma {:induction false} ExtractNameSound(entry: String) returns (number: String, g1: String, g2: String, first: String, ls: seq<Link>)
    requires ExtractName(entry).Some?
    ensures HeadingParts(number, g1, g2, first, ls) && |ls| <= MaxLinks
    ensures ExtractName(entry).value == first + LinksText(ls)
    ensures HasAt(RemoveFootnotes(FirstLine(entry)), HeadText(number, g1, g2) + ExtractName(entry).value, 0)
  {
    var h := RemoveFootnotes(FirstLine(entry));
    NameInShaped(h);
    ShapedIsStripped(NameIn(h).value);
    assert ExtractName(entry).value == NameIn(h).value;
    number, g1, g2, first, ls := NameInSound(h);
  }

  predicate IsNoteOpen(c: char) { c == '(' || c == '[' }

  /** A text with no `(` and no `[` has no footnote to remove. */
  lemma {:induction false} NoNotesToRemove(s: String)
    requires NoneOf(s, IsNoteOpen)
    ensures RemoveFootnotes(s) == s
  {
    forall k | 0 <= k < |s|
      ensures ParenNoteAt(s[k..]).None? && BracketNoteAt(s[k..]).None?
    {
      assert s[k..][0] == s[k];
    }
    RemoveNothing(s, ParenNoteAt);
    RemoveNothing(s, BracketNoteAt);
  }

  /** `NameInOf` for a whole entry: a first line written as a heading, without
      footnote brackets, gives back its name, cut after its sixth link, whatever
      the lines after it hold. */
  lemma {:induction false} ExtractNameOf(line: String, rest: String, number: String, g1: String, g2: String, first: String, ls: seq<Link>)
    requires HeadingParts(number, g1, g2, first, ls)
    requires NoneOf(line, IsNewline) && NoneOf(line, IsNoteOpen)
    requires HasAt(line, HeadText(number, g1, g2) + first + LinksText(ls), 0)
    requires |HeadText(number, g1, g2) + first + LinksText(ls)| < |line| ==>
      !IsArabicLetter(line[|HeadText(number, g1, g2) + first + LinksText(ls)|])
    requires |ls| < MaxLinks ==> LinkEnd(line, |HeadText(number, g1, g2) + first + LinksText(ls)|).None?
    ensures ExtractName(line + "\n" + rest) == Some(first + LinksText(Take(ls, MaxLinks)))
  {
    FirstLineOnly(line, rest);
    FirstLineOf(line, []);
    assert line + [] == line;
    NoNotesToRemove(line);
    NameInOf(line, number, g1, g2, first, ls);
    NameInShaped(line);
    ShapedIsStripped(NameIn(line).value);
  }
}
