/** The narrator extractor (`NarratorExtractor` in jarh_tadil_extractor.py): a page
    of a biographical dictionary is cut into numbered narrator entries, and each
    entry yields a short name, the praise (ta'dil) and criticism (jarh) keywords
    it mentions, the teachers it narrated from and the students who narrated
    from it. */
module NarratorExtractor {
  import opened Text
  import opened Numerals

  // ---------------------------------------------------------------------------
  // Keyword lexicons
  // ---------------------------------------------------------------------------

  /** The praise keywords, in the order they are reported. */
  const TaadilKeywords: seq<String> := [
    "ثقة", "صدوق", "حافظ", "متقن", "ضابط", "عدل", "مأمون",
    "لا بأس به", "صالح الحديث", "يكتب حديثه", "حجة", "إمام",
    "ثبت", "عابد", "فاضل", "صالح", "مقبول", "رجل صالح",
    "لا بأس", "ما بال به", "محله الصدق", "صدق"
  ]

  /** The criticism keywords, in the order they are reported. */
  const JarhKeywords: seq<String> := [
    "ضعيف", "متروك", "كذاب", "وضاع", "منكر الحديث", "واه",
    "ليس بشيء", "لا يحتج به", "مجهول", "ضعفه", "تركه",
    "ليس بالقوي", "فيه ضعف", "منكر", "لا يعرف", "مجروح",
    "ليس بثقة", "ضعيف الحديث"
  ]

  // ---------------------------------------------------------------------------
  // Entry markers: `(\d+)\s*-\s*([^\n]+)`
  // ---------------------------------------------------------------------------

  /** Where the match of the entry pattern that starts exactly at `p` ends, if
      there is one. */
  function MarkerEnd(s: String, p: nat): (e: Option<nat>)
    ensures e.Some? ==> p < |s| && p < SkipWhile(s, p, IsDecimalDigit) < e.value <= |s|
  {
    if p > |s| then None
    else
      var q := SkipWhile(s, p, IsDecimalDigit);
      if q == p then None
      else
        var r := SkipWhile(s, q, IsSpace);
        if r == |s| || s[r] != '-' then None
        else
          var t := SkipWhile(s, r + 1, IsSpace);
          if t < |s| then
            // `[^\n]+` runs from the first non-space character to the end of the line
            Some(SkipUntil(s, t, IsNewline))
          else
            // only whitespace follows the hyphen: `\s*` gives characters back until
            // the last one that is not a newline, which `[^\n]+` then takes alone
            var k := SkipBack(s, |s|, IsNewline);
            if k <= r + 1 then None else Some(k)
  }

  function MarkerMatcher(s: String): nat -> Option<nat> {
    (p: nat) => MarkerEnd(s, p)
  }

  /** `list(re.finditer(pattern, text_converted))`. */
  function Markers(s: String): seq<Span> {
    Scan(|s|, 0, MarkerMatcher(s))
  }

  /** Group 1 of the match `m`: the digits it starts with. */
  function Number(s: String, m: Span): String
    requires m.start <= |s|
  {
    s[m.start..SkipWhile(s, m.start, IsDecimalDigit)]
  }

  /** Group 1 of a match is the maximal run of digits it starts with, and a
      hyphen follows it after optional whitespace. */
  lemma MarkerNumber(s: String, m: Span)
    requires IsMatch(|s|, MarkerMatcher(s), m)
    ensures var n := Number(s, m);
      n != [] && AllDigits(n) && m.start + |n| < m.end
      && (m.start + |n| == |s| || !IsDecimalDigit(s[m.start + |n|]))
      && var r := SkipWhile(s, m.start + |n|, IsSpace); r < |s| && s[r] == '-'
  {
    assert MarkerMatcher(s)(m.start) == MarkerEnd(s, m.start);
  }

  /** Where the text block of the `k`-th entry ends: at the start of the next
      match, or at the end of the page. */
  function BlockEnd(ms: seq<Span>, k: nat, n: nat): nat
    requires k < |ms|
  {
    if k + 1 < |ms| then ms[k + 1].start else n
  }

  predicate WellFormed(ms: seq<Span>, n: nat) {
    (forall k | 0 <= k < |ms| :: ms[k].start < ms[k].end <= n)
    && (forall k | 0 <= k < |ms| - 1 :: ms[k].end <= ms[k + 1].start)
  }

  /** The text block of every entry, from its own marker to the next one. */
  function Blocks(s: String, ms: seq<Span>): (bs: seq<String>)
    requires WellFormed(ms, |s|)
    ensures |bs| == |ms|
  {
    seq(|ms|, k requires 0 <= k < |ms| => s[ms[k].start..BlockEnd(ms, k, |s|)])
  }

  /** The blocks from the `k`-th on tile the page from the `k`-th marker to the end. */
  lemma {:induction false} BlocksTileFrom(s: String, ms: seq<Span>, k: nat)
    requires WellFormed(ms, |s|) && k < |ms|
    ensures Concat(Blocks(s, ms)[k..]) == s[ms[k].start..]
    decreases |ms| - k
  {
    var bs := Blocks(s, ms);
    assert bs[k..] == [bs[k]] + bs[k + 1..];
    if k + 1 < |ms| {
      BlocksTileFrom(s, ms, k + 1);
      assert s[ms[k].start..] == s[ms[k].start..ms[k + 1].start] + s[ms[k + 1].start..];
    } else {
      assert bs[k + 1..] == [];
    }
  }

  /** The entry blocks tile the page from the first marker on: nothing after the
      first marker is lost or repeated. */
  lemma BlocksTile(s: String)
    requires Markers(s) != []
    ensures WellFormed(Markers(s), |s|)
    ensures Concat(Blocks(s, Markers(s))) == s[Markers(s)[0].start..]
  {
    var ms := Markers(s);
    BlocksTileFrom(s, ms, 0);
    assert Blocks(s, ms)[0..] == Blocks(s, ms);
  }

  // ---------------------------------------------------------------------------
  // Name extraction
  // ---------------------------------------------------------------------------

  /** `re.sub(r'^\d+\s*-\s*', '', s)`: the entry number and its hyphen are cut off. */
  function StripNumberPrefix(s: String): (r: String)
    ensures |r| <= |s| && r == s[|s| - |r|..]
  {
    var q := SkipWhile(s, 0, IsDecimalDigit);
    var d := SkipWhile(s, q, IsSpace);
    if q > 0 && d < |s| && s[d] == '-' then s[SkipWhile(s, d + 1, IsSpace)..] else s
  }

  predicate IsBracketStop(c: char) { c == ']' || c == '\n' }

  /** `\[.*?\]` at the start of `t`: the shortest bracketed span on one line. */
  function LazyBracketAt(t: String): Option<nat> {
    if t == [] || t[0] != '[' then None
    else
      var j := SkipUntil(t, 1, IsBracketStop);
      if j < |t| && t[j] == ']' then Some(j + 1) else None
  }

  /** `\([٠-٩0-9]+\)` at the start of `t`: a parenthesised footnote number. */
  function FootnoteAt(t: String): Option<nat> {
    if t == [] || t[0] != '(' then None
    else
      var j := SkipWhile(t, 1, IsFootnoteDigit);
      if 1 < j < |t| && t[j] == ')' then Some(j + 1) else None
  }

  /** The entry text with its number, bracketed notes and footnote markers removed. */
  function CleanHead(text: String): String {
    RemoveMatches(RemoveMatches(StripNumberPrefix(text), LazyBracketAt), FootnoteAt)
  }

  /** One element of a stop pattern: `\s`, `\s+` or literal text. */
  datatype Tok = Space | Spaces | Lit(text: String)

  /** Where a match of `pat` starting at `i` ends. `\s+` is matched greedily
      without giving characters back, which is exact because in every stop
      pattern it is followed by a literal that starts with a letter. */
  function MatchEnd(pat: seq<Tok>, s: String, i: nat): (e: Option<nat>)
    requires i <= |s|
    ensures e.Some? ==> i <= e.value <= |s|
    decreases |pat|
  {
    if pat == [] then Some(i)
    else match pat[0]
      case Space => if i < |s| && IsSpace(s[i]) then MatchEnd(pat[1..], s, i + 1) else None
      case Spaces => if i < |s| && IsSpace(s[i]) then MatchEnd(pat[1..], s, SkipWhile(s, i, IsSpace)) else None
      case Lit(w) => if HasAt(s, w, i) then MatchEnd(pat[1..], s, i + |w|) else None
  }

  predicate MatchesAt(pat: seq<Tok>, s: String, i: nat)
    requires i <= |s|
  {
    MatchEnd(pat, s, i).Some?
  }

  /** `re.search(pat, s[i:])`: the leftmost position from `i` on where `pat` matches. */
  function Search(pat: seq<Tok>, s: String, i: nat): (r: Option<nat>)
    requires i <= |s|
    ensures r.Some? ==> i <= r.value <= |s| && MatchesAt(pat, s, r.value)
    ensures forall j | i <= j <= |s| && (r.None? || j < r.value) :: !MatchesAt(pat, s, j)
    decreases |s| - i
  {
    if MatchesAt(pat, s, i) then Some(i)
    else if i == |s| then None
    else Search(pat, s, i + 1)
  }

  /** The phrases at which a name stops. */
  const StopPatterns: seq<seq<Tok>> := [
    [Space, Lit("روت"), Spaces, Lit("عن")],
    [Space, Lit("روى"), Spaces, Lit("عن")],
    [Space, Lit("يروى"), Spaces, Lit("عن")],
    [Space, Lit("حدث")],
    [Space, Lit("قال")],
    [Space, Lit("سمعت")],
    [Space, Lit("نا"), Space],
    [Space, Lit("اسمها"), Space],
    [Space, Lit("اسمه"), Space],
    [Space, Lit("من"), Spaces, Lit("اصحاب")],
    [Space, Lit("له"), Spaces, Lit("صحبة")],
    [Space, Lit("مدينى")],
    [Space, Lit("بكري")],
    [Space, Lit("خزاعية")],
    [Space, Lit("انصارية")],
    [Space, Lit("امرأة")]
  ]

  /** The running minimum of the source's loop over the patterns: `acc`, lowered
      to each pattern's leftmost match that comes earlier. The result is the
      earliest position at which any of the patterns matches, or `acc`. */
  function MinStop(pats: seq<seq<Tok>>, t: String, acc: nat): (m: nat)
    requires acc <= |t|
    ensures m <= acc
    ensures forall k, j | 0 <= k < |pats| && 0 <= j < m :: !MatchesAt(pats[k], t, j)
    ensures m < acc ==> exists k | 0 <= k < |pats| :: MatchesAt(pats[k], t, m)
    decreases |pats|
  {
    if pats == [] then acc
    else
      var r := Search(pats[0], t, 0);
      MinStop(pats[1..], t, if r.Some? && r.value < acc then r.value else acc)
  }

  /** The source's loop over the stop patterns (`min_pos`). */
  method EarliestMatch(pats: seq<seq<Tok>>, t: String) returns (minPos: nat)
    ensures minPos == MinStop(pats, t, |t|)
  {
    minPos := |t|;
    for i := 0 to |pats|
      invariant minPos <= |t|
      invariant MinStop(pats[i..], t, minPos) == MinStop(pats, t, |t|)
    {
      assert pats[i..][1..] == pats[i + 1..];
      var m := Search(pats[i], t, 0);
      if m.Some? && m.value < minPos {
        minPos := m.value;
      }
    }
    assert pats[|pats|..] == [];
  }

  predicate IsNamePunct(c: char) { c == ',' || c == '،' || c == ';' || c == '؛' || c == ':' || c == '.' }

  /** `name.strip().rstrip(',،;؛:.')`. */
  function TrimName(x: String): String {
    RStripWhere(Strip(x), IsNamePunct)
  }

  /** A name of more than six words is cut to its first six. */
  function CapWords(x: String): String {
    if |Words(x)| > 6 then Join(Words(x)[..6]) else x
  }

  /** The name given the cleaned text `t` and the stop position `m`: the text
      before the stop, or the first five words when nothing stops it. */
  function NameFrom(t: String, m: nat): String
    requires m <= |t|
  {
    CapWords(TrimName(if m < |t| then Strip(t[..m]) else Join(Take(Words(t), 5))))
  }

  /** The name extracted from an entry's text, given the stop patterns. */
  function NameWith(pats: seq<seq<Tok>>, text: String): String {
    var t := CleanHead(text);
    NameFrom(t, MinStop(pats, t, |t|))
  }

  /** The name extracted from an entry's text. */
  function NameOf(text: String): String {
    NameWith(StopPatterns, text)
  }

  /** The steps of `_extract_name` for a given list of stop patterns. */
  method ExtractNameWith(pats: seq<seq<Tok>>, text: String) returns (name: String)
    ensures name == NameWith(pats, text)
    ensures |Words(name)| <= 6
  {
    var t := CleanHead(text);
    var minPos := EarliestMatch(pats, t);
    name := NameFrom(t, minPos);
    NameAtMostSixWords(pats, text);
  }

  /** `_extract_name`: the narrator's name, at most six words long. */
  method ExtractName(text: String) returns (name: String)
    ensures name == NameOf(text)
    ensures |Words(name)| <= 6
  {
    name := ExtractNameWith(StopPatterns, text);
  }

  /** Capping keeps exactly the first six words. */
  lemma CapWordsWords(x: String)
    ensures Words(CapWords(x)) == Take(Words(x), 6)
  {
    if |Words(x)| > 6 {
      var ws := Words(x)[..6];
      assert forall w | w in ws :: w in Words(x);
      WordsOfJoin(ws);
    }
  }

  /** A name has at most six words. */
  lemma NameAtMostSixWords(pats: seq<seq<Tok>>, text: String)
    ensures |Words(NameWith(pats, text))| <= 6
  {
    var t := CleanHead(text);
    var m := MinStop(pats, t, |t|);
    CapWordsWords(TrimName(if m < |t| then Strip(t[..m]) else Join(Take(Words(t), 5))));
  }

  /** When no stop phrase occurs, the name is made of at most five words of the text. */
  lemma FallbackAtMostFiveWords(pats: seq<seq<Tok>>, text: String)
    requires var t := CleanHead(text); MinStop(pats, t, |t|) == |t|
    ensures |Words(NameWith(pats, text))| <= 5
  {
    var t := CleanHead(text);
    var ws := Take(Words(t), 5);
    assert forall w | w in ws :: w in Words(t);
    WordsOfJoin(ws);
    var x := Join(ws);
    WordsOfStrip(x);
    var y := Strip(x);
    var z := RStripWhere(y, IsNamePunct);
    TokensOfPrefix(y, |z|, IsSpace);
    assert y[..|z|] == z;
    CapWordsWords(z);
  }

  /** A name cut at position `m` is a piece of `t[..m]`: its words are the first
      six words of a slice `t[a..b]` with `b <= m`, and it is that slice itself
      when the slice has no more than six words. */
  lemma {:induction false} NameFromBeforeStop(t: String, m: nat)
    requires m < |t|
    ensures exists a: nat, b: nat | a <= b <= m ::
      Words(NameFrom(t, m)) == Take(Words(t[a..b]), 6)
      && (|Words(t[a..b])| <= 6 ==> NameFrom(t, m) == t[a..b])
  {
    var pr := StripRange(t[..m]);
    var y := Strip(t[..m]);
    assert y == t[pr.0..pr.1];
    StripIdempotent(t[..m]);
    var z := RStripWhere(y, IsNamePunct);
    assert TrimName(y) == z;
    var a, b := pr.0, pr.0 + |z|;
    PrefixOfSlice(t, pr.0, pr.1, |z|);
    assert z == t[a..b];
    CapWordsWords(t[a..b]);
  }

  /** When a stop phrase occurs, the name comes from the text before the earliest one. */
  lemma NameBeforeStop(pats: seq<seq<Tok>>, text: String)
    requires var t := CleanHead(text); MinStop(pats, t, |t|) < |t|
    ensures var t := CleanHead(text); var m := MinStop(pats, t, |t|);
      exists a: nat, b: nat | a <= b <= m ::
        Words(NameWith(pats, text)) == Take(Words(t[a..b]), 6)
        && (|Words(t[a..b])| <= 6 ==> NameWith(pats, text) == t[a..b])
  {
    var t := CleanHead(text);
    NameFromBeforeStop(t, MinStop(pats, t, |t|));
  }

  // ---------------------------------------------------------------------------
  // Keywords
  // ---------------------------------------------------------------------------

  /** The keywords that occur in `text`, in lexicon order. */
  function Found(text: String, kws: seq<String>): (r: seq<String>)
    ensures forall k | k in r :: k in kws && Contains(text, k)
    ensures forall k | k in kws && Contains(text, k) :: k in r
    ensures IsSubseq(r, kws)
    decreases |kws|
  {
    if kws == [] then []
    else
      var f := Found(text, kws[..|kws| - 1]);
      var k := kws[|kws| - 1];
      assert kws == kws[..|kws| - 1] + [k];
      SubseqSnoc(f, kws[..|kws| - 1], k);
      if Contains(text, k) then f + [k] else f
  }

  /** `_extract_keywords`. */
  method ExtractKeywords(text: String, keywords: seq<String>) returns (found: seq<String>)
    ensures found == Dedup(Found(text, keywords))
    ensures NoDup(found) && IsSubseq(found, Found(text, keywords))
    ensures forall k | k in found :: k in keywords && Contains(text, k)
    ensures forall k | k in keywords && Contains(text, k) :: k in found
  {
    var foundKeywords: seq<String> := [];
    for i := 0 to |keywords|
      invariant foundKeywords == Found(text, keywords[..i])
    {
      assert keywords[..i + 1][..i] == keywords[..i];
      if Contains(text, keywords[i]) {
        foundKeywords := foundKeywords + [keywords[i]];
      }
    }
    assert keywords[..|keywords|] == keywords;
    found := Dedup(foundKeywords);
  }

  /** Neither lexicon repeats a keyword. */
  lemma TaadilKeywordsDistinct()
    ensures NoDup(TaadilKeywords)
  {
    // the entries of equal length that share their first letter
    var t := TaadilKeywords;
    assert t[0][1] != t[12][1] && t[1][1] != t[15][1] && t[6][1] != t[16][1];
  }

  lemma JarhKeywordsDistinct()
    ensures NoDup(JarhKeywords)
  {
    // the entries of equal length that share their first letters
    var j := JarhKeywords;
    assert j[0][2] != j[9][2] && j[1][1] != j[8][1] && j[1][1] != j[15][1] && j[6][5] != j[16][5];
    assert j[7][1] != j[11][1] && j[8][2] != j[15][2];
  }

  /** With a lexicon that repeats nothing, the keywords come out exactly in lexicon
      order, each once. */
  lemma KeywordsInLexiconOrder(text: String, kws: seq<String>)
    requires NoDup(kws)
    ensures Dedup(Found(text, kws)) == Found(text, kws)
  {
    var f := Found(text, kws);
    forall i, j | 0 <= i < j < |f| ensures f[i] != f[j] {
      SubseqIndices(f, kws, i, j);
    }
  }

  /** A keyword that occurs inside another one is reported whenever the longer
      one is: both are found. */
  lemma NestedKeywords(text: String, kws: seq<String>, short: String, long: String)
    requires short in kws && long in kws && Contains(long, short) && Contains(text, long)
    ensures short in Dedup(Found(text, kws)) && long in Dedup(Found(text, kws))
  {
    ContainsTransitive(text, long, short);
  }

  /** "منكر الحديث" brings "منكر" with it. */
  lemma MunkarAlHadithBringsMunkar(text: String)
    requires Contains(text, "منكر الحديث")
    ensures "منكر" in Dedup(Found(text, JarhKeywords)) && "منكر الحديث" in Dedup(Found(text, JarhKeywords))
  {
    assert HasAt("منكر الحديث", "منكر", 0);
    assert JarhKeywords[13] == "منكر" && JarhKeywords[4] == "منكر الحديث";
    NestedKeywords(text, JarhKeywords, "منكر", "منكر الحديث");
  }

  // ---------------------------------------------------------------------------
  // Teachers and students
  // ---------------------------------------------------------------------------

  /** A relation pattern `verb\s+prep\s+([^،\.]+?)(?=…)`, with the optional
      suffix `[اء]?` after the preposition when `suffix` holds. The lookahead
      ends the lazy group at `،`, `.`, a newline, the phrase `other`, `سمعت`,
      `قال`, `نا` followed by whitespace, or any `و`. */
  datatype RelPattern = RelPattern(verb: String, prep: String, suffix: bool, other: String)

  const TeacherPatterns: seq<RelPattern> := [
    RelPattern("روى", "عن", false, "روى عنه"),
    RelPattern("روت", "عن", false, "روى عنه"),
    RelPattern("سمع", "من", false, "روى عنه"),
    RelPattern("سمعت", "من", false, "روى عنه")
  ]

  const StudentPatterns: seq<RelPattern> := [
    RelPattern("روى", "عنه", true, "روى عن"),
    RelPattern("روت", "عنه", true, "روى عن"),
    RelPattern("حدث", "عنه", true, "روى عن")
  ]

  /** The lookahead of a relation pattern holds at `e`. */
  predicate BoundaryAt(s: String, e: nat, other: String) {
    e < |s| &&
    (s[e] == '،' || s[e] == '.' || s[e] == '\n' || HasAt(s, other, e) || HasAt(s, "سمعت", e)
     || HasAt(s, "قال", e) || (HasAt(s, "نا", e) && e + 2 < |s| && IsSpace(s[e + 2])) || s[e] == 'و')
  }

  /** The first position from `i` on where the lookahead holds. */
  function FirstBoundary(s: String, i: nat, other: String): (e: Option<nat>)
    requires i <= |s|
    ensures e.Some? ==> i <= e.value < |s| && BoundaryAt(s, e.value, other)
    ensures forall j | i <= j < (if e.Some? then e.value else |s|) :: !BoundaryAt(s, j, other)
    decreases |s| - i
  {
    if i == |s| then None
    else if BoundaryAt(s, i, other) then Some(i)
    else FirstBoundary(s, i + 1, other)
  }

  /** The group of a relation pattern, when the `\s+` before it may end anywhere
      from `lo` to `g`: the greedy end `g` is tried first, then each shorter one.
      From a start the lazy group ends at the first position where the lookahead
      holds. */
  function GroupFrom(s: String, lo: nat, g: nat, other: String): (r: Option<Span>)
    requires lo <= g <= |s|
    ensures r.Some? ==> lo <= r.value.start < r.value.end <= |s|
    ensures r.Some? ==> BoundaryAt(s, r.value.end, other)
    ensures r.Some? ==> forall j | r.value.start < j < r.value.end :: !BoundaryAt(s, j, other)
    decreases g
  {
    var e := if g < |s| && s[g] != '،' && s[g] != '.' then FirstBoundary(s, g + 1, other) else None;
    if e.Some? then Some(Span(g, e.value))
    else if g == lo then None
    else GroupFrom(s, lo, g - 1, other)
  }

  /** The group of the match of `pat` that starts exactly at `p`, if there is one.
      The literals start with letters, so only the `\s+` before the group gives
      characters back. */
  function RelMatchAt(pat: RelPattern, s: String, p: nat): (r: Option<Span>)
    requires p <= |s|
    ensures r.Some? ==> p < r.value.start < r.value.end <= |s|
    ensures r.Some? ==> forall j | r.value.start < j < r.value.end :: !BoundaryAt(s, j, pat.other)
  {
    if !HasAt(s, pat.verb, p) then None
    else
      var a1 := p + |pat.verb|;
      if a1 >= |s| || !IsSpace(s[a1]) then None
      else
        var b1 := SkipWhile(s, a1, IsSpace);
        if !HasAt(s, pat.prep, b1) then None
        else
          var c := b1 + |pat.prep|;
          var a2 := if pat.suffix && c < |s| && (s[c] == 'ا' || s[c] == 'ء') then c + 1 else c;
          if a2 >= |s| || !IsSpace(s[a2]) then None
          else GroupFrom(s, a2 + 1, SkipWhile(s, a2, IsSpace), pat.other)
  }

  predicate NoWawAfterFirst(g: String) {
    forall k | 1 <= k < |g| :: g[k] != 'و'
  }

  /** `re.findall(pat, s[i:])`: the groups of the successive matches. Because the
      lookahead stops at any `و`, no group has one after its first character. */
  function RelGroups(pat: RelPattern, s: String, i: nat): (gs: seq<String>)
    requires i <= |s|
    ensures forall g | g in gs :: g != [] && NoWawAfterFirst(g)
    decreases |s| - i
  {
    if i == |s| then []
    else
      var m := RelMatchAt(pat, s, i);
      if m.Some? then
        var g := s[m.value.start..m.value.end];
        assert forall k | 1 <= k < |g| :: g[k] == s[m.value.start + k] && !BoundaryAt(s, m.value.start + k, pat.other);
        [g] + RelGroups(pat, s, m.value.end)
      else RelGroups(pat, s, i + 1)
  }

  /** `\s+و\s+` at position `i`: where the separator ends. */
  function WaSeparatorAt(s: String, i: nat): (e: Option<nat>)
    requires i <= |s|
    ensures e.Some? ==> i < e.value <= |s|
  {
    if i < |s| && IsSpace(s[i]) then
      var b := SkipWhile(s, i, IsSpace);
      if b + 1 < |s| && s[b] == 'و' && IsSpace(s[b + 1]) then Some(SkipWhile(s, b + 1, IsSpace)) else None
    else None
  }

  /** `re.split(r'\s+و\s+', s)` once the current piece started at `start` and the
      search has reached `i`. */
  function SplitWaFrom(s: String, start: nat, i: nat): (ps: seq<String>)
    requires start <= i <= |s|
    ensures ps != []
    decreases |s| - i
  {
    if i == |s| then [s[start..]]
    else
      var e := WaSeparatorAt(s, i);
      if e.Some? then [s[start..i]] + SplitWaFrom(s, e.value, e.value)
      else SplitWaFrom(s, start, i + 1)
  }

  /** `re.split(r'\s+و\s+', s)`. */
  function SplitWa(s: String): seq<String> {
    SplitWaFrom(s, 0, 0)
  }

  lemma {:induction false} SplitWaFromWhole(s: String, i: nat)
    requires i <= |s| && NoWawAfterFirst(s)
    ensures SplitWaFrom(s, 0, i) == [s]
    decreases |s| - i
  {
    if i < |s| {
      assert WaSeparatorAt(s, i).None? by {
        if IsSpace(s[i]) {
          var b := SkipWhile(s, i, IsSpace);
          assert b > i;
        }
      }
      SplitWaFromWhole(s, i + 1);
    }
  }

  /** A string with no `و` after its first character is not split. */
  lemma SplitWaWhole(s: String)
    requires NoWawAfterFirst(s)
    ensures SplitWa(s) == [s]
  {
    SplitWaFromWhole(s, 0);
  }

  /** Whose names are being collected. */
  datatype Role = Teachers | Students

  function Patterns(role: Role): seq<RelPattern> {
    match role
    case Teachers => TeacherPatterns
    case Students => StudentPatterns
  }

  /** The clean-up of one piece: strip, drop bracketed notes and footnote markers,
      strip again, then drop a leading `عن ` (teachers) or a leading `عنه ` and
      then a leading `عنها ` (students), stripping after each. */
  function CleanName(role: Role, piece: String): String {
    var t := Strip(RemoveMatches(RemoveMatches(Strip(piece), LazyBracketAt), FootnoteAt));
    match role
    case Teachers => if StartsWith(t, "عن ") then Strip(t[3..]) else t
    case Students =>
      var u := if StartsWith(t, "عنه ") then Strip(t[4..]) else t;
      if StartsWith(u, "عنها ") then Strip(u[5..]) else u
  }

  /** The clean-up of one piece, as a function value. */
  function Cleaner(role: Role): String -> String {
    (piece: String) => CleanName(role, piece)
  }

  /** The filter: longer than two characters and free of the words for a blank
      (`بياض`) and for hadith (`احاديث`, `حديث`). */
  predicate Acceptable(t: String) {
    |t| > 2 && !Contains(t, "بياض") && !Contains(t, "احاديث") && !Contains(t, "حديث")
  }

  /** The accepted candidates, each once, in order of first appearance. */
  function Collect(cands: seq<String>): (r: seq<String>)
    ensures NoDup(r)
    ensures forall t | t in r :: t in cands && Acceptable(t)
    ensures forall t | t in cands && Acceptable(t) :: t in r
    decreases |cands|
  {
    if cands == [] then []
    else
      var acc := Collect(cands[..|cands| - 1]);
      var t := cands[|cands| - 1];
      assert cands == cands[..|cands| - 1] + [t];
      if Acceptable(t) && t !in acc then acc + [t] else acc
  }

  /** The cleaned pieces, in order. */
  function PieceCandidates(clean: String -> String, pieces: seq<String>): seq<String>
    decreases |pieces|
  {
    if pieces == [] then []
    else PieceCandidates(clean, pieces[..|pieces| - 1]) + [clean(pieces[|pieces| - 1])]
  }

  /** The cleaned pieces of every group, in order. */
  function GroupCandidates(clean: String -> String, groups: seq<String>): seq<String>
    decreases |groups|
  {
    if groups == [] then []
    else GroupCandidates(clean, groups[..|groups| - 1]) + PieceCandidates(clean, SplitWa(groups[|groups| - 1]))
  }

  /** The cleaned pieces of every group of every pattern, in order. */
  function PatternCandidates(clean: String -> String, pats: seq<RelPattern>, text: String): seq<String>
    decreases |pats|
  {
    if pats == [] then []
    else PatternCandidates(clean, pats[..|pats| - 1], text) + GroupCandidates(clean, RelGroups(pats[|pats| - 1], text, 0))
  }

  /** The teachers or students named in an entry's text, given the patterns. */
  function RelationsWith(clean: String -> String, pats: seq<RelPattern>, text: String): seq<String> {
    Collect(PatternCandidates(clean, pats, text))
  }

  /** The teachers or students named in an entry's text. */
  function RelationsOf(role: Role, text: String): seq<String> {
    RelationsWith(Cleaner(role), Patterns(role), text)
  }

  lemma CollectStep(cands: seq<String>, t: String)
    ensures Collect(cands + [t]) == if Acceptable(t) && t !in Collect(cands) then Collect(cands) + [t] else Collect(cands)
  {
    assert (cands + [t])[..|cands|] == cands;
  }

  lemma PieceStep(clean: String -> String, done: seq<String>, pieces: seq<String>, k: nat)
    requires k < |pieces|
    ensures done + PieceCandidates(clean, pieces[..k + 1]) == (done + PieceCandidates(clean, pieces[..k])) + [clean(pieces[k])]
  {
    assert pieces[..k + 1][..k] == pieces[..k];
  }

  lemma GroupStep(clean: String -> String, before: seq<String>, groups: seq<String>, j: nat)
    requires j < |groups|
    ensures before + GroupCandidates(clean, groups[..j + 1]) == (before + GroupCandidates(clean, groups[..j])) + PieceCandidates(clean, SplitWa(groups[j]))
  {
    assert groups[..j + 1][..j] == groups[..j];
  }

  lemma PatternStep(clean: String -> String, pats: seq<RelPattern>, text: String, i: nat)
    requires i < |pats|
    ensures PatternCandidates(clean, pats[..i + 1], text) == PatternCandidates(clean, pats[..i], text) + GroupCandidates(clean, RelGroups(pats[i], text, 0))
  {
    assert pats[..i + 1][..i] == pats[..i];
  }

  /** The innermost loop of `_extract_teachers` and `_extract_students`: each
      piece of one captured group is cleaned and kept when acceptable and new. */
  method CollectPieces(clean: String -> String, done: seq<String>, pieces: seq<String>, names0: seq<String>) returns (names: seq<String>)
    requires names0 == Collect(done)
    ensures names == Collect(done + PieceCandidates(clean, pieces))
  {
    names := names0;
    assert pieces[..0] == [] && done + [] == done;
    for k := 0 to |pieces|
      invariant names == Collect(done + PieceCandidates(clean, pieces[..k]))
    {
      var t := clean(pieces[k]);
      PieceStep(clean, done, pieces, k);
      CollectStep(done + PieceCandidates(clean, pieces[..k]), t);
      if Acceptable(t) && t !in names {
        names := names + [t];
      }
    }
    assert pieces[..|pieces|] == pieces;
  }

  /** The loop over the groups one pattern captures. */
  method CollectGroups(clean: String -> String, before: seq<String>, groups: seq<String>, names0: seq<String>) returns (names: seq<String>)
    requires names0 == Collect(before)
    ensures names == Collect(before + GroupCandidates(clean, groups))
  {
    names := names0;
    assert groups[..0] == [];
    assert before + GroupCandidates(clean, groups[..0]) == before;
    for j := 0 to |groups|
      invariant names == Collect(before + GroupCandidates(clean, groups[..j]))
    {
      names := CollectPieces(clean, before + GroupCandidates(clean, groups[..j]), SplitWa(groups[j]), names);
      GroupStep(clean, before, groups, j);
    }
    assert groups[..|groups|] == groups;
  }

  /** The loops shared by `_extract_teachers` and `_extract_students`, over the
      patterns `pats`. */
  method CollectRelations(clean: String -> String, pats: seq<RelPattern>, text: String) returns (names: seq<String>)
    ensures names == RelationsWith(clean, pats, text)
    ensures NoDup(names) && forall t | t in names :: Acceptable(t)
  {
    names := [];
    for i := 0 to |pats|
      invariant names == Collect(PatternCandidates(clean, pats[..i], text))
    {
      names := CollectGroups(clean, PatternCandidates(clean, pats[..i], text), RelGroups(pats[i], text, 0), names);
      PatternStep(clean, pats, text, i);
    }
    assert pats[..|pats|] == pats;
  }

  /** `_extract_teachers`. */
  method ExtractTeachers(text: String) returns (teachers: seq<String>)
    ensures teachers == RelationsOf(Teachers, text)
    ensures NoDup(teachers) && forall t | t in teachers :: Acceptable(t)
  {
    teachers := CollectRelations(Cleaner(Teachers), TeacherPatterns, text);
  }

  /** `_extract_students`. */
  method ExtractStudents(text: String) returns (students: seq<String>)
    ensures students == RelationsOf(Students, text)
    ensures NoDup(students) && forall t | t in students :: Acceptable(t)
  {
    students := CollectRelations(Cleaner(Students), StudentPatterns, text);
  }

  /** Splitting on `\s+و\s+` never divides a group, so every group found by a
      relation pattern gives exactly one candidate, its cleaned self. */
  lemma {:induction false} GroupsGiveOneCandidateEach(clean: String -> String, groups: seq<String>)
    requires forall g | g in groups :: NoWawAfterFirst(g)
    ensures |GroupCandidates(clean, groups)| == |groups|
    ensures forall k | 0 <= k < |groups| :: GroupCandidates(clean, groups)[k] == clean(groups[k])
    decreases |groups|
  {
    if groups != [] {
      var n := |groups| - 1;
      var g := groups[n];
      assert forall h | h in groups[..n] :: h in groups;
      GroupsGiveOneCandidateEach(clean, groups[..n]);
      SplitWaWhole(g);
      assert [g][..0] == [];
      assert PieceCandidates(clean, [g]) == [clean(g)];
      var cs := GroupCandidates(clean, groups);
      assert cs == GroupCandidates(clean, groups[..n]) + [clean(g)];
      forall k | 0 <= k < |groups| ensures cs[k] == clean(groups[k]) {
        if k < n {
          assert groups[..n][k] == groups[k];
          assert cs[k] == GroupCandidates(clean, groups[..n])[k];
        }
      }
    }
  }

  /** The candidates of one pattern are the cleaned groups of its matches. */
  lemma PatternGivesCleanedGroups(clean: String -> String, pat: RelPattern, text: String)
    ensures var gs := RelGroups(pat, text, 0);
      |GroupCandidates(clean, gs)| == |gs|
      && forall k | 0 <= k < |gs| :: GroupCandidates(clean, gs)[k] == clean(gs[k])
  {
    GroupsGiveOneCandidateEach(clean, RelGroups(pat, text, 0));
  }

  // ---------------------------------------------------------------------------
  // Entries of a page
  // ---------------------------------------------------------------------------

  /** The word lists the extractor works with: its two lexicons, the stop
      patterns of the name and the teacher and student patterns. */
  datatype Tables = Tables(taadil: seq<String>, jarh: seq<String>, stops: seq<seq<Tok>>,
                           teacherPatterns: seq<RelPattern>, studentPatterns: seq<RelPattern>)

  const Standard: Tables := Tables(TaadilKeywords, JarhKeywords, StopPatterns, TeacherPatterns, StudentPatterns)

  /** One narrator record; `volume` and `page` form its source. */
  datatype NarratorEntry = NarratorEntry(
    narratorId: String, fullName: String, taadil: seq<String>, jarh: seq<String>,
    teachers: seq<String>, students: seq<String>, volume: int, page: int)

  /** `int(v) if v else 0`; `None` where `int` raises. */
  function SourceNumber(v: String): Option<int> {
    if v == [] then Some(0) else ParseInt(v)
  }

  /** The `N`-prefixed identifier, with the entry number padded to five digits. */
  function NarratorId(number: String): String {
    "N" + ZeroFill(number, 5)
  }

  /** The record built for the `k`-th marker `ms[k]` of the normalised page. */
  function EntryWith(tb: Tables, text: String, ms: seq<Span>, k: nat, volume: int, page: int): NarratorEntry
    requires WellFormed(ms, |text|) && k < |ms|
  {
    var conv := ToWestern(text);
    var a := ms[k].start;
    var b := BlockEnd(ms, k, |text|);
    var block := text[a..b];
    NarratorEntry(NarratorId(Number(conv, ms[k])), Strip(NameWith(tb.stops, conv[a..b])),
      Dedup(Found(block, tb.taadil)), Dedup(Found(block, tb.jarh)),
      RelationsWith(Cleaner(Teachers), tb.teacherPatterns, block), RelationsWith(Cleaner(Students), tb.studentPatterns, block),
      volume, page)
  }

  /** The body of the loop of `_extract_narrator_entries`: the record of the
      `i`-th marker, with the source already converted. */
  method BuildEntry(tb: Tables, text: String, ms: seq<Span>, i: nat, volume: int, page: int) returns (e: NarratorEntry)
    requires WellFormed(ms, |text|) && i < |ms|
    ensures e == EntryWith(tb, text, ms, i, volume, page)
  {
    var conv := ToWestern(text);
    var startPos := ms[i].start;
    var endPos := if i + 1 < |ms| then ms[i + 1].start else |conv|;
    var fullText := conv[startPos..endPos];
    var fullTextOriginal := text[startPos..endPos];
    var name := ExtractNameWith(tb.stops, fullText);
    var taadil := ExtractKeywords(fullTextOriginal, tb.taadil);
    var jarh := ExtractKeywords(fullTextOriginal, tb.jarh);
    var teachers := CollectRelations(Cleaner(Teachers), tb.teacherPatterns, fullTextOriginal);
    var students := CollectRelations(Cleaner(Students), tb.studentPatterns, fullTextOriginal);
    e := NarratorEntry(NarratorId(Number(conv, ms[i])), Strip(name), taadil, jarh, teachers, students, volume, page);
  }

  /** The record of each marker of the page, as a function of the marker's position in `ms`. */
  function EntryAt(tb: Tables, text: String, ms: seq<Span>, volume: int, page: int): (f: nat --> NarratorEntry)
    requires WellFormed(ms, |text|)
    ensures forall k: nat :: k < |ms| ==> f.requires(k)
  {
    (k: nat) requires k < |ms| => EntryWith(tb, text, ms, k, volume, page)
  }

  /** The records of the page, in marker order. */
  function PageEntries(tb: Tables, text: String, ms: seq<Span>, volume: int, page: int): (es: seq<NarratorEntry>)
    requires WellFormed(ms, |text|)
    ensures |es| == |ms|
  {
    Tabulate(|ms|, EntryAt(tb, text, ms, volume, page))
  }

  /** The `k`-th record is the one built for the `k`-th marker. */
  lemma PageEntriesAt(tb: Tables, text: String, ms: seq<Span>, volume: int, page: int, k: nat)
    requires WellFormed(ms, |text|) && k < |ms|
    ensures PageEntries(tb, text, ms, volume, page)[k] == EntryWith(tb, text, ms, k, volume, page)
  {
    TabulateAt(|ms|, EntryAt(tb, text, ms, volume, page), k);
  }

  /** The loop of `_extract_narrator_entries` over the markers `ms` of the page,
      once the volume and the page are known to be numbers. */
  method EntriesOf(tb: Tables, text: String, ms: seq<Span>, volume: int, page: int) returns (narrators: seq<NarratorEntry>)
    requires WellFormed(ms, |text|)
    ensures narrators == PageEntries(tb, text, ms, volume, page)
  {
    narrators := [];
    for i := 0 to |ms|
      invariant narrators == Tabulate(i, EntryAt(tb, text, ms, volume, page))
    {
      var entry := BuildEntry(tb, text, ms, i, volume, page);
      narrators := narrators + [entry];
    }
  }

  /** `_extract_narrator_entries` for given word tables. `int(volume)` and
      `int(page)` are evaluated for every record, always with the same outcome,
      so they fail exactly when there is a marker and one of them fails. */
  method ExtractEntriesWith(tb: Tables, text: String, volume: String, page: String) returns (r: Option<seq<NarratorEntry>>)
    ensures var ms := Markers(ToWestern(text));
      r.None? <==> ms != [] && (SourceNumber(volume).None? || SourceNumber(page).None?)
    ensures var ms := Markers(ToWestern(text));
      r.Some? ==> |r.value| == |ms| && (ms != [] ==>
        r.value == PageEntries(tb, text, ms, SourceNumber(volume).value, SourceNumber(page).value))
  {
    var conv := ToWestern(text);
    var ms := Markers(conv);
    if ms == [] {
      return Some([]);
    }
    var vol := SourceNumber(volume);
    var pg := SourceNumber(page);
    if vol.None? || pg.None? {
      return None;
    }
    var narrators := EntriesOf(tb, text, ms, vol.value, pg.value);
    return Some(narrators);
  }

  /** `_extract_narrator_entries`: one record per marker of the normalised page,
      in page order (the `k`-th record is `EntryWith(Standard, text, ms, k, …)`,
      by `PageEntriesAt`). `None` stands for the `ValueError` raised when there
      is a marker and the volume or the page is neither empty nor an integer. */
  method ExtractNarratorEntries(text: String, volume: String, page: String) returns (r: Option<seq<NarratorEntry>>)
    ensures var ms := Markers(ToWestern(text));
      r.None? <==> ms != [] && (SourceNumber(volume).None? || SourceNumber(page).None?)
    ensures var ms := Markers(ToWestern(text));
      r.Some? ==> |r.value| == |ms| && (ms != [] ==>
        r.value == PageEntries(Standard, text, ms, SourceNumber(volume).value, SourceNumber(page).value))
  {
    r := ExtractEntriesWith(Standard, text, volume, page);
  }

  /** The identifier is `N` followed by at least five digits whose value is the
      entry number. */
  lemma NarratorIdValue(n: String)
    requires n != [] && AllDigits(n)
    ensures var id := NarratorId(n);
      |id| >= 6 && id[0] == 'N' && AllDigits(id[1..]) && DigitsValue(id[1..]) == DigitsValue(n)
  {
    var id := NarratorId(n);
    if |n| < 5 {
      LeadingZerosValue(5 - |n|, n);
      assert id[1..] == Repeat('0', 5 - |n|) + n;
    } else {
      assert id[1..] == n;
    }
  }

  /** The entry number of a record is the run of digits its marker starts with
      (applied to the normalised page `ToWestern(text)`). */
  lemma EntryNumber(s: String, k: nat)
    requires k < |Markers(s)|
    ensures var m := Markers(s)[k]; var n := Number(s, m);
      n != [] && AllDigits(n) && s[m.start..m.start + |n|] == n
  {
    ScanMatches(|s|, 0, MarkerMatcher(s), k);
    MarkerNumber(s, Markers(s)[k]);
  }

  /** What every record promises besides its identifier: a name of at most six
      words, the keywords of the entry each once, and acceptable teachers and
      students, each once. */
  lemma EntryFacts(tb: Tables, text: String, ms: seq<Span>, k: nat, volume: int, page: int)
    requires WellFormed(ms, |text|) && k < |ms|
    ensures var e := EntryWith(tb, text, ms, k, volume, page);
      var block := text[ms[k].start..BlockEnd(ms, k, |text|)];
      && |Words(e.fullName)| <= 6
      && NoDup(e.taadil) && (forall t | t in e.taadil :: t in tb.taadil && Contains(block, t))
      && NoDup(e.jarh) && (forall t | t in e.jarh :: t in tb.jarh && Contains(block, t))
      && NoDup(e.teachers) && (forall t | t in e.teachers :: Acceptable(t))
      && NoDup(e.students) && (forall t | t in e.students :: Acceptable(t))
  {
    var conv := ToWestern(text);
    var a := ms[k].start;
    var b := BlockEnd(ms, k, |text|);
    NameAtMostSixWords(tb.stops, conv[a..b]);
    WordsOfStrip(NameWith(tb.stops, conv[a..b]));
  }
}
