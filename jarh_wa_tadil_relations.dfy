/** Teachers and students of an entry (`extract_teachers_students` in
    jarh_tadeel_extract.py). Four patterns capture a group that ends with a
    `بن` link; each group is split into names at `و` and commas, and the names
    are gathered in two sets. */
module JarhWaTadilRelations {
  import opened Text

  // ---------------------------------------------------------------------------
  // The group `([أ-ي\sو,]+(?:بن\s+[أ-ي]+)+)`
  // ---------------------------------------------------------------------------

  /** The class `[أ-ي\sو,]`; `و` (U+0648) is already one of the letters. */
  predicate IsGroupChar(c: char) { IsArabicLetter(c) || IsSpace(c) || c == ',' }

  /** `(?:بن\s+[أ-ي]+)+` at `k`: where it ends. The letters run greedily to a
      character that is not a letter, where `بن` cannot begin again, so the
      repetition always stops after its first round. */
  function TailEnd(h: String, k: nat): (r: Option<nat>)
    requires k <= |h|
    ensures r.Some? ==> k + 2 < r.value <= |h|
  {
    if k + 2 <= |h| && h[k] == 'ب' && h[k + 1] == 'ن' then
      var sp := Run(h, k + 2, IsSpace);
      var le := Run(h, sp, IsArabicLetter);
      if k + 2 < sp < le then Some(le) else None
    else None
  }

  /** A tail is made of group characters and ends with a letter that no letter
      follows. */
  lemma {:induction false} TailShape(h: String, k: nat)
    requires k <= |h| && TailEnd(h, k).Some?
    ensures forall j | k <= j < TailEnd(h, k).value :: IsGroupChar(h[j])
    ensures IsArabicLetter(h[TailEnd(h, k).value - 1])
    ensures TailEnd(h, k).value < |h| ==> !IsArabicLetter(h[TailEnd(h, k).value])
  {
    var sp := Run(h, k + 2, IsSpace);
    RunIsSkipWhile(h, k + 2, IsSpace);
    RunIsSkipWhile(h, sp, IsArabicLetter);
  }

  /** The class part `[…]+` gives characters back one at a time from `hi`
      down to `lo` until the tail matches: the largest `k` in `lo..hi` where
      it does. */
  function TailFrom(h: String, lo: nat, hi: nat): (r: Option<nat>)
    requires lo <= hi <= |h|
    ensures r.Some? ==> lo <= r.value <= hi && TailEnd(h, r.value).Some?
    ensures r.Some? ==> forall j | r.value < j <= hi :: TailEnd(h, j).None?
    ensures r.None? ==> forall j | lo <= j <= hi :: TailEnd(h, j).None?
    decreases hi
  {
    if TailEnd(h, hi).Some? then Some(hi)
    else if hi == lo then None
    else TailFrom(h, lo, hi - 1)
  }

  /** `\s+` at `a` followed by the group: the group's span. The `\s+` is
      greedy, and the class part starts after it, running greedily to `e0`.
      When no tail is found there, the `\s+` gives back a space: the class part
      is then that space alone, and the tail may start right after it. Giving
      back more only tries positions holding a space, where `بن` cannot start. */
  function GroupAfter(h: String, a: nat): (r: Option<Span>)
    requires a <= |h|
    ensures r.Some? ==> a < r.value.start < r.value.end <= |h|
  {
    var s1 := Run(h, a, IsSpace);
    var e0 := Run(h, s1, IsGroupChar);
    if s1 == a then None
    else if s1 < e0 && TailFrom(h, s1 + 1, e0).Some? then
      Some(Span(s1, TailEnd(h, TailFrom(h, s1 + 1, e0).value).value))
    else if a + 1 < s1 && TailEnd(h, s1).Some? then Some(Span(s1 - 1, TailEnd(h, s1).value))
    else None
  }

  /** A group is a non-empty run of group characters ending with a letter. */
  predicate GroupShaped(g: String) {
    g != [] && IsArabicLetter(g[|g| - 1]) && forall k | 0 <= k < |g| :: IsGroupChar(g[k])
  }

  /** A group holds only group characters and ends with a letter. */
  lemma {:induction false} GroupShape(h: String, a: nat)
    requires a <= |h| && GroupAfter(h, a).Some?
    ensures var g := GroupAfter(h, a).value; GroupShaped(h[g.start..g.end])
  {
    var s1 := Run(h, a, IsSpace);
    var e0 := Run(h, s1, IsGroupChar);
    if s1 < e0 && TailFrom(h, s1 + 1, e0).Some? {
      var k := TailFrom(h, s1 + 1, e0).value;
      assert GroupAfter(h, a).value == Span(s1, TailEnd(h, k).value);
      RunIsSkipWhile(h, s1, IsGroupChar);
      SpanShaped(h, s1, k);
    } else {
      assert GroupAfter(h, a).value == Span(s1 - 1, TailEnd(h, s1).value);
      RunIsSkipWhile(h, a, IsSpace);
      SpanShaped(h, s1 - 1, s1);
    }
  }

  /** Group characters from `s` up to a tail at `k`, and the tail. */
  lemma {:induction false} SpanShaped(h: String, s: nat, k: nat)
    requires s <= k <= |h| && TailEnd(h, k).Some?
    requires forall j | s <= j < k :: IsGroupChar(h[j])
    ensures GroupShaped(h[s..TailEnd(h, k).value])
  {
    TailShape(h, k);
    var e := TailEnd(h, k).value;
    assert forall j | 0 <= j < e - s :: h[s..e][j] == h[s + j];
  }

  // ---------------------------------------------------------------------------
  // The four patterns
  // ---------------------------------------------------------------------------

  /** A pattern `head(?:\s+word)?\s+(group)`; `optional` is the word of the
      optional part, when there is one. */
  datatype RelPattern = RelPattern(head: String, optional: Option<String>)

  /** `روى عن\s+(…)` and `سمع(?:\s+من)?\s+(…)`. */
  const TeacherPatterns: seq<RelPattern> := [RelPattern("روى عن", None), RelPattern("سمع", Some("من"))]

  /** `روى عنه\s+(…)` and `حدث عنه\s+(…)`. */
  const StudentPatterns: seq<RelPattern> := [RelPattern("روى عنه", None), RelPattern("حدث عنه", None)]

  /** The group of the match of `pat` that starts exactly at `p`. The optional
      part is tried first; only when the rest cannot match after it is the
      pattern tried without it. Within the optional part the spaces before the
      word cannot give anything back, as the word starts with a letter. */
  function MatchAt(pat: RelPattern, h: String, p: nat): (r: Option<Span>)
    requires p <= |h|
    ensures r.Some? ==> p < r.value.start < r.value.end <= |h|
  {
    if !HasAt(h, pat.head, p) then None
    else
      var a := p + |pat.head|;
      var withWord := OptionalGroup(pat, h, a);
      if withWord.Some? then withWord else GroupAfter(h, a)
  }

  /** The group after the head when the optional part `\s+word` is taken. */
  function OptionalGroup(pat: RelPattern, h: String, a: nat): (r: Option<Span>)
    requires a <= |h|
    ensures r.Some? ==> a < r.value.start < r.value.end <= |h|
  {
    match pat.optional
    case None => None
    case Some(w) =>
      var s := Run(h, a, IsSpace);
      if a < s && HasAt(h, w, s) then GroupAfter(h, s + |w|) else None
  }

  lemma {:induction false} OptionalGroupShape(pat: RelPattern, h: String, a: nat)
    requires a <= |h| && OptionalGroup(pat, h, a).Some?
    ensures var g := OptionalGroup(pat, h, a).value; GroupShaped(h[g.start..g.end])
  {
    var w := pat.optional.value;
    GroupShape(h, Run(h, a, IsSpace) + |w|);
  }

  lemma {:induction false} MatchShape(pat: RelPattern, h: String, p: nat)
    requires p <= |h| && MatchAt(pat, h, p).Some?
    ensures var m := MatchAt(pat, h, p).value; GroupShaped(h[m.start..m.end])
  {
    var a := p + |pat.head|;
    if OptionalGroup(pat, h, a).Some? {
      assert MatchAt(pat, h, p) == OptionalGroup(pat, h, a);
      OptionalGroupShape(pat, h, a);
    } else {
      assert MatchAt(pat, h, p) == GroupAfter(h, a);
      GroupShape(h, a);
    }
  }

  /** `[m.group(1) for m in re.finditer(pat, h[i:])]`: the leftmost match, then
      the leftmost one after it, and so on. */
  function Groups(pat: RelPattern, h: String, i: nat): (gs: seq<String>)
    requires i <= |h|
    ensures forall g | g in gs :: GroupShaped(g) && Contains(h, g)
    decreases |h| - i
  {
    if i == |h| then []
    else
      var m := MatchAt(pat, h, i);
      if m.Some? then
        var g := h[m.value.start..m.value.end];
        MatchShape(pat, h, i);
        assert HasAt(h, g, m.value.start);
        [g] + Groups(pat, h, m.value.end)
      else Groups(pat, h, i + 1)
  }

  // ---------------------------------------------------------------------------
  // split_names
  // ---------------------------------------------------------------------------

  /** The class `[و,]`. */
  predicate IsNameSep(c: char) { c == 'و' || c == ',' }

  /** `[n.strip() for n in ts if n.strip()]`. */
  function Kept(ts: seq<String>): (ns: seq<String>)
    decreases |ts|
  {
    if ts == [] then []
    else (if Strip(ts[0]) != [] then [Strip(ts[0])] else []) + Kept(ts[1..])
  }

  /** `split_names`: the pieces of `re.split(r'[و,]+', raw)`, stripped, the
      empty ones left out. `re.split` also yields empty pieces where `raw`
      starts or ends with a separator; `Tokens` leaves them out already. */
  function SplitNames(raw: String): seq<String> {
    Kept(Tokens(raw, IsNameSep))
  }

  /** A name of the relation lists: non-empty, stripped, without `و` or a
      comma. */
  predicate RelName(n: String) {
    n != [] && Strip(n) == n && NoneOf(n, IsNameSep)
  }

  /** Every token of `s` occurs in `s`. */
  lemma {:induction false} TokensOccur(s: String, sep: char -> bool)
    ensures forall w | w in Tokens(s, sep) :: Contains(s, w)
    decreases |s|
  {
    if s != [] {
      TokensOccur(s[1..], sep);
      forall w | w in Tokens(s[1..], sep) ensures Contains(s, w) {
        assert HasAt(s, s[1..], 1);
        assert Contains(s, s[1..]);
        ContainsTransitive(s, s[1..], w);
      }
      if !sep(s[0]) {
        var b := SkipUntil(s, 0, sep);
        TokensOccur(s[b..], sep);
        assert HasAt(s, s[..b], 0);
        forall w | w in Tokens(s[b..], sep) ensures Contains(s, w) {
          assert HasAt(s, s[b..], b);
          ContainsTransitive(s, s[b..], w);
        }
      }
    }
  }

  /** The strip of a string occurs in it. */
  lemma StripOccurs(t: String)
    ensures Contains(t, Strip(t))
  {
    assert HasAt(t, Strip(t), StripRange(t).0);
  }

  lemma {:induction false} KeptShape(ts: seq<String>, s: String)
    requires forall t | t in ts :: NoneOf(t, IsNameSep) && Contains(s, t)
    ensures forall n | n in Kept(ts) :: RelName(n) && Contains(s, n)
    decreases |ts|
  {
    if ts != [] {
      KeptShape(ts[1..], s);
      var t := ts[0];
      StripIdempotent(t);
      StripOccurs(t);
      ContainsTransitive(s, t, Strip(t));
      NoneOfSlice(t, StripRange(t).0, StripRange(t).1, IsNameSep);
    }
  }

  /** Every name of a group is non-empty, stripped, free of separators, and
      occurs in the group. */
  lemma SplitNamesShape(raw: String)
    ensures forall n | n in SplitNames(raw) :: RelName(n) && Contains(raw, n)
  {
    TokensOccur(raw, IsNameSep);
    KeptShape(Tokens(raw, IsNameSep), raw);
  }

  // ---------------------------------------------------------------------------
  // The two sets
  // ---------------------------------------------------------------------------

  function ToSet(xs: seq<String>): set<String> {
    set x | x in xs
  }

  /** The names of the groups `groups`. */
  function GroupNames(groups: seq<String>): set<String>
    decreases |groups|
  {
    if groups == [] then {}
    else GroupNames(groups[..|groups| - 1]) + ToSet(SplitNames(groups[|groups| - 1]))
  }

  /** The names captured by the patterns `pats` in `text`. */
  function PatternNames(pats: seq<RelPattern>, text: String): set<String>
    decreases |pats|
  {
    if pats == [] then {}
    else PatternNames(pats[..|pats| - 1], text) + GroupNames(Groups(pats[|pats| - 1], text, 0))
  }

  /** A name is gathered exactly when it is a name of a group of one of the
      patterns. */
  lemma {:induction false} GroupNamesMembers(groups: seq<String>, n: String)
    ensures n in GroupNames(groups) <==> exists g | g in groups :: n in SplitNames(g)
    decreases |groups|
  {
    if groups != [] {
      var last := groups[|groups| - 1];
      GroupNamesMembers(groups[..|groups| - 1], n);
      assert groups == groups[..|groups| - 1] + [last];
      if n in SplitNames(last) {
        assert last in groups;
      }
      if exists g | g in groups :: n in SplitNames(g) {
        var g :| g in groups && n in SplitNames(g);
        if g != last {
          assert g in groups[..|groups| - 1];
        }
      }
    }
  }

  lemma {:induction false} PatternNamesMembers(pats: seq<RelPattern>, text: String, n: String)
    ensures n in PatternNames(pats, text) <==> exists pat | pat in pats :: n in GroupNames(Groups(pat, text, 0))
    decreases |pats|
  {
    if pats != [] {
      var last := pats[|pats| - 1];
      PatternNamesMembers(pats[..|pats| - 1], text, n);
      assert pats == pats[..|pats| - 1] + [last];
      if exists pat | pat in pats :: n in GroupNames(Groups(pat, text, 0)) {
        var pat :| pat in pats && n in GroupNames(Groups(pat, text, 0));
        if pat != last {
          assert pat in pats[..|pats| - 1];
        }
      }
    }
  }

  /** Every gathered name is non-empty, stripped, free of separators, and
      occurs in the text. */
  lemma PatternNamesShape(pats: seq<RelPattern>, text: String, n: String)
    requires n in PatternNames(pats, text)
    ensures RelName(n) && Contains(text, n)
  {
    PatternNamesMembers(pats, text, n);
    var pat :| pat in pats && n in GroupNames(Groups(pat, text, 0));
    GroupNamesMembers(Groups(pat, text, 0), n);
    var g :| g in Groups(pat, text, 0) && n in SplitNames(g);
    SplitNamesShape(g);
    ContainsTransitive(text, g, n);
  }

  // ---------------------------------------------------------------------------
  // The loops
  // ---------------------------------------------------------------------------

  /** `for name in split_names(raw): names.add(name)`. */
  method AddNames(names0: set<String>, raw: String) returns (names: set<String>)
    ensures names == names0 + ToSet(SplitNames(raw))
  {
    names := names0;
    var ns := SplitNames(raw);
    for k := 0 to |ns|
      invariant names == names0 + ToSet(ns[..k])
    {
      assert ToSet(ns[..k + 1]) == ToSet(ns[..k]) + {ns[k]} by {
        assert ns[..k + 1] == ns[..k] + [ns[k]];
      }
      names := names + {ns[k]};
    }
    assert ns[..|ns|] == ns;
  }

  /** `for m in re.finditer(p, text): …` over the groups of one pattern. */
  method AddGroups(names0: set<String>, groups: seq<String>) returns (names: set<String>)
    ensures names == names0 + GroupNames(groups)
  {
    names := names0;
    for j := 0 to |groups|
      invariant names == names0 + GroupNames(groups[..j])
    {
      assert groups[..j + 1][..j] == groups[..j];
      names := AddNames(names, groups[j]);
    }
    assert groups[..|groups|] == groups;
  }

  /** `for p in patterns: …`. */
  method CollectNames(pats: seq<RelPattern>, text: String) returns (names: set<String>)
    ensures names == PatternNames(pats, text)
  {
    names := {};
    for i := 0 to |pats|
      invariant names == PatternNames(pats[..i], text)
    {
      assert pats[..i + 1][..i] == pats[..i];
      names := AddGroups(names, Groups(pats[i], text, 0));
    }
    assert pats[..|pats|] == pats;
  }

  /** `extract_teachers_students`: the teachers and the students named in
      `text`, each a set of non-empty stripped names that occur in the text. */
  method ExtractTeachersStudents(text: String) returns (teachers: set<String>, students: set<String>)
    ensures teachers == PatternNames(TeacherPatterns, text)
    ensures students == PatternNames(StudentPatterns, text)
  {
    teachers := CollectNames(TeacherPatterns, text);
    students := CollectNames(StudentPatterns, text);
  }
}
