/** The judgements of an entry (`extract_judgements` in jarh_tadeel_extract.py).
    Every phrase quoted after "قال X:" is matched against both lexicons and yields
    one attributed judgement per term it contains, or one unclassified entry when
    it contains none; then the whole entry is matched against both lexicons again
    and every contained term yields a standalone judgement. */
module JarhWaTadilJudgements {
  import opened Text
  import JarhWaTadil

  // ---------------------------------------------------------------------------
  // The lexicons
  // ---------------------------------------------------------------------------

  /** A lexicon: Arabic terms with their English labels, in iteration order. */
  type Lexicon = seq<(String, String)>

  /** The approval terms. The dictionary of the source names "صالح الحديث"
      twice; the second value replaces the first and the key keeps its first
      position, which this list reflects. */
  const TaadilTerms: Lexicon := [
    ("ثقة ثقة", "Thiqa Thiqa"),
    ("ثقة ثبت", "Thiqa Thabt"),
    ("ثقة حافظ", "Thiqa Hafiz"),
    ("إمام حافظ", "Imam Hafiz"),
    ("حجة", "Hujjah"),
    ("ثقة", "Thiqa"),
    ("ثبت", "Thabt"),
    ("صدوق", "Saduq"),
    ("لا بأس به", "La ba's bihi"),
    ("محله الصدق", "Truthful"),
    ("صالح الحديث", "Salih al-hadith"),
    ("يكتب حديثه", "His hadith is written"),
    ("صدوق يهم", "Saduq (but makes mistakes)"),
    ("صالح", "Salih"),
    ("شيخ", "Shaykh"),
    ("وسط", "Average")
  ]

  /** The criticism terms, with "ضعيف" and "ليس بالقوي" flattened the same way. */
  const JarhTerms: Lexicon := [
    ("وسط", "Average"),
    ("ضعيف", "Daif"),
    ("لين الحديث", "Layyin al-Hadith"),
    ("ليس بالقوي", "Not strong"),
    ("يهم", "Makes mistakes"),
    ("منكر الحديث", "Munkar al-Hadith"),
    ("سيئ الحفظ", "Poor memory"),
    ("متروك", "Matruk"),
    ("متروك الحديث", "Matruk al-Hadith"),
    ("كذاب", "Kadhdhab"),
    ("وضاع", "Fabricator"),
    ("ساقط", "Saqit"),
    ("فيه لين", "Layyin")
  ]

  /** The entries of `lex` whose term occurs in `text`, in lexicon order: the
      `if ar in text` test of every iteration over a lexicon. */
  function Matching(lex: Lexicon, text: String): (r: Lexicon)
    ensures IsSubseq(r, lex)
    ensures forall e | e in r :: e in lex && Contains(text, e.0)
    ensures forall e | e in lex && Contains(text, e.0) :: e in r
    decreases |lex|
  {
    if lex == [] then []
    else
      var m := Matching(lex[..|lex| - 1], text);
      var e := lex[|lex| - 1];
      assert lex == lex[..|lex| - 1] + [e];
      SubseqSnoc(m, lex[..|lex| - 1], e);
      if Contains(text, e.0) then m + [e] else m
  }

  lemma MatchingStep(lex: Lexicon, text: String, i: nat)
    requires i < |lex|
    ensures Matching(lex[..i + 1], text) == Matching(lex[..i], text) + (if Contains(text, lex[i].0) then [lex[i]] else [])
  {
    assert lex[..i + 1][..i] == lex[..i];
  }

  // ---------------------------------------------------------------------------
  // The attributed pattern `(?:قال|وقال)\s+([أ-ي\s]+?)[:：]\s*([^\.،\n]{2,200})`
  // ---------------------------------------------------------------------------

  /** `[:：]`: an ASCII or a fullwidth colon. */
  predicate IsColon(c: char) { c == ':' || c == '\U{FF1A}' }

  /** A character that ends a quoted phrase: full stop, Arabic comma, newline. */
  predicate IsPhraseStop(c: char) { c == '.' || c == '،' || c == '\n' }

  predicate IsPhraseChar(c: char) { !IsPhraseStop(c) }

  /** `(?:قال|وقال)` at `p`: where it ends. The two alternatives begin with
      different letters, so at most one of them matches. */
  function SaidEnd(h: String, p: nat): (r: Option<nat>)
    ensures r.Some? ==> p < r.value <= |h|
  {
    if HasAt(h, "قال", p) then Some(p + 3)
    else if HasAt(h, "وقال", p) then Some(p + 4)
    else None
  }

  /** `\s+([أ-ي\s]+?)[:：]` from `a`: the evaluator group. The lazy group grows
      over letters and spaces until the colon, which it cannot cross, so it ends
      at the first character outside its class. When the colon follows the spaces
      directly, the greedy `\s+` gives one space back to the group. */
  function EvaluatorAfter(h: String, a: nat): (r: Option<Span>)
    requires a <= |h|
    ensures r.Some? ==> a < r.value.start < r.value.end < |h| && IsColon(h[r.value.end])
    ensures r.Some? ==> forall k | r.value.start <= k < r.value.end :: JarhWaTadil.IsNameChar(h[k])
  {
    var s1 := SkipWhile(h, a, IsSpace);
    var c := SkipWhile(h, s1, JarhWaTadil.IsNameChar);
    if s1 == a then None
    else if s1 < c < |h| && IsColon(h[c]) then Some(Span(s1, c))
    else if c == s1 && a + 1 < s1 && s1 < |h| && IsColon(h[s1]) then Some(Span(s1 - 1, s1))
    else None
  }

  /** `[^\.،\n]{2,200}` at `t`, greedy: where it ends. */
  function PhraseEnd(h: String, t: nat): (r: Option<nat>)
    requires t <= |h|
    ensures r.Some? ==> t + 2 <= r.value <= t + 200 && r.value <= |h|
    ensures r.Some? ==> forall k | t <= k < r.value :: IsPhraseChar(h[k])
  {
    var e := SkipWhile(h, t, IsPhraseChar);
    var e' := if e > t + 200 then t + 200 else e;
    if e' >= t + 2 then Some(e') else None
  }

  /** `\s*` followed by the phrase, with the `\s*` greedy up to `t` and giving
      characters back down to `lo`: the phrase starting at the largest position
      where it matches. */
  function PhraseFrom(h: String, lo: nat, t: nat): (r: Option<Span>)
    requires lo <= t <= |h|
    ensures r.Some? ==> lo <= r.value.start && r.value.start + 2 <= r.value.end <= r.value.start + 200
    ensures r.Some? ==> r.value.end <= |h| && forall k | r.value.start <= k < r.value.end :: IsPhraseChar(h[k])
    decreases t
  {
    match PhraseEnd(h, t)
    case Some(e) => Some(Span(t, e))
    case None => if t == lo then None else PhraseFrom(h, lo, t - 1)
  }

  /** One match of the pattern: its two groups as they stand in the text. */
  datatype Said = Said(evaluator: String, phrase: String)

  /** The groups of a match: an evaluator of letters and spaces, and a phrase of
      2 to 200 characters containing no full stop, Arabic comma or newline. */
  predicate SaidShaped(s: Said) {
    s.evaluator != [] && (forall k | 0 <= k < |s.evaluator| :: JarhWaTadil.IsNameChar(s.evaluator[k]))
    && 2 <= |s.phrase| <= 200 && NoneOf(s.phrase, IsPhraseStop)
  }

  /** The match that starts exactly at `p`, with where it ends. When the phrase
      cannot match after the colon, giving back spaces of `\s+` only moves the
      start of the evaluator group, which leaves the colon and the phrase where
      they were, so there is no match at `p`. */
  function SaidAt(h: String, p: nat): (r: Option<(Said, nat)>)
    requires p <= |h|
    ensures r.Some? ==> p < r.value.1 <= |h| && SaidShaped(r.value.0)
    ensures r.Some? ==> Contains(h, r.value.0.phrase)
  {
    match SaidEnd(h, p)
    case None => None
    case Some(a) =>
      match EvaluatorAfter(h, a)
      case None => None
      case Some(ev) =>
        var u := SkipWhile(h, ev.end + 1, IsSpace);
        match PhraseFrom(h, ev.end + 1, u)
        case None => None
        case Some(ph) =>
          var phrase := h[ph.start..ph.end];
          assert HasAt(h, phrase, ph.start);
          assert forall k | 0 <= k < |phrase| :: phrase[k] == h[ph.start + k];
          Some((Said(h[ev.start..ev.end], phrase), ph.end))
  }

  /** `re.finditer(evaluator_pattern, text[i:])`: the leftmost match, then the
      leftmost one from where it ended, and so on. */
  function SaidFrom(h: String, i: nat): (ss: seq<Said>)
    requires i <= |h|
    ensures forall s | s in ss :: SaidShaped(s) && Contains(h, s.phrase)
    decreases |h| - i
  {
    if i == |h| then []
    else
      var m := SaidAt(h, i);
      if m.Some? then [m.value.0] + SaidFrom(h, m.value.1) else SaidFrom(h, i + 1)
  }

  // ---------------------------------------------------------------------------
  // Classification
  // ---------------------------------------------------------------------------

  /** A classified judgement; `evaluatedBy` is `None` for a standalone one. */
  datatype Judgement = Judgement(statement: String, exactText: String, evaluatedBy: Option<String>)

  /** An attributed phrase that contains no lexicon term. */
  datatype Unclassified = Unclassified(exactText: String, evaluatedBy: String)

  /** The three lists `extract_judgements` returns. */
  datatype Verdicts = Verdicts(taadil: seq<Judgement>, jarh: seq<Judgement>, unclassified: seq<Unclassified>)

  function Plus(a: Verdicts, b: Verdicts): Verdicts {
    Verdicts(a.taadil + b.taadil, a.jarh + b.jarh, a.unclassified + b.unclassified)
  }

  /** One judgement per matched entry, quoting `phrase` and crediting `evaluator`. */
  function Attributed(m: Lexicon, phrase: String, evaluator: String): seq<Judgement> {
    seq(|m|, k requires 0 <= k < |m| => Judgement(m[k].1, phrase, Some(evaluator)))
  }

  /** One judgement per matched entry, quoting the term itself and crediting nobody. */
  function Standalone(m: Lexicon): seq<Judgement> {
    seq(|m|, k requires 0 <= k < |m| => Judgement(m[k].1, m[k].0, None))
  }

  /** The contribution of one match: its evaluator and phrase are stripped, and
      the phrase is classified against both lexicons, every contained term
      counting. A phrase is unclassified exactly when it contains no term of
      either lexicon, and then it gives exactly one unclassified entry. */
  function Classify(tl: Lexicon, jl: Lexicon, s: Said): (v: Verdicts)
    ensures v.unclassified == [] <==> (Matching(tl, Strip(s.phrase)) != [] || Matching(jl, Strip(s.phrase)) != [])
    ensures v.unclassified == [] || v.unclassified == [Unclassified(Strip(s.phrase), Strip(s.evaluator))]
    ensures |v.taadil| == |Matching(tl, Strip(s.phrase))| && |v.jarh| == |Matching(jl, Strip(s.phrase))|
  {
    var ev := Strip(s.evaluator);
    var ph := Strip(s.phrase);
    var t := Attributed(Matching(tl, ph), ph, ev);
    var j := Attributed(Matching(jl, ph), ph, ev);
    Verdicts(t, j, if t == [] && j == [] then [Unclassified(ph, ev)] else [])
  }

  /** The contributions of the matches `ss`, in order. */
  function ClassifyAll(tl: Lexicon, jl: Lexicon, ss: seq<Said>): Verdicts
    decreases |ss|
  {
    if ss == [] then Verdicts([], [], [])
    else Plus(ClassifyAll(tl, jl, ss[..|ss| - 1]), Classify(tl, jl, ss[|ss| - 1]))
  }

  /** `extract_judgements` for given lexicons: the attributed judgements, then
      the standalone ones. */
  function JudgementsWith(tl: Lexicon, jl: Lexicon, text: String): Verdicts {
    Plus(ClassifyAll(tl, jl, SaidFrom(text, 0)),
         Verdicts(Standalone(Matching(tl, text)), Standalone(Matching(jl, text)), []))
  }

  /** `extract_judgements`. */
  function Judgements(text: String): Verdicts {
    JudgementsWith(TaadilTerms, JarhTerms, text)
  }

  // ---------------------------------------------------------------------------
  // The loops of `extract_judgements`
  // ---------------------------------------------------------------------------

  lemma AttributedSnoc(m: Lexicon, e: (String, String), phrase: String, evaluator: String)
    ensures Attributed(m + [e], phrase, evaluator) == Attributed(m, phrase, evaluator) + [Judgement(e.1, phrase, Some(evaluator))]
  {
  }

  lemma StandaloneSnoc(m: Lexicon, e: (String, String))
    ensures Standalone(m + [e]) == Standalone(m) + [Judgement(e.1, e.0, None)]
  {
  }

  /** `for ar, en in terms.items(): if ar in phrase: out.append(…); classified = True`. */
  method AppendAttributed(out0: seq<Judgement>, lex: Lexicon, phrase: String, evaluator: String, classified0: bool)
    returns (out: seq<Judgement>, classified: bool)
    ensures out == out0 + Attributed(Matching(lex, phrase), phrase, evaluator)
    ensures classified <==> classified0 || Matching(lex, phrase) != []
  {
    out, classified := out0, classified0;
    for i := 0 to |lex|
      invariant out == out0 + Attributed(Matching(lex[..i], phrase), phrase, evaluator)
      invariant classified <==> classified0 || Matching(lex[..i], phrase) != []
    {
      MatchingStep(lex, phrase, i);
      var (ar, en) := lex[i];
      if Contains(phrase, ar) {
        AttributedSnoc(Matching(lex[..i], phrase), lex[i], phrase, evaluator);
        out := out + [Judgement(en, phrase, Some(evaluator))];
        classified := true;
      }
    }
    assert lex[..|lex|] == lex;
  }

  /** `for ar, en in terms.items(): if ar in text: out.append(…)` for the
      standalone judgements. */
  method AppendStandalone(out0: seq<Judgement>, lex: Lexicon, text: String) returns (out: seq<Judgement>)
    ensures out == out0 + Standalone(Matching(lex, text))
  {
    out := out0;
    for i := 0 to |lex|
      invariant out == out0 + Standalone(Matching(lex[..i], text))
    {
      MatchingStep(lex, text, i);
      var (ar, en) := lex[i];
      if Contains(text, ar) {
        StandaloneSnoc(Matching(lex[..i], text), lex[i]);
        out := out + [Judgement(en, ar, None)];
      }
    }
    assert lex[..|lex|] == lex;
  }

  /** The body of the loop over the matches: one match classified. */
  method ClassifyMatch(v0: Verdicts, tl: Lexicon, jl: Lexicon, s: Said) returns (v: Verdicts)
    ensures v == Plus(v0, Classify(tl, jl, s))
  {
    var evaluator := Strip(s.evaluator);
    var phrase := Strip(s.phrase);
    var classified := false;
    var taadil, jarh;
    taadil, classified := AppendAttributed(v0.taadil, tl, phrase, evaluator, classified);
    jarh, classified := AppendAttributed(v0.jarh, jl, phrase, evaluator, classified);
    var unclassified := v0.unclassified;
    if !classified {
      unclassified := unclassified + [Unclassified(phrase, evaluator)];
    }
    v := Verdicts(taadil, jarh, unclassified);
  }

  /** The loop over the matches of `extract_judgements`: each classified in
      turn. */
  method ClassifyMatches(tl: Lexicon, jl: Lexicon, matches: seq<Said>) returns (v: Verdicts)
    ensures v == ClassifyAll(tl, jl, matches)
  {
    v := Verdicts([], [], []);
    for i := 0 to |matches|
      invariant v == ClassifyAll(tl, jl, matches[..i])
    {
      assert matches[..i + 1][..i] == matches[..i];
      v := ClassifyMatch(v, tl, jl, matches[i]);
    }
    assert matches[..|matches|] == matches;
  }

  /** `extract_judgements` for given lexicons. */
  method ExtractJudgementsWith(tl: Lexicon, jl: Lexicon, text: String)
    returns (taadil: seq<Judgement>, jarh: seq<Judgement>, unclassified: seq<Unclassified>)
    ensures Verdicts(taadil, jarh, unclassified) == JudgementsWith(tl, jl, text)
  {
    var v := ClassifyMatches(tl, jl, SaidFrom(text, 0));
    taadil := AppendStandalone(v.taadil, tl, text);
    jarh := AppendStandalone(v.jarh, jl, text);
    unclassified := v.unclassified;
  }

  /** `extract_judgements`. */
  method ExtractJudgements(text: String)
    returns (taadil: seq<Judgement>, jarh: seq<Judgement>, unclassified: seq<Unclassified>)
    ensures Verdicts(taadil, jarh, unclassified) == Judgements(text)
  {
    taadil, jarh, unclassified := ExtractJudgementsWith(TaadilTerms, JarhTerms, text);
  }

  // ---------------------------------------------------------------------------
  // What the judgements promise
  // ---------------------------------------------------------------------------

  /** No term of `lex` occurs in `text`. */
  predicate NoTermIn(lex: Lexicon, text: String) {
    forall e | e in lex :: !Contains(text, e.0)
  }

  /** An attributed judgement against `lex`: credited to an evaluator, labelled
      with a term of `lex` that its quoted phrase contains. */
  predicate AttributedFrom(lex: Lexicon, j: Judgement) {
    j.evaluatedBy.Some? && exists e | e in lex :: e.1 == j.statement && Contains(j.exactText, e.0)
  }

  /** Every attributed judgement carries the label of a term its phrase
      contains, and no term of either lexicon occurs in an unclassified phrase. */
  lemma {:induction false} ClassifyAllShape(tl: Lexicon, jl: Lexicon, ss: seq<Said>)
    ensures var v := ClassifyAll(tl, jl, ss);
      (forall j | j in v.taadil :: AttributedFrom(tl, j))
      && (forall j | j in v.jarh :: AttributedFrom(jl, j))
      && (forall u | u in v.unclassified :: NoTermIn(tl, u.exactText) && NoTermIn(jl, u.exactText))
    decreases |ss|
  {
    if ss != [] {
      ClassifyAllShape(tl, jl, ss[..|ss| - 1]);
      var s := ss[|ss| - 1];
      var ph := Strip(s.phrase);
      var c := Classify(tl, jl, s);
      forall j | j in c.taadil ensures AttributedFrom(tl, j) {
        var k :| 0 <= k < |c.taadil| && c.taadil[k] == j;
        assert Matching(tl, ph)[k] in Matching(tl, ph);
      }
      forall j | j in c.jarh ensures AttributedFrom(jl, j) {
        var k :| 0 <= k < |c.jarh| && c.jarh[k] == j;
        assert Matching(jl, ph)[k] in Matching(jl, ph);
      }
    }
  }

  /** The standalone judgements are exactly those of the terms the text
      contains, each quoting its term and crediting nobody. */
  lemma StandaloneExact(lex: Lexicon, text: String)
    ensures forall j | j in Standalone(Matching(lex, text)) ::
      j.evaluatedBy.None? && (j.exactText, j.statement) in lex && Contains(text, j.exactText)
    ensures forall e | e in lex && Contains(text, e.0) :: Judgement(e.1, e.0, None) in Standalone(Matching(lex, text))
  {
    var m := Matching(lex, text);
    var st := Standalone(m);
    forall j | j in st ensures j.evaluatedBy.None? && (j.exactText, j.statement) in lex && Contains(text, j.exactText) {
      var k :| 0 <= k < |st| && st[k] == j;
      assert m[k] in m;
    }
    forall e | e in lex && Contains(text, e.0) ensures Judgement(e.1, e.0, None) in st {
      var k :| 0 <= k < |m| && m[k] == e;
      assert st[k] == Judgement(e.1, e.0, None);
    }
  }

  /** What one list of `extract_judgements` holds against its lexicon `lex`:
      the credited judgements carry the label of a term their quoted phrase
      contains, and the judgements credited to nobody are exactly the terms of
      `lex` that the entry contains, each quoting its term. */
  predicate ListFacts(lex: Lexicon, l: seq<Judgement>, text: String) {
    (forall j | j in l && j.evaluatedBy.Some? :: AttributedFrom(lex, j))
    && (forall j | j in l && j.evaluatedBy.None? :: (j.exactText, j.statement) in lex && Contains(text, j.exactText))
    && (forall e | e in lex && Contains(text, e.0) :: Judgement(e.1, e.0, None) in l)
  }

  lemma ListFactsOf(lex: Lexicon, a: seq<Judgement>, text: String)
    requires forall j | j in a :: AttributedFrom(lex, j)
    ensures ListFacts(lex, a + Standalone(Matching(lex, text)), text)
  {
    StandaloneExact(lex, text);
  }

  /** What `extract_judgements` returns: both lists as `ListFacts` describes,
      and unclassified phrases that contain no term of either lexicon. */
  lemma JudgementsFacts(tl: Lexicon, jl: Lexicon, text: String)
    ensures var v := JudgementsWith(tl, jl, text);
      ListFacts(tl, v.taadil, text) && ListFacts(jl, v.jarh, text)
      && (forall u | u in v.unclassified :: NoTermIn(tl, u.exactText) && NoTermIn(jl, u.exactText))
  {
    var a := ClassifyAll(tl, jl, SaidFrom(text, 0));
    ClassifyAllShape(tl, jl, SaidFrom(text, 0));
    ListFactsOf(tl, a.taadil, text);
    ListFactsOf(jl, a.jarh, text);
  }

  /** With lexicons whose terms are non-empty, every approval and criticism
      judgement quotes a non-empty text. */
  lemma JudgementsQuoteSomething(tl: Lexicon, jl: Lexicon, text: String)
    requires forall e | e in tl :: e.0 != []
    requires forall e | e in jl :: e.0 != []
    ensures var v := JudgementsWith(tl, jl, text);
      (forall j | j in v.taadil :: j.exactText != []) && (forall j | j in v.jarh :: j.exactText != [])
  {
    JudgementsFacts(tl, jl, text);
    var v := JudgementsWith(tl, jl, text);
    forall j | j in v.taadil ensures j.exactText != [] {
      if j.evaluatedBy.Some? {
        var e :| e in tl && e.1 == j.statement && Contains(j.exactText, e.0);
      }
    }
    forall j | j in v.jarh ensures j.exactText != [] {
      if j.evaluatedBy.Some? {
        var e :| e in jl && e.1 == j.statement && Contains(j.exactText, e.0);
      }
    }
  }

  /** A term inside a longer term is reported with it: a phrase containing the
      longer term gives a judgement for each of the two. */
  lemma NestedTerms(lex: Lexicon, text: String, short: (String, String), long: (String, String))
    requires short in lex && long in lex && Contains(long.0, short.0) && Contains(text, long.0)
    ensures short in Matching(lex, text) && long in Matching(lex, text)
  {
    ContainsTransitive(text, long.0, short.0);
  }

  /** "ثقة ثبت" is classified three times over: as itself, as "ثقة" and as "ثبت". */
  lemma ThiqaThabtMatchesThree(text: String)
    requires Contains(text, "ثقة ثبت")
    ensures ("ثقة ثبت", "Thiqa Thabt") in Matching(TaadilTerms, text)
    ensures ("ثقة", "Thiqa") in Matching(TaadilTerms, text)
    ensures ("ثبت", "Thabt") in Matching(TaadilTerms, text)
  {
    assert TaadilTerms[1] == ("ثقة ثبت", "Thiqa Thabt");
    assert TaadilTerms[5] == ("ثقة", "Thiqa");
    assert TaadilTerms[6] == ("ثبت", "Thabt");
    assert HasAt("ثقة ثبت", "ثقة", 0);
    assert HasAt("ثقة ثبت", "ثبت", 4);
    NestedTerms(TaadilTerms, text, TaadilTerms[5], TaadilTerms[1]);
    NestedTerms(TaadilTerms, text, TaadilTerms[6], TaadilTerms[1]);
  }

  /** "وسط" is a term of both lexicons, so an entry containing it gets a
      standalone "Average" judgement in both the approval and the criticism list. */
  lemma WasatInBoth(text: String)
    requires Contains(text, "وسط")
    ensures Judgement("Average", "وسط", None) in Judgements(text).taadil
    ensures Judgement("Average", "وسط", None) in Judgements(text).jarh
  {
    assert TaadilTerms[15] == ("وسط", "Average");
    assert JarhTerms[0] == ("وسط", "Average");
    JudgementsFacts(TaadilTerms, JarhTerms, text);
  }

  /** A term of the approval lexicon that a quoted phrase contains gives an
      approval judgement quoting the phrase and crediting the evaluator, and the
      phrase is not unclassified; the same holds for the criticism lexicon. */
  lemma ClassifyHas(tl: Lexicon, jl: Lexicon, s: Said, e: (String, String), approval: bool)
    requires e in (if approval then tl else jl) && Contains(Strip(s.phrase), e.0)
    ensures var c := Classify(tl, jl, s);
      Judgement(e.1, Strip(s.phrase), Some(Strip(s.evaluator))) in (if approval then c.taadil else c.jarh)
      && c.unclassified == []
  {
    var lex := if approval then tl else jl;
    var m := Matching(lex, Strip(s.phrase));
    assert e in m;
    var k :| 0 <= k < |m| && m[k] == e;
    var c := Classify(tl, jl, s);
    assert (if approval then c.taadil else c.jarh)[k] == Judgement(e.1, Strip(s.phrase), Some(Strip(s.evaluator)));
  }

  /** A quoted "صدوق يهم" gives the judgements of every lexicon entry it
      contains, for lexicons holding "صدوق", "صدوق يهم" and "يهم". */
  lemma SaduqYahimWith(tl: Lexicon, jl: Lexicon, evaluator: String)
    requires ("صدوق", "Saduq") in tl && ("صدوق يهم", "Saduq (but makes mistakes)") in tl
    requires ("يهم", "Makes mistakes") in jl
    ensures var c := Classify(tl, jl, Said(evaluator, "صدوق يهم"));
      Judgement("Saduq", "صدوق يهم", Some(Strip(evaluator))) in c.taadil
      && Judgement("Saduq (but makes mistakes)", "صدوق يهم", Some(Strip(evaluator))) in c.taadil
      && Judgement("Makes mistakes", "صدوق يهم", Some(Strip(evaluator))) in c.jarh
      && c.unclassified == []
  {
    var ph: String := "صدوق يهم";
    var s := Said(evaluator, ph);
    StripOfTrimmed(ph);
    assert HasAt(ph, "صدوق", 0) && HasAt(ph, "يهم", 5) && HasAt(ph, ph, 0);
    ClassifyHas(tl, jl, s, ("صدوق", "Saduq"), true);
    ClassifyHas(tl, jl, s, ("صدوق يهم", "Saduq (but makes mistakes)"), true);
    ClassifyHas(tl, jl, s, ("يهم", "Makes mistakes"), false);
  }

  /** A quoted "صدوق يهم" is both approval and criticism: it contains the approval
      terms "صدوق" and "صدوق يهم" and the criticism term "يهم". */
  lemma SaduqYahimInBoth(evaluator: String)
    ensures var c := Classify(TaadilTerms, JarhTerms, Said(evaluator, "صدوق يهم"));
      Judgement("Saduq", "صدوق يهم", Some(Strip(evaluator))) in c.taadil
      && Judgement("Saduq (but makes mistakes)", "صدوق يهم", Some(Strip(evaluator))) in c.taadil
      && Judgement("Makes mistakes", "صدوق يهم", Some(Strip(evaluator))) in c.jarh
      && c.unclassified == []
  {
    assert TaadilTerms[7] == ("صدوق", "Saduq");
    assert TaadilTerms[12] == ("صدوق يهم", "Saduq (but makes mistakes)");
    assert JarhTerms[4] == ("يهم", "Makes mistakes");
    SaduqYahimWith(TaadilTerms, JarhTerms, evaluator);
  }
}
