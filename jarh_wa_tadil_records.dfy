/** The record builder of `JarhWaTadilExtractor` (jarh_tadeel_extract.py): the
    object keeps a counter and the list of records built so far; every entry
    of every retained page that yields a name becomes one record, numbered by
    the counter, and pages of an early volume are skipped whole. */
module JarhWaTadilRecords {
  import opened Text
  import opened Numerals
  import JarhWaTadil
  import JarhWaTadilRelations
  import opened JarhWaTadilJudgements

  /** `JarhTadilRecord`; `volume` and `page` form its source. */
  datatype Record = Record(
    narratorId: String, fullName: String,
    taadil: seq<Judgement>, jarh: seq<Judgement>, unclassified: seq<Unclassified>,
    teachers: set<String>, students: set<String>,
    volume: int, page: Option<int>)

  /** A page of the input: `vol` is `str` of the page's volume, `None` when the
      key is missing; `page` is passed through to the records as it is, `None`
      when the key is missing. */
  datatype Page = Page(vol: Option<String>, page: Option<int>, text: String)

  /** `f"N{counter:05d}"` for a counter that is never negative. */
  function NarratorId(n: nat): String {
    "N" + ZeroFill(Decimal(n), 5)
  }

  /** The identifier is `N` followed by at least five decimal digits that spell
      the counter. */
  lemma NarratorIdValue(n: nat)
    ensures var id := NarratorId(n);
      |id| >= 6 && id[0] == 'N' && AllDigits(id[1..]) && DigitsValue(id[1..]) == n
  {
    ZeroFillDecimalValue(n, 5);
    assert NarratorId(n)[1..] == ZeroFill(Decimal(n), 5);
  }

  /** Different counters give different identifiers. */
  lemma NarratorIdInjective(a: nat, b: nat)
    requires a != b
    ensures NarratorId(a) != NarratorId(b)
  {
    NarratorIdValue(a);
    NarratorIdValue(b);
  }

  /** `int(self.arabic_to_western(str(page.get("vol", "1"))))`; `None` where
      `int` raises. */
  function VolumeOf(p: Page): Option<int> {
    ParseInt(ToWestern(if p.vol.None? then "1" else p.vol.value))
  }

  /** The fields of a record that depend on its entry alone. */
  datatype Fields = Fields(
    fullName: String,
    taadil: seq<Judgement>, jarh: seq<Judgement>, unclassified: seq<Unclassified>,
    teachers: set<String>, students: set<String>)

  /** The part of `process_entry` that reads the entry: `None` when it has no
      name, otherwise its name, judgements, teachers and students. */
  function FieldsOf(entry: String): Option<Fields> {
    match JarhWaTadil.ExtractName(entry)
    case None => None
    case Some(name) =>
      var v := Judgements(entry);
      Some(Fields(name, v.taadil, v.jarh, v.unclassified,
        JarhWaTadilRelations.PatternNames(JarhWaTadilRelations.TeacherPatterns, entry),
        JarhWaTadilRelations.PatternNames(JarhWaTadilRelations.StudentPatterns, entry)))
  }

  /** How the driver reads its input: the fields of an entry (`None` when it
      has no name), the volume of a page (`None` where `int` raises), and the
      entries of a page's text. */
  datatype Reader = Reader(
    fields: String -> Option<Fields>,
    volume: Page -> Option<int>,
    entries: String -> seq<String>)

  /** The reader of `JarhWaTadilExtractor`. */
  const Source: Reader := Reader(FieldsOf, VolumeOf, JarhWaTadil.SegmentEntries)

  /** The calls of `process_entry` on its entry: the name, and when there is
      one, the judgements and the teachers and students. */
  method ReadEntry(entry: String) returns (f: Option<Fields>)
    ensures f == FieldsOf(entry)
  {
    var name := JarhWaTadil.ExtractName(entry);
    if name.None? {
      return None;
    }
    var taadil, jarh, unclassified := ExtractJudgements(entry);
    var teachers, students := JarhWaTadilRelations.ExtractTeachersStudents(entry);
    f := Some(Fields(name.value, taadil, jarh, unclassified, teachers, students));
  }

  /** `process_entry` with the counter at `counter`: `None` when the entry has
      no fields, otherwise the record numbered `counter`. */
  function RecordFor(rd: Reader, entry: String, page: Option<int>, vol: int, counter: nat): Option<Record> {
    match rd.fields(entry)
    case None => None
    case Some(f) =>
      Some(Record(NarratorId(counter), f.fullName, f.taadil, f.jarh, f.unclassified,
        f.teachers, f.students, vol, page))
  }

  /** The records of the entries of one page, numbered from `counter`, and the
      counter after them: the `k`-th record is numbered `counter + k`. */
  function EntryRecords(rd: Reader, entries: seq<String>, page: Option<int>, vol: int, counter: nat): (r: (seq<Record>, nat))
    ensures r.1 == counter + |r.0| && |r.0| <= |entries|
    ensures forall k | 0 <= k < |r.0| :: r.0[k].narratorId == NarratorId(counter + k)
    decreases |entries|
  {
    if entries == [] then ([], counter)
    else
      var prev := EntryRecords(rd, entries[..|entries| - 1], page, vol, counter);
      var rec := RecordFor(rd, entries[|entries| - 1], page, vol, prev.1);
      if rec.None? then prev else (prev.0 + [rec.value], prev.1 + 1)
  }

  /** One more entry: its record, if any, is appended and numbered on. */
  lemma EntryRecordsLast(rd: Reader, entries: seq<String>, j: nat, page: Option<int>, vol: int, counter: nat)
    requires j < |entries|
    ensures var prev := EntryRecords(rd, entries[..j], page, vol, counter);
      var rec := RecordFor(rd, entries[j], page, vol, prev.1);
      var next := EntryRecords(rd, entries[..j + 1], page, vol, counter);
      next.0 == (if rec.None? then prev.0 else prev.0 + [rec.value])
      && next.1 == (if rec.None? then prev.1 else prev.1 + 1)
  {
    assert entries[..j + 1][..j] == entries[..j];
  }

  /** The step of a loop that keeps `r0 + EntryRecords(…).0` in its list: the
      record `rec` of the entry `entries[j]`, numbered on, is appended to it. */
  lemma EntryRecordsNext(rd: Reader, entries: seq<String>, j: nat, page: Option<int>, vol: int, c0: nat,
                         r0: seq<Record>, rec: Option<Record>)
    requires j < |entries|
    requires rec == RecordFor(rd, entries[j], page, vol, EntryRecords(rd, entries[..j], page, vol, c0).1)
    ensures r0 + EntryRecords(rd, entries[..j + 1], page, vol, c0).0 ==
      if rec.None? then r0 + EntryRecords(rd, entries[..j], page, vol, c0).0
      else (r0 + EntryRecords(rd, entries[..j], page, vol, c0).0) + [rec.value]
    ensures EntryRecords(rd, entries[..j + 1], page, vol, c0).1 ==
      if rec.None? then EntryRecords(rd, entries[..j], page, vol, c0).1
      else EntryRecords(rd, entries[..j], page, vol, c0).1 + 1
  {
    EntryRecordsLast(rd, entries, j, page, vol, c0);
    if rec.Some? {
      var prev := EntryRecords(rd, entries[..j], page, vol, c0).0;
      assert (r0 + prev) + [rec.value] == r0 + (prev + [rec.value]);
    }
  }

  /** What the object holds between pages: its records and its counter, and
      whether `int` has raised. */
  datatype State = State(records: seq<Record>, counter: nat, failed: bool)

  /** From position `from` on, the records of `rs` are numbered on from
      `counter`, one by one. */
  predicate Numbered(rs: seq<Record>, from: nat, counter: nat) {
    from <= |rs| && forall k | from <= k < |rs| :: rs[k].narratorId == NarratorId(counter + (k - from))
  }

  /** Numbering carries over from a prefix to its extension. */
  lemma NumberedJoin(a: seq<Record>, b: seq<Record>, from: nat, counter: nat)
    requires a <= b && Numbered(a, from, counter) && Numbered(b, |a|, counter + (|a| - from))
    ensures Numbered(b, from, counter)
  {
    forall k | from <= k < |b| ensures b[k].narratorId == NarratorId(counter + (k - from)) {
      if k < |a| {
        assert b[k] == a[k];
      }
    }
  }

  /** One iteration of the loop over the pages of `extract_from_json`. */
  function PageStep(rd: Reader, st: State, p: Page, startVolume: int): (r: State)
    ensures st.records <= r.records
    ensures r.counter == st.counter + (|r.records| - |st.records|)
    ensures Numbered(r.records, |st.records|, st.counter)
    ensures st.failed ==> r == st
  {
    if st.failed then st
    else match rd.volume(p)
      case None => State(st.records, st.counter, true)
      case Some(v) =>
        if v < startVolume then st
        else
          var rc := EntryRecords(rd, rd.entries(p.text), p.page, v, st.counter);
          State(st.records + rc.0, rc.1, false)
  }

  /** `extract_from_json` from the state `st`: the pages in order. The records
      already held are kept, the new ones are numbered on from the counter, and
      a failed run stays failed. */
  function Drive(rd: Reader, pages: seq<Page>, startVolume: int, st: State): (r: State)
    ensures st.records <= r.records
    ensures r.counter == st.counter + (|r.records| - |st.records|)
    ensures Numbered(r.records, |st.records|, st.counter)
    ensures st.failed ==> r == st
    decreases |pages|
  {
    if pages == [] then st
    else
      var before := Drive(rd, pages[..|pages| - 1], startVolume, st);
      var after := PageStep(rd, before, pages[|pages| - 1], startVolume);
      NumberedJoin(before.records, after.records, |st.records|, st.counter);
      after
  }

  // ---------------------------------------------------------------------------
  // The extractor object
  // ---------------------------------------------------------------------------

  /** `JarhWaTadilExtractor`: the records built so far and the counter that
      numbers the next one. Its two lexicons never change after construction
      and are the constants `TaadilTerms` and `JarhTerms`. */
  class Extractor {
    var records: seq<Record>
    var counter: nat

    constructor ()
      ensures records == [] && counter == 1
    {
      records := [];
      counter := 1;
    }

    /** `process_entry`: without a name nothing is built and the counter stays;
        otherwise the record is numbered by the counter, which rises by one. */
    method ProcessEntry(entry: String, page: Option<int>, vol: int) returns (r: Option<Record>)
      modifies this`counter
      ensures r == RecordFor(Source, entry, page, vol, old(counter))
      ensures counter == if r.Some? then old(counter) + 1 else old(counter)
    {
      var f := ReadEntry(entry);
      if f.None? {
        return None;
      }
      r := Some(Record(NarratorId(counter), f.value.fullName, f.value.taadil, f.value.jarh,
        f.value.unclassified, f.value.teachers, f.value.students, vol, page));
      counter := counter + 1;
    }

    /** One iteration of the loop over the entries of a retained page: the
        entry `entries[j]` is processed and its record, if any, appended. */
    method ProcessNext(entries: seq<String>, j: nat, page: Option<int>, vol: int, ghost r0: seq<Record>, ghost c0: nat)
      requires j < |entries|
      requires records == r0 + EntryRecords(Source, entries[..j], page, vol, c0).0
      requires counter == EntryRecords(Source, entries[..j], page, vol, c0).1
      modifies this
      ensures records == r0 + EntryRecords(Source, entries[..j + 1], page, vol, c0).0
      ensures counter == EntryRecords(Source, entries[..j + 1], page, vol, c0).1
    {
      var rec := ProcessEntry(entries[j], page, vol);
      EntryRecordsNext(Source, entries, j, page, vol, c0, r0, rec);
      if rec.Some? {
        records := records + [rec.value];
      }
    }

    /** The loop over the entries of one retained page. */
    method ProcessEntries(entries: seq<String>, page: Option<int>, vol: int)
      modifies this
      ensures records == old(records) + EntryRecords(Source, entries, page, vol, old(counter)).0
      ensures counter == EntryRecords(Source, entries, page, vol, old(counter)).1
    {
      ghost var r0, c0 := records, counter;
      for j := 0 to |entries|
        invariant records == r0 + EntryRecords(Source, entries[..j], page, vol, c0).0
        invariant counter == EntryRecords(Source, entries[..j], page, vol, c0).1
      {
        ProcessNext(entries, j, page, vol, r0, c0);
      }
      assert entries[..|entries|] == entries;
    }

    /** `extract_from_json`: the records of all retained pages are appended in
        page and entry order, and the whole list is returned. `None` stands for
        the `ValueError` of a volume that is not an integer; the records and the
        counter of the pages before it stay. */
    method ExtractFromJson(pages: seq<Page>, startVolume: int) returns (r: Option<seq<Record>>)
      modifies this
      ensures var d := Drive(Source, pages, startVolume, State(old(records), old(counter), false));
        records == d.records && counter == d.counter && r == (if d.failed then None else Some(records))
    {
      ghost var st0 := State(records, counter, false);
      for i := 0 to |pages|
        invariant Drive(Source, pages[..i], startVolume, st0) == State(records, counter, false)
      {
        assert pages[..i + 1][..i] == pages[..i];
        var vol := VolumeOf(pages[i]);
        if vol.None? {
          DriveStaysFailed(Source, pages, i + 1, startVolume, st0);
          return None;
        }
        if vol.value >= startVolume {
          var entries := JarhWaTadil.SegmentEntries(pages[i].text);
          ProcessEntries(entries, pages[i].page, vol.value);
        }
      }
      assert pages[..|pages|] == pages;
      r := Some(records);
    }
  }

  // ---------------------------------------------------------------------------
  // What the driver promises
  // ---------------------------------------------------------------------------

  /** Running over `p1 + p2` is running over `p1`, then over `p2`. */
  lemma {:induction false} DriveSplit(rd: Reader, p1: seq<Page>, p2: seq<Page>, startVolume: int, st: State)
    ensures Drive(rd, p1 + p2, startVolume, st) == Drive(rd, p2, startVolume, Drive(rd, p1, startVolume, st))
    decreases |p2|
  {
    if p2 == [] {
      assert p1 + p2 == p1;
    } else {
      var n := |p2| - 1;
      assert (p1 + p2)[..|p1 + p2| - 1] == p1 + p2[..n];
      DriveSplit(rd, p1, p2[..n], startVolume, st);
    }
  }

  /** Once `int` has raised within the first `i` pages, the later pages change
      nothing. */
  lemma DriveStaysFailed(rd: Reader, pages: seq<Page>, i: nat, startVolume: int, st: State)
    requires i <= |pages| && Drive(rd, pages[..i], startVolume, st).failed
    ensures Drive(rd, pages, startVolume, st) == Drive(rd, pages[..i], startVolume, st)
  {
    DriveSplit(rd, pages[..i], pages[i..], startVolume, st);
    assert pages[..i] + pages[i..] == pages;
  }

  /** A page whose volume is below the threshold contributes nothing: taking it
      out of the input changes neither the records nor the counter. */
  lemma SkipsLowVolume(rd: Reader, p1: seq<Page>, p: Page, p2: seq<Page>, startVolume: int, st: State)
    requires rd.volume(p).Some? && rd.volume(p).value < startVolume
    ensures Drive(rd, p1 + [p] + p2, startVolume, st) == Drive(rd, p1 + p2, startVolume, st)
  {
    DriveSplit(rd, p1 + [p], p2, startVolume, st);
    DriveSplit(rd, p1, p2, startVolume, st);
    assert (p1 + [p])[..|p1|] == p1;
  }

  /** A page of volume "١", or with no volume, has volume 1, below the
      default threshold of 2. */
  lemma VolumeOne(page: Option<int>, text: String)
    ensures VolumeOf(Page(Some("١"), page, text)) == Some(1)
    ensures VolumeOf(Page(None, page, text)) == Some(1)
  {
    assert ToWestern("١") == "1";
    assert Decimal(1) == "1";
    ParseIntOfDecimal(1);
  }

  /** Records numbered one by one carry identifiers whose numbers rise by
      exactly one from record to record, so no two are equal and each is larger
      than every earlier one; `Drive` numbers the records it appends so. */
  lemma IdsIncrease(rs: seq<Record>, from: nat, counter: nat, i: nat, j: nat)
    requires Numbered(rs, from, counter) && from <= i < j < |rs|
    ensures AllDigits(rs[i].narratorId[1..]) && AllDigits(rs[j].narratorId[1..])
    ensures DigitsValue(rs[i].narratorId[1..]) + (j - i) == DigitsValue(rs[j].narratorId[1..])
    ensures rs[i].narratorId != rs[j].narratorId
  {
    var a, b := rs[i].narratorId, rs[j].narratorId;
    assert a == NarratorId(counter + (i - from)) && b == NarratorId(counter + (j - from));
    NarratorIdValue(counter + (i - from));
    NarratorIdValue(counter + (j - from));
  }

  /** What the fields of every record promise: a non-empty name of Arabic
      letters and spaces, non-empty names of teachers and students, and
      approval and criticism judgements quoting a non-empty text. */
  predicate GoodFields(f: Fields) {
    JarhWaTadil.NameShaped(f.fullName)
    && (forall t | t in f.teachers :: JarhWaTadilRelations.RelName(t))
    && (forall t | t in f.students :: JarhWaTadilRelations.RelName(t))
    && (forall j | j in f.taadil :: j.exactText != [])
    && (forall j | j in f.jarh :: j.exactText != [])
  }

  /** A good record: good fields, and a source volume not below the threshold. */
  predicate GoodRecord(r: Record, startVolume: int) {
    GoodFields(Fields(r.fullName, r.taadil, r.jarh, r.unclassified, r.teachers, r.students))
    && r.volume >= startVolume
  }

  /** No approval term is empty. */
  lemma TaadilTermsNonEmpty()
    ensures forall e | e in TaadilTerms :: e.0 != []
  {
  }

  /** No criticism term is empty. */
  lemma JarhTermsNonEmpty()
    ensures forall e | e in JarhTerms :: e.0 != []
  {
  }

  /** The fields `process_entry` builds are good ones. */
  lemma FieldsOfGood(entry: String)
    requires FieldsOf(entry).Some?
    ensures GoodFields(FieldsOf(entry).value)
  {
    var f := FieldsOf(entry).value;
    TaadilTermsNonEmpty();
    JarhTermsNonEmpty();
    JudgementsQuoteSomething(TaadilTerms, JarhTerms, entry);
    forall t | t in f.teachers ensures JarhWaTadilRelations.RelName(t) {
      JarhWaTadilRelations.PatternNamesShape(JarhWaTadilRelations.TeacherPatterns, entry, t);
    }
    forall t | t in f.students ensures JarhWaTadilRelations.RelName(t) {
      JarhWaTadilRelations.PatternNamesShape(JarhWaTadilRelations.StudentPatterns, entry, t);
    }
  }

  lemma {:induction false} EntryRecordsGood(rd: Reader, entries: seq<String>, page: Option<int>, vol: int, counter: nat, startVolume: int)
    requires forall e | rd.fields(e).Some? :: GoodFields(rd.fields(e).value)
    requires vol >= startVolume
    ensures forall r | r in EntryRecords(rd, entries, page, vol, counter).0 :: GoodRecord(r, startVolume)
    decreases |entries|
  {
    if entries != [] {
      EntryRecordsGood(rd, entries[..|entries| - 1], page, vol, counter, startVolume);
    }
  }

  /** Every record of `rs` from position `from` on is good. */
  predicate GoodFrom(rs: seq<Record>, from: nat, startVolume: int) {
    forall k | from <= k < |rs| :: GoodRecord(rs[k], startVolume)
  }

  /** The records one page appends are good, for a reader whose fields are
      good. */
  lemma PageStepGood(rd: Reader, st: State, p: Page, startVolume: int)
    requires forall e | rd.fields(e).Some? :: GoodFields(rd.fields(e).value)
    requires GoodFrom(st.records, 0, startVolume)
    ensures GoodFrom(PageStep(rd, st, p, startVolume).records, 0, startVolume)
  {
    var r := PageStep(rd, st, p, startVolume);
    if !st.failed && rd.volume(p).Some? && rd.volume(p).value >= startVolume {
      var v := rd.volume(p).value;
      var rs := EntryRecords(rd, rd.entries(p.text), p.page, v, st.counter).0;
      EntryRecordsGood(rd, rd.entries(p.text), p.page, v, st.counter, startVolume);
      assert r.records == st.records + rs;
      forall k | 0 <= k < |r.records| ensures GoodRecord(r.records[k], startVolume) {
        if k < |st.records| {
          assert r.records[k] == st.records[k];
        } else {
          assert r.records[k] == rs[k - |st.records|];
        }
      }
    }
  }

  /** A run from good records leaves only good records, for a reader whose
      fields are good. */
  lemma {:induction false} DriveGoodWith(rd: Reader, pages: seq<Page>, startVolume: int, st: State)
    requires forall e | rd.fields(e).Some? :: GoodFields(rd.fields(e).value)
    requires GoodFrom(st.records, 0, startVolume)
    ensures GoodFrom(Drive(rd, pages, startVolume, st).records, 0, startVolume)
    decreases |pages|
  {
    if pages != [] {
      DriveGoodWith(rd, pages[..|pages| - 1], startVolume, st);
      PageStepGood(rd, Drive(rd, pages[..|pages| - 1], startVolume, st), pages[|pages| - 1], startVolume);
    }
  }

  /** Every record `extract_from_json` builds from an empty start has a
      well-formed name, teachers and students, approval and criticism
      judgements that quote something, and a volume not below the threshold. */
  lemma DriveGood(pages: seq<Page>, startVolume: int, counter: nat)
    ensures GoodFrom(Drive(Source, pages, startVolume, State([], counter, false)).records, 0, startVolume)
  {
    forall e | Source.fields(e).Some? ensures GoodFields(Source.fields(e).value) {
      FieldsOfGood(e);
    }
    DriveGoodWith(Source, pages, startVolume, State([], counter, false));
  }
}
