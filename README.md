# Jarh wa ta'dil extraction, modelled in Dafny

The repository turns the text of digitised pages of an Arabic biographical
dictionary of hadith narrators into one record per narrator. It has two
versions of this pipeline, and both are modelled here:

- `NarratorExtractor` (jarh_tadil_extractor.py) works on one page at a time.
  It normalises Arabic-Indic digits and cuts the page into blocks at the
  `digits - ` entry markers. From each block it builds a record: the entry
  number as identifier, a short name, the praise (ta'dil) and criticism
  (jarh) keywords the block contains, and the teachers and students it names.
- `JarhWaTadilExtractor` (jarh_tadeel_extract.py) is an object with a counter
  and a list of records. It skips every page of a volume below a threshold
  and splits each remaining page into entries. For each entry whose first
  line holds a lineage name (`X بن Y ...`), it builds a record that carries:
  - the attributed judgements (`قال X: phrase`), classified against two
    lexicons;
  - the standalone lexicon terms found anywhere in the entry;
  - sets of teachers and students;
  - an identifier `N00001`, `N00002`, ... drawn from the counter.

Every regular expression is written as a scanner over `seq<char>` whose
matches are those of Python's `re`. This includes the backtracking that
decides where a lazy or greedy group ends. Character classes (`\s`, `\d`,
`[أ-ي]`, `[٠-٩0-9]`) are predicates in `Text`. The lexicons and pattern lists
are ordered sequences. Each loop of the source is a method whose postcondition
ties it to a specification function. The properties the code promises are
lemmas about those functions.

Modules, by file:

| file | module | models |
|---|---|---|
| text.dfy | `Text` | Python's `str.isspace`, `strip`, `split`, `' '.join`, `zfill`, `int()`, `in`, `re.finditer`, and `re.sub` with an empty replacement |
| numerals.dfy | `Numerals` | the Arabic-Indic to ASCII digit translation shared by both files |
| narrator_extractor.dfy | `NarratorExtractor` | jarh_tadil_extractor.py |
| jarh_wa_tadil.dfy | `JarhWaTadil` | `remove_footnotes`, `segment_entries`, `extract_name` |
| jarh_wa_tadil_relations.dfy | `JarhWaTadilRelations` | `extract_teachers_students` |
| jarh_wa_tadil_judgements.dfy | `JarhWaTadilJudgements` | the two lexicons and `extract_judgements` |
| jarh_wa_tadil_records.dfy | `JarhWaTadilRecords` | `process_entry`, `extract_from_json`, the `counter` and `records` state |

The pattern lists and lexicons of the source are constants of the model:
`NarratorExtractor.TaadilKeywords` and `JarhKeywords`
(jarh_tadil_extractor.py:8-21), `StopPatterns` (125-142), `TeacherPatterns`
(181-186) and `StudentPatterns` (220-224); `JarhWaTadilRelations.TeacherPatterns`
and `StudentPatterns` (jarh_tadeel_extract.py:107-115); and
`JarhWaTadilJudgements.TaadilTerms` and `JarhTerms` (jarh_tadeel_extract.py:32-69),
the two dictionaries as ordered lists of (term, label) pairs.

Where the code departs from what its names and comments suggest, the model
follows the code:

- Footnote removal is not idempotent: see `JarhWaTadil.RemoveFootnotesTwice`.
- `segment_entries` also cuts inside a multi-digit entry number (see
  `JarhWaTadil.CutInsideNumber`), so the entry "12 - ..." comes out as "2 - ...".
- In jarh_tadil_extractor.py the lookahead of the teacher and student
  patterns stops at any `و`. The split on `\s+و\s+` therefore never divides a
  group (see `NarratorExtractor.GroupsGiveOneCandidateEach`).
- jarh_tadil_extractor.py emits a record even when the name is empty.
- jarh_tadeel_extract.py applies no length or metadata filter to teachers and
  students.
- A stripped attributed phrase may be shorter than two characters.

## Model

| member | source | states |
|---|---|---|
| Text.Scan | jarh_tadil_extractor.py:68 | the matches `re.finditer` reports lie inside the text, are non-empty, and are in order without overlap |
| Text.ScanMatches | jarh_tadil_extractor.py:68 | every reported match starts where the pattern matches and ends where that match ends |
| Text.ScanLeftmost | jarh_tadil_extractor.py:68 | no match starts in a gap between reported matches: the scan skips none |
| Text.RemoveMatchesSubseq | jarh_tadeel_extract.py:78-79 | `re.sub` with an empty replacement returns a subsequence of its input |
| Text.RemoveMatches | jarh_tadeel_extract.py:78-79 | defines `re.sub(pattern, '', s)`: scanning from the left, each match of the pattern is deleted and the scan resumes after it |
| Text.Dedup | jarh_tadil_extractor.py:173-174 | `list(dict.fromkeys(xs))`: no repeats, the same elements, a subsequence of `xs`, `xs` itself when it has no repeats, and an element placed before another appears in `xs` before every occurrence of the other |
| Text.Strip | jarh_tadeel_extract.py:88 | defines `str.strip()`: the text without its leading and trailing whitespace |
| Text.Words | jarh_tadil_extractor.py:153 | defines `str.split()`: the maximal runs of non-whitespace, in order |
| Text.Join | jarh_tadil_extractor.py:154 | defines `' '.join(ws)` |
| Text.ZeroFill | jarh_tadil_extractor.py:97 | `str.zfill(width)` on a digit string: left-padded with zeros to at least `width` characters |
| Text.ParseInt | jarh_tadil_extractor.py:104-105 | `int()` succeeds only on text that is not blank |
| Text.ParseIntOfDecimal | jarh_tadil_extractor.py:104-105 | `int()` reads back the decimal writing of every natural number |
| Text.ZeroFillDecimalValue | jarh_tadil_extractor.py:97 | padding a decimal number with zeros keeps it all digits and keeps its value |
| Numerals.ToWestern | jarh_tadil_extractor.py:24-28 | each Arabic-Indic digit becomes the ASCII digit of the same value; every other character is unchanged; the length is kept |
| Numerals.DigitTable | jarh_tadil_extractor.py:24 | the ten digits ٠ to ٩ translate to "0123456789" |
| Numerals.NoIndicDigitsAfter | jarh_tadeel_extract.py:74-75 | the translated text holds no Arabic-Indic digit |
| Numerals.WesternFixedPoint | jarh_tadeel_extract.py:74-75 | text without Arabic-Indic digits (ASCII digits in particular) is left unchanged |
| Numerals.ToWesternIdempotent | jarh_tadeel_extract.py:74-75 | translating twice is translating once |
| Numerals.ToWesternSlice | jarh_tadil_extractor.py:80-81 | translation commutes with slicing, so a block of the translated page is the translation of the same block of the original page |
| NarratorExtractor.MarkerEnd | jarh_tadil_extractor.py:66 | a marker match runs past at least one digit and ends inside the text |
| NarratorExtractor.MarkerNumber | jarh_tadil_extractor.py:66-71 | group 1 of a marker match is a non-empty run of digits written where the match starts |
| NarratorExtractor.EntryNumber | jarh_tadil_extractor.py:68-71 | every match found on the page has a non-empty digit number written at its start |
| NarratorExtractor.Blocks | jarh_tadil_extractor.py:70-81 | there is one block per marker |
| NarratorExtractor.BlocksTileFrom | jarh_tadil_extractor.py:70-80 | the blocks from the k-th on, joined, are the page from the k-th marker to the end |
| NarratorExtractor.BlocksTile | jarh_tadil_extractor.py:70-80 | the markers are ordered and disjoint; the blocks, in order, tile the page from the first marker to its end |
| NarratorExtractor.StripNumberPrefix | jarh_tadil_extractor.py:116 | the result is a suffix of the text (only a prefix is cut off) |
| NarratorExtractor.CleanHead | jarh_tadil_extractor.py:115-122 | defines the cleaned text of `_extract_name`: the number prefix, then lazily bracketed notes, then footnote markers removed |
| NarratorExtractor.MatchEnd | jarh_tadil_extractor.py:125-142 | a stop-pattern match ends inside the text, not before its start |
| NarratorExtractor.Search | jarh_tadil_extractor.py:146 | the result is the leftmost position where the pattern matches: it matches there and at no earlier position |
| NarratorExtractor.MinStop | jarh_tadil_extractor.py:144-148 | no stop pattern matches before the result; when the result is below the start value, some pattern matches there |
| NarratorExtractor.EarliestMatch | jarh_tadil_extractor.py:144-148 | the loop over the stop patterns computes `MinStop` of the whole text |
| NarratorExtractor.NameFrom | jarh_tadil_extractor.py:150-161 | defines the name from the cleaned text and the stop position: the stripped text before the stop, or the first five words without one; trailing `,،;؛:.` trimmed; cut to six words |
| NarratorExtractor.NameWith | jarh_tadil_extractor.py:113-163 | defines `_extract_name` for given stop patterns: `NameFrom` of the cleaned text at `MinStop` |
| NarratorExtractor.ExtractNameWith | jarh_tadil_extractor.py:113-163 | the steps of `_extract_name` compute `NameWith`, a name of at most six words |
| NarratorExtractor.ExtractName | jarh_tadil_extractor.py:113-163 | `_extract_name` with the source's sixteen stop patterns: at most six words |
| NarratorExtractor.CapWordsWords | jarh_tadil_extractor.py:158-161 | capping keeps exactly the first six words |
| NarratorExtractor.NameAtMostSixWords | jarh_tadil_extractor.py:156-161 | every name has at most six words |
| NarratorExtractor.FallbackAtMostFiveWords | jarh_tadil_extractor.py:150-154 | without a stop phrase, the name has at most five words |
| NarratorExtractor.NameFromBeforeStop | jarh_tadil_extractor.py:150-161 | a name cut at position m consists of the first six words of a slice that ends at or before m, and is that slice when it has at most six words |
| NarratorExtractor.NameBeforeStop | jarh_tadil_extractor.py:144-161 | with a stop phrase, the name comes from text before the earliest stop match, never from that position onward |
| NarratorExtractor.Found | jarh_tadil_extractor.py:169-171 | exactly the keywords the text contains, in lexicon order |
| NarratorExtractor.ExtractKeywords | jarh_tadil_extractor.py:165-174 | the result has no duplicates; it holds exactly the keywords the text contains, in lexicon order (`dict.fromkeys` deduplication) |
| NarratorExtractor.TaadilKeywordsDistinct | jarh_tadil_extractor.py:8-13 | the praise lexicon repeats no keyword |
| NarratorExtractor.JarhKeywordsDistinct | jarh_tadil_extractor.py:16-21 | the criticism lexicon repeats no keyword |
| NarratorExtractor.KeywordsInLexiconOrder | jarh_tadil_extractor.py:165-174 | for a lexicon without repeats, deduplication changes nothing |
| NarratorExtractor.NestedKeywords | jarh_tadil_extractor.py:169-171 | a keyword inside another contained keyword is reported too |
| NarratorExtractor.MunkarAlHadithBringsMunkar | jarh_tadil_extractor.py:17-19 | "منكر الحديث" in the text reports both it and "منكر" |
| NarratorExtractor.FirstBoundary | jarh_tadil_extractor.py:182 | the first position where the lookahead of a relation pattern holds, and none before it |
| NarratorExtractor.GroupFrom | jarh_tadil_extractor.py:182-185 | the lazy group is non-empty, ends where the lookahead holds, and the lookahead holds nowhere inside it |
| NarratorExtractor.RelMatchAt | jarh_tadil_extractor.py:182-185 | a match found at p has its group after p, with no lookahead position inside the group |
| NarratorExtractor.RelGroups | jarh_tadil_extractor.py:189 | every group found is non-empty and has no `و` after its first character |
| NarratorExtractor.WaSeparatorAt | jarh_tadil_extractor.py:192 | a separator match is non-empty |
| NarratorExtractor.SplitWaFrom | jarh_tadil_extractor.py:192 | `re.split` yields at least one piece |
| NarratorExtractor.SplitWaWhole | jarh_tadil_extractor.py:192 | a string with no `و` after its first character is one piece |
| NarratorExtractor.GroupsGiveOneCandidateEach | jarh_tadil_extractor.py:189-195 | for groups found by the patterns, each group gives exactly one candidate: its clean-up |
| NarratorExtractor.CleanName | jarh_tadil_extractor.py:195-203 | defines the clean-up of one piece: strip, notes and markers removed, strip, then a leading `عن ` (teachers) or `عنه ` and then `عنها ` (students, jarh_tadil_extractor.py:235-243) dropped |
| NarratorExtractor.Acceptable | jarh_tadil_extractor.py:206-209 | defines the filter: longer than two characters and free of `بياض`, `احاديث` and `حديث` |
| NarratorExtractor.RelationsWith | jarh_tadil_extractor.py:188-213 | defines the teachers or students of a text: `Collect` of the cleaned pieces of every group of every pattern |
| NarratorExtractor.PatternGivesCleanedGroups | jarh_tadil_extractor.py:188-195 | the candidates of one pattern are the cleaned groups of its matches, in order |
| NarratorExtractor.Collect | jarh_tadil_extractor.py:205-211 | the kept names have no duplicates; they are exactly the acceptable candidates (longer than two characters, free of بياض, احاديث and حديث) |
| NarratorExtractor.CollectPieces | jarh_tadil_extractor.py:194-211 | the loop over the pieces of one group extends `Collect` by those pieces |
| NarratorExtractor.CollectGroups | jarh_tadil_extractor.py:190-211 | the loop over the groups of one pattern extends `Collect` by their pieces |
| NarratorExtractor.CollectRelations | jarh_tadil_extractor.py:188-213 | the nested loops compute `RelationsWith`: acceptable names, each once |
| NarratorExtractor.ExtractTeachers | jarh_tadil_extractor.py:176-213 | teachers with a leading `عن ` removed; each has length above 2, holds no metadata word, and appears once |
| NarratorExtractor.ExtractStudents | jarh_tadil_extractor.py:215-253 | students with a leading `عنه ` and then `عنها ` removed; each has length above 2, holds no metadata word, and appears once |
| NarratorExtractor.BuildEntry | jarh_tadil_extractor.py:71-109 | the loop body builds the record `EntryWith` of the k-th marker |
| NarratorExtractor.EntryWith | jarh_tadil_extractor.py:71-107 | defines the record of the k-th marker: padded number, stripped name of the converted block, keywords and relations of the original block, volume and page |
| NarratorExtractor.SourceNumber | jarh_tadil_extractor.py:104-105 | defines `int(v) if v else 0`: 0 for the empty string, `None` where `int` raises |
| NarratorExtractor.NarratorId | jarh_tadil_extractor.py:97 | defines `f"N{number.zfill(5)}"` |
| NarratorExtractor.EntryAt | jarh_tadil_extractor.py:70-109 | the record builder is defined for every marker of the page |
| NarratorExtractor.PageEntries | jarh_tadil_extractor.py:70-109 | there is one record per marker |
| NarratorExtractor.PageEntriesAt | jarh_tadil_extractor.py:70-109 | the k-th record is the one built for the k-th marker, so records follow page order |
| NarratorExtractor.EntriesOf | jarh_tadil_extractor.py:70-109 | the loop over the markers computes `PageEntries` |
| NarratorExtractor.ExtractEntriesWith | jarh_tadil_extractor.py:58-111 | `None` (the `ValueError`) exactly when there is a marker and the volume or page is neither empty nor an integer; otherwise one record per marker, in order |
| NarratorExtractor.ExtractNarratorEntries | jarh_tadil_extractor.py:58-111 | the same, with the source's lexicons, stop patterns and relation patterns |
| NarratorExtractor.NarratorIdValue | jarh_tadil_extractor.py:97 | the identifier is `N` followed by at least five digits whose value is the entry number |
| NarratorExtractor.EntryFacts | jarh_tadil_extractor.py:83-102 | every record has a name of at most six words; its keywords are distinct lexicon terms found in its own block; its teachers and students are acceptable and distinct |
| JarhWaTadil.ParenNoteAt | jarh_tadeel_extract.py:78 | a footnote match spans from `(` to `)` and is at least three characters long |
| JarhWaTadil.BracketNoteAt | jarh_tadeel_extract.py:79 | a bracket match spans from `[` to `]` and is at least three characters long |
| JarhWaTadil.RemoveFootnotes | jarh_tadeel_extract.py:77-80 | defines `remove_footnotes`: the parenthesised-number pass, then the bracket pass |
| JarhWaTadil.ParenNoteDeleted | jarh_tadeel_extract.py:78 | every parenthesised footnote number is deleted: after text without `(`, a note is removed and the pass carries on after it |
| JarhWaTadil.RemoveFootnotesSubseq | jarh_tadeel_extract.py:77-80 | the output is a subsequence of the input and no longer than it |
| JarhWaTadil.NoBracketNoteLeft | jarh_tadeel_extract.py:79 | after the bracket pass, the bracket pattern matches nowhere |
| JarhWaTadil.NoBracketNoteAfter | jarh_tadeel_extract.py:77-80 | no bracketed note is left in the output of `remove_footnotes` |
| JarhWaTadil.RemoveNothing | jarh_tadeel_extract.py:78-79 | a pass that matches nowhere leaves the text unchanged |
| JarhWaTadil.ParenPassKeeps | jarh_tadeel_extract.py:78 | the footnote pass keeps "(1[x])" |
| JarhWaTadil.BracketPassUncovers | jarh_tadeel_extract.py:79 | the bracket pass turns "(1[x])" into "(1)" |
| JarhWaTadil.ParenPassDeletes | jarh_tadeel_extract.py:78 | the footnote pass deletes "(1)" |
| JarhWaTadil.RemoveFootnotesTwice | jarh_tadeel_extract.py:77-80 | removal is not idempotent: "(1[x])" gives "(1)", and applying it again gives "" |
| JarhWaTadil.SplitBefore | jarh_tadeel_extract.py:87 | the split yields at least one part |
| JarhWaTadil.SplitBeforeTiles | jarh_tadeel_extract.py:87 | the parts, joined, are the text: nothing is lost, repeated or reordered |
| JarhWaTadil.SplitBeforeKeeps | jarh_tadeel_extract.py:86-87 | no part holds a character class that the text lacks |
| JarhWaTadil.StripKeepsMarker | jarh_tadeel_extract.py:88 | stripping a part that starts with a marker keeps the marker at its start |
| JarhWaTadil.KeepEntries | jarh_tadeel_extract.py:88 | defines the list comprehension: the stripped parts that `keep` accepts, in order |
| JarhWaTadil.KeptIndicesExact | jarh_tadeel_extract.py:88 | the accepted positions are in range, strictly increasing, and exactly the positions of the parts that `keep` accepts |
| JarhWaTadil.KeepEntriesAt | jarh_tadeel_extract.py:88 | the k-th entry is the strip of the part at the k-th accepted position |
| JarhWaTadil.KeepEntriesShape | jarh_tadeel_extract.py:88 | every kept part becomes a stripped entry that starts with a marker |
| JarhWaTadil.KeepEntriesOrder | jarh_tadeel_extract.py:88 | the entries are exactly the stripped accepted parts, in the parts' order: one entry per accepted part, the k-th from the k-th accepted part |
| JarhWaTadil.SegmentEntries | jarh_tadeel_extract.py:85-88 | defines `segment_entries`: digits converted, the text split before every lookahead position, the parts that start with a marker kept and stripped |
| JarhWaTadil.SegmentEntriesShape | jarh_tadeel_extract.py:85-88 | every entry is stripped, begins with digits, optional spaces and `-`, and holds no Arabic-Indic digit |
| JarhWaTadil.CutInsideNumber | jarh_tadeel_extract.py:87-88 | the lookahead holds at each digit of a multi-digit number; the one-digit part cut off before the last digit is no entry |
| JarhWaTadil.FirstLine | jarh_tadeel_extract.py:94 | the first line is a prefix of the entry without a newline, and a newline follows it when it is shorter than the entry |
| JarhWaTadil.ConnectiveEnd | jarh_tadeel_extract.py:96 | the connective match lies within the text |
| JarhWaTadil.ConnectiveLetters | jarh_tadeel_extract.py:96 | a connective read is `بن` or `ابن`, made of letters |
| JarhWaTadil.LinkEnd | jarh_tadeel_extract.py:96 | a link match is non-empty |
| JarhWaTadil.LinkEndShape | jarh_tadeel_extract.py:96 | a link consists of letters and spaces and ends with a letter |
| JarhWaTadil.LinksEnd | jarh_tadeel_extract.py:96 | the bounded repetition reads within the text, and at least one link when one is there |
| JarhWaTadil.LinksEndShape | jarh_tadeel_extract.py:96 | the links read consist of letters and spaces and end with a letter |
| JarhWaTadil.HeadEnd | jarh_tadeel_extract.py:96 | the number-and-dash head is non-empty |
| JarhWaTadil.LineageEnd | jarh_tadeel_extract.py:96 | a lineage is non-empty |
| JarhWaTadil.LineageShaped | jarh_tadeel_extract.py:96 | a lineage is non-empty, consists of Arabic letters and spaces, and begins and ends with a letter |
| JarhWaTadil.NameInShaped | jarh_tadeel_extract.py:95-98 | the captured group is shaped as a name |
| JarhWaTadil.NameIn | jarh_tadeel_extract.py:95-98 | defines the `re.match` of the name pattern on a header: group 1, or `None` |
| JarhWaTadil.ExtractName | jarh_tadeel_extract.py:93-99 | a name found is non-empty, consists of Arabic letters and spaces, and begins and ends with a letter |
| JarhWaTadil.ShapedIsStripped | jarh_tadeel_extract.py:99 | the final `.strip()` does not change a captured name |
| JarhWaTadil.FirstLineOnly | jarh_tadeel_extract.py:94 | whatever follows the first newline has no effect on the name |
| JarhWaTadil.LinkEndOf | jarh_tadeel_extract.py:96 | a well-formed link written in the text, followed by no letter, is read whole |
| JarhWaTadil.LineageEndOf | jarh_tadeel_extract.py:96 | a word and a chain of well-formed links written at a position are read back, cut after the cap |
| JarhWaTadil.HeadEndOf | jarh_tadeel_extract.py:96 | a written number, spaces, `-`, spaces head is read whole |
| JarhWaTadil.NameWithinOf | jarh_tadeel_extract.py:95-98 | a heading written from its parts gives back its first word and links, cut after the cap |
| JarhWaTadil.NameInOf | jarh_tadeel_extract.py:95-99 | a written heading `n - word بن x ...` is read back as the name, cut after its sixth link |
| JarhWaTadil.LinkReadOf | jarh_tadeel_extract.py:96 | a link that is read is a well-formed link written where it was read |
| JarhWaTadil.LinksReadOf | jarh_tadeel_extract.py:96 | the links read are well-formed, at most the cap, none exactly when none is read, and they spell the text read |
| JarhWaTadil.HeadRead | jarh_tadeel_extract.py:96 | the head that is read is a non-empty number, optional spaces, a dash and optional spaces |
| JarhWaTadil.NameInSound | jarh_tadeel_extract.py:95-98 | a captured name was written at the start of the header as a numbered head, a first word and one to six well-formed links |
| JarhWaTadil.ExtractNameSound | jarh_tadeel_extract.py:93-99 | `extract_name` returns a name only when the first line, with its footnotes removed, begins with a numbered head, a first word and one to six links, and the name is that word and those links |
| JarhWaTadil.NoNotesToRemove | jarh_tadeel_extract.py:77-80 | text without `(` and `[` has no footnote to remove |
| JarhWaTadil.ExtractNameOf | jarh_tadeel_extract.py:93-99 | an entry whose first line is written as a heading, without footnote brackets, gives back its name, cut after the sixth link, whatever the later lines hold |
| JarhWaTadilRelations.TailEnd | jarh_tadeel_extract.py:108 | a `(?:بن\s+[أ-ي]+)+` match is longer than its `بن` |
| JarhWaTadilRelations.TailShape | jarh_tadeel_extract.py:108 | a tail holds only group characters and ends with a letter that no letter follows |
| JarhWaTadilRelations.TailFrom | jarh_tadeel_extract.py:108 | backtracking finds the last start where a tail matches, and there is none between it and the greedy end |
| JarhWaTadilRelations.GroupAfter | jarh_tadeel_extract.py:108 | the group lies after the `\s+` and inside the text |
| JarhWaTadilRelations.GroupShape | jarh_tadeel_extract.py:108 | a group is a non-empty run of `[أ-ي\sو,]` that ends with a letter |
| JarhWaTadilRelations.MatchAt | jarh_tadeel_extract.py:107-115 | the group of a match at p lies after p |
| JarhWaTadilRelations.OptionalGroup | jarh_tadeel_extract.py:109 | when the optional `\s+من` is taken, the group lies after it |
| JarhWaTadilRelations.OptionalGroupShape | jarh_tadeel_extract.py:109 | that group is shaped as a group |
| JarhWaTadilRelations.MatchShape | jarh_tadeel_extract.py:107-115 | the group of every match is shaped as a group |
| JarhWaTadilRelations.Groups | jarh_tadeel_extract.py:123 | every group found by `finditer` is shaped and occurs in the text |
| JarhWaTadilRelations.TokensOccur | jarh_tadeel_extract.py:119 | every piece of the split occurs in the text |
| JarhWaTadilRelations.KeptShape | jarh_tadeel_extract.py:120 | every kept piece is non-empty, stripped, free of `و` and commas, and occurs in the text |
| JarhWaTadilRelations.SplitNames | jarh_tadeel_extract.py:117-120 | defines `split_names`: the pieces between runs of `و` and commas, stripped, the empty ones left out |
| JarhWaTadilRelations.SplitNamesShape | jarh_tadeel_extract.py:117-120 | every name `split_names` returns is non-empty, stripped, free of separators, and occurs in the group |
| JarhWaTadilRelations.GroupNamesMembers | jarh_tadeel_extract.py:123-125 | a name is gathered exactly when it is a name of one of the groups (both directions) |
| JarhWaTadilRelations.PatternNamesMembers | jarh_tadeel_extract.py:122-130 | a name is gathered exactly when it is a name of a group of one of the patterns (both directions) |
| JarhWaTadilRelations.PatternNamesShape | jarh_tadeel_extract.py:122-130 | every gathered name is non-empty, stripped, free of separators, and occurs in the entry |
| JarhWaTadilRelations.PatternNames | jarh_tadeel_extract.py:122-130 | defines the set a pattern list gathers: the names of the groups of every match of every pattern |
| JarhWaTadilRelations.AddNames | jarh_tadeel_extract.py:124-125 | the innermost loop adds the names of one group to the set |
| JarhWaTadilRelations.AddGroups | jarh_tadeel_extract.py:123-125 | the loop over the matches adds the names of every group |
| JarhWaTadilRelations.CollectNames | jarh_tadeel_extract.py:122-125 | the loops over the patterns compute `PatternNames` |
| JarhWaTadilRelations.ExtractTeachersStudents | jarh_tadeel_extract.py:104-132 | the teachers and students are the names of the teacher and student patterns |
| JarhWaTadilJudgements.Matching | jarh_tadeel_extract.py:148-149 | the entries of a lexicon whose term the text contains: exactly those, in lexicon order |
| JarhWaTadilJudgements.SaidEnd | jarh_tadeel_extract.py:140 | a `قال` or `وقال` match is non-empty |
| JarhWaTadilJudgements.EvaluatorAfter | jarh_tadeel_extract.py:140 | the lazy evaluator group is letters and spaces and is followed by a colon |
| JarhWaTadilJudgements.PhraseEnd | jarh_tadeel_extract.py:140 | the phrase group has 2 to 200 characters, none of them `.`, `،` or a newline |
| JarhWaTadilJudgements.PhraseFrom | jarh_tadeel_extract.py:140 | with `\s*` giving back spaces, the phrase keeps those bounds and that alphabet |
| JarhWaTadilJudgements.SaidAt | jarh_tadeel_extract.py:140 | a match has an evaluator of letters and spaces and a phrase of 2 to 200 characters; the phrase occurs in the text |
| JarhWaTadilJudgements.SaidFrom | jarh_tadeel_extract.py:142 | every match `finditer` yields is so shaped |
| JarhWaTadilJudgements.Classify | jarh_tadeel_extract.py:143-170 | a phrase yields one judgement per contained approval or criticism term, or else exactly one unclassified entry, never both |
| JarhWaTadilJudgements.AppendAttributed | jarh_tadeel_extract.py:148-164 | the loop over one lexicon appends one credited judgement per contained term and sets `classified` exactly when it appends |
| JarhWaTadilJudgements.AppendStandalone | jarh_tadeel_extract.py:173-187 | the loop over one lexicon appends one uncredited judgement per term the entry contains |
| JarhWaTadilJudgements.ClassifyMatch | jarh_tadeel_extract.py:143-170 | the body of the loop over the matches adds that match's contribution |
| JarhWaTadilJudgements.ClassifyMatches | jarh_tadeel_extract.py:142-170 | the loop over the matches computes `ClassifyAll` |
| JarhWaTadilJudgements.ExtractJudgementsWith | jarh_tadeel_extract.py:137-189 | the method computes `JudgementsWith`: the attributed judgements, then the standalone ones |
| JarhWaTadilJudgements.ExtractJudgements | jarh_tadeel_extract.py:137-189 | the same, with the source's two lexicons |
| JarhWaTadilJudgements.JudgementsWith | jarh_tadeel_extract.py:137-189 | defines `extract_judgements` for given lexicons: the classified attributed phrases, followed by the standalone terms of the entry |
| JarhWaTadilJudgements.Judgements | jarh_tadeel_extract.py:137-189 | defines `extract_judgements` with the source's two lexicons |
| JarhWaTadilJudgements.ClassifyAllShape | jarh_tadeel_extract.py:142-170 | every attributed judgement carries the label of a term its phrase contains; no lexicon term occurs in an unclassified phrase |
| JarhWaTadilJudgements.StandaloneExact | jarh_tadeel_extract.py:173-187 | the standalone judgements are exactly the contained terms, each quoting its own term and credited to nobody |
| JarhWaTadilJudgements.ListFactsOf | jarh_tadeel_extract.py:172-187 | appending the standalone judgements to credited ones gives a list as `ListFacts` describes |
| JarhWaTadilJudgements.JudgementsFacts | jarh_tadeel_extract.py:137-189 | both lists are credited judgements of contained terms plus exactly the standalone contained terms; unclassified phrases hold no term |
| JarhWaTadilJudgements.JudgementsQuoteSomething | jarh_tadeel_extract.py:150-186 | with non-empty lexicon terms, every judgement quotes a non-empty text |
| JarhWaTadilJudgements.NestedTerms | jarh_tadeel_extract.py:148-149 | a term inside a longer contained term is matched too |
| JarhWaTadilJudgements.ThiqaThabtMatchesThree | jarh_tadeel_extract.py:34-39 | "ثقة ثبت" matches itself, "ثقة" and "ثبت" |
| JarhWaTadilJudgements.WasatInBoth | jarh_tadeel_extract.py:48-54 | an entry containing "وسط" gets a standalone "Average" in both lists |
| JarhWaTadilJudgements.ClassifyHas | jarh_tadeel_extract.py:148-170 | a contained term gives its credited judgement, and the phrase is not unclassified |
| JarhWaTadilJudgements.SaduqYahimWith | jarh_tadeel_extract.py:143-170 | a quoted "صدوق يهم" gives the judgements of "صدوق", "صدوق يهم" and "يهم" |
| JarhWaTadilJudgements.SaduqYahimInBoth | jarh_tadeel_extract.py:40-58 | with the source's lexicons, a quoted "صدوق يهم" is approval and criticism at once |
| JarhWaTadilRecords.NarratorIdValue | jarh_tadeel_extract.py:203 | the identifier is `N` followed by at least five digits whose value is the counter |
| JarhWaTadilRecords.NarratorIdInjective | jarh_tadeel_extract.py:203 | different counters give different identifiers |
| JarhWaTadilRecords.NarratorId | jarh_tadeel_extract.py:203 | defines `f"N{counter:05d}"` |
| JarhWaTadilRecords.VolumeOf | jarh_tadeel_extract.py:221 | defines `int(arabic_to_western(str(page.get("vol", "1"))))`, `None` where `int` raises |
| JarhWaTadilRecords.FieldsOf | jarh_tadeel_extract.py:195-200 | defines what `process_entry` reads from an entry: `None` without a name, otherwise the name, the judgements and the teachers and students |
| JarhWaTadilRecords.RecordFor | jarh_tadeel_extract.py:194-214 | defines the record `process_entry` returns with the counter at a given value: `None` without fields, otherwise the fields numbered by the counter |
| JarhWaTadilRecords.ReadEntry | jarh_tadeel_extract.py:195-200 | the calls of `process_entry` compute `FieldsOf`: `None` without a name |
| JarhWaTadilRecords.EntryRecords | jarh_tadeel_extract.py:228-231 | the counter rises by the number of records; the k-th record of a page is numbered from the counter plus k |
| JarhWaTadilRecords.EntryRecordsNext | jarh_tadeel_extract.py:228-231 | one more entry appends its record, if any, and the counter rises by one exactly then |
| JarhWaTadilRecords.PageStep | jarh_tadeel_extract.py:220-231 | one page only appends records, numbered on from the counter; after a failure nothing changes |
| JarhWaTadilRecords.Drive | jarh_tadeel_extract.py:219-233 | the pages only append records, numbered on from the counter; after a failure nothing changes |
| JarhWaTadilRecords.Extractor.constructor | jarh_tadeel_extract.py:27-29 | a new extractor has no records and the counter at 1 |
| JarhWaTadilRecords.Extractor.ProcessEntry | jarh_tadeel_extract.py:194-214 | without a name, no record and the counter stays; otherwise the record numbered by the counter, which rises by exactly 1 |
| JarhWaTadilRecords.Extractor.ProcessNext | jarh_tadeel_extract.py:228-231 | one iteration of the entry loop keeps the records and counter equal to `EntryRecords` of the entries so far |
| JarhWaTadilRecords.Extractor.ProcessEntries | jarh_tadeel_extract.py:228-231 | the records of a page's entries are appended and the counter advanced as `EntryRecords` says |
| JarhWaTadilRecords.Extractor.ExtractFromJson | jarh_tadeel_extract.py:219-233 | the new records and counter are those of `Drive` from the old state; the result is the record list, or `None` when a volume is not an integer |
| JarhWaTadilRecords.DriveSplit | jarh_tadeel_extract.py:220 | running over `p1 + p2` is running over `p1`, then over `p2` |
| JarhWaTadilRecords.DriveStaysFailed | jarh_tadeel_extract.py:221 | once `int` has raised, the later pages change nothing |
| JarhWaTadilRecords.SkipsLowVolume | jarh_tadeel_extract.py:223-224 | a page whose volume is below the threshold can be removed without changing the result |
| JarhWaTadilRecords.VolumeOne | jarh_tadeel_extract.py:221 | a page of volume "١", or with no volume, has volume 1 |
| JarhWaTadilRecords.IdsIncrease | jarh_tadeel_extract.py:203-213 | in records numbered one by one, the identifier numbers rise by exactly the distance between positions, so identifiers are strictly increasing and distinct |
| JarhWaTadilRecords.FieldsOfGood | jarh_tadeel_extract.py:195-211 | the fields built for an entry are good: a shaped name, non-empty quoted texts, and shaped teachers and students |
| JarhWaTadilRecords.EntryRecordsGood | jarh_tadeel_extract.py:228-231 | all records of a retained page are good |
| JarhWaTadilRecords.PageStepGood | jarh_tadeel_extract.py:220-231 | one page keeps all records good |
| JarhWaTadilRecords.DriveGoodWith | jarh_tadeel_extract.py:219-233 | a run that starts from good records leaves only good records |
| JarhWaTadilRecords.DriveGood | jarh_tadeel_extract.py:194-233 | every record `extract_from_json` builds from an empty start is good: non-empty name, volume at least the threshold, teachers and students non-empty and stripped, non-empty quoted texts |

## Left out

- File and JSON input and output: `extract_narrators` (reading the file and
  walking the nested lists and dicts), `save_to_json`, `save`, both `main`
  functions and all printing. Pages are given as values instead.
- The JSON container shape. jarh_tadil_extractor.py's text, volume and page
  are strings (`''` when missing). In jarh_tadeel_extract.py a page is a
  `Page` value: `vol` is `str` of the volume (`None` when the key is missing,
  read as "1"), and `page` is passed through as an optional integer.
- `int()`: strip, an optional sign, then decimal digits of the modelled
  scripts. Underscores between digits are not modelled. A `ValueError` is a
  `None` result, and the records and counter built before it persist.
- `\d` covers ASCII, Arabic-Indic and Extended Arabic-Indic digits only.
  Python's `\d` accepts every Unicode decimal digit.
- The order of `list(set(...))` for teachers and students in
  jarh_tadeel_extract.py is hash order. The model keeps them as sets.
- The dataclass and `asdict`: a record is a datatype value.
- Duplicate dictionary keys in the lexicons are flattened. Each key keeps its
  first position and its last value: taadil "صالح الحديث"; jarh "ضعيف" and
  "ليس بالقوي".
- `NarratorExtractor.ExtractEntriesWith` parses volume and page once, before
  the loop over the markers, where the source parses them for every record.
  The outcome is the same: the parse is identical each time and happens only
  when there is a marker.
- `JarhWaTadilRecords.DriveGood`: states goodness from an empty start, not
  from an arbitrary object state (`DriveGoodWith` covers starts with good
  records).
