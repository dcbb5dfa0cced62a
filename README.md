# Internal citations of a regulation, modelled in Dafny

This project models the internal-citation extractor of the regulations
parser. That component finds a regulation's references to itself and turns
each one into labelled records, as in these phrases:
- "paragraph (a)(4)(iii)";
- "1005.10(a) and (d)" after a single `§`;
- "1005.6(b)(3) and 1005.11(b)(1)(i)" after a double `§§`;
- "paragraphs (c)(1) and (2)".

It has two parts.

- **The grammar** (`grammar.dfy`, module `Grammar`). It is a recursive-descent
  recogniser over `seq<char>` that does what the combinator grammar does:
  - **Markers.** A marker is `(` word `)`. The word's character class fixes
    the marker's depth:
    - depth 1 is lowercase letters;
    - depth 2 is digits;
    - depth 3 is letters from `ivxlcdm`;
    - depth 4 is uppercase letters.
  - **Chains.** A chain is a run of markers of consecutive depths.
  - **Connectors.** `,`, `and` or `or`, optionally followed by `and`.
  - **Sections.** `digits.digits`, optionally followed by a chain led at
    depth 1 and a tail of further chains.
  - **Phrases.** The four top-level shapes: `§§`, `§`, `paragraph` and
    `paragraphs`.
  - **The scanner.** It tries a phrase at each position, resumes at a
    match's end, and otherwise moves on one character.
  - **Results.** Every rule returns what it recognised and the position
    where it stopped. The chains and sections it builds carry their
    `(start, end)` span.
  - **Whitespace.** As in the combinator library, every token first skips
    blanks. An optional part that is absent still consumes the blanks in
    front of it. A repetition stops after its last complete item.
- **The walker** (`internal_citations.dfy`, module `InternalCitations`, with
  label handling in `labels.dfy` / `Labels` and span trimming in `spans.dfy` /
  `Spans`). It is imperative:
  - `Parse` loops over the scanned matches and dispatches on the phrase
    shape.
  - `ParagraphList` expands a head chain and its tail items into records.
    It keeps a six-slot running label `[part, section, l1, l2, l3, l4]`
    and splices each tail item into it.
  - `StripWhitespace` rewrites, in place, every offset of every record in
    an `array<Citation>`.

  Each method is proved equal to a specification function:
  - `ParagraphRecords` for `ParagraphList`;
  - `MatchRecords` / `Records` for the dispatch;
  - `StripOffsets` / `StripAll` for the trimming;
  - `Extract` for `Parse`.

  The lemmas state what those functions guarantee.

An absent level is the empty string. The emitted label keeps only the
present slots (`Present`), which is what filtering the running label for
truthy entries does. The blanks are space, tab, newline and carriage return:
exactly the set skipped before each token. Span trimming strips the same set
here; see "Left out" for the wider set Python's `strip` uses.

Each rule has two kinds of contract:
- **Soundness.** What a rule returns is well formed and lies where the rule
  read it.
- **Completeness.** `...Complete` lemmas show that text spelling a marker, a
  chain, a connector and item, a section number, or one of the four phrases
  is read as exactly that value, ending at a stated position. The markers
  must be written without blanks inside or between them, and a chain that
  stops above depth 4 must have no `(` after the blanks that follow it.

The scanner is a leftmost-first search. `ScanSearches` and `ScanMatchAt`
show two things. Every match it records is exactly what the grammar reads at
the match's start. No non-blank position it passes, before, between or
after the matches, holds a phrase. The step lemmas (`ScanSkips`,
`ScanFinds`, `ScanAtEnd`) show that stretches where no phrase opens are
passed over, and that a phrase is recorded with its span.

`citation_examples.dfy` (module `CitationExamples`) chains these lemmas into
whole extractions of five sample sentences from the test file.

## Model

| member | source | states |
|---|---|---|
| Grammar.SkipWs | grammar/internal_citations.py:20-23 | The blanks skipped before a token: the result is at or past the position, inside the text, and on a non-blank or at the end. |
| Grammar.SkipWsBlanks | grammar/internal_citations.py:20-23 | Everything skipped before a token is blank. |
| Grammar.Literal | grammar/internal_citations.py:21-23 | A suppressed literal matches exactly when, after the blanks, the text spells it; on a match it stops just after it. |
| Grammar.Word | grammar/internal_citations.py:22 | A word matches when, after the blanks, a character of the class follows. It is then the longest such run: all of the class, followed by the end or a character outside it. |
| Grammar.RunEndAllIn | grammar/internal_citations.py:22 | Every character of a word's run belongs to the word's class. |
| Grammar.Marker | grammar/internal_citations.py:20-35 | A marker found is a non-empty word all in its depth's class, with `(` where it starts and `)` just before where it stops. `MarkerWord` states which text the word is. |
| Grammar.MarkerWord | grammar/internal_citations.py:20-35 | The word a marker yields is the text itself: it starts after the blanks that follow the `(`, and it ends before where the marker stops. |
| Grammar.MarkerComplete | grammar/internal_citations.py:20-35 | Conversely, `(` + a non-empty word of the depth's class + `)` is read as exactly that marker, ending after the `)`. |
| Grammar.NotInClass | grammar/internal_citations.py:20-35 | No marker class contains a blank or `)`, so a marker's word stops at its `)`. |
| Grammar.DepthChain | grammar/internal_citations.py:37-39 | A chain read from a depth has four level slots, opens with `(` at the first non-blank and ends inside the text. Each continuation is optional. `DepthChainConsecutive` states how the levels are filled. |
| Grammar.DepthChainConsecutive | grammar/internal_citations.py:37-39 | Every chain read from a depth is consecutive from that depth. |
| Grammar.ChainComplete | grammar/internal_citations.py:37-39 | Markers of consecutive depths, written without blanks, are read as exactly those words, level by level. The chain must reach depth 4 or be followed, after the blanks, by no `(`. Each deeper marker is taken, and the reading ends where the chained optionals end. |
| Grammar.ChainAtComplete | grammar/internal_citations.py:6-18 | The same chain, with its span: from its first `(` to where the reading stopped. |
| Grammar.ConsecutiveSingle | grammar/internal_citations.py:37-39 | One marker on its own is a chain led at its depth. |
| Grammar.ConsecutiveExtend | grammar/internal_citations.py:37-39 | A marker put in front of a chain one depth deeper is a chain led at its own depth. |
| Grammar.ConsecutiveLead | grammar/internal_citations.py:37-39 | A chain led at a depth has that depth as its first present level. |
| Grammar.ChainAt | grammar/internal_citations.py:6-18 | A positioned chain starts at its first `(` after the blanks, ends where the rule stopped, and has the requested lead. |
| Grammar.AnyDepth | grammar/internal_citations.py:41-45 | A chain found is well formed, starts at its first `(` after the blanks and ends where the rule stopped. |
| Grammar.AnyDepthOrder | grammar/internal_citations.py:41-45 | The first alternative that matches wins, in the order depth 1, 2, 3, 4. The result is the chain led at its own lead depth, every shallower lead fails, and the rule fails exactly when all four fail. |
| Grammar.AnyDepthNeedsMarker | grammar/internal_citations.py:41-45 | Where no `(` follows the blanks, no chain is read. |
| Grammar.AnyDepthComplete | grammar/internal_citations.py:41-45 | A written chain led by a digit, an uppercase marker or a lowercase marker is read whole, at its own lead depth, as exactly its words. |
| Grammar.RomanMarkerIsLevel1 | grammar/internal_citations.py:41-45 | A roman-only marker such as `(i)` on its own is read as a level-1 marker holding the same word. |
| Grammar.RunEndRomanIsLower | grammar/internal_citations.py:30 | Roman letters are lowercase, so a roman run not followed by a lowercase letter is also the lowercase run. |
| Grammar.AndPhrase | grammar/internal_citations.py:47 | A connector matches exactly when `,`, `and` or `or` follows the blanks. It ends after that word, past the blanks after it, and past a second `and` when one follows there (the optional `and`). |
| Grammar.TailItems | grammar/internal_citations.py:49-52 | The items are well-formed chains in text order, none overlapping, each after the start and inside the stretch read. No item means nothing is consumed. |
| Grammar.TailItemComplete | grammar/internal_citations.py:49-52 | After a connector, a written chain is read as the next item, and the items after it are read from where that chain stops. |
| Grammar.TailItemsNext | grammar/internal_citations.py:49-52 | An item read after a connector goes in front of the items read after it. |
| Grammar.TailItemsStop | grammar/internal_citations.py:49-52 | The items stop exactly where no connector follows, or where the connector is not followed by a chain; nothing is consumed then. |
| Grammar.ParagraphTail | grammar/internal_citations.py:49-52 | A paragraph tail has at least one item, in text order, each a well-formed chain inside what was read. |
| Grammar.ParseSingleSection | grammar/internal_citations.py:54-60 | A section has a digit part and a digit section. It starts on its first digit and its span covers what was read. A head chain, if any, is led at depth 1 and lies inside the span. Tail items exist only after a head, lie after it and are ordered. |
| Grammar.SectionNumberRead | grammar/internal_citations.py:54-57 | A written `digits.digits` is read as its part, the dot and its section, each ending where it is written. |
| Grammar.SectionNumberComplete | grammar/internal_citations.py:54-60 | After a written section number, the section is read from the optional paragraphs that start past the blanks after it. |
| Grammar.SectionParagraphs | grammar/internal_citations.py:57-60 | The optional head and tail after a section number never fail. They keep the section well formed, and the section ends where the reading stopped. |
| Grammar.SectionParagraphsBare | grammar/internal_citations.py:57-60 | Without a marker after the number, the section has no head and no tail and ends there. |
| Grammar.SectionParagraphsHead | grammar/internal_citations.py:57-60 | A written depth-1 chain after the number is the head, and the tail items are read after it. |
| Grammar.SingleSectionBareComplete | grammar/internal_citations.py:54-60 | A section number with no marker after it is read alone, its span ending past the blanks after it. |
| Grammar.SectionItems | grammar/internal_citations.py:69-70 | Every further section of a list is well formed and lies after the start, inside what was read. The sections come in text order, none overlapping. |
| Grammar.SectionsOrderedCons | grammar/internal_citations.py:66-70 | A section ending before every section of an ordered list can go in front of it. |
| Grammar.SectionItemComplete | grammar/internal_citations.py:69-70 | After a connector, a section is read as the next item, and the items after it are read from where that section stops. |
| Grammar.SectionItemsStop | grammar/internal_citations.py:69-70 | The items stop exactly where no connector follows, or where the connector is not followed by a section; nothing is consumed then. |
| Grammar.ParseSingleSectionWithMarker | grammar/internal_citations.py:62-64 | `§` then a well-formed section, ending where the section ends. |
| Grammar.SingleSectionComplete | grammar/internal_citations.py:62-64 | A single `§` followed by a section makes the single-section phrase found, ending where the section ends. |
| Grammar.ParseMultipleSections | grammar/internal_citations.py:66-70 | `§§`, then a well-formed section, then at least one more well-formed section, all inside the match, in text order and not overlapping. |
| Grammar.MultipleSectionsComplete | grammar/internal_citations.py:66-70 | `§§`, a section and at least one further section item make the `§§` phrase found, ending where the items stop. |
| Grammar.ParseSingleParagraph | grammar/internal_citations.py:72-75 | `paragraph`, then one well-formed chain that ends where the match ends. |
| Grammar.SingleParagraphComplete | grammar/internal_citations.py:72-75 | The word `paragraph`, not `paragraphs`, followed by a chain makes the single-paragraph phrase found, ending where the chain ends. |
| Grammar.ParseMultipleParagraphs | grammar/internal_citations.py:77-80 | `paragraphs`, then a head chain, then at least one ordered tail item after it. The head and every tail item end by the phrase's end. |
| Grammar.MultipleParagraphsComplete | grammar/internal_citations.py:77-80 | `paragraphs`, a chain and at least one tail item make the multiple-paragraph phrase found, ending where the items stop. |
| Grammar.ParagraphsIsNotSingleParagraph | grammar/internal_citations.py:72-80 | Where the text says `paragraphs`, the single-paragraph shape fails, although `paragraph` is a prefix of `paragraphs`. |
| Grammar.ParseAnyCitation | grammar/internal_citations.py:82-86 | A phrase found is well formed, lies in the text and starts at `§` or at the `p` of a keyword. |
| Grammar.AnyCitationOrder | grammar/internal_citations.py:82-86 | The shapes are tried in the order `§§`, `§`, `paragraph`, `paragraphs`. Each shape is returned only when every earlier one fails, and nothing is found exactly when all four fail. |
| Grammar.MultipleSectionsTriedFirst | grammar/internal_citations.py:82-84 | Whenever a `§§` phrase matches, it is the phrase found. |
| Grammar.BareChainIsNotCitation | grammar/internal_citations.py:82-86 | A chain not introduced by `§`, `§§`, `paragraph` or `paragraphs` is never a citation. |
| Grammar.ScanWF | internal_citations.py:15 | The scanner's matches are well formed, in text order and non-overlapping. Each starts at or after where scanning began. |
| Grammar.ScannedAt | internal_citations.py:15 | Each scanned match is well formed, starts after the scan's start, and starts no earlier than the previous match ends. |
| Grammar.NoPhraseAt | grammar/internal_citations.py:82-86 | Where neither `§` nor `paragraph` stands after the blanks, no phrase is found. |
| Grammar.QuietWithout | grammar/internal_citations.py:82-86 | A stretch holding no `§` and no `p` followed by `a` opens no phrase anywhere. |
| Grammar.ScanFinds | internal_citations.py:15 | A phrase found at a non-blank is recorded with that start and its end, and the scan resumes at its end. |
| Grammar.ScanPasses | internal_citations.py:15 | Where no phrase is found after the blanks, the scan resumes one character past them. |
| Grammar.ScanSkips | internal_citations.py:15 | The scan passes over a stretch where no phrase opens, up to the next non-blank after it. |
| Grammar.ScanAtEnd | internal_citations.py:15 | At the end of the text nothing more is found. |
| Grammar.ScanSearches | internal_citations.py:15 | The scan is a leftmost-first search from its start. Each match is the phrase the grammar reads at the match's start, ending where that reading ends. No non-blank position before, between or after the matches holds a phrase. |
| Grammar.SearchedAt | internal_citations.py:15 | The same, read off for the `i`-th match of a search. |
| Grammar.ScanMatchAt | internal_citations.py:15 | The `i`-th scanned match is `ParseAnyCitation`'s result at its start. No non-blank position since the previous match (or since the start) holds a phrase, and none after the last match does. |
| Grammar.ScanEmpty | internal_citations.py:15 | The scan finds nothing if and only if no non-blank position from its start holds a phrase. |
| Labels.HeadLabel | internal_citations.py:55-63 | The starting label has six slots, the first two being the given part and section. |
| Labels.Present | internal_citations.py:66 | The emitted label is at most as long as the running one and holds exactly its non-empty entries. |
| Labels.PresentConcat | internal_citations.py:66 | Dropping blanks keeps order: filtering a concatenation concatenates the filtered parts. |
| Labels.PresentWithoutBlanks | internal_citations.py:66 | A label without blanks is emitted unchanged. |
| Labels.LabelStartsWithPartSection | internal_citations.py:55-67 | With a part and a section, the emitted label is them followed by the present levels in depth order. |
| Labels.Splice | internal_citations.py:68-76 | Splicing an item keeps six slots and keeps part and section. |
| Labels.Spliced | internal_citations.py:68-76 | Splicing any sequence of items keeps six slots and keeps part and section. |
| Labels.SpliceInherits | internal_citations.py:69-74 | An item led at depth 1, 2 or 3 keeps the slots above its lead and replaces its lead's slot and every deeper one with its own levels. |
| Labels.UpperOnlyItemClearsLevel4 | internal_citations.py:75-76 | An item holding only an uppercase marker clears the last slot and leaves the others alone; its own level is lost. |
| Labels.SplicedStartsWithPartSection | internal_citations.py:68-79 | Every tail label still starts with the head's part and section. |
| Labels.SpliceExample | internal_citations.py:68-79 | For "1005.7(b)(1), (2) and (3)" after a `§`, the tail labels are `1005 7 b 2` and `1005 7 b 3`. |
| Spans.Slice | internal_citations.py:42 | Slicing is clamped and empty for a reversed span; inside the text it is the plain subsequence. |
| Spans.Leading | internal_citations.py:43-45 | A left strip removes at most the whole string and stops at a non-blank. |
| Spans.Trailing | internal_citations.py:44-46 | A right strip removes at most the whole string and stops at a non-blank. |
| Spans.LeadingBlanks | internal_citations.py:43-45 | What a left strip removes is blank. |
| Spans.TrailingBlanks | internal_citations.py:44-46 | What a right strip removes is blank. |
| Spans.StripKeepsMiddle | internal_citations.py:43-46 | A string that is not all blank keeps a non-empty middle once stripped. |
| Spans.StripSpan | internal_citations.py:41-47 | The trimmed span never starts before the old start or ends after the old end. |
| Spans.StripSpanExact | internal_citations.py:41-47 | A span whose kept part starts and ends on a non-blank, with only blanks around it, is trimmed to exactly that part. |
| Spans.StripSpanTrims | internal_citations.py:41-47 | On a span that is not all blank, the new span lies inside the old one, starts and ends on non-blanks, and drops only blanks on either side. Slicing it therefore gives the stripped text. |
| Spans.StripSpanBlank | internal_citations.py:41-47 | An all-blank span comes back reversed: its start becomes its old end and its end its old start. |
| Spans.StripSpanIdempotent | internal_citations.py:41-47 | Trimming a span ending inside the text a second time changes nothing. |
| InternalCitations.ParagraphList | internal_citations.py:51-81 | The loop over tail items builds exactly the records `ParagraphRecords` specifies. |
| InternalCitations.ParagraphRecordsShape | internal_citations.py:54-80 | There are 1 + the number of tail items records. The head's comes first, spanning from the start to the head chain's end when there is a head chain, so it excludes the tail. Then comes one record per tail item in match order, spanning exactly that item. With a part and a section, every label is them followed by the present levels of the running label. |
| InternalCitations.HeadExcludesTail | internal_citations.py:61-78 | When the head chain ends before the tail items, the head record's span stops before every tail record's span starts. |
| InternalCitations.MatchCitations | internal_citations.py:16-33 | One pass of the dispatch produces exactly the records of its match. |
| InternalCitations.MatchRecordsLead | internal_citations.py:16-33 | A paragraph phrase's first record spans the head chain from its `(`, not from the keyword, and all its labels start with the caller's part and section. A single section's starts at the section's first digit and all its labels start with its own part and section. A `§§` list gives its first section's records, then the others'. |
| InternalCitations.SectionsRecordsConcat | internal_citations.py:24-28 | The records of a list of sections are those of its parts in order; nothing carries over from one section to the next. |
| InternalCitations.SectionsRecordsEach | internal_citations.py:24-28 | A `§§` list expands its first section, then the rest, each on its own. |
| InternalCitations.RecordsSnoc | internal_citations.py:15-33 | Handling one more match appends its records, and the caller's part and section are needed only for a paragraph phrase. |
| InternalCitations.NewOffsets | internal_citations.py:40-47 | The inner loop replaces every offset of one record by its trimmed span. |
| InternalCitations.StripWhitespace | internal_citations.py:36-48 | The array is rewritten in place to the trimmed records and nothing else changes. |
| InternalCitations.StripAllKeepsLabels | internal_citations.py:36-48 | Trimming keeps the number of records, every label and each record's number of offsets. |
| InternalCitations.StripAllTrims | internal_citations.py:36-48 | Each span that started in the text on a non-blank is, once trimmed, non-empty, inside its old bounds, and starts and ends on a non-blank. |
| InternalCitations.StripAllIdempotent | internal_citations.py:36-48 | A second trimming pass over every record changes nothing. |
| InternalCitations.ParagraphRecordsSpans | internal_citations.py:61-78 | A head starting on a non-blank character, together with well-formed tail items, gives spans inside the text that start on a non-blank character. |
| InternalCitations.MatchRecordsSpans | internal_citations.py:16-33 | Every record of a well-formed match spans part of the text starting at a chain's `(` or a section's first digit. |
| InternalCitations.RecordsSpans | internal_citations.py:15-33 | The same holds for the records of every match. |
| InternalCitations.RecordsTrimmed | internal_citations.py:15-34 | The trimmed records of scanned matches have non-empty spans in the text that start and end on a non-blank character. |
| InternalCitations.Parse | internal_citations.py:8-34 | The extraction loop, building an array and trimming it in place, returns exactly `Extract`: the records of every scanned match in order, trimmed. |
| InternalCitations.ExtractTrimmed | internal_citations.py:8-34 | Every offset of every extracted citation is non-empty, lies in the text, and starts and ends on a non-blank character. |
| CitationExamples.RequirementsExtract | tests/internal_citation_parse.py:7-22 | Read in part 1005, section 6, `paragraphs (c)(3), (d)(2), (e)(1), (e)(3), and (f)` gives five records: 1005-6-c-3 over (31, 37), then d-2, e-1, e-3 and f over their own markers. |
| CitationExamples.LabeledExtract | tests/internal_citation_parse.py:41-47 | The paragraph's own label `(a)` is not a citation: one record, 1005-6-b, over `(b)`. |
| CitationExamples.TwoSectionsExtract | tests/internal_citation_parse.py:49-64 | After `§§`, two records labelled by their own section numbers: 1005-6-b-3 over `1005.6(b)(3)`, and 1005-11-b-1-i over `1005.11 (b)(1)(i)` as one span, blank included. |
| CitationExamples.SectionWithTailExtract | tests/internal_citation_parse.py:74-84 | `1005.10(a) and (d)` after `§` gives 1005-10-a over `1005.10(a)` and 1005-10-d over `(d)`. |
| CitationExamples.ThisSectionExtract | tests/internal_citation_parse.py:101-111 | `paragraphs (c)(1) and (2) of this section` gives 1005-6-c-1 over `(c)(1)` and 1005-6-c-2 over `(2)`. |

## Left out

- The scanner's tab expansion is not modelled: the text is scanned as given.
  The expansion rewrites tabs before matching, and the returned offsets then
  refer to the expanded text.
- The scanner's check that a match moved forward is omitted. Every phrase
  consumes a literal, so that branch never runs for this grammar.
- `originalTextFor(grammar.any_citation)` in `parse` is built but never used, so it is not modelled.
- Spans.StripSpan: strips only space, tab, newline and carriage return.
  Python's `lstrip` and `rstrip` also remove the other Unicode white space.
  The tokens skip exactly these four, so the grammar is exact. The
  difference never shows in a span: every span starts on `(` or a digit,
  and ends on `)` or a digit followed only by these four blanks. `§` is a
  single character.
- regparser/grammar/rules.py is not part of this model. It is a sibling grammar for externally addressed citations and shares only the marker rules.
- The combinator library's results objects, dynamic attribute delegation and
  parse-action plumbing are replaced by the datatypes `Chain`, `Section`,
  `Phrase` and `Match`. Each holds its fields plus its span.
- `paragraph_list` fills an absent head with `None` and absent levels read
  as `""`. Both are the empty string here. Filtering for truthy entries drops
  both alike.
- `Parse` requires `parts` whenever a paragraph phrase is scanned: with no parts the Python extractor fails on indexing `None`, and that failure is not modelled.
- Grammar.Scan has no contract of its own. It skips the blanks and hands
  the first non-blank to `ScanFrom`, which tries a phrase there and either
  records it or moves on one character. Its guarantees are lemmas:
  - `ScanWF` and `ScannedAt`: well-formed, ordered and non-overlapping matches.
  - `ScanSearches`, `ScanMatchAt` and `ScanEmpty`: each match is the phrase
    read at its start, and no position passed holds one.
  - `ScanFinds`, `ScanPasses`, `ScanSkips` and `ScanAtEnd`: how the scan steps.
- Grammar.ChainComplete: covers only markers written without blanks inside
  or between them. A chain that stops above depth 4 must also have no `(`
  after the blanks that follow it. The grammar also reads spaced markers
  such as `( b )` or `(b) (1)` as one chain. It also ends a chain before a
  marker of the wrong class, as after `(a)` in `(a)(B)`. `DepthChain`
  models both cases, but no completeness lemma states them.
- Spans.StripSpanIdempotent: stated only for spans ending inside the text.
  A span reaching past the end is clamped before stripping, and trimming it
  twice can move its end twice.
