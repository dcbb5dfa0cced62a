/*
 * The extraction walker: it scans the text for citation phrases, expands
 * each phrase into one record per cited paragraph, and trims the blanks
 * from every record's span.
 *
 * A record's label is built from a running six-slot label (module Labels);
 * the (part, section) pair at its front is the matched section's, or the
 * caller's for a phrase that starts with "paragraph".
 */
module InternalCitations {
  import opened Grammar
  import opened Labels
  import opened Spans

  /** One extracted citation: the spans of the text that express it and its label. */
  datatype Citation = Citation(offsets: seq<Span>, citation: seq<string>)

  // ------------------------------------------------- expanding one head

  /** The record of the k-th tail item: its own span, and the running label
      after every item up to and including it has been spliced in. */
  function TailRecord(first: seq<string>, tail: seq<Chain>, k: nat): Citation
    requires |first| == 6 && k < |tail|
  {
    Citation([(tail[k].start, tail[k].end)], Present(Spliced(first, tail[..k + 1])))
  }

  /** What one head chain (if any) and its tail items expand into: the head's
      record, whose span ends where the head chain ends when there is one,
      then one record per tail item in match order. */
  function ParagraphRecords(head: Option<Chain>, tail: seq<Chain>, start: nat, end: nat,
                            part: string, section: string): seq<Citation>
  {
    var first := HeadLabel(part, section, head);
    var e := if head.Some? then head.value.end else end;
    [Citation([(start, e)], Present(first))] +
    seq(|tail|, k requires 0 <= k < |tail| => TailRecord(first, tail, k))
  }

  /** `paragraph_list`: expands a head and its tail, keeping the running
      label as a list whose trailing slots each tail item overwrites. */
  method ParagraphList(head: Option<Chain>, tail: seq<Chain>, start: nat, end: nat,
                       part: string, section: string)
    returns (citations: seq<Citation>)
    ensures citations == ParagraphRecords(head, tail, start, end, part, section)
  {
    citations := [];
    var lab := [part, section];
    var e := end;
    if head.Some? {
      var h := head.value;
      lab := lab + [h.level1, h.level2, h.level3, h.level4];
      e := h.end;
    } else {
      lab := lab + ["", "", "", ""];
    }
    citations := citations + [Citation([(start, e)], Present(lab))];
    ghost var first := lab;
    assert first == HeadLabel(part, section, head);
    for i := 0 to |tail|
      invariant |lab| == 6 && lab == Spliced(first, tail[..i])
      invariant |citations| == 1 + i
      invariant citations[0] == Citation([(start, e)], Present(first))
      invariant forall k :: 0 <= k < i ==> citations[k + 1] == TailRecord(first, tail, k)
    {
      var p := tail[i];
      if p.level1 != "" {
        lab := lab[..2] + [p.level1, p.level2, p.level3, p.level4];
      } else if p.level2 != "" {
        lab := lab[..3] + [p.level2, p.level3, p.level4];
      } else if p.level3 != "" {
        lab := lab[..4] + [p.level3, p.level4];
      } else {
        // `p.level5` names no field of the match, and an unknown name reads as blank
        lab := lab[5 := ""];
      }
      assert tail[..i + 1][..i] == tail[..i];
      citations := citations + [Citation([(p.start, p.end)], Present(lab))];
    }
  }

  // ------------------------------------------------- expanding every match

  /** One section of a `§§` list, expanded on its own with its own part and section. */
  function SectionRecords(s: Section): seq<Citation> {
    ParagraphRecords(s.head, s.tail, s.start, s.end, s.part, s.section)
  }

  function SectionsRecords(ss: seq<Section>): seq<Citation>
    decreases |ss|
  {
    if ss == [] then [] else SectionsRecords(ss[..|ss| - 1]) + SectionRecords(ss[|ss| - 1])
  }

  /** The records of one scanned match; a paragraph phrase takes its part and
      section from the caller. */
  function MatchRecords(m: Match, parts: Option<(string, string)>): seq<Citation>
    requires IsParagraphPhrase(m.phrase) ==> parts.Some?
  {
    match m.phrase
    case SingleParagraph(h) => ParagraphRecords(Some(h), [], h.start, m.end, parts.value.0, parts.value.1)
    case MultipleParagraphs(h, t) => ParagraphRecords(Some(h), t, h.start, m.end, parts.value.0, parts.value.1)
    case MultipleSections(h, t) => SectionsRecords([h] + t)
    case SingleSection(s) => ParagraphRecords(s.head, s.tail, s.start, m.end, s.part, s.section)
  }

  /** The caller's part and section are needed only when a paragraph phrase is found. */
  predicate PartsSupplied(ms: seq<Match>, parts: Option<(string, string)>) {
    parts.Some? || forall m :: m in ms ==> !IsParagraphPhrase(m.phrase)
  }

  function Records(ms: seq<Match>, parts: Option<(string, string)>): seq<Citation>
    requires PartsSupplied(ms, parts)
    decreases |ms|
  {
    if ms == [] then []
    else Records(ms[..|ms| - 1], parts) + MatchRecords(ms[|ms| - 1], parts)
  }

  /** Appending one match appends its records. */
  lemma RecordsSnoc(ms: seq<Match>, i: nat, parts: Option<(string, string)>)
    requires PartsSupplied(ms, parts) && i < |ms|
    ensures PartsSupplied(ms[..i], parts) && PartsSupplied(ms[..i + 1], parts)
    ensures IsParagraphPhrase(ms[i].phrase) ==> parts.Some?
    ensures Records(ms[..i + 1], parts) == Records(ms[..i], parts) + MatchRecords(ms[i], parts)
  {
    assert ms[..i + 1][..i] == ms[..i];
    assert ms[i] in ms;
  }

  // ------------------------------------------------------------ trimming

  /** Every offset of a record trimmed. */
  function StripOffsets(text: Text, offsets: seq<Span>): seq<Span> {
    seq(|offsets|, i requires 0 <= i < |offsets| => StripSpan(text, offsets[i]))
  }

  function StripCitation(text: Text, c: Citation): Citation {
    c.(offsets := StripOffsets(text, c.offsets))
  }

  /** Every record trimmed: as many records, each with its label untouched
      and as many offsets as before. */
  function StripAll(text: Text, cs: seq<Citation>): seq<Citation> {
    seq(|cs|, k requires 0 <= k < |cs| => StripCitation(text, cs[k]))
  }

  /** The inner loop of `strip_whitespace`: each offset of one record is
      replaced, in turn, by the span its slice of the text keeps once a left
      and a right strip have removed its blanks. */
  method NewOffsets(text: Text, offsets: seq<Span>) returns (r: seq<Span>)
    ensures r == StripOffsets(text, offsets)
  {
    r := offsets;
    for i := 0 to |r|
      invariant |r| == |offsets|
      invariant forall j :: 0 <= j < i ==> r[j] == StripSpan(text, offsets[j])
      invariant r[i..] == offsets[i..]
    {
      var start, end := r[i].0, r[i].1;
      var s := Slice(text, start, end);
      var newStart := start + Leading(s);
      var newEnd := end - Trailing(s);
      assert r[i] == offsets[i] by { assert r[i..][0] == offsets[i..][0]; }
      assert (newStart, newEnd) == StripSpan(text, offsets[i]);
      r := r[i := (newStart, newEnd)];
    }
  }

  /** `strip_whitespace`: rewrites the offsets of every record in place. */
  method StripWhitespace(text: Text, citations: array<Citation>)
    modifies citations
    ensures citations[..] == StripAll(text, old(citations[..]))
  {
    ghost var before := citations[..];
    for k := 0 to citations.Length
      invariant forall j :: 0 <= j < k ==> citations[j] == StripCitation(text, before[j])
      invariant forall j :: k <= j < citations.Length ==> citations[j] == before[j]
    {
      var offsets := NewOffsets(text, citations[k].offsets);
      citations[k] := citations[k].(offsets := offsets);
    }
    assert citations[..] == StripAll(text, before);
  }

  // ------------------------------------------------------------- parsing

  /** Every citation of the text: the records of every scanned match, in
      order, with their spans trimmed. */
  function Extract(text: Text, parts: Option<(string, string)>): seq<Citation>
    requires PartsSupplied(Scan(text, 0), parts)
  {
    StripAll(text, Records(Scan(text, 0), parts))
  }

  /** One pass of the loop in `parse`: the records of one match, by which
      phrase shape fired. */
  method MatchCitations(m: Match, parts: Option<(string, string)>) returns (rs: seq<Citation>)
    requires IsParagraphPhrase(m.phrase) ==> parts.Some?
    ensures rs == MatchRecords(m, parts)
  {
    match m.phrase {
      case SingleParagraph(h) =>
        assert MatchRecords(m, parts) == ParagraphRecords(Some(h), [], h.start, m.end, parts.value.0, parts.value.1);
        rs := ParagraphList(Some(h), [], h.start, m.end, parts.value.0, parts.value.1);
      case MultipleParagraphs(h, t) =>
        assert MatchRecords(m, parts) == ParagraphRecords(Some(h), t, h.start, m.end, parts.value.0, parts.value.1);
        rs := ParagraphList(Some(h), t, h.start, m.end, parts.value.0, parts.value.1);
      case MultipleSections(h, t) =>
        var sections := [h] + t;
        assert MatchRecords(m, parts) == SectionsRecords(sections);
        rs := [];
        for j := 0 to |sections|
          invariant rs == SectionsRecords(sections[..j])
        {
          var s := sections[j];
          var more := ParagraphList(s.head, s.tail, s.start, s.end, s.part, s.section);
          assert sections[..j + 1][..j] == sections[..j];
          rs := rs + more;
        }
        assert sections[..|sections|] == sections;
      case SingleSection(s) =>
        assert MatchRecords(m, parts) == ParagraphRecords(s.head, s.tail, s.start, m.end, s.part, s.section);
        rs := ParagraphList(s.head, s.tail, s.start, m.end, s.part, s.section);
    }
  }

  /** The body of `parse` once the matches are known: the records of every
      match, in order, collected in an array and trimmed in place. */
  method CollectAndStrip(text: Text, matches: seq<Match>, parts: Option<(string, string)>)
    returns (citations: seq<Citation>)
    requires PartsSupplied(matches, parts)
    ensures citations == StripAll(text, Records(matches, parts))
  {
    var all: seq<Citation> := [];
    for i := 0 to |matches|
      invariant all == Records(matches[..i], parts)
    {
      RecordsSnoc(matches, i, parts);
      var rs := MatchCitations(matches[i], parts);
      all := all + rs;
    }
    assert matches[..|matches|] == matches;
    var arr := new Citation[|all|](k requires 0 <= k < |all| => all[k]);
    assert arr[..] == all;
    StripWhitespace(text, arr);
    citations := arr[..];
  }

  /** `InternalCitationParser.parse`. */
  method Parse(text: Text, parts: Option<(string, string)>) returns (citations: seq<Citation>)
    requires PartsSupplied(Scan(text, 0), parts)
    ensures citations == Extract(text, parts)
  {
    var matches := Scan(text, 0);
    citations := CollectAndStrip(text, matches, parts);
  }

  // --------------------------------------------------------------- lemmas

  /** A head and its tail expand into 1 + |tail| records: the head's first,
      spanning from `start` to the head chain's end (or to `end` without a
      head chain), then each tail item's, spanning exactly that item. With a
      part and a section, every label starts with them and goes on with the
      present levels of the running label. */
  lemma ParagraphRecordsShape(head: Option<Chain>, tail: seq<Chain>, start: nat, end: nat,
                              part: string, section: string)
    ensures var r := ParagraphRecords(head, tail, start, end, part, section);
            |r| == 1 + |tail| &&
            r[0].offsets == [(start, if head.Some? then head.value.end else end)] &&
            forall k :: 1 <= k < |r| ==> r[k].offsets == [(tail[k - 1].start, tail[k - 1].end)]
    ensures var r := ParagraphRecords(head, tail, start, end, part, section);
            var first := HeadLabel(part, section, head);
            part != "" && section != "" ==>
              r[0].citation == [part, section] + Present(first[2..]) &&
              forall k :: 1 <= k < |r| ==>
                r[k].citation == [part, section] + Present(Spliced(first, tail[..k])[2..])
  {
    var r := ParagraphRecords(head, tail, start, end, part, section);
    var first := HeadLabel(part, section, head);
    forall k | 1 <= k < |r| ensures r[k] == TailRecord(first, tail, k - 1) {
    }
    if part != "" && section != "" {
      LabelStartsWithPartSection(first);
      forall k | 1 <= k < |r|
        ensures r[k].citation == [part, section] + Present(Spliced(first, tail[..k])[2..])
      {
        SplicedStartsWithPartSection(first, tail[..k]);
      }
    }
  }

  /** When the head chain ends before every tail item starts, the head
      record's span stops short of every tail record's span. */
  lemma HeadExcludesTail(head: Option<Chain>, tail: seq<Chain>, start: nat, end: nat,
                         part: string, section: string)
    requires head.Some? && forall c :: c in tail ==> head.value.end < c.start
    ensures var r := ParagraphRecords(head, tail, start, end, part, section);
            forall k :: 1 <= k < |r| ==> r[0].offsets[0].1 < r[k].offsets[0].0
  {
    var r := ParagraphRecords(head, tail, start, end, part, section);
    forall k | 1 <= k < |r| ensures r[0].offsets[0].1 < r[k].offsets[0].0 {
      assert tail[k - 1] in tail;
    }
  }

  /** The records of a list of sections are those of its parts, one after the
      other: nothing carries over from one section to the next. */
  lemma {:induction false} SectionsRecordsConcat(a: seq<Section>, b: seq<Section>)
    ensures SectionsRecords(a + b) == SectionsRecords(a) + SectionsRecords(b)
    decreases |b|
  {
    if b == [] {
      assert a + b == a;
    } else {
      var init, last := b[..|b| - 1], b[|b| - 1];
      assert (a + b)[..|a + b| - 1] == a + init;
      assert (a + b)[|a + b| - 1] == last;
      assert SectionsRecords(a + b) == SectionsRecords(a + init) + SectionRecords(last);
      assert SectionsRecords(b) == SectionsRecords(init) + SectionRecords(last);
      SectionsRecordsConcat(a, init);
      var x, y, z := SectionsRecords(a), SectionsRecords(init), SectionRecords(last);
      assert (x + y) + z == x + (y + z);
    }
  }

  /** Each section of a `§§` list is expanded on its own. */
  lemma SectionsRecordsEach(h: Section, t: seq<Section>)
    ensures SectionsRecords([h] + t) == SectionRecords(h) + SectionsRecords(t)
  {
    SectionsRecordsConcat([h], t);
    assert SectionsRecords([h]) == SectionRecords(h) by {
      assert [h][..0] == [];
    }
  }

  /** What the first record of a scanned match is, phrase by phrase: a
      paragraph phrase's spans the head chain alone, from its `(` and not from
      the keyword, and its labels take the caller's part and section; a
      single section's starts at the section's first digit, after the `§`,
      and its labels take the section's own part and section; a `§§` list
      expands its first section and then the others, each on its own. */
  lemma MatchRecordsLead(text: Text, m: Match, parts: Option<(string, string)>)
    requires MatchWF(text, m) && (IsParagraphPhrase(m.phrase) ==> parts.Some?)
    ensures var r := MatchRecords(m, parts);
            r != [] && 
            (IsParagraphPhrase(m.phrase) ==>
              var h := m.phrase.pHead;
              r[0].offsets == [(h.start, h.end)] && text[h.start] == '(' &&
              (parts.value.0 != "" && parts.value.1 != "" ==>
                forall k :: 0 <= k < |r| ==> [parts.value.0, parts.value.1] <= r[k].citation))
    ensures var r := MatchRecords(m, parts);
            m.phrase.SingleSection? ==>
              var s := m.phrase.withoutMarker;
              r[0].offsets[0].0 == s.start && InClass(text[s.start], Digit) &&
              forall k :: 0 <= k < |r| ==> [s.part, s.section] <= r[k].citation
    ensures m.phrase.MultipleSections? ==>
              MatchRecords(m, parts) ==
              SectionRecords(m.phrase.sHead) + SectionsRecords(m.phrase.sTail)
  {
    var r := MatchRecords(m, parts);
    match m.phrase
    case SingleParagraph(h) =>
      ParagraphRecordsShape(Some(h), [], h.start, m.end, parts.value.0, parts.value.1);
    case MultipleParagraphs(h, t) =>
      ParagraphRecordsShape(Some(h), t, h.start, m.end, parts.value.0, parts.value.1);
    case MultipleSections(h, t) =>
      SectionsRecordsEach(h, t);
    case SingleSection(s) =>
      ParagraphRecordsShape(s.head, s.tail, s.start, m.end, s.part, s.section);
  }

  /** A span inside the text that starts on a non-blank character. */
  predicate SpanOk(text: Text, o: Span) {
    o.0 < o.1 <= |text| && !IsWhite(text[o.0])
  }

  predicate SpansOk(text: Text, cs: seq<Citation>) {
    forall k, j :: 0 <= k < |cs| && 0 <= j < |cs[k].offsets| ==> SpanOk(text, cs[k].offsets[j])
  }

  lemma SpansOkConcat(text: Text, a: seq<Citation>, b: seq<Citation>)
    requires SpansOk(text, a) && SpansOk(text, b)
    ensures SpansOk(text, a + b)
  {
    forall k, j | 0 <= k < |a + b| && 0 <= j < |(a + b)[k].offsets|
      ensures SpanOk(text, (a + b)[k].offsets[j])
    {
      if k < |a| {
        assert (a + b)[k] == a[k];
      } else {
        assert (a + b)[k] == b[k - |a|];
      }
    }
  }

  /** A head starting on a non-blank character and well-formed tail items
      give spans that lie in the text and start on a non-blank character. */
  lemma ParagraphRecordsSpans(text: Text, head: Option<Chain>, tail: seq<Chain>, start: nat, end: nat,
                              part: string, section: string)
    requires start < (if head.Some? then head.value.end else end) <= |text|
    requires !IsWhite(text[start])
    requires forall c :: c in tail ==> ChainWF(text, c)
    ensures SpansOk(text, ParagraphRecords(head, tail, start, end, part, section))
  {
    var r := ParagraphRecords(head, tail, start, end, part, section);
    forall k, j | 0 <= k < |r| && 0 <= j < |r[k].offsets| ensures SpanOk(text, r[k].offsets[j]) {
      if k > 0 {
        assert tail[k - 1] in tail;
      }
    }
  }

  lemma SectionRecordsSpans(text: Text, s: Section)
    requires SectionWF(text, s)
    ensures SpansOk(text, SectionRecords(s))
  {
    ParagraphRecordsSpans(text, s.head, s.tail, s.start, s.end, s.part, s.section);
  }

  lemma {:induction false} SectionsRecordsSpans(text: Text, ss: seq<Section>)
    requires forall s :: s in ss ==> SectionWF(text, s)
    ensures SpansOk(text, SectionsRecords(ss))
    decreases |ss|
  {
    if ss != [] {
      var init := ss[..|ss| - 1];
      assert forall s :: s in init ==> s in ss;
      SectionsRecordsSpans(text, init);
      SectionRecordsSpans(text, ss[|ss| - 1]);
      SpansOkConcat(text, SectionsRecords(init), SectionRecords(ss[|ss| - 1]));
    }
  }

  /** The records of a well-formed match have spans in the text, each
      starting at a chain's `(` or at a section's first digit. */
  lemma MatchRecordsSpans(text: Text, m: Match, parts: Option<(string, string)>)
    requires MatchWF(text, m) && (IsParagraphPhrase(m.phrase) ==> parts.Some?)
    ensures SpansOk(text, MatchRecords(m, parts))
  {
    match m.phrase
    case SingleParagraph(h) =>
      ParagraphRecordsSpans(text, Some(h), [], h.start, m.end, parts.value.0, parts.value.1);
    case MultipleParagraphs(h, t) =>
      ParagraphRecordsSpans(text, Some(h), t, h.start, m.end, parts.value.0, parts.value.1);
    case MultipleSections(h, t) =>
      assert forall s :: s in [h] + t ==> s == h || s in t;
      SectionsRecordsSpans(text, [h] + t);
    case SingleSection(s) =>
      ParagraphRecordsSpans(text, s.head, s.tail, s.start, m.end, s.part, s.section);
  }

  lemma {:induction false} RecordsSpans(text: Text, ms: seq<Match>, parts: Option<(string, string)>)
    requires PartsSupplied(ms, parts)
    requires forall i :: 0 <= i < |ms| ==> MatchWF(text, ms[i])
    ensures SpansOk(text, Records(ms, parts))
    decreases |ms|
  {
    if ms != [] {
      var n := |ms| - 1;
      RecordsSnoc(ms, n, parts);
      assert ms[..n + 1] == ms;
      RecordsSpans(text, ms[..n], parts);
      MatchRecordsSpans(text, ms[n], parts);
      SpansOkConcat(text, Records(ms[..n], parts), MatchRecords(ms[n], parts));
    }
  }

  /** After trimming, every span that started inside the text on a non-blank
      character is non-empty, stays inside its old bounds and starts and ends
      on a non-blank character. */
  lemma StripAllTrims(text: Text, cs: seq<Citation>)
    requires SpansOk(text, cs)
    ensures var r := StripAll(text, cs);
            forall k, j :: 0 <= k < |r| && 0 <= j < |r[k].offsets| ==>
              var o, n := cs[k].offsets[j], r[k].offsets[j];
              o.0 <= n.0 < n.1 <= o.1 && !IsWhite(text[n.0]) && !IsWhite(text[n.1 - 1])
  {
    var r := StripAll(text, cs);
    forall k, j | 0 <= k < |r| && 0 <= j < |r[k].offsets|
      ensures var o, n := cs[k].offsets[j], r[k].offsets[j];
              o.0 <= n.0 < n.1 <= o.1 && !IsWhite(text[n.0]) && !IsWhite(text[n.1 - 1])
    {
      var o := cs[k].offsets[j];
      assert r[k].offsets[j] == StripSpan(text, o);
      assert SpanOk(text, o);
      assert text[o.0..o.1][0] == text[o.0];
      StripSpanTrims(text, o);
    }
  }

  /** A second trimming pass over every record changes nothing. */
  lemma StripAllIdempotent(text: Text, cs: seq<Citation>)
    requires forall k, j :: 0 <= k < |cs| && 0 <= j < |cs[k].offsets| ==> cs[k].offsets[j].1 <= |text|
    ensures StripAll(text, StripAll(text, cs)) == StripAll(text, cs)
  {
    var once := StripAll(text, cs);
    forall k | 0 <= k < |cs| ensures StripCitation(text, once[k]) == once[k] {
      forall j | 0 <= j < |once[k].offsets|
        ensures StripSpan(text, once[k].offsets[j]) == once[k].offsets[j]
      {
        StripSpanIdempotent(text, cs[k].offsets[j]);
      }
    }
  }

  /** Trimming keeps the records, their labels and their number of offsets. */
  lemma StripAllKeepsLabels(text: Text, cs: seq<Citation>)
    ensures var r := StripAll(text, cs);
            |r| == |cs| &&
            forall k :: 0 <= k < |cs| ==>
              r[k].citation == cs[k].citation && |r[k].offsets| == |cs[k].offsets|
  {
  }

  /** The offsets of trimmed records of scanned matches lie in the text, are
      non-empty and start and end on a non-blank character. */
  predicate Trimmed(text: Text, cs: seq<Citation>) {
    forall k, j :: 0 <= k < |cs| && 0 <= j < |cs[k].offsets| ==>
      var n := cs[k].offsets[j];
      n.0 < n.1 <= |text| && !IsWhite(text[n.0]) && !IsWhite(text[n.1 - 1])
  }

  lemma RecordsTrimmed(text: Text, ms: seq<Match>, lo: nat, parts: Option<(string, string)>)
    requires PartsSupplied(ms, parts) && Scanned(text, ms, lo)
    ensures Trimmed(text, StripAll(text, Records(ms, parts)))
  {
    forall i | 0 <= i < |ms| ensures MatchWF(text, ms[i]) {
      ScannedAt(text, ms, lo, i);
    }
    RecordsSpans(text, ms, parts);
    StripAllTrims(text, Records(ms, parts));
  }

  /** Every offset of every extracted citation lies in the text, is
      non-empty and starts and ends on a non-blank character. */
  lemma ExtractTrimmed(text: Text, parts: Option<(string, string)>)
    requires PartsSupplied(Scan(text, 0), parts)
    ensures Trimmed(text, Extract(text, parts))
  {
    ScanWF(text, 0);
    RecordsTrimmed(text, Scan(text, 0), 0, parts);
  }
}
