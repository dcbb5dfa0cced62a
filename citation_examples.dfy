/*
 * Worked texts: whole phrases read from sample sentences, and the records
 * the extractor returns for them. Each text is taken apart in small steps:
 * the characters a completeness lemma needs, then the rule it completes.
 */
module CitationExamples {
  import opened Grammar
  import opened Labels
  import opened Spans
  import opened InternalCitations

  // ------------------------------------------------------- helpers

  /** One match alone yields its own records. */
  lemma RecordsOne(m: Match, parts: Option<(string, string)>)
    requires IsParagraphPhrase(m.phrase) ==> parts.Some?
    ensures PartsSupplied([m], parts) && Records([m], parts) == MatchRecords(m, parts)
  {
    assert [m][..0] == [];
  }

  /** A head chain and one tail item expand into two records. */
  lemma ParagraphRecordsOne(head: Chain, item: Chain, start: nat, end: nat, part: string, section: string)
    ensures var first := HeadLabel(part, section, Some(head));
            ParagraphRecords(Some(head), [item], start, end, part, section) ==
            [Citation([(start, head.end)], Present(first)),
             Citation([(item.start, item.end)], Present(Splice(first, item)))]
  {
    var first := HeadLabel(part, section, Some(head));
    assert [item][..1] == [item];
    assert Spliced(first, [item]) == Splice(first, item) by {
      assert [item][..0] == [];
    }
  }

  /** `(x)(n)` at depth 1 with no marker after it: a chain of two levels. */
  lemma MarkerPairAlone(text: Text, s: nat, a: char, b: char, e: nat)
    requires s + 6 <= |text| && text[s] == '(' && text[s + 1] == a && text[s + 2] == ')'
    requires text[s + 3] == '(' && text[s + 4] == b && text[s + 5] == ')'
    requires 'a' <= a <= 'z' && '0' <= b <= '9' && NoMarkerAfter(text, s + 6)
    ensures ChainWritten(text, s, 1, [[a], [b]]) && WrittenLen([[a], [b]]) == 6
    ensures ChainOf([[a], [b]], 1, s, e) == Chain([a], [b], "", "", s, e)
  {
    var ws := [[a], [b]];
    assert ws[1..] == [[b]] && [[b]][1..] == [] && [a][1..] == [] && [b][1..] == [];
    assert SpellsWord(text, s + 1, [a]) && SpellsWord(text, s + 4, [b]);
    assert Spells(text, s + 3, [[b]]);
    assert AllIn([a], Lower) && AllIn([b], Digit);
    assert ChainWords([[b]], 2);
    assert WrittenLen([[b]]) == 3;
    assert Placed([[b]], 2) == ["", [b], "", ""];
    assert Placed(ws, 1) == [[a], [b], "", ""];
  }

  /** `(x)(n)(r)` at depth 1, the third a roman numeral, with no marker
      after it: a chain of three levels. */
  lemma MarkerTripleAlone(text: Text, s: nat, a: char, b: char, c: char, e: nat)
    requires s + 9 <= |text| && text[s] == '(' && text[s + 1] == a && text[s + 2] == ')'
    requires text[s + 3] == '(' && text[s + 4] == b && text[s + 5] == ')'
    requires text[s + 6] == '(' && text[s + 7] == c && text[s + 8] == ')'
    requires 'a' <= a <= 'z' && '0' <= b <= '9' && c in "ivxlcdm" && NoMarkerAfter(text, s + 9)
    ensures ChainWritten(text, s, 1, [[a], [b], [c]]) && WrittenLen([[a], [b], [c]]) == 9
    ensures ChainOf([[a], [b], [c]], 1, s, e) == Chain([a], [b], [c], "", s, e)
  {
    var ws := [[a], [b], [c]];
    assert ws[1..] == [[b], [c]] && [[b], [c]][1..] == [[c]] && [[c]][1..] == [];
    assert [a][1..] == [] && [b][1..] == [] && [c][1..] == [];
    assert SpellsWord(text, s + 1, [a]) && SpellsWord(text, s + 4, [b]) && SpellsWord(text, s + 7, [c]);
    assert Spells(text, s + 6, [[c]]);
    assert Spells(text, s + 3, [[b], [c]]);
    assert AllIn([a], Lower) && AllIn([b], Digit) && AllIn([c], Roman);
    assert ChainWords([[c]], 3);
    assert ChainWords([[b], [c]], 2);
    assert WrittenLen([[c]]) == 3 && WrittenLen([[b], [c]]) == 6;
    assert Placed([[c]], 3) == ["", "", [c], ""];
    assert Placed([[b], [c]], 2) == ["", [b], [c], ""];
    assert Placed(ws, 1) == [[a], [b], [c], ""];
  }

  /** The records of a `§§` phrase whose sections have head chains and no tails. */
  lemma SectionPairRecords(h: Section, g: Section)
    requires h.head.Some? && h.tail == [] && g.head.Some? && g.tail == []
    ensures SectionsRecords([h, g]) ==
            [Citation([(h.start, h.head.value.end)], Present(HeadLabel(h.part, h.section, h.head))),
             Citation([(g.start, g.head.value.end)], Present(HeadLabel(g.part, g.section, g.head)))]
  {
    assert [h, g][..1] == [h] && [h][..0] == [];
    assert SectionsRecords([h, g]) == SectionsRecords([h]) + SectionRecords(g);
    assert SectionsRecords([h]) == SectionRecords(h);
    assert h.head == Some(h.head.value) && g.head == Some(g.head.value);
    ParagraphRecordsAlone(h.head.value, h.start, h.end, h.part, h.section);
    ParagraphRecordsAlone(g.head.value, g.start, g.end, g.part, g.section);
  }

  /** Two records, each with one span, trimmed. */
  lemma StripPair(text: Text, a: Citation, b: Citation, ra: Span, rb: Span)
    requires |a.offsets| == 1 && StripSpan(text, a.offsets[0]) == ra
    requires |b.offsets| == 1 && StripSpan(text, b.offsets[0]) == rb
    ensures StripAll(text, [a, b]) == [Citation([ra], a.citation), Citation([rb], b.citation)]
  {
    assert StripOffsets(text, a.offsets) == [ra];
    assert StripOffsets(text, b.offsets) == [rb];
  }

  /** `(x)(n)` at depth 1, followed at once by a comma: a chain of two
      levels that ends where it is written. */
  lemma MarkerPairWritten(text: Text, s: nat, a: char, b: char)
    requires s + 6 < |text| && text[s] == '(' && text[s + 1] == a && text[s + 2] == ')'
    requires text[s + 3] == '(' && text[s + 4] == b && text[s + 5] == ')' && text[s + 6] == ','
    requires 'a' <= a <= 'z' && '0' <= b <= '9'
    ensures SkipWs(text, s) == s && ChainWritten(text, s, 1, [[a], [b]]) && WrittenLen([[a], [b]]) == 6
    ensures ChainEnd(text, s + 6, 1, [[a], [b]]) == s + 6
    ensures ChainOf([[a], [b]], 1, s, s + 6) == Chain([a], [b], "", "", s, s + 6)
  {
    var ws := [[a], [b]];
    assert ws[1..] == [[b]] && [[b]][1..] == [] && [a][1..] == [] && [b][1..] == [];
    assert SpellsWord(text, s + 1, [a]) && SpellsWord(text, s + 4, [b]);
    assert Spells(text, s + 3, [[b]]);
    assert AllIn([a], Lower) && AllIn([b], Digit);
    assert ChainWords([[b]], 2);
    assert WrittenLen([[b]]) == 3;
    assert SkipWs(text, s + 6) == s + 6;
    assert Placed([[b]], 2) == ["", [b], "", ""];
    assert Placed(ws, 1) == [[a], [b], "", ""];
  }

  /** `(x)` at depth 1 with no marker after it: a chain of one level. */
  lemma MarkerWritten(text: Text, s: nat, a: char, e: nat)
    requires s + 3 <= |text| && text[s] == '(' && text[s + 1] == a && text[s + 2] == ')'
    requires 'a' <= a <= 'z' && NoMarkerAfter(text, s + 3)
    ensures ChainWritten(text, s, 1, [[a]]) && WrittenLen([[a]]) == 3
    ensures ChainOf([[a]], 1, s, e) == Chain([a], "", "", "", s, e)
  {
    assert [[a]][1..] == [] && [a][1..] == [];
    assert SpellsWord(text, s + 1, [a]);
    assert Spells(text, s, [[a]]);
    assert AllIn([a], Lower);
    assert Placed([[a]], 1) == [[a], "", "", ""];
  }

  /** `(d)`: one digit marker, read alone at depth 2. */
  lemma DigitMarkerWritten(text: Text, s: nat, d: char)
    requires s + 3 <= |text| && text[s] == '(' && text[s + 1] == d && text[s + 2] == ')'
    requires '0' <= d <= '9' && NoMarkerAfter(text, s + 3)
    ensures ChainWritten(text, s, 2, [[d]]) && WrittenLen([[d]]) == 3
  {
    assert [[d]][1..] == [] && [d][1..] == [];
    assert SpellsWord(text, s + 1, [d]);
    assert Spells(text, s, [[d]]);
    assert AllIn([d], Digit);
  }

  /** `, (`: a comma, then the next marker. */
  lemma CommaConnector(text: Text, k: nat)
    requires k + 2 < |text| && text[k] == ',' && text[k + 1] == ' ' && text[k + 2] == '('
    ensures AndPhrase(text, k) == Some(k + 2) && SkipWs(text, k + 2) == k + 2
  {
    assert SkipWs(text, k) == k && SkipWs(text, k + 1) == k + 2;
    StartsAtChars(text, k, ",");
    NotStartsAt(text, k + 2, "and", 0);
  }

  /** `, and (`: a comma and the optional `and`, then the next marker. */
  lemma CommaAndConnector(text: Text, k: nat)
    requires k + 6 < |text| && text[k] == ',' && text[k + 1] == ' '
    requires text[k + 2] == 'a' && text[k + 3] == 'n' && text[k + 4] == 'd'
    requires text[k + 5] == ' ' && text[k + 6] == '('
    ensures AndPhrase(text, k) == Some(k + 5) && SkipWs(text, k + 5) == k + 6
  {
    assert SkipWs(text, k) == k && SkipWs(text, k + 2) == k + 2 && SkipWs(text, k + 6) == k + 6;
    assert SkipWs(text, k + 1) == k + 2 && SkipWs(text, k + 5) == k + 6;
    StartsAtChars(text, k, ",");
    StartsAtChars(text, k + 2, "and");
  }

  /** Digits, a dot and digits, standing in the text with no digit after
      them: a written section number. */
  lemma NumberWritten(text: Text, s: nat, part: string, section: string)
    requires part != [] && AllIn(part, Digit) && section != [] && AllIn(section, Digit)
    requires s + |part| + 1 + |section| <= |text| && text[s + |part|] == '.'
    requires StartsAt(text, s, part) && StartsAt(text, s + |part| + 1, section)
    requires var n := s + |part| + 1 + |section|; n == |text| || !InClass(text[n], Digit)
    ensures SectionNumberWritten(text, s, part, section)
  {
    StartsAtSpells(text, s, part);
    StartsAtSpells(text, s + |part| + 1, section);
  }

  /** `and `, then neither a blank nor a second `and`. */
  lemma AndConnector(text: Text, k: nat)
    requires k + 4 < |text| && text[k] == 'a' && text[k + 1] == 'n' && text[k + 2] == 'd'
    requires text[k + 3] == ' ' && !IsWhite(text[k + 4]) && text[k + 4] != 'a'
    ensures AndPhrase(text, k) == Some(k + 4) && SkipWs(text, k + 4) == k + 4
  {
    assert SkipWs(text, k) == k && SkipWs(text, k + 3) == k + 4;
    NotStartsAt(text, k, ",", 0);
    StartsAtChars(text, k, "and");
    NotStartsAt(text, k + 4, "and", 0);
  }

  /** Each item that restates level 1 replaces the whole running label
      below the section. */
  lemma SplicedByLevel1(first: seq<string>, items: seq<Chain>, k: nat)
    requires |first| == 6 && 1 <= k <= |items| && items[k - 1].level1 != ""
    ensures var t := items[k - 1];
            Spliced(first, items[..k]) == first[..2] + [t.level1, t.level2, t.level3, t.level4]
  {
    assert items[..k][..k - 1] == items[..k - 1];
  }

  lemma PresentOfTwo(p: string, q: string, x: string, y: string)
    requires p != "" && q != "" && x != "" && y != ""
    ensures Present([p, q, x, y, "", ""]) == [p, q, x, y]
  {
    PresentConcat([p, q, x, y], ["", ""]);
    PresentWithoutBlanks([p, q, x, y]);
    assert [p, q, x, y] + ["", ""] == [p, q, x, y, "", ""];
  }

  lemma PresentOfThree(p: string, q: string, x: string, y: string, z: string)
    requires p != "" && q != "" && x != "" && y != "" && z != ""
    ensures Present([p, q, x, y, z, ""]) == [p, q, x, y, z]
  {
    PresentConcat([p, q, x, y, z], [""]);
    PresentWithoutBlanks([p, q, x, y, z]);
    assert [p, q, x, y, z] + [""] == [p, q, x, y, z, ""];
  }

  lemma PresentOfOne(p: string, q: string, x: string)
    requires p != "" && q != "" && x != ""
    ensures Present([p, q, x, "", "", ""]) == [p, q, x]
  {
    PresentConcat([p, q, x], ["", "", ""]);
    PresentWithoutBlanks([p, q, x]);
    assert [p, q, x] + ["", "", ""] == [p, q, x, "", "", ""];
  }

  /** `, (x)(n),`: one more two-level item of a comma-separated list. */
  lemma CommaItem(text: Text, k: nat, a: char, b: char)
    requires k + 8 < |text| && text[k] == ',' && text[k + 1] == ' '
    requires text[k + 2] == '(' && text[k + 3] == a && text[k + 4] == ')'
    requires text[k + 5] == '(' && text[k + 6] == b && text[k + 7] == ')' && text[k + 8] == ','
    requires 'a' <= a <= 'z' && '0' <= b <= '9'
    ensures TailItems(text, k).0 == [Chain([a], [b], "", "", k + 2, k + 8)] + TailItems(text, k + 8).0
    ensures TailItems(text, k).1 == TailItems(text, k + 8).1
  {
    CommaConnector(text, k);
    MarkerPairWritten(text, k + 2, a, b);
    TailItemComplete(text, k, k + 2, k + 2, 1, [[a], [b]], k + 8);
  }

  /** The records of a head and its tail, read one by one: the head's,
      then each tail item's, which restates level 1 and so carries its own
      levels only. */
  lemma ParagraphRecordsAt(head: Chain, tail: seq<Chain>, start: nat, end: nat,
                           part: string, section: string, k: nat)
    requires k <= |tail| && (k > 0 ==> tail[k - 1].level1 != "")
    ensures var r := ParagraphRecords(Some(head), tail, start, end, part, section);
            |r| == 1 + |tail| &&
            r[k] == if k == 0 then Citation([(start, head.end)], Present(HeadLabel(part, section, Some(head))))
                    else var t := tail[k - 1];
                         Citation([(t.start, t.end)], Present([part, section, t.level1, t.level2, t.level3, t.level4]))
  {
    var r := ParagraphRecords(Some(head), tail, start, end, part, section);
    var first := HeadLabel(part, section, Some(head));
    if k > 0 {
      var t := tail[k - 1];
      assert r[k] == TailRecord(first, tail, k - 1);
      SplicedByLevel1(first, tail, k);
      assert first[..2] + [t.level1, t.level2, t.level3, t.level4] ==
             [part, section, t.level1, t.level2, t.level3, t.level4];
    }
  }

  /** The label of a tail item that restates level 1. */
  function ItemLabel(part: string, section: string, t: Chain): seq<string> {
    [part, section, t.level1, t.level2, t.level3, t.level4]
  }

  /** A head and four items that each restate level 1 expand into five records. */
  lemma FourItemRecords(head: Chain, a: Chain, b: Chain, c: Chain, d: Chain, start: nat, end: nat,
                        part: string, section: string)
    requires a.level1 != "" && b.level1 != "" && c.level1 != "" && d.level1 != ""
    ensures ParagraphRecords(Some(head), [a, b, c, d], start, end, part, section) ==
            [Citation([(start, head.end)], Present(HeadLabel(part, section, Some(head)))),
             Citation([(a.start, a.end)], Present(ItemLabel(part, section, a))),
             Citation([(b.start, b.end)], Present(ItemLabel(part, section, b))),
             Citation([(c.start, c.end)], Present(ItemLabel(part, section, c))),
             Citation([(d.start, d.end)], Present(ItemLabel(part, section, d)))]
  {
    var tail := [a, b, c, d];
    ParagraphRecordsAt(head, tail, start, end, part, section, 0);
    ParagraphRecordsAt(head, tail, start, end, part, section, 1);
    ParagraphRecordsAt(head, tail, start, end, part, section, 2);
    ParagraphRecordsAt(head, tail, start, end, part, section, 3);
    ParagraphRecordsAt(head, tail, start, end, part, section, 4);
    FiveElements(ParagraphRecords(Some(head), tail, start, end, part, section),
                 Citation([(start, head.end)], Present(HeadLabel(part, section, Some(head)))),
                 Citation([(a.start, a.end)], Present(ItemLabel(part, section, a))),
                 Citation([(b.start, b.end)], Present(ItemLabel(part, section, b))),
                 Citation([(c.start, c.end)], Present(ItemLabel(part, section, c))),
                 Citation([(d.start, d.end)], Present(ItemLabel(part, section, d))));
  }

  /** A span that opens and closes on a parenthesis is kept whole. */
  lemma MarkersKept(text: Text, a: nat, b: nat)
    requires a < b <= |text| && text[a] == '(' && text[b - 1] == ')'
    ensures StripSpan(text, (a, b)) == (a, b)
  {
    StripSpanExact(text, (a, b), (a, b));
  }

  /** Five records, each with one span, trimmed. */
  lemma StripFive(text: Text, cs: seq<Citation>, rs: seq<Span>)
    requires |cs| == 5 && |rs| == 5
    requires forall k :: 0 <= k < 5 ==> |cs[k].offsets| == 1 && StripSpan(text, cs[k].offsets[0]) == rs[k]
    ensures StripAll(text, cs) ==
            [Citation([rs[0]], cs[0].citation), Citation([rs[1]], cs[1].citation), Citation([rs[2]], cs[2].citation),
             Citation([rs[3]], cs[3].citation), Citation([rs[4]], cs[4].citation)]
  {
    forall k | 0 <= k < 5 ensures StripAll(text, cs)[k] == Citation([rs[k]], cs[k].citation) {
      assert StripOffsets(text, cs[k].offsets) == [rs[k]];
    }
    FiveElements(StripAll(text, cs), Citation([rs[0]], cs[0].citation), Citation([rs[1]], cs[1].citation),
                 Citation([rs[2]], cs[2].citation), Citation([rs[3]], cs[3].citation), Citation([rs[4]], cs[4].citation));
  }

  lemma FiveElements<T>(s: seq<T>, a: T, b: T, c: T, d: T, e: T)
    requires |s| == 5 && s[0] == a && s[1] == b && s[2] == c && s[3] == d && s[4] == e
    ensures s == [a, b, c, d, e]
  {
  }

  /** A head chain alone expands into one record. */
  lemma ParagraphRecordsAlone(head: Chain, start: nat, end: nat, part: string, section: string)
    ensures ParagraphRecords(Some(head), [], start, end, part, section) ==
            [Citation([(start, head.end)], Present(HeadLabel(part, section, Some(head))))]
  {
  }

  /** One record, with one span, trimmed. */
  lemma StripOne(text: Text, a: Citation, ra: Span)
    requires |a.offsets| == 1 && StripSpan(text, a.offsets[0]) == ra
    ensures StripAll(text, [a]) == [Citation([ra], a.citation)]
  {
    assert StripOffsets(text, a.offsets) == [ra];
  }

  lemma PrependToOne<T>(a: T, b: T)
    ensures [a] + [b] == [a, b]
  {
  }

  lemma PrependToTwo<T>(a: T, b: T, c: T)
    ensures [a] + [b, c] == [a, b, c]
  {
  }

  lemma PrependToThree<T>(a: T, b: T, c: T, d: T)
    ensures [a] + [b, c, d] == [a, b, c, d]
  {
  }

  /** Every record trimmed, one span each, to the spans given. */
  lemma StripEach(text: Text, cs: seq<Citation>, ds: seq<Citation>)
    requires |cs| == |ds|
    requires forall k :: 0 <= k < |cs| ==>
               |cs[k].offsets| == 1 && ds[k] == Citation([StripSpan(text, cs[k].offsets[0])], cs[k].citation)
    ensures StripAll(text, cs) == ds
  {
    forall k | 0 <= k < |cs| ensures StripAll(text, cs)[k] == ds[k] {
      assert StripOffsets(text, cs[k].offsets) == [StripSpan(text, cs[k].offsets[0])];
    }
  }

  // ------------------------------------ "paragraphs (c)(1) and (2) ..."

  /** Two paragraphs of the caller's own section. */
  const ThisSection: Text := "paragraphs (c)(1) and (2) of this section"

  lemma ThisSectionHeadSpelled()
    ensures Spells(ThisSection, 11, ["c", "1"]) && ChainWords(["c", "1"], 1)
    ensures WrittenLen(["c", "1"]) == 6
  {
  }

  lemma ThisSectionHeadStops()
    ensures SkipWs(ThisSection, 10) == 11 && SkipWs(ThisSection, 17) == 18
    ensures NoMarkerAfter(ThisSection, 17)
  {
  }

  lemma ThisSectionHeadWritten()
    ensures SkipWs(ThisSection, 10) == 11 && ChainWritten(ThisSection, 11, 1, ["c", "1"])
    ensures WrittenLen(["c", "1"]) == 6 && SkipWs(ThisSection, 17) == 18
  {
    ThisSectionHeadSpelled();
    ThisSectionHeadStops();
  }

  lemma ThisSectionHead()
    ensures AnyDepth(ThisSection, 10) == Ok(Chain("c", "1", "", "", 11, 18), 18)
  {
    ThisSectionHeadWritten();
    assert ChainOf(["c", "1"], 1, 11, 18) == Chain("c", "1", "", "", 11, 18);
    AnyDepthComplete(ThisSection, 10, 11, 1, ["c", "1"], 18);
  }

  lemma ThisSectionAndWords()
    ensures SkipWs(ThisSection, 18) == 18 && SkipWs(ThisSection, 21) == 22
    ensures !StartsAt(ThisSection, 18, ",") && StartsAt(ThisSection, 18, "and")
    ensures !StartsAt(ThisSection, 22, "and")
  {
    NotStartsAt(ThisSection, 18, ",", 0);
    NotStartsAt(ThisSection, 22, "and", 0);
    StartsAtChars(ThisSection, 18, "and");
  }

  lemma ThisSectionAnd()
    ensures AndPhrase(ThisSection, 18) == Some(22)
  {
    ThisSectionAndWords();
  }

  lemma ThisSectionItemWritten()
    ensures SkipWs(ThisSection, 22) == 22 && ChainWritten(ThisSection, 22, 2, ["2"])
    ensures WrittenLen(["2"]) == 3 && SkipWs(ThisSection, 25) == 26
  {
    assert ThisSection[22] == '(' && ThisSection[23] == '2' && ThisSection[24] == ')';
    assert ThisSection[25] == ' ' && ThisSection[26] == 'o';
    assert SkipWs(ThisSection, 26) == 26;
    assert SkipWs(ThisSection, 25) == 26;
    DigitMarkerWritten(ThisSection, 22, '2');
  }

  lemma ThisSectionEnd()
    ensures AndPhrase(ThisSection, 26).None?
  {
    assert SkipWs(ThisSection, 26) == 26;
    NotStartsAt(ThisSection, 26, ",", 0);
    NotStartsAt(ThisSection, 26, "and", 0);
    NotStartsAt(ThisSection, 26, "or", 1);
  }

  lemma ThisSectionTail()
    ensures TailItems(ThisSection, 18) == ([Chain("", "2", "", "", 22, 26)], 26)
  {
    var item := Chain("", "2", "", "", 22, 26);
    ThisSectionAnd();
    ThisSectionItemWritten();
    assert ChainEnd(ThisSection, 25, 2, ["2"]) == 26;
    assert ChainOf(["2"], 2, 22, 26) == item;
    TailItemComplete(ThisSection, 18, 22, 22, 2, ["2"], 26);
    ThisSectionEnd();
    TailItemsStop(ThisSection, 26);
    assert TailItems(ThisSection, 26) == ([], 26);
    assert [item] + [] == [item];
  }

  lemma ThisSectionOpens()
    ensures SkipWs(ThisSection, 0) == 0 && StartsAt(ThisSection, 0, "paragraphs")
  {
  }

  /** The whole phrase: a head of two levels and one tail item. */
  lemma ThisSectionPhrase()
    ensures ParseAnyCitation(ThisSection, 0) ==
            Ok(MultipleParagraphs(Chain("c", "1", "", "", 11, 18), [Chain("", "2", "", "", 22, 26)]), 26)
  {
    ThisSectionOpens();
    ThisSectionHead();
    ThisSectionTail();
    MultipleParagraphsComplete(ThisSection, 0, 0, Chain("c", "1", "", "", 11, 18), 18,
                               [Chain("", "2", "", "", 22, 26)], 26);
  }

  lemma ThisSectionQuietEnd()
    ensures |ThisSection| == 41 && QuietBetween(ThisSection, 26, 41)
  {
    QuietWithout(ThisSection, 26, 41);
  }

  /** The scanner finds the phrase at the start and nothing after it. */
  lemma ThisSectionScan()
    ensures Scan(ThisSection, 0) ==
            [Match(MultipleParagraphs(Chain("c", "1", "", "", 11, 18), [Chain("", "2", "", "", 22, 26)]), 0, 26)]
  {
    var m := Match(MultipleParagraphs(Chain("c", "1", "", "", 11, 18), [Chain("", "2", "", "", 22, 26)]), 0, 26);
    ThisSectionPhrase();
    ScanFinds(ThisSection, 0, m.phrase, 26);
    ThisSectionQuietEnd();
    ScanSkips(ThisSection, 26, 41);
    ScanAtEnd(ThisSection);
    assert [m] + [] == [m];
  }

  /** The head record spans the head chain and keeps part, section and both
      levels; the tail record keeps level 1 and replaces level 2. */
  lemma ThisSectionLabels()
    ensures var first := HeadLabel("1005", "6", Some(Chain("c", "1", "", "", 11, 18)));
            Present(first) == ["1005", "6", "c", "1"] &&
            Present(Splice(first, Chain("", "2", "", "", 22, 26))) == ["1005", "6", "c", "2"]
  {
    var first := HeadLabel("1005", "6", Some(Chain("c", "1", "", "", 11, 18)));
    var l1, l2 := ["1005", "6", "c", "1"], ["1005", "6", "c", "2"];
    assert first == l1 + ["", ""];
    assert Splice(first, Chain("", "2", "", "", 22, 26)) == l2 + ["", ""];
    PresentConcat(l1, ["", ""]);
    PresentConcat(l2, ["", ""]);
    PresentWithoutBlanks(l1);
    PresentWithoutBlanks(l2);
    assert Present(["", ""]) == [];
  }

  lemma ThisSectionRecords()
    ensures var m := Match(MultipleParagraphs(Chain("c", "1", "", "", 11, 18), [Chain("", "2", "", "", 22, 26)]), 0, 26);
            Records([m], Some(("1005", "6"))) ==
            [Citation([(11, 18)], ["1005", "6", "c", "1"]), Citation([(22, 26)], ["1005", "6", "c", "2"])]
  {
    var head, item := Chain("c", "1", "", "", 11, 18), Chain("", "2", "", "", 22, 26);
    var m := Match(MultipleParagraphs(head, [item]), 0, 26);
    RecordsOne(m, Some(("1005", "6")));
    ParagraphRecordsOne(head, item, 11, 26, "1005", "6");
    ThisSectionLabels();
  }

  lemma ThisSectionHeadTrimmed()
    ensures StripSpan(ThisSection, (11, 18)) == (11, 17)
  {
    assert ThisSection[11] == '(' && ThisSection[16] == ')' && ThisSection[17] == ' ';
    StripSpanExact(ThisSection, (11, 18), (11, 17));
  }

  lemma ThisSectionItemTrimmed()
    ensures StripSpan(ThisSection, (22, 26)) == (22, 25)
  {
    assert ThisSection[22] == '(' && ThisSection[24] == ')' && ThisSection[25] == ' ';
    StripSpanExact(ThisSection, (22, 26), (22, 25));
  }

  /** Trimming drops the blank before `and` and the blank before `of`. */
  lemma ThisSectionTrimmed()
    ensures StripAll(ThisSection, [Citation([(11, 18)], ["1005", "6", "c", "1"]),
                                   Citation([(22, 26)], ["1005", "6", "c", "2"])]) ==
            [Citation([(11, 17)], ["1005", "6", "c", "1"]), Citation([(22, 25)], ["1005", "6", "c", "2"])]
  {
    ThisSectionHeadTrimmed();
    ThisSectionItemTrimmed();
    StripPair(ThisSection, Citation([(11, 18)], ["1005", "6", "c", "1"]), Citation([(22, 26)], ["1005", "6", "c", "2"]),
              (11, 17), (22, 25));
  }

  /** `paragraphs (c)(1) and (2) of this section`, read in part 1005, section 6:
      the labels 1005-6-c-1 and 1005-6-c-2, over `(c)(1)` and `(2)`. */
  lemma ThisSectionExtract()
    ensures Extract(ThisSection, Some(("1005", "6"))) ==
            [Citation([(11, 17)], ["1005", "6", "c", "1"]), Citation([(22, 25)], ["1005", "6", "c", "2"])]
  {
    ThisSectionScan();
    ThisSectionRecords();
    ThisSectionTrimmed();
  }

  // -------------------- "the requirements of paragraphs (c)(3), ..., and (f) ..."

  /** A list of five paragraphs, joined by commas and a final `, and`. The
      sentence is written in pieces, so that each character is found by a
      short walk down the pieces. */
  const Requirements: Text :=
    "the requirements of " + "paragraphs (c)(3), " + "(d)(2), (e)(1), " + "(e)(3), and (f) " + "of this section"

  lemma RequirementsHeadWritten()
    ensures SkipWs(Requirements, 30) == 31 && ChainWritten(Requirements, 31, 1, ["c", "3"])
    ensures WrittenLen(["c", "3"]) == 6 && ChainEnd(Requirements, 37, 1, ["c", "3"]) == 37
    ensures ChainOf(["c", "3"], 1, 31, 37) == Chain("c", "3", "", "", 31, 37)
  {
    assert SkipWs(Requirements, 30) == 31;
    MarkerPairWritten(Requirements, 31, 'c', '3');
  }

  lemma RequirementsHead()
    ensures AnyDepth(Requirements, 30) == Ok(Chain("c", "3", "", "", 31, 37), 37)
  {
    RequirementsHeadWritten();
    AnyDepthComplete(Requirements, 30, 31, 1, ["c", "3"], 37);
  }

  lemma RequirementsLastWritten()
    ensures ChainWritten(Requirements, 67, 1, ["f"]) && WrittenLen(["f"]) == 3
    ensures ChainEnd(Requirements, 70, 1, ["f"]) == 71
    ensures ChainOf(["f"], 1, 67, 71) == Chain("f", "", "", "", 67, 71)
  {
    assert Spells(Requirements, 67, ["f"]);
    assert SkipWs(Requirements, 70) == 71;
  }

  lemma RequirementsEnd()
    ensures TailItems(Requirements, 71) == ([], 71)
  {
    assert SkipWs(Requirements, 71) == 71;
    NotStartsAt(Requirements, 71, ",", 0);
    NotStartsAt(Requirements, 71, "and", 0);
    NotStartsAt(Requirements, 71, "or", 1);
    TailItemsStop(Requirements, 71);
  }

  lemma RequirementsLastAfter()
    ensures AndPhrase(Requirements, 61) == Some(66) && SkipWs(Requirements, 66) == 67
    ensures ChainWritten(Requirements, 67, 1, ["f"]) && WrittenLen(["f"]) == 3
    ensures ChainEnd(Requirements, 70, 1, ["f"]) == 71
    ensures ChainOf(["f"], 1, 67, 71) == Chain("f", "", "", "", 67, 71)
  {
    CommaAndConnector(Requirements, 61);
    RequirementsLastWritten();
  }

  lemma RequirementsTail61()
    ensures TailItems(Requirements, 61) == ([Chain("f", "", "", "", 67, 71)], 71)
  {
    var f := Chain("f", "", "", "", 67, 71);
    RequirementsLastAfter();
    TailItemComplete(Requirements, 61, 66, 67, 1, ["f"], 71);
    RequirementsEnd();
    assert [f] + [] == [f];
  }

  lemma RequirementsTail53()
    ensures TailItems(Requirements, 53) ==
            ([Chain("e", "3", "", "", 55, 61), Chain("f", "", "", "", 67, 71)], 71)
  {
    var e3, f := Chain("e", "3", "", "", 55, 61), Chain("f", "", "", "", 67, 71);
    CommaItem(Requirements, 53, 'e', '3');
    RequirementsTail61();
    PrependToOne(e3, f);
  }

  lemma RequirementsTail45()
    ensures TailItems(Requirements, 45) ==
            ([Chain("e", "1", "", "", 47, 53), Chain("e", "3", "", "", 55, 61), Chain("f", "", "", "", 67, 71)], 71)
  {
    var e1, e3, f := Chain("e", "1", "", "", 47, 53), Chain("e", "3", "", "", 55, 61), Chain("f", "", "", "", 67, 71);
    CommaItem(Requirements, 45, 'e', '1');
    RequirementsTail53();
    PrependToTwo(e1, e3, f);
  }

  lemma RequirementsTail()
    ensures TailItems(Requirements, 37) ==
            ([Chain("d", "2", "", "", 39, 45), Chain("e", "1", "", "", 47, 53),
              Chain("e", "3", "", "", 55, 61), Chain("f", "", "", "", 67, 71)], 71)
  {
    var d2, e1 := Chain("d", "2", "", "", 39, 45), Chain("e", "1", "", "", 47, 53);
    var e3, f := Chain("e", "3", "", "", 55, 61), Chain("f", "", "", "", 67, 71);
    CommaItem(Requirements, 37, 'd', '2');
    RequirementsTail45();
    PrependToThree(d2, e1, e3, f);
  }

  lemma RequirementsOpens()
    ensures SkipWs(Requirements, 20) == 20 && StartsAt(Requirements, 20, "paragraphs")
  {
    StartsAtChars(Requirements, 20, "paragraphs");
  }

  /** The whole phrase, from `paragraphs` to the blank before `of`. */
  lemma RequirementsPhrase()
    ensures ParseAnyCitation(Requirements, 20) ==
            Ok(MultipleParagraphs(Chain("c", "3", "", "", 31, 37),
                                  [Chain("d", "2", "", "", 39, 45), Chain("e", "1", "", "", 47, 53),
                                   Chain("e", "3", "", "", 55, 61), Chain("f", "", "", "", 67, 71)]), 71)
  {
    RequirementsOpens();
    RequirementsHead();
    RequirementsTail();
    MultipleParagraphsComplete(Requirements, 20, 20, Chain("c", "3", "", "", 31, 37), 37,
                               [Chain("d", "2", "", "", 39, 45), Chain("e", "1", "", "", 47, 53),
                                Chain("e", "3", "", "", 55, 61), Chain("f", "", "", "", 67, 71)], 71);
  }

  lemma RequirementsQuietBefore()
    ensures |Requirements| == 86 && !IsWhite(Requirements[20]) && QuietBetween(Requirements, 0, 20)
  {
    QuietWithout(Requirements, 0, 20);
  }

  lemma RequirementsQuietAfter()
    ensures |Requirements| == 86 && QuietBetween(Requirements, 71, 86)
  {
    QuietWithout(Requirements, 71, 86);
  }

  /** The scanner passes over `the requirements of`, finds the phrase, and
      finds nothing in `of this section`. */
  lemma RequirementsScan()
    ensures Scan(Requirements, 0) ==
            [Match(MultipleParagraphs(Chain("c", "3", "", "", 31, 37),
                                      [Chain("d", "2", "", "", 39, 45), Chain("e", "1", "", "", 47, 53),
                                       Chain("e", "3", "", "", 55, 61), Chain("f", "", "", "", 67, 71)]), 20, 71)]
  {
    var ph := MultipleParagraphs(Chain("c", "3", "", "", 31, 37),
                                 [Chain("d", "2", "", "", 39, 45), Chain("e", "1", "", "", 47, 53),
                                  Chain("e", "3", "", "", 55, 61), Chain("f", "", "", "", 67, 71)]);
    RequirementsQuietBefore();
    RequirementsQuietAfter();
    ScanSkips(Requirements, 0, 20);
    RequirementsPhrase();
    ScanFinds(Requirements, 20, ph, 71);
    ScanSkips(Requirements, 71, 86);
    ScanAtEnd(Requirements);
    assert [Match(ph, 20, 71)] + [] == [Match(ph, 20, 71)];
  }

  /** Each item restates level 1, so each label holds that item's levels only. */
  lemma RequirementsLabels()
    ensures Present(HeadLabel("1005", "6", Some(Chain("c", "3", "", "", 31, 37)))) == ["1005", "6", "c", "3"]
    ensures Present(ItemLabel("1005", "6", Chain("d", "2", "", "", 39, 45))) == ["1005", "6", "d", "2"]
    ensures Present(ItemLabel("1005", "6", Chain("e", "1", "", "", 47, 53))) == ["1005", "6", "e", "1"]
    ensures Present(ItemLabel("1005", "6", Chain("e", "3", "", "", 55, 61))) == ["1005", "6", "e", "3"]
    ensures Present(ItemLabel("1005", "6", Chain("f", "", "", "", 67, 71))) == ["1005", "6", "f"]
  {
    assert HeadLabel("1005", "6", Some(Chain("c", "3", "", "", 31, 37))) == ["1005", "6", "c", "3", "", ""];
    PresentOfTwo("1005", "6", "c", "3");
    PresentOfTwo("1005", "6", "d", "2");
    PresentOfTwo("1005", "6", "e", "1");
    PresentOfTwo("1005", "6", "e", "3");
    PresentOfOne("1005", "6", "f");
  }

  /** The five records, in the order of the list, before trimming. */
  lemma RequirementsRecords()
    ensures var m := Match(MultipleParagraphs(Chain("c", "3", "", "", 31, 37),
                                              [Chain("d", "2", "", "", 39, 45), Chain("e", "1", "", "", 47, 53),
                                               Chain("e", "3", "", "", 55, 61), Chain("f", "", "", "", 67, 71)]), 20, 71);
            Records([m], Some(("1005", "6"))) ==
            [Citation([(31, 37)], ["1005", "6", "c", "3"]), Citation([(39, 45)], ["1005", "6", "d", "2"]),
             Citation([(47, 53)], ["1005", "6", "e", "1"]), Citation([(55, 61)], ["1005", "6", "e", "3"]),
             Citation([(67, 71)], ["1005", "6", "f"])]
  {
    var head := Chain("c", "3", "", "", 31, 37);
    var d2, e1 := Chain("d", "2", "", "", 39, 45), Chain("e", "1", "", "", 47, 53);
    var e3, f := Chain("e", "3", "", "", 55, 61), Chain("f", "", "", "", 67, 71);
    var m := Match(MultipleParagraphs(head, [d2, e1, e3, f]), 20, 71);
    RecordsOne(m, Some(("1005", "6")));
    assert MatchRecords(m, Some(("1005", "6"))) == ParagraphRecords(Some(head), [d2, e1, e3, f], 31, 71, "1005", "6");
    FourItemRecords(head, d2, e1, e3, f, 31, 71, "1005", "6");
    RequirementsLabels();
  }

  /** Four spans end on `)` and are kept. */
  lemma RequirementsSpansKept()
    ensures StripSpan(Requirements, (31, 37)) == (31, 37) && StripSpan(Requirements, (39, 45)) == (39, 45)
    ensures StripSpan(Requirements, (47, 53)) == (47, 53) && StripSpan(Requirements, (55, 61)) == (55, 61)
  {
    RequirementsMarkerKept(31);
    RequirementsMarkerKept(39);
    RequirementsMarkerKept(47);
    RequirementsMarkerKept(55);
  }

  /** Each six-character marker pair `(x)(y)` of the list is kept whole. */
  lemma RequirementsMarkerKept(a: nat)
    requires a == 31 || a == 39 || a == 47 || a == 55
    ensures StripSpan(Requirements, (a, a + 6)) == (a, a + 6)
  {
    assert Requirements[a] == '(' && Requirements[a + 5] == ')';
    MarkersKept(Requirements, a, a + 6);
  }

  /** The last one loses its trailing blank. */
  lemma RequirementsLastSpan()
    ensures StripSpan(Requirements, (67, 71)) == (67, 70)
  {
    assert Requirements[67] == '(' && Requirements[69] == ')' && Requirements[70] == ' ';
    StripSpanExact(Requirements, (67, 71), (67, 70));
  }

  lemma RequirementsTrimmed()
    ensures StripAll(Requirements,
                     [Citation([(31, 37)], ["1005", "6", "c", "3"]), Citation([(39, 45)], ["1005", "6", "d", "2"]),
                      Citation([(47, 53)], ["1005", "6", "e", "1"]), Citation([(55, 61)], ["1005", "6", "e", "3"]),
                      Citation([(67, 71)], ["1005", "6", "f"])]) ==
            [Citation([(31, 37)], ["1005", "6", "c", "3"]), Citation([(39, 45)], ["1005", "6", "d", "2"]),
             Citation([(47, 53)], ["1005", "6", "e", "1"]), Citation([(55, 61)], ["1005", "6", "e", "3"]),
             Citation([(67, 70)], ["1005", "6", "f"])]
  {
    RequirementsSpansKept();
    RequirementsLastSpan();
    StripFive(Requirements,
              [Citation([(31, 37)], ["1005", "6", "c", "3"]), Citation([(39, 45)], ["1005", "6", "d", "2"]),
               Citation([(47, 53)], ["1005", "6", "e", "1"]), Citation([(55, 61)], ["1005", "6", "e", "3"]),
               Citation([(67, 71)], ["1005", "6", "f"])],
              [(31, 37), (39, 45), (47, 53), (55, 61), (67, 70)]);
  }

  /** `the requirements of paragraphs (c)(3), (d)(2), (e)(1), (e)(3), and
      (f) of this section`, read in part 1005, section 6: five labels, in
      the order written, each over its own markers. */
  lemma RequirementsExtract()
    ensures Extract(Requirements, Some(("1005", "6"))) ==
            [Citation([(31, 37)], ["1005", "6", "c", "3"]), Citation([(39, 45)], ["1005", "6", "d", "2"]),
             Citation([(47, 53)], ["1005", "6", "e", "1"]), Citation([(55, 61)], ["1005", "6", "e", "3"]),
             Citation([(67, 70)], ["1005", "6", "f"])]
  {
    RequirementsScan();
    RequirementsRecords();
    RequirementsTrimmed();
  }

  // ----------------------- "(a) Solicited issuance. Except as provided in ..."

  /** A paragraph that opens with its own marker and cites one other. */
  const Labeled: Text :=
    "(a) Solicited issuance. " + "Except as provided in " + "paragraph (b) of this " + "section"

  lemma LabeledOpens()
    ensures SkipWs(Labeled, 46) == 46 && StartsAt(Labeled, 46, "paragraph")
    ensures !StartsAt(Labeled, 46, "paragraphs")
  {
    StartsAtChars(Labeled, 46, "paragraph");
    NotStartsAt(Labeled, 46, "paragraphs", 9);
  }

  lemma LabeledHeadWritten()
    ensures SkipWs(Labeled, 55) == 56 && ChainWritten(Labeled, 56, 1, ["b"]) && WrittenLen(["b"]) == 3
    ensures ChainEnd(Labeled, 59, 1, ["b"]) == 60
    ensures ChainOf(["b"], 1, 56, 60) == Chain("b", "", "", "", 56, 60)
  {
    assert SkipWs(Labeled, 55) == 56 && SkipWs(Labeled, 59) == 60;
    MarkerWritten(Labeled, 56, 'b', 60);
  }

  lemma LabeledHead()
    ensures AnyDepth(Labeled, 55) == Ok(Chain("b", "", "", "", 56, 60), 60)
  {
    LabeledHeadWritten();
    AnyDepthComplete(Labeled, 55, 56, 1, ["b"], 60);
  }

  lemma LabeledPhrase()
    ensures ParseAnyCitation(Labeled, 46) == Ok(SingleParagraph(Chain("b", "", "", "", 56, 60)), 60)
  {
    LabeledOpens();
    LabeledHead();
    SingleParagraphComplete(Labeled, 46, 46, Chain("b", "", "", "", 56, 60), 60);
  }

  /** The leading `(a)` opens no phrase, and neither do `Except` and `provided`. */
  lemma LabeledQuietBefore()
    ensures |Labeled| == 75 && !IsWhite(Labeled[46]) && QuietBetween(Labeled, 0, 46)
  {
    QuietWithout(Labeled, 0, 46);
  }

  lemma LabeledQuietAfter()
    ensures |Labeled| == 75 && QuietBetween(Labeled, 60, 75)
  {
    QuietWithout(Labeled, 60, 75);
  }

  lemma LabeledScan()
    ensures Scan(Labeled, 0) == [Match(SingleParagraph(Chain("b", "", "", "", 56, 60)), 46, 60)]
  {
    var m := Match(SingleParagraph(Chain("b", "", "", "", 56, 60)), 46, 60);
    LabeledQuietBefore();
    ScanSkips(Labeled, 0, 46);
    LabeledPhrase();
    ScanFinds(Labeled, 46, m.phrase, 60);
    LabeledQuietAfter();
    ScanSkips(Labeled, 60, 75);
    ScanAtEnd(Labeled);
    assert [m] + [] == [m];
  }

  lemma LabeledRecords()
    ensures Records([Match(SingleParagraph(Chain("b", "", "", "", 56, 60)), 46, 60)], Some(("1005", "6"))) ==
            [Citation([(56, 60)], ["1005", "6", "b"])]
  {
    var b := Chain("b", "", "", "", 56, 60);
    var m := Match(SingleParagraph(b), 46, 60);
    RecordsOne(m, Some(("1005", "6")));
    assert MatchRecords(m, Some(("1005", "6"))) == ParagraphRecords(Some(b), [], 56, 60, "1005", "6");
    ParagraphRecordsAlone(b, 56, 60, "1005", "6");
    assert HeadLabel("1005", "6", Some(b)) == ["1005", "6", "b", "", "", ""];
    PresentOfOne("1005", "6", "b");
  }

  lemma LabeledTrimmed()
    ensures StripAll(Labeled, [Citation([(56, 60)], ["1005", "6", "b"])]) == [Citation([(56, 59)], ["1005", "6", "b"])]
  {
    assert Labeled[56] == '(' && Labeled[58] == ')' && Labeled[59] == ' ';
    StripSpanExact(Labeled, (56, 60), (56, 59));
    StripOne(Labeled, Citation([(56, 60)], ["1005", "6", "b"]), (56, 59));
  }

  /** `(a) Solicited issuance. Except as provided in paragraph (b) of this
      section`, read in part 1005, section 6: the paragraph's own label
      `(a)` is not a citation; one record, 1005-6-b, over `(b)`. */
  lemma LabeledExtract()
    ensures Extract(Labeled, Some(("1005", "6"))) == [Citation([(56, 59)], ["1005", "6", "b"])]
  {
    LabeledScan();
    LabeledRecords();
    LabeledTrimmed();
  }

  // ------------------------ a section sign, "1005.10(a) and (d)"

  /** A text opening with a single section sign and a blank finds the
      section parsed after the sign. */
  lemma SignThenSection(text: Text, sec: Section, q: nat)
    requires 2 <= |text| && text[0] == '§' && text[1] == ' '
    requires ParseSingleSection(text, 1) == Ok(sec, q)
    ensures ParseAnyCitation(text, 0) == Ok(SingleSection(sec), q)
  {
    assert SkipWs(text, 0) == 0;
    SingleSectionComplete(text, 0, 0, sec, q);
  }

  const SectionSign: Text := "§"

  /** One section of another part, with a head paragraph and one tail item. */
  const SectionWithTail: Text := SectionSign + " 1005.10(a) and (d)"

  lemma SectionWithTailNumber()
    ensures |SectionWithTail| == 20 && SkipWs(SectionWithTail, 1) == 2 && SkipWs(SectionWithTail, 9) == 9
    ensures SectionNumberWritten(SectionWithTail, 2, "1005", "10")
  {
    assert SpellsWord(SectionWithTail, 2, "1005") && SpellsWord(SectionWithTail, 7, "10");
  }

  lemma SectionWithTailHeadWritten()
    ensures ChainWritten(SectionWithTail, 9, 1, ["a"]) && WrittenLen(["a"]) == 3
    ensures ChainEnd(SectionWithTail, 12, 1, ["a"]) == 13 && SkipWs(SectionWithTail, 13) == 13
    ensures ChainOf(["a"], 1, 9, 13) == Chain("a", "", "", "", 9, 13)
  {
    assert SkipWs(SectionWithTail, 12) == 13;
    MarkerWritten(SectionWithTail, 9, 'a', 13);
  }

  lemma SectionWithTailAnd()
    ensures AndPhrase(SectionWithTail, 13) == Some(17) && SkipWs(SectionWithTail, 17) == 17
  {
    assert SkipWs(SectionWithTail, 13) == 13 && SkipWs(SectionWithTail, 16) == 17;
    NotStartsAt(SectionWithTail, 13, ",", 0);
    StartsAtChars(SectionWithTail, 13, "and");
    NotStartsAt(SectionWithTail, 17, "and", 0);
  }

  lemma SectionWithTailItemWritten()
    ensures ChainWritten(SectionWithTail, 17, 1, ["d"]) && WrittenLen(["d"]) == 3
    ensures ChainEnd(SectionWithTail, 20, 1, ["d"]) == 20
    ensures ChainOf(["d"], 1, 17, 20) == Chain("d", "", "", "", 17, 20)
  {
    assert |SectionWithTail| == 20 && SkipWs(SectionWithTail, 20) == 20;
    MarkerWritten(SectionWithTail, 17, 'd', 20);
  }

  lemma SectionWithTailEnd()
    ensures TailItems(SectionWithTail, 20) == ([], 20)
  {
    assert |SectionWithTail| == 20 && SkipWs(SectionWithTail, 20) == 20;
    NotStartsAt(SectionWithTail, 20, ",", 0);
    NotStartsAt(SectionWithTail, 20, "and", 0);
    NotStartsAt(SectionWithTail, 20, "or", 0);
    TailItemsStop(SectionWithTail, 20);
  }

  lemma SectionWithTailTail()
    ensures TailItems(SectionWithTail, 13) == ([Chain("d", "", "", "", 17, 20)], 20)
  {
    var d := Chain("d", "", "", "", 17, 20);
    SectionWithTailAnd();
    SectionWithTailItemWritten();
    TailItemComplete(SectionWithTail, 13, 17, 17, 1, ["d"], 20);
    SectionWithTailEnd();
    assert [d] + [] == [d];
  }

  lemma SectionWithTailSection()
    ensures ParseSingleSection(SectionWithTail, 1) ==
            Ok(Section("1005", "10", Some(Chain("a", "", "", "", 9, 13)), [Chain("d", "", "", "", 17, 20)], 2, 20), 20)
  {
    SectionWithTailNumber();
    SectionNumberComplete(SectionWithTail, 1, 2, "1005", "10", 9);
    SectionWithTailHeadWritten();
    SectionParagraphsHead(SectionWithTail, "1005", "10", 2, 9, ["a"]);
    SectionWithTailTail();
  }

  lemma SectionWithTailPhrase()
    ensures |SectionWithTail| == 20 && SectionWithTail[0] == '§'
    ensures ParseAnyCitation(SectionWithTail, 0) ==
            Ok(SingleSection(Section("1005", "10", Some(Chain("a", "", "", "", 9, 13)),
                                     [Chain("d", "", "", "", 17, 20)], 2, 20)), 20)
  {
    var sec := Section("1005", "10", Some(Chain("a", "", "", "", 9, 13)), [Chain("d", "", "", "", 17, 20)], 2, 20);
    SectionWithTailSection();
    assert SectionWithTail[0] == '§' && SectionWithTail[1] == ' ';
    SignThenSection(SectionWithTail, sec, 20);
  }

  lemma SectionWithTailScan()
    ensures Scan(SectionWithTail, 0) ==
            [Match(SingleSection(Section("1005", "10", Some(Chain("a", "", "", "", 9, 13)),
                                         [Chain("d", "", "", "", 17, 20)], 2, 20)), 0, 20)]
  {
    var sec := Section("1005", "10", Some(Chain("a", "", "", "", 9, 13)), [Chain("d", "", "", "", 17, 20)], 2, 20);
    var m := Match(SingleSection(sec), 0, 20);
    SectionWithTailPhrase();
    ScanFinds(SectionWithTail, 0, m.phrase, 20);
    ScanAtEnd(SectionWithTail);
    assert [m] + [] == [m];
  }

  /** The section's own part and section label both records; the tail
      item replaces level 1. */
  lemma SectionWithTailRecords()
    ensures var sec := Section("1005", "10", Some(Chain("a", "", "", "", 9, 13)), [Chain("d", "", "", "", 17, 20)], 2, 20);
            Records([Match(SingleSection(sec), 0, 20)], Some(("1005", "6"))) ==
            [Citation([(2, 13)], ["1005", "10", "a"]), Citation([(17, 20)], ["1005", "10", "d"])]
  {
    var a, d := Chain("a", "", "", "", 9, 13), Chain("d", "", "", "", 17, 20);
    var sec := Section("1005", "10", Some(a), [d], 2, 20);
    var m := Match(SingleSection(sec), 0, 20);
    RecordsOne(m, Some(("1005", "6")));
    assert MatchRecords(m, Some(("1005", "6"))) == ParagraphRecords(Some(a), [d], 2, 20, "1005", "10");
    ParagraphRecordsOne(a, d, 2, 20, "1005", "10");
    var first := HeadLabel("1005", "10", Some(a));
    assert first == ["1005", "10", "a", "", "", ""];
    assert Splice(first, d) == ["1005", "10", "d", "", "", ""];
    PresentOfOne("1005", "10", "a");
    PresentOfOne("1005", "10", "d");
  }

  lemma SectionWithTailTrimmed()
    ensures StripAll(SectionWithTail, [Citation([(2, 13)], ["1005", "10", "a"]), Citation([(17, 20)], ["1005", "10", "d"])]) ==
            [Citation([(2, 12)], ["1005", "10", "a"]), Citation([(17, 20)], ["1005", "10", "d"])]
  {
    assert SectionWithTail[2] == '1' && SectionWithTail[11] == ')' && SectionWithTail[12] == ' ';
    StripSpanExact(SectionWithTail, (2, 13), (2, 12));
    MarkersKept(SectionWithTail, 17, 20);
    StripPair(SectionWithTail, Citation([(2, 13)], ["1005", "10", "a"]), Citation([(17, 20)], ["1005", "10", "d"]),
              (2, 12), (17, 20));
  }

  /** A section sign, then `1005.10(a) and (d)`, read in part 1005, section
      6: the section's own number labels both records, 1005-10-a over
      `1005.10(a)` and 1005-10-d over `(d)`. */
  lemma SectionWithTailExtract()
    ensures Extract(SectionWithTail, Some(("1005", "6"))) ==
            [Citation([(2, 12)], ["1005", "10", "a"]), Citation([(17, 20)], ["1005", "10", "d"])]
  {
    SectionWithTailScan();
    SectionWithTailRecords();
    SectionWithTailTrimmed();
  }

  // ---------------------------- two section signs, two sections with heads

  /** Two sections of another part, each with a head chain; the second
      number is followed by a blank before its chain. */
  const TwoSections: Text :=
    "set forth in " + SectionSign + SectionSign + " 1005.6(b)(3) and " + "1005.11 (b)(1)(i) from 60 days"

  lemma TwoSectionsFirstNumber()
    ensures |TwoSections| == 63 && SkipWs(TwoSections, 15) == 16 && SkipWs(TwoSections, 22) == 22
    ensures SectionNumberWritten(TwoSections, 16, "1005", "6")
  {
    assert SpellsWord(TwoSections, 16, "1005") && SpellsWord(TwoSections, 21, "6");
  }

  lemma TwoSectionsFirstHeadWritten()
    ensures ChainWritten(TwoSections, 22, 1, ["b", "3"]) && WrittenLen(["b", "3"]) == 6
    ensures ChainEnd(TwoSections, 28, 1, ["b", "3"]) == 29 && SkipWs(TwoSections, 29) == 29
    ensures ChainOf(["b", "3"], 1, 22, 29) == Chain("b", "3", "", "", 22, 29)
  {
    assert SkipWs(TwoSections, 28) == 29;
    MarkerPairAlone(TwoSections, 22, 'b', '3', 29);
  }

  /** `and` is a connector; no second `and` follows it. */
  lemma TwoSectionsAnd()
    ensures AndPhrase(TwoSections, 29) == Some(33) && SkipWs(TwoSections, 33) == 33
  {
    assert TwoSections[29] == 'a' && TwoSections[30] == 'n' && TwoSections[31] == 'd';
    assert TwoSections[32] == ' ' && TwoSections[33] == '1';
    AndConnector(TwoSections, 29);
  }

  /** After `and` comes a section number, not a marker: the first
      section has no tail. */
  lemma TwoSectionsFirstTail()
    ensures TailItems(TwoSections, 29) == ([], 29)
  {
    TwoSectionsAnd();
    AnyDepthNeedsMarker(TwoSections, 33);
    TailItemsStop(TwoSections, 29);
  }

  lemma TwoSectionsFirst()
    ensures ParseSingleSection(TwoSections, 15) ==
            Ok(Section("1005", "6", Some(Chain("b", "3", "", "", 22, 29)), [], 16, 29), 29)
  {
    TwoSectionsFirstNumber();
    SectionNumberComplete(TwoSections, 15, 16, "1005", "6", 22);
    TwoSectionsFirstHeadWritten();
    SectionParagraphsHead(TwoSections, "1005", "6", 16, 22, ["b", "3"]);
    TwoSectionsFirstTail();
  }

  lemma TwoSectionsSecondSpelled()
    ensures |TwoSections| == 63 && TwoSections[37] == '.' && TwoSections[40] == ' '
    ensures StartsAt(TwoSections, 33, "1005") && StartsAt(TwoSections, 38, "11")
  {
    StartsAtChars(TwoSections, 33, "1005");
    StartsAtChars(TwoSections, 38, "11");
  }

  lemma TwoSectionsSecondNumber()
    ensures SectionNumberWritten(TwoSections, 33, "1005", "11")
  {
    TwoSectionsSecondSpelled();
    NumberWritten(TwoSections, 33, "1005", "11");
  }

  lemma TwoSectionsSecondBlank()
    ensures SkipWs(TwoSections, 40) == 41 && SkipWs(TwoSections, 41) == 41
  {
  }

  lemma TwoSectionsSecondHeadWritten()
    ensures ChainWritten(TwoSections, 41, 1, ["b", "1", "i"]) && WrittenLen(["b", "1", "i"]) == 9
    ensures ChainEnd(TwoSections, 50, 1, ["b", "1", "i"]) == 51 && SkipWs(TwoSections, 51) == 51
    ensures ChainOf(["b", "1", "i"], 1, 41, 51) == Chain("b", "1", "i", "", 41, 51)
  {
    assert SkipWs(TwoSections, 50) == 51;
    MarkerTripleAlone(TwoSections, 41, 'b', '1', 'i', 51);
  }

  /** `from` is no connector: nothing follows the second section. */
  lemma TwoSectionsNoConnector()
    ensures AndPhrase(TwoSections, 51).None?
  {
    assert SkipWs(TwoSections, 51) == 51;
    NotStartsAt(TwoSections, 51, ",", 0);
    NotStartsAt(TwoSections, 51, "and", 0);
    NotStartsAt(TwoSections, 51, "or", 0);
  }

  lemma TwoSectionsSecond()
    ensures ParseSingleSection(TwoSections, 33) ==
            Ok(Section("1005", "11", Some(Chain("b", "1", "i", "", 41, 51)), [], 33, 51), 51)
  {
    TwoSectionsSecondNumber();
    TwoSectionsSecondBlank();
    SectionNumberComplete(TwoSections, 33, 33, "1005", "11", 41);
    TwoSectionsSecondHeadWritten();
    SectionParagraphsHead(TwoSections, "1005", "11", 33, 41, ["b", "1", "i"]);
    TwoSectionsNoConnector();
    TailItemsStop(TwoSections, 51);
  }

  lemma TwoSectionsItems()
    ensures SectionItems(TwoSections, 29) ==
            ([Section("1005", "11", Some(Chain("b", "1", "i", "", 41, 51)), [], 33, 51)], 51)
  {
    var g := Section("1005", "11", Some(Chain("b", "1", "i", "", 41, 51)), [], 33, 51);
    TwoSectionsAnd();
    TwoSectionsSecond();
    SectionItemComplete(TwoSections, 29, 33, g, 51);
    TwoSectionsNoConnector();
    SectionItemsStop(TwoSections, 51);
    assert [g] + [] == [g];
  }

  lemma TwoSectionsPhrase()
    ensures ParseAnyCitation(TwoSections, 13) ==
            Ok(MultipleSections(Section("1005", "6", Some(Chain("b", "3", "", "", 22, 29)), [], 16, 29),
                                [Section("1005", "11", Some(Chain("b", "1", "i", "", 41, 51)), [], 33, 51)]), 51)
  {
    var h := Section("1005", "6", Some(Chain("b", "3", "", "", 22, 29)), [], 16, 29);
    assert SkipWs(TwoSections, 13) == 13;
    StartsAtChars(TwoSections, 13, "§§");
    TwoSectionsFirst();
    TwoSectionsItems();
    MultipleSectionsComplete(TwoSections, 13, 13, h, 29,
                             [Section("1005", "11", Some(Chain("b", "1", "i", "", 41, 51)), [], 33, 51)], 51);
  }

  lemma TwoSectionsQuiet()
    ensures |TwoSections| == 63 && !IsWhite(TwoSections[13])
    ensures QuietBetween(TwoSections, 0, 13) && QuietBetween(TwoSections, 51, 63)
  {
    QuietWithout(TwoSections, 0, 13);
    QuietWithout(TwoSections, 51, 63);
  }

  lemma TwoSectionsScan()
    ensures Scan(TwoSections, 0) ==
            [Match(MultipleSections(Section("1005", "6", Some(Chain("b", "3", "", "", 22, 29)), [], 16, 29),
                                    [Section("1005", "11", Some(Chain("b", "1", "i", "", 41, 51)), [], 33, 51)]), 13, 51)]
  {
    var ph := MultipleSections(Section("1005", "6", Some(Chain("b", "3", "", "", 22, 29)), [], 16, 29),
                               [Section("1005", "11", Some(Chain("b", "1", "i", "", 41, 51)), [], 33, 51)]);
    TwoSectionsQuiet();
    ScanSkips(TwoSections, 0, 13);
    TwoSectionsPhrase();
    ScanFinds(TwoSections, 13, ph, 51);
    ScanSkips(TwoSections, 51, 63);
    ScanAtEnd(TwoSections);
    assert [Match(ph, 13, 51)] + [] == [Match(ph, 13, 51)];
  }

  /** Each section is labelled by its own number, whatever the caller's
      part and section. */
  lemma TwoSectionsRecords()
    ensures var h := Section("1005", "6", Some(Chain("b", "3", "", "", 22, 29)), [], 16, 29);
            var g := Section("1005", "11", Some(Chain("b", "1", "i", "", 41, 51)), [], 33, 51);
            Records([Match(MultipleSections(h, [g]), 13, 51)], Some(("1005", "6"))) ==
            [Citation([(16, 29)], ["1005", "6", "b", "3"]), Citation([(33, 51)], ["1005", "11", "b", "1", "i"])]
  {
    var h := Section("1005", "6", Some(Chain("b", "3", "", "", 22, 29)), [], 16, 29);
    var g := Section("1005", "11", Some(Chain("b", "1", "i", "", 41, 51)), [], 33, 51);
    var m := Match(MultipleSections(h, [g]), 13, 51);
    RecordsOne(m, Some(("1005", "6")));
    assert [h] + [g] == [h, g];
    TwoSectionsLabels(h, g);
  }

  lemma TwoSectionsLabels(h: Section, g: Section)
    requires h == Section("1005", "6", Some(Chain("b", "3", "", "", 22, 29)), [], 16, 29)
    requires g == Section("1005", "11", Some(Chain("b", "1", "i", "", 41, 51)), [], 33, 51)
    ensures SectionsRecords([h, g]) ==
            [Citation([(16, 29)], ["1005", "6", "b", "3"]), Citation([(33, 51)], ["1005", "11", "b", "1", "i"])]
  {
    SectionPairRecords(h, g);
    assert HeadLabel("1005", "6", h.head) == ["1005", "6", "b", "3", "", ""];
    assert HeadLabel("1005", "11", g.head) == ["1005", "11", "b", "1", "i", ""];
    PresentOfTwo("1005", "6", "b", "3");
    PresentOfThree("1005", "11", "b", "1", "i");
  }

  lemma TwoSectionsTrimmed()
    ensures StripAll(TwoSections, [Citation([(16, 29)], ["1005", "6", "b", "3"]),
                                   Citation([(33, 51)], ["1005", "11", "b", "1", "i"])]) ==
            [Citation([(16, 28)], ["1005", "6", "b", "3"]), Citation([(33, 50)], ["1005", "11", "b", "1", "i"])]
  {
    assert TwoSections[16] == '1' && TwoSections[27] == ')' && TwoSections[28] == ' ';
    assert TwoSections[33] == '1' && TwoSections[49] == ')' && TwoSections[50] == ' ';
    StripSpanExact(TwoSections, (16, 29), (16, 28));
    StripSpanExact(TwoSections, (33, 51), (33, 50));
    StripPair(TwoSections, Citation([(16, 29)], ["1005", "6", "b", "3"]),
              Citation([(33, 51)], ["1005", "11", "b", "1", "i"]), (16, 28), (33, 50));
  }

  /** `set forth in`, two section signs, `1005.6(b)(3) and 1005.11
      (b)(1)(i) from 60 days`, read in part 1005, section 6: two records,
      1005-6-b-3 over `1005.6(b)(3)` and 1005-11-b-1-i over the whole
      `1005.11 (b)(1)(i)`, blank included. */
  lemma TwoSectionsExtract()
    ensures Extract(TwoSections, Some(("1005", "6"))) ==
            [Citation([(16, 28)], ["1005", "6", "b", "3"]), Citation([(33, 50)], ["1005", "11", "b", "1", "i"])]
  {
    TwoSectionsScan();
    TwoSectionsRecords();
    TwoSectionsTrimmed();
  }
}
