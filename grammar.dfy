/*
 * The internal-citation grammar: a recursive-descent recogniser for
 * self-references in regulation text: "paragraph (a)(4)(iii)", or a `§`
 * before "1005.10(a) and (d)", or a `§§` before "1005.6(b)(3) and
 * 1005.11(b)(1)(i)".
 *
 * Every rule is a function from a text and a start position to a Parsed
 * result: the value it recognised and the position where it stopped.
 * As in the combinator library the Python grammar is written in, every
 * token first skips blanks, an optional part that is absent still consumes
 * the blanks in front of it, and a repetition stops after its last complete
 * item.
 */
module Grammar {

  type Text = seq<char>

  datatype Option<T> = None | Some(value: T)

  /** What a rule recognised and the position just after it, or a failure. */
  datatype Parsed<T> = Fail | Ok(value: T, next: nat)

  /** A chain of markers with the absolute span it was matched at.
      An absent level is the empty string. */
  datatype Chain = Chain(level1: string, level2: string, level3: string, level4: string,
                         start: nat, end: nat)

  /** `digits.digits` with an optional head chain (led by a depth-1 marker)
      and the tail items listed after it. */
  datatype Section = Section(part: string, section: string, head: Option<Chain>, tail: seq<Chain>,
                             start: nat, end: nat)

  /** The four top-level phrase shapes, one variant per alternative. */
  datatype Phrase =
    | MultipleSections(sHead: Section, sTail: seq<Section>)
    | SingleSection(withoutMarker: Section)
    | SingleParagraph(pHead: Chain)
    | MultipleParagraphs(pHead: Chain, pTail: seq<Chain>)

  /** One top-level match found by the scanner. */
  datatype Match = Match(phrase: Phrase, start: nat, end: nat)

  // ---------------------------------------------------------------- tokens

  /** The blanks skipped before every token. */
  predicate IsWhite(c: char) {
    c == ' ' || c == '\t' || c == '\n' || c == '\r'
  }

  function SkipWs(text: Text, pos: nat): (r: nat)
    requires pos <= |text|
    ensures pos <= r <= |text|
    ensures r == |text| || !IsWhite(text[r])
    decreases |text| - pos
  {
    if pos < |text| && IsWhite(text[pos]) then SkipWs(text, pos + 1) else pos
  }

  /** Only blanks are skipped. */
  lemma {:induction false} SkipWsBlanks(text: Text, pos: nat)
    requires pos <= |text|
    ensures forall k :: pos <= k < SkipWs(text, pos) ==> IsWhite(text[k])
    decreases |text| - pos
  {
    if pos < |text| && IsWhite(text[pos]) {
      SkipWsBlanks(text, pos + 1);
    }
  }

  lemma SkipWsAtNonWhite(text: Text, pos: nat)
    requires pos < |text| && !IsWhite(text[pos])
    ensures SkipWs(text, pos) == pos
  {
  }

  predicate StartsAt(text: Text, pos: nat, lit: string) {
    pos + |lit| <= |text| && text[pos..pos + |lit|] == lit
  }

  lemma StartsAtFirst(text: Text, pos: nat, lit: string)
    requires StartsAt(text, pos, lit) && lit != []
    ensures pos < |text| && text[pos] == lit[0]
  {
    assert text[pos..pos + |lit|][0] == text[pos];
  }

  /** A suppressed literal: blanks, then exactly `lit`. */
  function Literal(text: Text, pos: nat, lit: string): (r: Option<nat>)
    requires pos <= |text|
    ensures r.Some? <==> StartsAt(text, SkipWs(text, pos), lit)
    ensures r.Some? ==> r.value == SkipWs(text, pos) + |lit| <= |text|
  {
    var s := SkipWs(text, pos);
    if StartsAt(text, s, lit) then Some(s + |lit|) else None
  }

  datatype CharClass = Lower | Digit | Roman | Upper

  predicate InClass(c: char, cls: CharClass) {
    match cls
    case Lower => 'a' <= c <= 'z'
    case Digit => '0' <= c <= '9'
    case Roman => c in "ivxlcdm"
    case Upper => 'A' <= c <= 'Z'
  }

  predicate AllIn(s: string, cls: CharClass)
    decreases |s|
  {
    s == [] || (InClass(s[0], cls) && AllIn(s[1..], cls))
  }

  lemma {:induction false} AllInAt(s: string, cls: CharClass, k: nat)
    requires AllIn(s, cls) && k < |s|
    ensures InClass(s[k], cls)
    decreases k
  {
    if k > 0 {
      AllInAt(s[1..], cls, k - 1);
    }
  }

  /** The character class that fixes a marker's depth. */
  function DepthClass(depth: nat): CharClass
    requires 1 <= depth <= 4
  {
    if depth == 1 then Lower else if depth == 2 then Digit else if depth == 3 then Roman else Upper
  }

  function RunEnd(text: Text, pos: nat, cls: CharClass): (r: nat)
    requires pos <= |text|
    ensures pos <= r <= |text|
    ensures r == |text| || !InClass(text[r], cls)
    decreases |text| - pos
  {
    if pos < |text| && InClass(text[pos], cls) then RunEnd(text, pos + 1, cls) else pos
  }

  /** The run is made of characters of the class. */
  lemma {:induction false} RunEndAllIn(text: Text, pos: nat, cls: CharClass)
    requires pos <= |text|
    ensures AllIn(text[pos..RunEnd(text, pos, cls)], cls)
    decreases |text| - pos
  {
    if pos < |text| && InClass(text[pos], cls) {
      RunEndAllIn(text, pos + 1, cls);
      var e := RunEnd(text, pos, cls);
      assert text[pos..e][1..] == text[pos + 1..e];
    }
  }

  /** A word: blanks, then the longest non-empty run of characters of `cls`. */
  function Word(text: Text, pos: nat, cls: CharClass): (r: Parsed<string>)
    requires pos <= |text|
    ensures r.Fail? <==> (var s := SkipWs(text, pos); s == |text| || !InClass(text[s], cls))
    ensures r.Ok? ==> var s := SkipWs(text, pos);
                      s < r.next <= |text| && r.value == text[s..r.next] && AllIn(r.value, cls) &&
                      (r.next == |text| || !InClass(text[r.next], cls))
  {
    var s := SkipWs(text, pos);
    var e := RunEnd(text, s, cls);
    RunEndAllIn(text, s, cls);
    if e == s then Fail else Ok(text[s..e], e)
  }

  // --------------------------------------------------------------- markers

  /** `(` word `)` where the word is drawn from the class of `depth`. */
  function Marker(text: Text, pos: nat, depth: nat): (r: Parsed<string>)
    requires pos <= |text| && 1 <= depth <= 4
    ensures r.Ok? ==> r.value != [] && AllIn(r.value, DepthClass(depth))
    ensures r.Ok? ==> var s := SkipWs(text, pos);
                      s < r.next <= |text| && text[s] == '(' && text[r.next - 1] == ')'
  {
    match Literal(text, pos, "(")
    case None => Fail
    case Some(p) =>
      match Word(text, p, DepthClass(depth))
      case Fail => Fail
      case Ok(v, q) =>
        match Literal(text, q, ")")
        case None => Fail
        case Some(e) =>
          assert text[e - 1] == text[e - 1..e][0];
          Ok(v, e)
  }

  /** The word of a marker found is the text after the blanks that follow
      its `(`. */
  lemma MarkerWord(text: Text, pos: nat, depth: nat)
    requires pos <= |text| && 1 <= depth <= 4 && Marker(text, pos, depth).Ok?
    ensures var r := Marker(text, pos, depth);
            var w := SkipWs(text, SkipWs(text, pos) + 1);
            w + |r.value| < r.next && text[w..w + |r.value|] == r.value
  {
    var s := SkipWs(text, pos);
    assert Literal(text, pos, "(") == Some(s + 1);
  }

  function Levels(c: Chain): seq<string> {
    [c.level1, c.level2, c.level3, c.level4]
  }

  /** The depth of the first present level (4 when none is present). */
  function Lead(levels: seq<string>): nat
    requires |levels| == 4
  {
    if levels[0] != "" then 1 else if levels[1] != "" then 2 else if levels[2] != "" then 3 else 4
  }

  /** Four level slots holding a chain that starts at `depth` and continues
      one depth at a time: nothing above `depth`, no gap below it, and each
      present level written in its own class. */
  predicate Consecutive(levels: seq<string>, depth: nat) {
    |levels| == 4 && 1 <= depth <= 4 && levels[depth - 1] != "" &&
    Slot(levels, 0, depth) && Slot(levels, 1, depth) && Slot(levels, 2, depth) && Slot(levels, 3, depth)
  }

  /** Slot k (0-based) of a chain led at `depth`: blank above the lead,
      never present after a blank slot, and written in its own class. */
  predicate Slot(levels: seq<string>, k: nat, depth: nat)
    requires |levels| == 4 && k < 4
  {
    (k < depth - 1 ==> levels[k] == "") &&
    (1 <= depth <= k && levels[k - 1] == "" ==> levels[k] == "") &&
    (levels[k] != "" ==> AllIn(levels[k], DepthClass(k + 1)))
  }

  lemma ConsecutiveLead(levels: seq<string>, depth: nat)
    requires Consecutive(levels, depth)
    ensures Lead(levels) == depth
  {
  }

  /** A positioned chain: its span starts at its first `(` and lies in the text. */
  predicate ChainWF(text: Text, c: Chain) {
    c.start < c.end <= |text| && text[c.start] == '(' &&
    Consecutive(Levels(c), Lead(Levels(c)))
  }

  lemma ConsecutiveSingle(v: string, depth: nat)
    requires 1 <= depth <= 4 && v != [] && AllIn(v, DepthClass(depth))
    ensures Consecutive(["", "", "", ""][depth - 1 := v], depth)
  {
  }

  lemma ConsecutiveExtend(rest: seq<string>, v: string, depth: nat)
    requires 1 <= depth <= 3 && Consecutive(rest, depth + 1)
    requires v != [] && AllIn(v, DepthClass(depth))
    ensures Consecutive(rest[depth - 1 := v], depth)
  {
  }

  /** `depth1_p`, `depth2_p`, `depth3_p` and `upper_p`: a marker of `depth`
      followed by an optional chain one depth deeper. The result is the four
      level slots, blank where no marker was read. */
  function DepthChain(text: Text, pos: nat, depth: nat): (r: Parsed<seq<string>>)
    requires pos <= |text| && 1 <= depth <= 4
    ensures r.Ok? ==> |r.value| == 4
    ensures r.Ok? ==> var s := SkipWs(text, pos); s < r.next <= |text| && text[s] == '('
    decreases 4 - depth
  {
    match Marker(text, pos, depth)
    case Fail => Fail
    case Ok(v, p) =>
      var blank := ["", "", "", ""];
      if depth == 4 then Ok(blank[3 := v], p)
      else
        var q := SkipWs(text, p);
        match DepthChain(text, q, depth + 1)
        case Fail => Ok(blank[depth - 1 := v], q)
        case Ok(rest, e) => Ok(rest[depth - 1 := v], e)
  }

  /** A chain read from a depth has that depth's marker and then only
      consecutive deeper levels: none above the lead, no gap, each level in
      its own class. */
  lemma {:induction false} DepthChainConsecutive(text: Text, pos: nat, depth: nat)
    requires pos <= |text| && 1 <= depth <= 4
    ensures DepthChain(text, pos, depth).Ok? ==> Consecutive(DepthChain(text, pos, depth).value, depth)
    decreases 4 - depth
  {
    match Marker(text, pos, depth)
    case Fail =>
    case Ok(v, p) =>
      ConsecutiveSingle(v, depth);
      if depth < 4 {
        var q := SkipWs(text, p);
        DepthChainConsecutive(text, q, depth + 1);
        if DepthChain(text, q, depth + 1).Ok? {
          ConsecutiveExtend(DepthChain(text, q, depth + 1).value, v, depth);
        }
      }
  }

  /** A chain led by a marker of `depth`, wrapped with its position. */
  function ChainAt(text: Text, pos: nat, depth: nat): (r: Parsed<Chain>)
    requires pos <= |text| && 1 <= depth <= 4
    ensures r.Ok? ==> ChainWF(text, r.value) && Lead(Levels(r.value)) == depth
    ensures r.Ok? ==> r.value.start == SkipWs(text, pos) && r.value.end == r.next
  {
    var s := SkipWs(text, pos);
    DepthChainConsecutive(text, s, depth);
    match DepthChain(text, s, depth)
    case Fail => Fail
    case Ok(l, e) =>
      var c := Chain(l[0], l[1], l[2], l[3], s, e);
      assert Levels(c) == l;
      ConsecutiveLead(l, depth);
      Ok(c, e)
  }

  /** `any_depth_p`: the depth-1-led, depth-2-led, depth-3-led and bare
      depth-4 alternatives, in this order; the first that matches wins. */
  function AnyDepth(text: Text, pos: nat): (r: Parsed<Chain>)
    requires pos <= |text|
    ensures r.Ok? ==> ChainWF(text, r.value)
    ensures r.Ok? ==> r.value.start == SkipWs(text, pos) && r.value.end == r.next
  {
    var c1 := ChainAt(text, pos, 1);
    if c1.Ok? then c1
    else
      var c2 := ChainAt(text, pos, 2);
      if c2.Ok? then c2
      else
        var c3 := ChainAt(text, pos, 3);
        if c3.Ok? then c3
        else ChainAt(text, pos, 4)
  }

  /** The alternatives of `any_depth_p` are tried in order: the chain found
      is the one led at its own depth, every shallower lead fails, and the
      rule fails exactly when all four do. */
  lemma AnyDepthOrder(text: Text, pos: nat)
    requires pos <= |text|
    ensures var r := AnyDepth(text, pos);
            r.Ok? ==> ChainAt(text, pos, Lead(Levels(r.value))) == r
    ensures var r := AnyDepth(text, pos);
            r.Ok? ==> forall d :: 1 <= d < Lead(Levels(r.value)) ==> ChainAt(text, pos, d).Fail?
    ensures AnyDepth(text, pos).Fail? <==> forall d :: 1 <= d <= 4 ==> ChainAt(text, pos, d).Fail?
  {
    AnyDepthLeads(text, pos);
    AnyDepthFailsAll(text, pos);
  }

  /** A chain `any_depth_p` finds is the one led at its own depth, and every
      shallower lead fails. */
  lemma AnyDepthLeads(text: Text, pos: nat)
    requires pos <= |text|
    ensures var r := AnyDepth(text, pos);
            r.Ok? ==> ChainAt(text, pos, Lead(Levels(r.value))) == r
    ensures var r := AnyDepth(text, pos);
            r.Ok? ==> forall d :: 1 <= d < Lead(Levels(r.value)) ==> ChainAt(text, pos, d).Fail?
  {
    var c1, c2, c3 := ChainAt(text, pos, 1), ChainAt(text, pos, 2), ChainAt(text, pos, 3);
    if c1.Fail? && c2.Fail? && c3.Fail? {
      assert forall d :: 1 <= d <= 3 ==> ChainAt(text, pos, d) == [c1, c2, c3][d - 1];
    }
  }

  /** `any_depth_p` fails exactly when all four leads fail. */
  lemma AnyDepthFailsAll(text: Text, pos: nat)
    requires pos <= |text|
    ensures AnyDepth(text, pos).Fail? <==> forall d :: 1 <= d <= 4 ==> ChainAt(text, pos, d).Fail?
  {
    var c1, c2, c3 := ChainAt(text, pos, 1), ChainAt(text, pos, 2), ChainAt(text, pos, 3);
    if c1.Fail? && c2.Fail? && c3.Fail? {
      assert forall d :: 1 <= d <= 3 ==> ChainAt(text, pos, d) == [c1, c2, c3][d - 1];
    }
  }

  // ------------------------------------------------------------ connectors

  /** `and_phrases`: one of `,`, `and`, `or`, then an optional `and`.
      It yields nothing but the position after it. */
  function AndPhrase(text: Text, pos: nat): (r: Option<nat>)
    requires pos <= |text|
    ensures r.Some? <==> (var s := SkipWs(text, pos);
                          StartsAt(text, s, ",") || StartsAt(text, s, "and") || StartsAt(text, s, "or"))
    ensures r.Some? ==> SkipWs(text, pos) < r.value <= |text|
    ensures r.Some? ==>
              var s := SkipWs(text, pos);
              var w := if StartsAt(text, s, ",") then s + 1 else if StartsAt(text, s, "and") then s + 3 else s + 2;
              var t := SkipWs(text, w);
              r.value == if StartsAt(text, t, "and") then t + 3 else t
  {
    var s := SkipWs(text, pos);
    var first :=
      if StartsAt(text, s, ",") then Some(s + 1)
      else if StartsAt(text, s, "and") then Some(s + 3)
      else if StartsAt(text, s, "or") then Some(s + 2)
      else None;
    match first
    case None => None
    case Some(p) =>
      match Literal(text, p, "and")
      case Some(q) => Some(q)
      case None => Some(SkipWs(text, p))
  }

  /** Chains whose spans come one after another, none overlapping. */
  predicate Ordered(cs: seq<Chain>) {
    forall i, j :: 0 <= i < j < |cs| ==> cs[i].end < cs[j].start
  }

  /** Zero or more `and_phrases + any_depth_p` items; stops before the
      first item that does not match completely. */
  function TailItems(text: Text, pos: nat): (r: (seq<Chain>, nat))
    requires pos <= |text|
    ensures pos <= r.1 <= |text|
    ensures r.0 == [] ==> r.1 == pos
    ensures forall c :: c in r.0 ==> ChainWF(text, c) && pos < c.start && c.end <= r.1
    ensures Ordered(r.0)
    decreases |text| - pos
  {
    match AndPhrase(text, pos)
    case None => ([], pos)
    case Some(p) =>
      match AnyDepth(text, p)
      case Fail => ([], pos)
      case Ok(c, q) =>
        var (rest, e) := TailItems(text, q);
        OrderedCons(c, rest, q);
        ([c] + rest, e)
  }

  /** A chain ending by `q` goes in front of ordered chains starting past `q`. */
  lemma OrderedCons(c: Chain, rest: seq<Chain>, q: nat)
    requires c.end <= q && Ordered(rest) && forall x :: x in rest ==> q < x.start
    ensures Ordered([c] + rest)
    ensures forall x :: x in [c] + rest ==> x == c || x in rest
  {
    forall i, j | 0 <= i < j < |[c] + rest|
      ensures ([c] + rest)[i].end < ([c] + rest)[j].start
    {
      if i == 0 {
        assert ([c] + rest)[j] in rest;
      } else {
        assert ([c] + rest)[i] == rest[i - 1] && ([c] + rest)[j] == rest[j - 1];
      }
    }
  }

  /** `paragraph_tail`: one or more tail items. */
  function ParagraphTail(text: Text, pos: nat): (r: Parsed<seq<Chain>>)
    requires pos <= |text|
    ensures r.Ok? ==> r.value != [] && Ordered(r.value) && pos < r.next <= |text|
    ensures r.Ok? ==> forall c :: c in r.value ==> ChainWF(text, c) && pos < c.start && c.end <= r.next
  {
    var (items, e) := TailItems(text, pos);
    if items == [] then Fail else Ok(items, e)
  }

  // -------------------------------------------------------------- sections

  predicate SectionWF(text: Text, s: Section) {
    s.start < s.end <= |text| && InClass(text[s.start], Digit) &&
    s.part != [] && AllIn(s.part, Digit) && s.section != [] && AllIn(s.section, Digit) &&
    (s.head.Some? ==>
      ChainWF(text, s.head.value) && s.head.value.level1 != "" &&
      s.start < s.head.value.start && s.head.value.end <= s.end) &&
    (s.tail != [] ==>
      s.head.Some? && Ordered(s.tail) &&
      forall c :: c in s.tail ==> ChainWF(text, c) && s.head.value.end < c.start && c.end <= s.end)
  }

  /** `single_section`: part `.` section, then optionally a depth-1-led head
      chain, itself optionally followed by a paragraph tail. */
  function ParseSingleSection(text: Text, pos: nat): (r: Parsed<Section>)
    requires pos <= |text|
    ensures r.Ok? ==> SectionWF(text, r.value)
    ensures r.Ok? ==> r.value.start == SkipWs(text, pos) && r.value.end == r.next
  {
    match Word(text, pos, Digit)
    case Fail => Fail
    case Ok(part, p1) =>
      match Literal(text, p1, ".")
      case None => Fail
      case Some(p2) =>
        match Word(text, p2, Digit)
        case Fail => Fail
        case Ok(section, p3) => SectionParagraphs(text, part, section, SkipWs(text, pos), SkipWs(text, p3))
  }

  /** The optional `depth1_p + Optional(paragraph_tail)` after a section
      number read from `start`, tried at `q`: it never fails, and without a
      head chain the section ends at `q`. */
  function SectionParagraphs(text: Text, part: string, section: string, start: nat, q: nat): (r: Parsed<Section>)
    requires q <= |text| && SectionWF(text, Section(part, section, None, [], start, q))
    ensures r.Ok? && SectionWF(text, r.value) && r.value.start == start && r.value.end == r.next
  {
    match ChainAt(text, q, 1)
    case Fail => Ok(Section(part, section, None, [], start, q), q)
    case Ok(head, p4) =>
      var (tail, p5) := TailItems(text, SkipWs(text, p4));
      Ok(Section(part, section, Some(head), tail, start, p5), p5)
  }

  /** Sections whose spans come one after another, none overlapping. */
  predicate SectionsOrdered(ss: seq<Section>) {
    forall i, j :: 0 <= i < j < |ss| ==> ss[i].end < ss[j].start
  }

  /** A section ending before every section of an ordered list goes in
      front of it. */
  lemma SectionsOrderedCons(h: Section, t: seq<Section>)
    requires SectionsOrdered(t) && forall s :: s in t ==> h.end < s.start
    ensures SectionsOrdered([h] + t)
  {
    forall i, j | 0 <= i < j < |[h] + t|
      ensures ([h] + t)[i].end < ([h] + t)[j].start
    {
      assert ([h] + t)[j] == t[j - 1];
      if i > 0 {
        assert ([h] + t)[i] == t[i - 1];
      }
    }
  }

  /** Zero or more `and_phrases + single_section` items. */
  function SectionItems(text: Text, pos: nat): (r: (seq<Section>, nat))
    requires pos <= |text|
    ensures pos <= r.1 <= |text|
    ensures forall s :: s in r.0 ==> SectionWF(text, s) && pos < s.start && s.end <= r.1
    ensures SectionsOrdered(r.0)
    decreases |text| - pos
  {
    match AndPhrase(text, pos)
    case None => ([], pos)
    case Some(p) =>
      match ParseSingleSection(text, p)
      case Fail => ([], pos)
      case Ok(s, q) =>
        var (rest, e) := SectionItems(text, q);
        SectionsOrderedCons(s, rest);
        ([s] + rest, e)
  }

  // --------------------------------------------------------------- phrases

  predicate IsParagraphPhrase(ph: Phrase) {
    ph.SingleParagraph? || ph.MultipleParagraphs?
  }

  predicate PhraseWF(text: Text, ph: Phrase) {
    match ph
    case MultipleSections(h, t) =>
      SectionWF(text, h) && t != [] && forall s :: s in t ==> SectionWF(text, s)
    case SingleSection(s) => SectionWF(text, s)
    case SingleParagraph(h) => ChainWF(text, h)
    case MultipleParagraphs(h, t) =>
      ChainWF(text, h) && t != [] && Ordered(t) &&
      forall c :: c in t ==> ChainWF(text, c) && h.end < c.start
  }

  /** `multiple_sections`: `§§`, a section, then one or more further sections. */
  function ParseMultipleSections(text: Text, pos: nat): (r: Parsed<Phrase>)
    requires pos <= |text|
    ensures r.Ok? ==> r.value.MultipleSections? && PhraseWF(text, r.value)
    ensures r.Ok? ==> StartsAt(text, SkipWs(text, pos), "§§") && SkipWs(text, pos) < r.next <= |text|
    ensures r.Ok? ==> forall s :: s in [r.value.sHead] + r.value.sTail ==> s.end <= r.next
    ensures r.Ok? ==> SectionsOrdered([r.value.sHead] + r.value.sTail)
  {
    match Literal(text, pos, "§§")
    case None => Fail
    case Some(p) =>
      match ParseSingleSection(text, p)
      case Fail => Fail
      case Ok(h, q) =>
        var (t, e) := SectionItems(text, q);
        if t == [] then Fail
        else
          SectionsOrderedCons(h, t);
          Ok(MultipleSections(h, t), e)
  }

  /** `single_section_with_marker`: `§` then a section. */
  function ParseSingleSectionWithMarker(text: Text, pos: nat): (r: Parsed<Phrase>)
    requires pos <= |text|
    ensures r.Ok? ==> r.value.SingleSection? && PhraseWF(text, r.value)
    ensures r.Ok? ==> StartsAt(text, SkipWs(text, pos), "§") && SkipWs(text, pos) < r.next <= |text|
    ensures r.Ok? ==> r.value.withoutMarker.end == r.next
  {
    match Literal(text, pos, "§")
    case None => Fail
    case Some(p) =>
      match ParseSingleSection(text, p)
      case Fail => Fail
      case Ok(s, q) => Ok(SingleSection(s), q)
  }

  /** `single_paragraph`: the keyword `paragraph` then one chain. */
  function ParseSingleParagraph(text: Text, pos: nat): (r: Parsed<Phrase>)
    requires pos <= |text|
    ensures r.Ok? ==> r.value.SingleParagraph? && PhraseWF(text, r.value)
    ensures r.Ok? ==> StartsAt(text, SkipWs(text, pos), "paragraph") && SkipWs(text, pos) < r.next <= |text|
    ensures r.Ok? ==> r.value.pHead.end == r.next
  {
    match Literal(text, pos, "paragraph")
    case None => Fail
    case Some(p) =>
      match AnyDepth(text, p)
      case Fail => Fail
      case Ok(h, q) => Ok(SingleParagraph(h), q)
  }

  /** `multiple_paragraphs`: the keyword `paragraphs`, a head chain, then a paragraph tail. */
  function ParseMultipleParagraphs(text: Text, pos: nat): (r: Parsed<Phrase>)
    requires pos <= |text|
    ensures r.Ok? ==> r.value.MultipleParagraphs? && PhraseWF(text, r.value)
    ensures r.Ok? ==> StartsAt(text, SkipWs(text, pos), "paragraphs") && SkipWs(text, pos) < r.next <= |text|
    ensures r.Ok? ==> r.value.pHead.end <= r.next && forall c :: c in r.value.pTail ==> c.end <= r.next
  {
    match Literal(text, pos, "paragraphs")
    case None => Fail
    case Some(p) =>
      match AnyDepth(text, p)
      case Fail => Fail
      case Ok(h, q) =>
        match ParagraphTail(text, q)
        case Fail => Fail
        case Ok(t, e) => Ok(MultipleParagraphs(h, t), e)
  }

  /** `any_citation`: the four phrase shapes, tried in this order. */
  function ParseAnyCitation(text: Text, pos: nat): (r: Parsed<Phrase>)
    requires pos <= |text|
    ensures r.Ok? ==> MatchWF(text, Match(r.value, SkipWs(text, pos), r.next))
  {
    var s := SkipWs(text, pos);
    var m := ParseMultipleSections(text, pos);
    if m.Ok? then StartsAtFirst(text, s, "§§"); m
    else
      var w := ParseSingleSectionWithMarker(text, pos);
      if w.Ok? then StartsAtFirst(text, s, "§"); w
      else
        var p := ParseSingleParagraph(text, pos);
        if p.Ok? then StartsAtFirst(text, s, "paragraph"); p
        else
          var q := ParseMultipleParagraphs(text, pos);
          if q.Ok? then StartsAtFirst(text, s, "paragraphs"); q else q
  }

  // --------------------------------------------------------------- scanner

  /** The scanner: from `loc`, skip blanks and try a phrase there. */
  function Scan(text: Text, loc: nat): (ms: seq<Match>)
    requires loc <= |text| + 1
    decreases |text| + 1 - loc, 1
  {
    if loc > |text| then [] else ScanFrom(text, SkipWs(text, loc))
  }

  /** The scanner at a position past the blanks: on a match record it and
      resume at its end, otherwise resume one character on. */
  function ScanFrom(text: Text, p: nat): (ms: seq<Match>)
    requires p <= |text|
    decreases |text| + 1 - p, 0
  {
    match ParseAnyCitation(text, p)
    case Ok(phrase, e) => [Match(phrase, p, e)] + Scan(text, e)
    case Fail => Scan(text, p + 1)
  }

  // --------------------------------------------------------------- lemmas

  lemma {:induction false} RunEndExact(text: Text, pos: nat, e: nat, cls: CharClass)
    requires pos <= e <= |text|
    requires forall k :: pos <= k < e ==> InClass(text[k], cls)
    requires e == |text| || !InClass(text[e], cls)
    ensures RunEnd(text, pos, cls) == e
    decreases e - pos
  {
    if pos < e {
      RunEndExact(text, pos + 1, e, cls);
    }
  }

  /** A one-character literal found right after the blanks. */
  lemma LiteralAt(text: Text, pos: nat, c: char)
    requires pos <= |text|
    requires SkipWs(text, pos) < |text| && text[SkipWs(text, pos)] == c
    ensures Literal(text, pos, [c]) == Some(SkipWs(text, pos) + 1)
  {
    var s := SkipWs(text, pos);
    assert text[s..s + 1] == [c];
  }

  /** A word whose characters are exactly `v`, ended by a character outside
      the class, is read as `v`. */
  lemma WordExact(text: Text, p: nat, v: string, cls: CharClass)
    requires p + |v| <= |text| && v != [] && text[p..p + |v|] == v && AllIn(v, cls)
    requires p + |v| == |text| || !InClass(text[p + |v|], cls)
    requires !IsWhite(text[p])
    ensures Word(text, p, cls) == Ok(v, p + |v|)
  {
    var e := p + |v|;
    SkipWsAtNonWhite(text, p);
    forall k | p <= k < e ensures InClass(text[k], cls) {
      AllInAt(v, cls, k - p);
      assert text[k] == text[p..e][k - p];
    }
    RunEndExact(text, p, e, cls);
  }

  /** No class holds a blank or a closing parenthesis. */
  lemma NotInClass(c: char, close: char, cls: CharClass)
    requires InClass(c, cls) && close == ')'
    ensures !IsWhite(c) && !InClass(close, cls)
  {
  }

  /** Completeness of a marker: `(`, a non-empty word of the depth's class
      and `)` written together are recognised as exactly that marker. */
  lemma MarkerComplete(text: Text, s: nat, depth: nat, v: string)
    requires 1 <= depth <= 4 && v != [] && AllIn(v, DepthClass(depth))
    requires s + |v| + 2 <= |text| && text[s] == '(' && text[s + 1..s + 1 + |v|] == v
    requires text[s + 1 + |v|] == ')'
    ensures Marker(text, s, depth) == Ok(v, s + |v| + 2)
  {
    var p := s + 1;
    var e := p + |v|;
    var cls := DepthClass(depth);
    assert text[e] == ')';
    SliceHead(text, p, v);
    AllInAt(v, cls, 0);
    NotInClass(text[p], text[e], cls);
    WordExact(text, p, v, cls);
    CharFound(text, s, '(', "(");
    CharFound(text, e, ')', ")");
    MarkerRead(text, s, depth, v, e);
  }

  /** The first character of a slice equal to `v` is `v`'s first. */
  lemma SliceHead(text: Text, p: nat, v: string)
    requires v != [] && p + |v| <= |text| && text[p..p + |v|] == v
    ensures text[p] == v[0]
  {
    assert text[p] == text[p..p + |v|][0];
  }

  /** A one-character literal standing at a non-blank position is matched there. */
  lemma CharFound(text: Text, k: nat, c: char, lit: string)
    requires k < |text| && text[k] == c && lit == [c] && !IsWhite(c)
    ensures Literal(text, k, lit) == Some(k + 1)
  {
    SkipWsAtNonWhite(text, k);
    LiteralAt(text, k, c);
  }

  /** A marker is `(`, its word and `)`, each found where the last stopped. */
  lemma MarkerRead(text: Text, s: nat, depth: nat, v: string, e: nat)
    requires s < e < |text| && 1 <= depth <= 4
    requires Literal(text, s, "(") == Some(s + 1) && Word(text, s + 1, DepthClass(depth)) == Ok(v, e)
    requires Literal(text, e, ")") == Some(e + 1)
    ensures Marker(text, s, depth) == Ok(v, e + 1)
  {
  }

  lemma {:induction false} RunEndRomanIsLower(text: Text, pos: nat)
    requires pos <= |text|
    requires var e := RunEnd(text, pos, Roman); e == |text| || !InClass(text[e], Lower)
    ensures RunEnd(text, pos, Lower) == RunEnd(text, pos, Roman)
    decreases |text| - pos
  {
    if pos < |text| && InClass(text[pos], Roman) {
      RunEndRomanIsLower(text, pos + 1);
    }
  }

  /** A roman-only marker such as `(i)` read on its own is a level-1 marker:
      the depth-1-led alternative is tried first and lowercase letters
      include every roman letter. */
  lemma RomanMarkerIsLevel1(text: Text, pos: nat)
    requires pos <= |text|
    requires Marker(text, pos, 3).Ok?
    ensures AnyDepth(text, pos).Ok?
    ensures Lead(Levels(AnyDepth(text, pos).value)) == 1
    ensures AnyDepth(text, pos).value.level1 == Marker(text, pos, 3).value
  {
    var s := SkipWs(text, pos);
    var v := Marker(text, pos, 3).value;
    RomanMarkerLower(text, pos, s, v);
    LowerMarkerLeads(text, pos, s, v);
  }

  /** The roman word of a depth-3 marker is also read as a lowercase word. */
  lemma RomanMarkerLower(text: Text, pos: nat, s: nat, v: string)
    requires pos <= |text| && s == SkipWs(text, pos)
    requires Marker(text, pos, 3).Ok? && v == Marker(text, pos, 3).value
    ensures s < |text| && text[s] == '(' && Marker(text, s, 1).Ok? && Marker(text, s, 1).value == v
  {
    assert Literal(text, pos, "(") == Some(s + 1);
    var w := Word(text, s + 1, Roman);
    var e := w.next;
    var t := SkipWs(text, e);
    assert Literal(text, e, ")").Some?;
    StartsAtFirst(text, t, ")");
    assert e == |text| || !InClass(text[e], Lower) by {
      if e < t { assert IsWhite(text[e]); }
    }
    var p := SkipWs(text, s + 1);
    RunEndRomanIsLower(text, p);
    assert Word(text, s + 1, Lower) == w;
    SkipWsAtNonWhite(text, s);
    assert Marker(text, s, 1) == Ok(v, t + 1);
  }

  /** A lowercase marker after the blanks leads a depth-1 chain, which wins. */
  lemma LowerMarkerLeads(text: Text, pos: nat, s: nat, v: string)
    requires pos <= |text| && s == SkipWs(text, pos) && s < |text| && text[s] == '('
    requires Marker(text, s, 1).Ok? && Marker(text, s, 1).value == v
    ensures AnyDepth(text, pos).Ok?
    ensures Lead(Levels(AnyDepth(text, pos).value)) == 1
    ensures AnyDepth(text, pos).value.level1 == v
  {
    SkipWsAtNonWhite(text, s);
    assert DepthChain(text, s, 1).Ok? && DepthChain(text, s, 1).value[0] == v;
  }

  /** The keyword `paragraph` is a prefix of `paragraphs`, yet a single
      paragraph phrase never starts at `paragraphs`: a chain must follow the
      keyword at once, and `s` is neither a blank nor `(`. */
  lemma ParagraphsIsNotSingleParagraph(text: Text, pos: nat)
    requires pos <= |text|
    requires StartsAt(text, SkipWs(text, pos), "paragraphs")
    ensures ParseSingleParagraph(text, pos).Fail?
  {
    var s := SkipWs(text, pos);
    assert text[s..s + 9] == "paragraph" by { assert text[s..s + 9] == text[s..s + 10][..9]; }
    assert text[s + 9] == 's' by { assert text[s + 9] == text[s..s + 10][9]; }
    SkipWsAtNonWhite(text, s + 9);
  }

  /** A chain not introduced by `§`, `§§`, `paragraph` or `paragraphs` is never a citation. */
  lemma BareChainIsNotCitation(text: Text, pos: nat)
    requires pos <= |text|
    requires SkipWs(text, pos) < |text| && text[SkipWs(text, pos)] == '('
    ensures ParseAnyCitation(text, pos).Fail?
  {
  }

  /** The shapes are tried in a fixed order: a phrase of one shape is found
      only where every shape before it fails, and nothing is found only where
      all four fail. */
  lemma AnyCitationOrder(text: Text, pos: nat)
    requires pos <= |text|
    ensures var r := ParseAnyCitation(text, pos);
            (r.Ok? && r.value.MultipleSections? ==> r == ParseMultipleSections(text, pos)) &&
            (r.Ok? && r.value.SingleSection? ==>
               ParseMultipleSections(text, pos).Fail? && r == ParseSingleSectionWithMarker(text, pos)) &&
            (r.Ok? && r.value.SingleParagraph? ==>
               ParseMultipleSections(text, pos).Fail? && ParseSingleSectionWithMarker(text, pos).Fail? &&
               r == ParseSingleParagraph(text, pos)) &&
            (r.Ok? && r.value.MultipleParagraphs? ==>
               ParseMultipleSections(text, pos).Fail? && ParseSingleSectionWithMarker(text, pos).Fail? &&
               ParseSingleParagraph(text, pos).Fail? && r == ParseMultipleParagraphs(text, pos)) &&
            (r.Fail? <==>
               ParseMultipleSections(text, pos).Fail? && ParseSingleSectionWithMarker(text, pos).Fail? &&
               ParseSingleParagraph(text, pos).Fail? && ParseMultipleParagraphs(text, pos).Fail?)
  {
  }

  /** `§§` wins over `§` whenever a multiple-section phrase matches. */
  lemma MultipleSectionsTriedFirst(text: Text, pos: nat)
    requires pos <= |text|
    requires ParseMultipleSections(text, pos).Ok?
    ensures ParseAnyCitation(text, pos) == ParseMultipleSections(text, pos)
  {
  }

  /** A scanned match as the grammar guarantees it: a well-formed phrase
      inside the text, introduced by `§` or by `p` of `paragraph`, and for
      a single section, ending where its section ends. */
  predicate MatchWF(text: Text, m: Match) {
    m.start < m.end <= |text| && (text[m.start] == '§' || text[m.start] == 'p') &&
    PhraseWF(text, m.phrase) &&
    (m.phrase.SingleSection? ==> m.phrase.withoutMarker.end == m.end)
  }

  /** Matches that are well formed, come in text order without overlapping,
      and start no earlier than `lo`. */
  predicate Scanned(text: Text, ms: seq<Match>, lo: nat)
    decreases |ms|
  {
    ms != [] ==> lo <= ms[0].start && MatchWF(text, ms[0]) && Scanned(text, ms[1..], ms[0].end)
  }

  lemma {:induction false} ScannedAt(text: Text, ms: seq<Match>, lo: nat, i: nat)
    requires Scanned(text, ms, lo) && i < |ms|
    ensures MatchWF(text, ms[i]) && lo <= ms[i].start
    ensures i > 0 ==> ms[i - 1].end <= ms[i].start
    decreases i
  {
    if i > 0 {
      ScannedAt(text, ms[1..], ms[0].end, i - 1);
      assert ms[1..][i - 1] == ms[i];
      if i > 1 {
        assert ms[1..][i - 2] == ms[i - 1];
      }
    }
  }

  /** The scanner's matches are well formed and do not overlap; in particular
      none starts at a marker's `(`: a chain counts only after `§`, `§§`,
      `paragraph` or `paragraphs`. */
  lemma {:induction false} ScanWF(text: Text, loc: nat)
    requires loc <= |text| + 1
    ensures Scanned(text, Scan(text, loc), loc)
    decreases |text| + 1 - loc
  {
    if loc <= |text| {
      var p := SkipWs(text, loc);
      var r := ParseAnyCitation(text, p);
      if r.Ok? {
        var first, rest := Match(r.value, p, r.next), Scan(text, r.next);
        ScanWF(text, r.next);
        SkipWsAtNonWhite(text, p);
        assert MatchWF(text, first);
        assert Scan(text, loc) == [first] + rest;
        assert ([first] + rest)[1..] == rest;
      } else {
        ScanWF(text, p + 1);
        ScannedFrom(text, Scan(text, p + 1), loc, p + 1);
      }
    }
  }

  /** A lower bound can always be loosened. */
  lemma ScannedFrom(text: Text, ms: seq<Match>, lo: nat, hi: nat)
    requires lo <= hi && Scanned(text, ms, hi)
    ensures Scanned(text, ms, lo)
  {
  }

  // -------------------------------------------------------- scan as search

  /** No phrase is found at any non-blank position of `[a, b)` in the text:
      the scanner tried each of them and moved on. */
  predicate Passed(text: Text, a: nat, b: nat) {
    forall k {:trigger ParseAnyCitation(text, k)} ::
      a <= k < b && k < |text| && !IsWhite(text[k]) ==> ParseAnyCitation(text, k).Fail?
  }

  /** The matches of a leftmost-first search from `from`: each is what the
      grammar reads at its start, and every non-blank position before the
      first, between two of them or after the last holds no phrase. */
  predicate Searched(text: Text, from: nat, ms: seq<Match>)
    decreases |ms|
  {
    if ms == [] then Passed(text, from, |text|)
    else
      from <= ms[0].start < ms[0].end <= |text| && Passed(text, from, ms[0].start) &&
      ParseAnyCitation(text, ms[0].start) == Ok(ms[0].phrase, ms[0].end) &&
      Searched(text, ms[0].end, ms[1..])
  }

  lemma PassedJoin(text: Text, a: nat, b: nat, c: nat)
    requires a <= b && Passed(text, a, b) && Passed(text, b, c)
    ensures Passed(text, a, c)
  {
  }

  /** The blanks skipped before a token hold no phrase start the scanner tries. */
  lemma PassedBlanks(text: Text, loc: nat)
    requires loc <= |text|
    ensures Passed(text, loc, SkipWs(text, loc))
  {
    SkipWsBlanks(text, loc);
  }

  /** A search may start earlier over positions that hold no phrase. */
  lemma SearchedFrom(text: Text, a: nat, b: nat, ms: seq<Match>)
    requires a <= b && Passed(text, a, b) && Searched(text, b, ms)
    ensures Searched(text, a, ms)
  {
    if ms == [] {
      PassedJoin(text, a, b, |text|);
    } else {
      PassedJoin(text, a, b, ms[0].start);
    }
  }

  /** `scanString` is a leftmost-first search: its matches are exactly what
      the grammar reads at their starts, and it skips only positions where
      nothing is read. */
  lemma {:induction false} ScanSearches(text: Text, loc: nat)
    requires loc <= |text| + 1
    ensures Searched(text, loc, Scan(text, loc))
    decreases |text| + 1 - loc, 2
  {
    if loc <= |text| {
      var p := SkipWs(text, loc);
      ScanFromSearches(text, p);
      PassedBlanks(text, loc);
      SearchedFrom(text, loc, p, ScanFrom(text, p));
    }
  }

  lemma {:induction false} ScanFromSearches(text: Text, p: nat)
    requires p <= |text|
    ensures Searched(text, p, ScanFrom(text, p))
    decreases |text| + 1 - p, 1
  {
    var r := ParseAnyCitation(text, p);
    if r.Ok? {
      FoundSearches(text, p, r.value, r.next);
    } else {
      FailedSearches(text, p);
    }
  }

  /** The scan from a phrase found at `p`. */
  lemma {:induction false} FoundSearches(text: Text, p: nat, ph: Phrase, e: nat)
    requires p <= |text| && ParseAnyCitation(text, p) == Ok(ph, e)
    ensures Searched(text, p, ScanFrom(text, p))
    decreases |text| + 1 - p, 0
  {
    ParsedAdvances(text, p, ph, e);
    ScanSearches(text, e);
    SearchedCons(text, p, ph, e, Scan(text, e));
    ScanFromFound(text, p, ph, e);
  }

  /** The scan past a position where no phrase is found. */
  lemma {:induction false} FailedSearches(text: Text, p: nat)
    requires p <= |text| && ParseAnyCitation(text, p).Fail?
    ensures Searched(text, p, ScanFrom(text, p))
    decreases |text| + 1 - p, 0
  {
    ScanSearches(text, p + 1);
    ScanFromFails(text, p);
    SearchedFrom(text, p, p + 1, Scan(text, p + 1));
  }

  /** A phrase read from `p` ends past `p`, inside the text. */
  lemma ParsedAdvances(text: Text, p: nat, ph: Phrase, e: nat)
    requires p <= |text| && ParseAnyCitation(text, p) == Ok(ph, e)
    ensures p < e <= |text|
  {
    assert MatchWF(text, Match(ph, SkipWs(text, p), e));
  }

  lemma ScanFromFound(text: Text, p: nat, ph: Phrase, e: nat)
    requires p < e <= |text| && ParseAnyCitation(text, p) == Ok(ph, e)
    ensures ScanFrom(text, p) == [Match(ph, p, e)] + Scan(text, e)
  {
  }

  lemma ScanFromFails(text: Text, p: nat)
    requires p <= |text| && ParseAnyCitation(text, p).Fail?
    ensures ScanFrom(text, p) == Scan(text, p + 1) && Passed(text, p, p + 1)
  {
  }

  /** A phrase read at `p` starts a search from `p`. */
  lemma SearchedCons(text: Text, p: nat, ph: Phrase, e: nat, rest: seq<Match>)
    requires p < e <= |text| && ParseAnyCitation(text, p) == Ok(ph, e) && Searched(text, e, rest)
    ensures Searched(text, p, [Match(ph, p, e)] + rest)
  {
    assert ([Match(ph, p, e)] + rest)[1..] == rest;
  }

  /** The `i`-th match of a search, read off its `Searched` invariant. */
  lemma {:induction false} SearchedAt(text: Text, from: nat, ms: seq<Match>, i: nat)
    requires Searched(text, from, ms) && i < |ms|
    ensures ms[i].start < ms[i].end <= |text|
    ensures ParseAnyCitation(text, ms[i].start) == Ok(ms[i].phrase, ms[i].end)
    ensures Passed(text, if i == 0 then from else ms[i - 1].end, ms[i].start)
    ensures i + 1 == |ms| ==> Passed(text, ms[i].end, |text|)
    decreases i
  {
    if i > 0 {
      SearchedAt(text, ms[0].end, ms[1..], i - 1);
      assert ms[1..][i - 1] == ms[i];
      if i > 1 {
        assert ms[1..][i - 2] == ms[i - 1];
      }
    } else if |ms| == 1 {
      assert ms[1..] == [];
    }
  }

  /** Each match the scanner records is the phrase the grammar reads at its
      start, ending where that reading ends. Every non-blank position the scan
      passed since the previous match (or since `loc`) holds no phrase, and
      after the last match no phrase is left in the text. */
  lemma ScanMatchAt(text: Text, loc: nat, i: nat)
    requires loc <= |text| + 1 && i < |Scan(text, loc)|
    ensures var ms := Scan(text, loc);
            ms[i].start < ms[i].end <= |text| &&
            ParseAnyCitation(text, ms[i].start) == Ok(ms[i].phrase, ms[i].end)
    ensures var ms := Scan(text, loc);
            Passed(text, if i == 0 then loc else ms[i - 1].end, ms[i].start)
    ensures var ms := Scan(text, loc);
            i + 1 == |ms| ==> Passed(text, ms[i].end, |text|)
  {
    ScanSearches(text, loc);
    SearchedAt(text, loc, Scan(text, loc), i);
  }

  /** The scan finds nothing exactly when no non-blank position from `loc`
      on holds a phrase. */
  lemma ScanEmpty(text: Text, loc: nat)
    requires loc <= |text| + 1
    ensures Scan(text, loc) == [] <==> Passed(text, loc, |text|)
  {
    var ms := Scan(text, loc);
    ScanSearches(text, loc);
    if ms != [] {
      ScanWF(text, loc);
      var k := ms[0].start;
      assert MatchWF(text, ms[0]);
      assert !IsWhite(text[k]) && ParseAnyCitation(text, k).Ok?;
    }
  }

  // ---------------------------------------------------------- completeness

  /** The text spells the word `v` from `p`, one character at a time. */
  predicate SpellsWord(text: Text, p: nat, v: string)
    decreases |v|
  {
    v == [] || (p < |text| && text[p] == v[0] && SpellsWord(text, p + 1, v[1..]))
  }

  /** How many characters the unspaced markers holding `ws` take. */
  function WrittenLen(ws: seq<string>): nat
    decreases |ws|
  {
    if ws == [] then 0 else |ws[0]| + 2 + WrittenLen(ws[1..])
  }

  /** The text spells, from `s`, unspaced markers holding the words `ws`:
      `(`, the first word, `)`, then the next marker at once. */
  predicate Spells(text: Text, s: nat, ws: seq<string>)
    decreases |ws|
  {
    ws == [] ||
    (s + |ws[0]| + 2 <= |text| && text[s] == '(' && SpellsWord(text, s + 1, ws[0]) &&
     text[s + 1 + |ws[0]|] == ')' && Spells(text, s + |ws[0]| + 2, ws[1..]))
  }

  /** Words for a chain led at `depth`: one per depth from `depth` on, at
      most down to depth 4, each non-empty and written in its depth's class. */
  predicate ChainWords(ws: seq<string>, depth: nat)
    decreases |ws|
  {
    1 <= depth && depth + |ws| <= 5 && ws != [] && ws[0] != [] && AllIn(ws[0], DepthClass(depth)) &&
    (|ws| == 1 || ChainWords(ws[1..], depth + 1))
  }

  /** The four level slots of a chain led at `depth` holding `ws`: the
      first word at its depth, the later ones placed one depth deeper each. */
  function Placed(ws: seq<string>, depth: nat): (l: seq<string>)
    requires 1 <= depth && ws != [] && depth + |ws| <= 5
    ensures |l| == 4
    decreases |ws|
  {
    if |ws| == 1 then ["", "", "", ""][depth - 1 := ws[0]]
    else Placed(ws[1..], depth + 1)[depth - 1 := ws[0]]
  }

  /** The chain holding `ws` led at `depth`, with its span. */
  function ChainOf(ws: seq<string>, depth: nat, start: nat, end: nat): Chain
    requires 1 <= depth && ws != [] && depth + |ws| <= 5
  {
    var l := Placed(ws, depth);
    Chain(l[0], l[1], l[2], l[3], start, end)
  }

  /** Past the blanks after `e`, no marker opens. */
  predicate NoMarkerAfter(text: Text, e: nat) {
    e <= |text| && (SkipWs(text, e) == |text| || text[SkipWs(text, e)] != '(')
  }

  /** A chain written out in full from `s`: its words, spelled in the text,
      and, when it stops above depth 4, no marker opening after it. */
  predicate ChainWritten(text: Text, s: nat, depth: nat, ws: seq<string>) {
    ChainWords(ws, depth) && Spells(text, s, ws) && s + WrittenLen(ws) <= |text| &&
    (depth + |ws| <= 4 ==> NoMarkerAfter(text, s + WrittenLen(ws)))
  }

  /** Where a chain of `ws` led at `depth` and written up to `e` is read to:
      a chain that reaches depth 4 stops at once, a shorter one past the
      blanks where the next depth was tried in vain. */
  function ChainEnd(text: Text, e: nat, depth: nat, ws: seq<string>): nat
    requires e <= |text|
  {
    if depth + |ws| == 5 then e else SkipWs(text, e)
  }

  /** Where a chain written in full from `s` (see `ChainWritten`) is read to. */
  function ChainStop(text: Text, s: nat, depth: nat, ws: seq<string>): nat
    requires s + WrittenLen(ws) <= |text|
  {
    ChainEnd(text, s + WrittenLen(ws), depth, ws)
  }

  lemma SkipWsTwice(text: Text, pos: nat)
    requires pos <= |text|
    ensures SkipWs(text, SkipWs(text, pos)) == SkipWs(text, pos)
  {
    var s := SkipWs(text, pos);
    if s < |text| {
      SkipWsAtNonWhite(text, s);
    }
  }

  /** A word spelled character by character is the slice of the text. */
  lemma {:induction false} SpellsWordSlice(text: Text, p: nat, v: string)
    requires p <= |text| && SpellsWord(text, p, v)
    ensures p + |v| <= |text| && text[p..p + |v|] == v
    decreases |v|
  {
    if v != [] {
      SpellsWordSlice(text, p + 1, v[1..]);
      assert text[p..p + |v|] == [text[p]] + text[p + 1..p + |v|];
    }
  }

  /** The continuation of a chain is not tried where no marker opens. */
  lemma DepthChainNeedsMarker(text: Text, p: nat, depth: nat)
    requires 1 <= depth <= 4 && NoMarkerAfter(text, p)
    ensures DepthChain(text, SkipWs(text, p), depth).Fail?
  {
    SkipWsTwice(text, p);
  }

  /** A chain whose first marker `v` ends at `p`, with no deeper chain
      read after it, stops there: at once at depth 4, past the blanks
      otherwise. */
  lemma DepthChainStops(text: Text, s: nat, depth: nat, v: string, p: nat, q: nat)
    requires s <= |text| && 1 <= depth <= 4 && Marker(text, s, depth) == Ok(v, p)
    requires if depth == 4 then q == p else q == SkipWs(text, p) && DepthChain(text, q, depth + 1).Fail?
    ensures DepthChain(text, s, depth) == Ok(["", "", "", ""][depth - 1 := v], q)
  {
  }

  /** A chain whose first marker `v` ends at `p` goes on with the deeper
      chain read past the blanks, `v` taking its own level. */
  lemma DepthChainGoesOn(text: Text, s: nat, depth: nat, v: string, p: nat, q: nat, l: seq<string>, e: nat, placed: seq<string>)
    requires s <= |text| && 1 <= depth < 4 && Marker(text, s, depth) == Ok(v, p)
    requires q == SkipWs(text, p) && DepthChain(text, q, depth + 1) == Ok(l, e)
    requires |l| == 4 && placed == l[depth - 1 := v]
    ensures DepthChain(text, s, depth) == Ok(placed, e)
  {
  }

  /** The first marker of a spelled chain is read as its first word. */
  lemma MarkerSpelled(text: Text, s: nat, depth: nat, ws: seq<string>)
    requires ChainWords(ws, depth) && Spells(text, s, ws)
    ensures Marker(text, s, depth) == Ok(ws[0], s + |ws[0]| + 2)
  {
    SpellsWordSlice(text, s + 1, ws[0]);
    MarkerComplete(text, s, depth, ws[0]);
  }

  /** A single written marker is read as a chain. */
  lemma ChainCompleteOne(text: Text, s: nat, depth: nat, ws: seq<string>, n: nat)
    requires ChainWritten(text, s, depth, ws) && |ws| == 1 && n == s + WrittenLen(ws)
    ensures DepthChain(text, s, depth) == Ok(Placed(ws, depth), ChainEnd(text, n, depth, ws))
  {
    var v := ws[0];
    MarkerSpelled(text, s, depth, ws);
    assert WrittenLen(ws) == |v| + 2 by { assert ws[1..] == []; }
    assert Marker(text, s, depth) == Ok(v, n);
    var q := ChainEnd(text, n, depth, ws);
    if depth < 4 {
      DepthChainNeedsMarker(text, n, depth + 1);
    }
    DepthChainStops(text, s, depth, v, n, q);
  }

  /** The markers after the first of a written chain are written too. */
  lemma ChainWrittenRest(text: Text, s: nat, depth: nat, ws: seq<string>, p: nat, rest: seq<string>)
    requires ChainWritten(text, s, depth, ws) && |ws| >= 2 && p == s + |ws[0]| + 2 && rest == ws[1..]
    ensures ChainWritten(text, p, depth + 1, rest) && p + WrittenLen(rest) == s + WrittenLen(ws)
    ensures 1 <= depth < 4 && depth + |ws| <= 5 && s + WrittenLen(ws) <= |text|
    ensures Marker(text, s, depth) == Ok(ws[0], p) && p < |text| && text[p] == '('
  {
    ChainWordsRest(ws, depth, rest);
    SpellsRest(text, s, ws, p, rest);
    WrittenLenCons(ws, rest);
    MarkerSpelled(text, s, depth, ws);
  }

  /** The words after the first of a chain's words start one depth deeper. */
  lemma ChainWordsRest(ws: seq<string>, depth: nat, rest: seq<string>)
    requires ChainWords(ws, depth) && |ws| >= 2 && rest == ws[1..]
    ensures ChainWords(rest, depth + 1) && 1 <= depth < 4 && depth + |ws| <= 5
  {
  }

  /** The markers after the first of spelled markers are spelled right
      after it, starting with a `(`. */
  lemma SpellsRest(text: Text, s: nat, ws: seq<string>, p: nat, rest: seq<string>)
    requires Spells(text, s, ws) && |ws| >= 2 && p == s + |ws[0]| + 2 && rest == ws[1..]
    ensures Spells(text, p, rest) && p < |text| && text[p] == '('
  {
    assert Spells(text, p, rest);
  }

  /** The written length of markers is the first one's and the rest's. */
  lemma WrittenLenCons(ws: seq<string>, rest: seq<string>)
    requires ws != [] && rest == ws[1..]
    ensures WrittenLen(ws) == |ws[0]| + 2 + WrittenLen(rest)
  {
  }

  /** The inductive step: the first marker is put in front of the chain read after it. */
  lemma ChainCompleteStep(text: Text, s: nat, depth: nat, ws: seq<string>, p: nat, rest: seq<string>, n: nat)
    requires s <= n <= |text| && 1 <= depth < 4 && |ws| >= 2 && depth + |ws| <= 5 && rest == ws[1..]
    requires Marker(text, s, depth) == Ok(ws[0], p) && p < |text| && text[p] == '('
    requires DepthChain(text, p, depth + 1) == Ok(Placed(rest, depth + 1), ChainEnd(text, n, depth + 1, rest))
    ensures DepthChain(text, s, depth) == Ok(Placed(ws, depth), ChainEnd(text, n, depth, ws))
  {
    SkipWsAtNonWhite(text, p);
    ChainEndRest(text, n, depth, ws, rest);
    PlacedCons(ws, depth, rest);
    DepthChainGoesOn(text, s, depth, ws[0], p, p, Placed(rest, depth + 1), ChainEnd(text, n, depth, ws), Placed(ws, depth));
  }

  /** The first word takes the lead slot in front of the rest, placed one
      depth deeper. */
  lemma PlacedCons(ws: seq<string>, depth: nat, rest: seq<string>)
    requires 1 <= depth && |ws| >= 2 && depth + |ws| <= 5 && rest == ws[1..]
    ensures Placed(ws, depth) == Placed(rest, depth + 1)[depth - 1 := ws[0]]
  {
  }

  /** Completeness of a chain: unspaced markers of consecutive depths are
      read as exactly those levels, each deeper marker being taken, up to
      depth 4 or to the first place where no further marker opens. */
  lemma {:induction false} ChainComplete(text: Text, s: nat, depth: nat, ws: seq<string>, n: nat)
    requires ChainWritten(text, s, depth, ws) && n == s + WrittenLen(ws)
    ensures 1 <= depth <= 4 && ws != [] && depth + |ws| <= 5 && n <= |text|
    ensures DepthChain(text, s, depth) == Ok(Placed(ws, depth), ChainEnd(text, n, depth, ws))
    decreases |ws|, 1
  {
    ChainWordsBounds(ws, depth);
    if |ws| == 1 {
      ChainCompleteOne(text, s, depth, ws, n);
    } else {
      ChainCompleteMore(text, s, depth, ws, n);
    }
  }

  /** `ChainComplete` for a chain of two or more markers: the first marker
      leads the chain read after it. */
  lemma {:induction false} ChainCompleteMore(text: Text, s: nat, depth: nat, ws: seq<string>, n: nat)
    requires ChainWritten(text, s, depth, ws) && n == s + WrittenLen(ws) && |ws| >= 2
    ensures DepthChain(text, s, depth) == Ok(Placed(ws, depth), ChainEnd(text, n, depth, ws))
    decreases |ws|, 0
  {
    var p, rest := s + |ws[0]| + 2, ws[1..];
    ChainWrittenRest(text, s, depth, ws, p, rest);
    ChainComplete(text, p, depth + 1, rest, n);
    ChainCompleteStep(text, s, depth, ws, p, rest, n);
  }

  /** A chain stops where the chain after its first marker stops. */
  lemma ChainEndRest(text: Text, n: nat, depth: nat, ws: seq<string>, rest: seq<string>)
    requires n <= |text| && |rest| == |ws| - 1
    ensures ChainEnd(text, n, depth, ws) == ChainEnd(text, n, depth + 1, rest)
  {
  }

  /** A chain written out in full is read as exactly its words, placed from
      its lead depth, with its span starting at its first `(`. */
  lemma ChainAtComplete(text: Text, pos: nat, s: nat, depth: nat, ws: seq<string>, e: nat)
    requires pos <= |text| && s == SkipWs(text, pos) && ChainWritten(text, s, depth, ws)
    requires e == ChainStop(text, s, depth, ws)
    ensures ChainAt(text, pos, depth) == Ok(ChainOf(ws, depth, s, e), e)
  {
    ChainCompleteAt(text, s, depth, ws);
    ChainAtPlaced(text, pos, s, depth, ws, e);
  }

  /** `ChainComplete` for a chain written in full from `s`. */
  lemma ChainCompleteAt(text: Text, s: nat, depth: nat, ws: seq<string>)
    requires ChainWritten(text, s, depth, ws)
    ensures 1 <= depth <= 4 && ws != [] && depth + |ws| <= 5 && s + WrittenLen(ws) <= |text|
    ensures DepthChain(text, s, depth) == Ok(Placed(ws, depth), ChainStop(text, s, depth, ws))
  {
    ChainComplete(text, s, depth, ws, s + WrittenLen(ws));
  }

  /** The lead depth of a chain's words leaves room for all of them. */
  lemma ChainWordsBounds(ws: seq<string>, depth: nat)
    requires ChainWords(ws, depth)
    ensures 1 <= depth <= 4 && ws != [] && depth + |ws| <= 5
  {
  }

  /** `chain_at` turns the placed words `depth_chain` read into a chain. */
  lemma ChainAtPlaced(text: Text, pos: nat, s: nat, depth: nat, ws: seq<string>, e: nat)
    requires pos <= |text| && s == SkipWs(text, pos)
    requires 1 <= depth <= 4 && ws != [] && depth + |ws| <= 5 && s + WrittenLen(ws) <= |text|
    requires DepthChain(text, s, depth) == Ok(Placed(ws, depth), ChainStop(text, s, depth, ws))
    requires e == ChainStop(text, s, depth, ws)
    ensures ChainAt(text, pos, depth) == Ok(ChainOf(ws, depth, s, e), e)
  {
    var l := Placed(ws, depth);
    ChainAtRead(text, pos, s, depth, l, e, ChainOf(ws, depth, s, e));
  }

  /** `chain_at` places the levels `depth_chain` read from past the blanks. */
  lemma ChainAtRead(text: Text, pos: nat, s: nat, depth: nat, l: seq<string>, e: nat, c: Chain)
    requires pos <= |text| && 1 <= depth <= 4 && s == SkipWs(text, pos)
    requires DepthChain(text, s, depth) == Ok(l, e) && |l| == 4 && c == Chain(l[0], l[1], l[2], l[3], s, e)
    ensures ChainAt(text, pos, depth) == Ok(c, e)
  {
  }

  /** A marker whose first character is outside a depth's class is not a
      chain led at that depth. */
  lemma ChainAtWrongClass(text: Text, pos: nat, d: nat)
    requires pos <= |text| && 1 <= d <= 4
    requires var s := SkipWs(text, pos);
             s + 1 < |text| && text[s] == '(' && !IsWhite(text[s + 1]) && !InClass(text[s + 1], DepthClass(d))
    ensures ChainAt(text, pos, d).Fail?
  {
    var s := SkipWs(text, pos);
    SkipWsAtNonWhite(text, s);
    LiteralAt(text, s, '(');
    SkipWsAtNonWhite(text, s + 1);
  }

  /** Where no marker opens after the blanks, `any_depth_p` fails. */
  lemma AnyDepthNeedsMarker(text: Text, pos: nat)
    requires NoMarkerAfter(text, pos)
    ensures AnyDepth(text, pos).Fail?
  {
    DepthChainNeedsMarker(text, pos, 1);
    DepthChainNeedsMarker(text, pos, 2);
    DepthChainNeedsMarker(text, pos, 3);
    DepthChainNeedsMarker(text, pos, 4);
  }

  /** Completeness of `any_depth_p` for chains led by a lowercase, a digit
      or an uppercase marker (a roman-only marker such as `(i)` is lowercase
      too): the chain is read whole at its own lead depth. */
  lemma AnyDepthComplete(text: Text, pos: nat, s: nat, depth: nat, ws: seq<string>, e: nat)
    requires pos <= |text| && depth != 3 && s == SkipWs(text, pos) && ChainWritten(text, s, depth, ws)
    requires e == ChainStop(text, s, depth, ws)
    ensures AnyDepth(text, pos) == Ok(ChainOf(ws, depth, s, e), e)
  {
    ChainAtComplete(text, pos, s, depth, ws, e);
    if depth > 1 {
      ShallowerLeadsFail(text, pos, s, depth, ws);
    }
    AnyDepthPicks(text, pos, depth, ChainOf(ws, depth, s, e), e);
  }

  /** A chain written from `s` and led by a digit or an uppercase marker is
      not a chain led at any shallower depth tried before its own. */
  lemma ShallowerLeadsFail(text: Text, pos: nat, s: nat, depth: nat, ws: seq<string>)
    requires pos <= |text| && s == SkipWs(text, pos) && (depth == 2 || depth == 4)
    requires ChainWritten(text, s, depth, ws)
    ensures ChainAt(text, pos, 1).Fail?
    ensures depth == 4 ==> ChainAt(text, pos, 2).Fail? && ChainAt(text, pos, 3).Fail?
  {
    assert Spells(text, s, ws);
    assert SpellsWord(text, s + 1, ws[0]);
    var c := text[s + 1];
    assert c == ws[0][0];
    AllInAt(ws[0], DepthClass(depth), 0);
    NotInClass(c, ')', DepthClass(depth));
    ChainAtWrongClass(text, pos, 1);
    if depth == 4 {
      ChainAtWrongClass(text, pos, 2);
      ChainAtWrongClass(text, pos, 3);
    }
  }

  /** `any_depth_p` returns the chain led at `depth` once every shallower
      lead tried before it has failed. */
  lemma AnyDepthPicks(text: Text, pos: nat, depth: nat, c: Chain, e: nat)
    requires pos <= |text| && 1 <= depth <= 4 && depth != 3 && ChainAt(text, pos, depth) == Ok(c, e)
    requires depth > 1 ==> ChainAt(text, pos, 1).Fail?
    requires depth == 4 ==> ChainAt(text, pos, 2).Fail? && ChainAt(text, pos, 3).Fail?
    ensures AnyDepth(text, pos) == Ok(c, e)
  {
  }

  /** Completeness of a tail item: after a connector (`,`, `and` or `or`,
      with an optional `and`) ending at `p`, a written chain is read as the
      next item, and the items after it are read from where that chain stops. */
  lemma TailItemComplete(text: Text, pos: nat, p: nat, s: nat, depth: nat, ws: seq<string>, e: nat)
    requires pos <= |text| && depth != 3 && AndPhrase(text, pos) == Some(p)
    requires s == SkipWs(text, p) && ChainWritten(text, s, depth, ws)
    requires e == ChainStop(text, s, depth, ws)
    ensures TailItems(text, pos) == ([ChainOf(ws, depth, s, e)] + TailItems(text, e).0, TailItems(text, e).1)
  {
    AnyDepthComplete(text, p, s, depth, ws, e);
    TailItemsNext(text, pos);
  }

  /** One step of the tail: an item read after a connector is put in front
      of the items read after it. */
  lemma TailItemsNext(text: Text, pos: nat)
    requires pos <= |text| && AndPhrase(text, pos).Some? && AnyDepth(text, AndPhrase(text, pos).value).Ok?
    ensures var c := AnyDepth(text, AndPhrase(text, pos).value);
            var r := TailItems(text, pos);
            r.0 == [c.value] + TailItems(text, c.next).0 && r.1 == TailItems(text, c.next).1
  {
  }

  /** The tail stops exactly where no connector follows, or where the
      connector is not followed by a chain; nothing is consumed then. */
  lemma TailItemsStop(text: Text, pos: nat)
    requires pos <= |text|
    ensures var r := TailItems(text, pos);
            r.0 == [] <==> AndPhrase(text, pos).None? || AnyDepth(text, AndPhrase(text, pos).value).Fail?
    ensures TailItems(text, pos).0 == [] ==> TailItems(text, pos).1 == pos
  {
  }

  /** `part.section` spelled from `s`, both runs of digits, with no digit
      right after the section number. */
  predicate SectionNumberWritten(text: Text, s: nat, part: string, section: string) {
    var n := s + |part| + 1 + |section|;
    part != [] && AllIn(part, Digit) && section != [] && AllIn(section, Digit) && n <= |text| &&
    SpellsWord(text, s, part) && text[s + |part|] == '.' && SpellsWord(text, s + |part| + 1, section) &&
    (n == |text| || !InClass(text[n], Digit))
  }

  /** A word read past the blanks is the word read at the first non-blank. */
  lemma WordAfterBlanks(text: Text, pos: nat, s: nat, cls: CharClass, v: string, e: nat)
    requires pos <= |text| && s == SkipWs(text, pos) && Word(text, s, cls) == Ok(v, e)
    ensures Word(text, pos, cls) == Ok(v, e)
  {
    SkipWsTwice(text, pos);
  }

  /** A run of digits spelled from the first non-blank and ended by a
      non-digit is read as exactly that run. */
  lemma DigitsRead(text: Text, pos: nat, s: nat, v: string)
    requires pos <= |text| && s == SkipWs(text, pos) && v != [] && AllIn(v, Digit) && SpellsWord(text, s, v)
    requires s + |v| == |text| || (s + |v| < |text| && !InClass(text[s + |v|], Digit))
    ensures Word(text, pos, Digit) == Ok(v, s + |v|)
  {
    SpellsWordSlice(text, s, v);
    SliceHead(text, s, v);
    AllInAt(v, Digit, 0);
    NotInClass(text[s], ')', Digit);
    WordExact(text, s, v, Digit);
    WordAfterBlanks(text, pos, s, Digit, v, s + |v|);
  }

  /** A written section number is read as its part and section. */
  lemma SectionNumberRead(text: Text, pos: nat, s: nat, part: string, section: string)
    requires pos <= |text| && s == SkipWs(text, pos) && SectionNumberWritten(text, s, part, section)
    ensures Word(text, pos, Digit) == Ok(part, s + |part|)
    ensures Literal(text, s + |part|, ".") == Some(s + |part| + 1)
    ensures Word(text, s + |part| + 1, Digit) == Ok(section, s + |part| + 1 + |section|)
  {
    var p1 := s + |part|;
    DigitsRead(text, pos, s, part);
    CharFound(text, p1, '.', ".");
    assert text[p1 + 1] == section[0];
    AllInAt(section, Digit, 0);
    NotInClass(text[p1 + 1], ')', Digit);
    SkipWsAtNonWhite(text, p1 + 1);
    DigitsRead(text, p1 + 1, p1 + 1, section);
  }

  /** `single_section` reads the number's three tokens, then hands over to
      the optional paragraphs after the blanks that follow them. */
  lemma SectionNumberParsed(text: Text, pos: nat, s: nat, part: string, section: string, p1: nat, p3: nat, q: nat)
    requires pos <= |text| && s == SkipWs(text, pos) && p1 + 1 + |section| == p3 <= |text|
    requires Word(text, pos, Digit) == Ok(part, p1)
    requires Literal(text, p1, ".") == Some(p1 + 1)
    requires Word(text, p1 + 1, Digit) == Ok(section, p3)
    requires q == SkipWs(text, p3) && SectionWF(text, Section(part, section, None, [], s, q))
    ensures ParseSingleSection(text, pos) == SectionParagraphs(text, part, section, s, q)
  {
  }

  /** A written section number hands over to the optional paragraphs
      right after the blanks that follow it. */
  lemma SectionNumberComplete(text: Text, pos: nat, s: nat, part: string, section: string, q: nat)
    requires pos <= |text| && s == SkipWs(text, pos) && SectionNumberWritten(text, s, part, section)
    requires q == SkipWs(text, s + |part| + 1 + |section|)
    ensures SectionWF(text, Section(part, section, None, [], s, q))
    ensures ParseSingleSection(text, pos) == SectionParagraphs(text, part, section, s, q)
  {
    assert text[s] == part[0];
    AllInAt(part, Digit, 0);
    SectionNumberRead(text, pos, s, part, section);
    SectionNumberParsed(text, pos, s, part, section, s + |part|, s + |part| + 1 + |section|, q);
  }

  /** Without a marker at `q`, the section is read alone, ending at `q`. */
  lemma SectionParagraphsBare(text: Text, part: string, section: string, start: nat, q: nat)
    requires q <= |text| && SectionWF(text, Section(part, section, None, [], start, q)) && NoMarkerAfter(text, q)
    ensures SectionParagraphs(text, part, section, start, q) == Ok(Section(part, section, None, [], start, q), q)
  {
    DepthChainNeedsMarker(text, q, 1);
    SkipWsTwice(text, q);
  }

  /** A written depth-1-led chain at `q` is read as the head, followed by
      the tail items read after it. */
  lemma SectionParagraphsHead(text: Text, part: string, section: string, start: nat, q: nat, ws: seq<string>)
    requires q <= |text| && SectionWF(text, Section(part, section, None, [], start, q))
    requires q == SkipWs(text, q) && ChainWritten(text, q, 1, ws)
    ensures var e := ChainStop(text, q, 1, ws);
            var t := TailItems(text, SkipWs(text, e));
            SectionParagraphs(text, part, section, start, q) == Ok(Section(part, section, Some(ChainOf(ws, 1, q, e)), t.0, start, t.1), t.1)
  {
    var e := ChainStop(text, q, 1, ws);
    ChainAtComplete(text, q, q, 1, ws, e);
    SectionParagraphsWithHead(text, part, section, start, q, ChainOf(ws, 1, q, e), e);
  }

  /** Once a head chain is read at `q`, the tail items follow it. */
  lemma SectionParagraphsWithHead(text: Text, part: string, section: string, start: nat, q: nat, head: Chain, e: nat)
    requires q <= |text| && SectionWF(text, Section(part, section, None, [], start, q))
    requires e <= |text| && ChainAt(text, q, 1) == Ok(head, e)
    ensures var t := TailItems(text, SkipWs(text, e));
            SectionParagraphs(text, part, section, start, q) == Ok(Section(part, section, Some(head), t.0, start, t.1), t.1)
  {
  }

  /** Completeness of `single_section` without a paragraph: a written
      section number with no marker after it is read alone, its span ending
      past the blanks that follow it. */
  lemma SingleSectionBareComplete(text: Text, pos: nat, s: nat, part: string, section: string, q: nat)
    requires pos <= |text| && s == SkipWs(text, pos) && SectionNumberWritten(text, s, part, section)
    requires NoMarkerAfter(text, s + |part| + 1 + |section|) && q == SkipWs(text, s + |part| + 1 + |section|)
    ensures ParseSingleSection(text, pos) == Ok(Section(part, section, None, [], s, q), q)
  {
    SectionNumberComplete(text, pos, s, part, section, q);
    SkipWsTwice(text, s + |part| + 1 + |section|);
    SectionParagraphsBare(text, part, section, s, q);
  }

  /** A connector followed by a section is read as the next section item,
      and the items after it are read from where that section stops. */
  lemma SectionItemComplete(text: Text, pos: nat, p: nat, sec: Section, q: nat)
    requires pos <= |text| && AndPhrase(text, pos) == Some(p) && ParseSingleSection(text, p) == Ok(sec, q)
    ensures var r := SectionItems(text, pos);
            r.0 == [sec] + SectionItems(text, q).0 && r.1 == SectionItems(text, q).1
  {
  }

  /** The section items stop exactly where no connector follows, or where
      the connector is not followed by a section; nothing is consumed then. */
  lemma SectionItemsStop(text: Text, pos: nat)
    requires pos <= |text|
    ensures var r := SectionItems(text, pos);
            r.0 == [] <==> AndPhrase(text, pos).None? || ParseSingleSection(text, AndPhrase(text, pos).value).Fail?
    ensures SectionItems(text, pos).0 == [] ==> SectionItems(text, pos).1 == pos
  {
  }

  /** Completeness of `multiple_sections`: `§§`, a section, and at least
      one further section item make the phrase found, whatever follows. */
  lemma MultipleSectionsComplete(text: Text, pos: nat, s: nat, h: Section, q: nat, items: seq<Section>, e: nat)
    requires pos <= |text| && s == SkipWs(text, pos) && StartsAt(text, s, "§§")
    requires ParseSingleSection(text, s + 2) == Ok(h, q)
    requires SectionItems(text, q) == (items, e) && items != []
    ensures ParseAnyCitation(text, pos) == Ok(MultipleSections(h, items), e)
  {
    DoubleSignFound(text, pos, s);
    MultipleSectionsRead(text, pos, s, h, q, items, e);
    MultipleSectionsTriedFirst(text, pos);
  }

  lemma DoubleSignFound(text: Text, pos: nat, s: nat)
    requires pos <= |text| && s == SkipWs(text, pos) && StartsAt(text, s, "§§")
    ensures Literal(text, pos, "§§") == Some(s + 2)
  {
  }

  /** The `§§` rule alone reads such a list. */
  lemma MultipleSectionsRead(text: Text, pos: nat, s: nat, h: Section, q: nat, items: seq<Section>, e: nat)
    requires pos <= |text| && s == SkipWs(text, pos) && Literal(text, pos, "§§") == Some(s + 2)
    requires ParseSingleSection(text, s + 2) == Ok(h, q)
    requires SectionItems(text, q) == (items, e) && items != []
    ensures ParseMultipleSections(text, pos) == Ok(MultipleSections(h, items), e)
  {
  }

  /** Completeness of `single_section_with_marker`: a single `§` followed by
      a section makes the phrase found. */
  lemma SingleSectionComplete(text: Text, pos: nat, s: nat, sec: Section, q: nat)
    requires pos <= |text| && s == SkipWs(text, pos)
    requires s + 1 < |text| && text[s] == '§' && text[s + 1] != '§'
    requires ParseSingleSection(text, s + 1) == Ok(sec, q)
    ensures ParseAnyCitation(text, pos) == Ok(SingleSection(sec), q)
  {
    NotDoubleSectionSign(text, s);
    NoDoubleSign(text, pos, s);
    LiteralAt(text, pos, '§');
    SingleSectionRead(text, pos, s, sec, q);
    AnyCitationSecond(text, pos);
  }

  /** Completeness of `single_paragraph`: the word `paragraph` (not
      `paragraphs`) followed by a chain makes the phrase found. */
  lemma SingleParagraphComplete(text: Text, pos: nat, s: nat, c: Chain, e: nat)
    requires pos <= |text| && s == SkipWs(text, pos)
    requires StartsAt(text, s, "paragraph") && !StartsAt(text, s, "paragraphs")
    requires AnyDepth(text, s + 9) == Ok(c, e)
    ensures ParseAnyCitation(text, pos) == Ok(SingleParagraph(c), e)
  {
    KeywordOpens(text, pos, s, "paragraph");
    ParagraphFound(text, pos, s);
    SingleParagraphRead(text, pos, s, c, e);
    AnyCitationThird(text, pos);
  }

  /** Completeness of `multiple_paragraphs`: the word `paragraphs`, a chain
      and at least one tail item make the phrase found. */
  lemma MultipleParagraphsComplete(text: Text, pos: nat, s: nat, c: Chain, q: nat, items: seq<Chain>, e: nat)
    requires pos <= |text| && s == SkipWs(text, pos) && StartsAt(text, s, "paragraphs")
    requires AnyDepth(text, s + 10) == Ok(c, q)
    requires TailItems(text, q) == (items, e) && items != []
    ensures ParseAnyCitation(text, pos) == Ok(MultipleParagraphs(c, items), e)
  {
    KeywordOpens(text, pos, s, "paragraphs");
    ParagraphsIsNotSingleParagraph(text, pos);
    ParagraphsFound(text, pos, s);
    MultipleParagraphsRead(text, pos, s, c, q, items, e);
    AnyCitationFourth(text, pos);
  }

  /** Where a keyword starting with `p` stands, neither section rule matches. */
  lemma KeywordOpens(text: Text, pos: nat, s: nat, kw: string)
    requires pos <= |text| && s == SkipWs(text, pos) && StartsAt(text, s, kw) && kw != [] && kw[0] == 'p'
    ensures ParseMultipleSections(text, pos).Fail? && ParseSingleSectionWithMarker(text, pos).Fail?
  {
    StartsAtFirst(text, s, kw);
    NotSectionSign(text, s);
    NoDoubleSign(text, pos, s);
    NoSign(text, pos, s);
  }

  lemma NoDoubleSign(text: Text, pos: nat, s: nat)
    requires pos <= |text| && s == SkipWs(text, pos) && !StartsAt(text, s, "§§")
    ensures ParseMultipleSections(text, pos).Fail?
  {
  }

  lemma NoSign(text: Text, pos: nat, s: nat)
    requires pos <= |text| && s == SkipWs(text, pos) && !StartsAt(text, s, "§")
    ensures ParseSingleSectionWithMarker(text, pos).Fail?
  {
  }

  lemma ParagraphFound(text: Text, pos: nat, s: nat)
    requires pos <= |text| && s == SkipWs(text, pos) && StartsAt(text, s, "paragraph")
    ensures Literal(text, pos, "paragraph") == Some(s + 9)
  {
  }

  lemma ParagraphsFound(text: Text, pos: nat, s: nat)
    requires pos <= |text| && s == SkipWs(text, pos) && StartsAt(text, s, "paragraphs")
    ensures Literal(text, pos, "paragraphs") == Some(s + 10)
  {
  }

  /** The `§` rule alone reads a section after the sign. */
  lemma SingleSectionRead(text: Text, pos: nat, s: nat, sec: Section, q: nat)
    requires pos <= |text| && s == SkipWs(text, pos) && Literal(text, pos, ['§']) == Some(s + 1)
    requires ParseSingleSection(text, s + 1) == Ok(sec, q)
    ensures ParseSingleSectionWithMarker(text, pos) == Ok(SingleSection(sec), q)
  {
  }

  /** The `paragraph` rule alone reads a chain after the word. */
  lemma SingleParagraphRead(text: Text, pos: nat, s: nat, c: Chain, e: nat)
    requires pos <= |text| && s == SkipWs(text, pos) && Literal(text, pos, "paragraph") == Some(s + 9)
    requires AnyDepth(text, s + 9) == Ok(c, e)
    ensures ParseSingleParagraph(text, pos) == Ok(SingleParagraph(c), e)
  {
  }

  /** The `paragraphs` rule alone reads a chain and its tail after the word. */
  lemma MultipleParagraphsRead(text: Text, pos: nat, s: nat, c: Chain, q: nat, items: seq<Chain>, e: nat)
    requires pos <= |text| && s == SkipWs(text, pos) && Literal(text, pos, "paragraphs") == Some(s + 10)
    requires AnyDepth(text, s + 10) == Ok(c, q)
    requires TailItems(text, q) == (items, e) && items != []
    ensures ParseMultipleParagraphs(text, pos) == Ok(MultipleParagraphs(c, items), e)
  {
    assert ParagraphTail(text, q) == Ok(items, e);
  }

  /** The second shape is found when the first fails and it matches. */
  lemma AnyCitationSecond(text: Text, pos: nat)
    requires pos <= |text| && ParseMultipleSections(text, pos).Fail? && ParseSingleSectionWithMarker(text, pos).Ok?
    ensures ParseAnyCitation(text, pos) == ParseSingleSectionWithMarker(text, pos)
  {
  }

  /** The third shape is found when the first two fail and it matches. */
  lemma AnyCitationThird(text: Text, pos: nat)
    requires pos <= |text| && ParseMultipleSections(text, pos).Fail? && ParseSingleSectionWithMarker(text, pos).Fail?
    requires ParseSingleParagraph(text, pos).Ok?
    ensures ParseAnyCitation(text, pos) == ParseSingleParagraph(text, pos)
  {
  }

  /** The fourth shape is found when the first three fail. */
  lemma AnyCitationFourth(text: Text, pos: nat)
    requires pos <= |text| && ParseMultipleSections(text, pos).Fail? && ParseSingleSectionWithMarker(text, pos).Fail?
    requires ParseSingleParagraph(text, pos).Fail?
    ensures ParseAnyCitation(text, pos) == ParseMultipleParagraphs(text, pos)
  {
  }

  /** `§§` does not match where the second character is something else. */
  lemma NotDoubleSectionSign(text: Text, s: nat)
    requires s + 1 < |text| && text[s + 1] != '§'
    ensures !StartsAt(text, s, "§§")
  {
  }

  /** Neither section sign literal matches where a `p` stands. */
  lemma NotSectionSign(text: Text, s: nat)
    requires s < |text| && text[s] == 'p'
    ensures !StartsAt(text, s, "§") && !StartsAt(text, s, "§§")
  {
    if StartsAt(text, s, "§") {
      StartsAtFirst(text, s, "§");
    }
    if StartsAt(text, s, "§§") {
      StartsAtFirst(text, s, "§§");
    }
  }

  // ------------------------------------------------- what the scanner skips

  /** A literal found in the text is spelled there character by character. */
  lemma {:induction false} StartsAtSpells(text: Text, k: nat, lit: string)
    requires StartsAt(text, k, lit)
    ensures SpellsWord(text, k, lit)
    decreases |lit|
  {
    if lit != [] {
      assert text[k] == text[k..k + |lit|][0];
      assert text[k + 1..k + 1 + |lit[1..]|] == text[k..k + |lit|][1..];
      StartsAtSpells(text, k + 1, lit[1..]);
    }
  }

  /** A literal stands at `k` exactly when the text spells it there. */
  lemma StartsAtSpelled(text: Text, k: nat, lit: string)
    requires k <= |text|
    ensures StartsAt(text, k, lit) <==> SpellsWord(text, k, lit)
  {
    if StartsAt(text, k, lit) {
      StartsAtSpells(text, k, lit);
    }
    if SpellsWord(text, k, lit) {
      SpellsWordSlice(text, k, lit);
    }
  }

  /** No phrase can open at `k`: neither a section sign nor the word
      `paragraph` stands there. */
  predicate Quiet(text: Text, k: nat)
    requires k < |text|
  {
    text[k] != '§' && !SpellsWord(text, k, "paragraph")
  }

  /** No phrase opens anywhere in [lo, hi). */
  predicate QuietBetween(text: Text, lo: nat, hi: nat)
    requires hi <= |text|
    decreases hi - lo
  {
    lo >= hi || (Quiet(text, lo) && QuietBetween(text, lo + 1, hi))
  }

  /** Where the first non-blank is quiet, or there is none, no phrase is found. */
  lemma NoPhraseAt(text: Text, pos: nat)
    requires pos <= |text|
    requires var s := SkipWs(text, pos); s == |text| || Quiet(text, s)
    ensures ParseAnyCitation(text, pos).Fail?
  {
    var s := SkipWs(text, pos);
    if s < |text| {
      LiteralsAtQuiet(text, s);
    }
  }

  /** None of the four opening literals stands at a quiet position. */
  lemma LiteralsAtQuiet(text: Text, s: nat)
    requires s < |text| && Quiet(text, s)
    ensures !StartsAt(text, s, "§") && !StartsAt(text, s, "§§")
    ensures !StartsAt(text, s, "paragraph") && !StartsAt(text, s, "paragraphs")
  {
    if StartsAt(text, s, "paragraphs") {
      assert text[s..s + 9] == text[s..s + 10][..9];
    }
    if StartsAt(text, s, "paragraph") {
      StartsAtSpells(text, s, "paragraph");
    }
    if StartsAt(text, s, "§") {
      StartsAtFirst(text, s, "§");
    }
    if StartsAt(text, s, "§§") {
      StartsAtFirst(text, s, "§§");
    }
  }

  /** Neither `§` nor the `pa` that starts `paragraph` stands at `k`. */
  predicate NoOpener(text: Text, k: nat)
    requires k < |text|
  {
    text[k] != '§' && (text[k] == 'p' ==> k + 1 < |text| && text[k + 1] != 'a')
  }

  /** A stretch holding no `§`, and no `p` followed by `a`, is quiet. */
  lemma {:induction false} QuietWithout(text: Text, lo: nat, hi: nat)
    requires lo <= hi <= |text| && forall k :: lo <= k < hi ==> NoOpener(text, k)
    ensures QuietBetween(text, lo, hi)
    decreases hi - lo
  {
    if lo < hi {
      assert NoOpener(text, lo);
      assert "paragraph"[1..] == "aragraph";
      QuietWithout(text, lo + 1, hi);
    }
  }

  /** A literal stands where each of its characters does. */
  lemma StartsAtChars(text: Text, k: nat, lit: string)
    requires k + |lit| <= |text| && forall i :: 0 <= i < |lit| ==> text[k + i] == lit[i]
    ensures StartsAt(text, k, lit)
  {
    assert forall i :: 0 <= i < |lit| ==> text[k..k + |lit|][i] == lit[i];
  }

  /** A literal does not stand where one of its characters is missing. */
  lemma NotStartsAt(text: Text, k: nat, lit: string, i: nat)
    requires i < |lit| && (k + i >= |text| || text[k + i] != lit[i])
    ensures !StartsAt(text, k, lit)
  {
    if k + |lit| <= |text| {
      assert text[k..k + |lit|][i] != lit[i];
    }
  }

  lemma {:induction false} QuietLater(text: Text, lo: nat, mid: nat, hi: nat)
    requires lo <= mid && hi <= |text| && QuietBetween(text, lo, hi)
    ensures QuietBetween(text, mid, hi)
    decreases mid - lo
  {
    if lo < mid && lo < hi {
      QuietLater(text, lo + 1, mid, hi);
    }
  }

  lemma {:induction false} QuietAt(text: Text, lo: nat, k: nat, hi: nat)
    requires lo <= k < hi <= |text| && QuietBetween(text, lo, hi)
    ensures Quiet(text, k)
  {
    QuietLater(text, lo, k, hi);
  }

  /** Blanks are skipped no further than the next non-blank. */
  lemma {:induction false} SkipWsUpTo(text: Text, pos: nat, b: nat)
    requires pos <= b <= |text| && (b == |text| || !IsWhite(text[b]))
    ensures SkipWs(text, pos) <= b
    decreases b - pos
  {
    if pos < b && IsWhite(text[pos]) {
      SkipWsUpTo(text, pos + 1, b);
    }
  }

  /** The scanner passes over a stretch where no phrase opens, up to the
      next non-blank after it. */
  lemma {:induction false} ScanSkips(text: Text, loc: nat, b: nat)
    requires loc <= b <= |text| && (b == |text| || !IsWhite(text[b])) && QuietBetween(text, loc, b)
    ensures Scan(text, loc) == Scan(text, b)
    decreases b - loc, 2
  {
    if loc < b {
      SkipWsUpTo(text, loc, b);
      ScanSkipsFrom(text, loc, SkipWs(text, loc), b);
    }
  }

  /** The same, once the first non-blank `p` after `loc` is known. */
  lemma {:induction false} ScanSkipsFrom(text: Text, loc: nat, p: nat, b: nat)
    requires loc <= p <= b <= |text| && (b == |text| || !IsWhite(text[b]))
    requires p == SkipWs(text, loc) && QuietBetween(text, loc, b)
    ensures Scan(text, loc) == Scan(text, b)
    decreases b - loc, 1
  {
    if p < b {
      ScanSkipsPast(text, loc, p, b);
    } else {
      ScanToNonBlank(text, loc, b);
    }
  }

  /** The scan steps past a first non-blank `p` inside the quiet stretch,
      then passes over the rest of it. */
  lemma {:induction false} ScanSkipsPast(text: Text, loc: nat, p: nat, b: nat)
    requires loc <= p < b <= |text| && (b == |text| || !IsWhite(text[b]))
    requires p == SkipWs(text, loc) && QuietBetween(text, loc, b)
    ensures Scan(text, loc) == Scan(text, b)
    decreases b - loc, 0
  {
    ScanSkipsOne(text, loc, p, b);
    ScanSkips(text, p + 1, b);
  }

  /** A scan whose first non-blank is `b` scans as from `b`. */
  lemma ScanToNonBlank(text: Text, loc: nat, b: nat)
    requires loc <= b <= |text| && (b == |text| || !IsWhite(text[b])) && SkipWs(text, loc) == b
    ensures Scan(text, loc) == Scan(text, b)
  {
    if b < |text| {
      SkipWsAtNonWhite(text, b);
    }
    ScanSameStart(text, loc, b);
  }

  /** In a stretch where no phrase opens, the scan steps one character past
      the first non-blank, and the rest of the stretch stays quiet. */
  lemma ScanSkipsOne(text: Text, loc: nat, p: nat, b: nat)
    requires loc <= p < b <= |text| && p == SkipWs(text, loc) && QuietBetween(text, loc, b)
    ensures Scan(text, loc) == Scan(text, p + 1) && QuietBetween(text, p + 1, b)
  {
    QuietAt(text, loc, p, b);
    SkipWsAtNonWhite(text, p);
    NoPhraseAt(text, p);
    ScanPasses(text, loc, p);
    QuietLater(text, loc, p + 1, b);
  }

  /** Where no phrase is found after the blanks, the scan resumes one
      character past them. */
  lemma ScanPasses(text: Text, loc: nat, p: nat)
    requires loc <= |text| && p == SkipWs(text, loc) && ParseAnyCitation(text, p).Fail?
    ensures Scan(text, loc) == Scan(text, p + 1)
  {
  }

  /** Two scan positions with the same first non-blank scan alike. */
  lemma ScanSameStart(text: Text, loc: nat, b: nat)
    requires loc <= |text| && b <= |text| && SkipWs(text, loc) == b && SkipWs(text, b) == b
    ensures Scan(text, loc) == Scan(text, b)
  {
  }

  /** At the end of the text nothing more is found. */
  lemma ScanAtEnd(text: Text)
    ensures Scan(text, |text|) == []
  {
    NoPhraseAt(text, |text|);
    assert ScanFrom(text, |text|) == Scan(text, |text| + 1);
  }

  /** A phrase found at a non-blank is recorded with its span, and the scan
      resumes at its end. */
  lemma ScanFinds(text: Text, b: nat, ph: Phrase, e: nat)
    requires b < |text| && !IsWhite(text[b]) && ParseAnyCitation(text, b) == Ok(ph, e)
    ensures Scan(text, b) == [Match(ph, b, e)] + Scan(text, e)
  {
    SkipWsAtNonWhite(text, b);
  }
}
