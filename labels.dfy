/*
 * Citation labels. While a list of paragraphs is expanded, a running label
 * of six slots [part, section, level1, level2, level3, level4] is kept; an
 * absent slot holds the empty string. Each tail item overwrites the slots
 * from its own first level down and inherits the shallower ones. The label
 * that is emitted keeps only the slots that are present.
 */
module Labels {
  import opened Grammar

  /** The label a head chain starts with: part, section and the head's four
      levels, or four blanks when there is no head. */
  function HeadLabel(part: string, section: string, head: Option<Chain>): (lab: seq<string>)
    ensures |lab| == 6 && lab[..2] == [part, section]
  {
    [part, section] + (if head.Some? then Levels(head.value) else ["", "", "", ""])
  }

  /** The emitted label: the slots that are present, in slot order. */
  function Present(lab: seq<string>): (r: seq<string>)
    ensures |r| <= |lab|
    ensures forall x :: x in r <==> x in lab && x != ""
    decreases |lab|
  {
    if lab == [] then []
    else if lab[0] == "" then Present(lab[1..])
    else [lab[0]] + Present(lab[1..])
  }

  /** One tail item spliced into the running label. An item whose only level
      is level 4 writes the nonexistent field `level5`, which reads as blank:
      slot 5 is cleared and the item's own level is lost. */
  function Splice(lab: seq<string>, item: Chain): (r: seq<string>)
    requires |lab| == 6
    ensures |r| == 6 && r[..2] == lab[..2]
  {
    if item.level1 != "" then lab[..2] + [item.level1, item.level2, item.level3, item.level4]
    else if item.level2 != "" then lab[..3] + [item.level2, item.level3, item.level4]
    else if item.level3 != "" then lab[..4] + [item.level3, item.level4]
    else lab[5 := ""]
  }

  /** The running label after splicing every item of `items` in order. */
  function Spliced(lab: seq<string>, items: seq<Chain>): (r: seq<string>)
    requires |lab| == 6
    ensures |r| == 6 && r[..2] == lab[..2]
    decreases |items|
  {
    if items == [] then lab
    else Splice(Spliced(lab, items[..|items| - 1]), items[|items| - 1])
  }

  // --------------------------------------------------------------- lemmas

  /** Dropping blanks preserves order: filtering a concatenation is the
      concatenation of the filtered parts. */
  lemma {:induction false} PresentConcat(a: seq<string>, b: seq<string>)
    ensures Present(a + b) == Present(a) + Present(b)
    decreases |a|
  {
    if a != [] {
      assert (a + b)[1..] == a[1..] + b;
      PresentConcat(a[1..], b);
    } else {
      assert a + b == b;
    }
  }

  /** An emitted label starts with its part and section, followed by the
      present levels in depth order. */
  lemma LabelStartsWithPartSection(lab: seq<string>)
    requires |lab| == 6 && lab[0] != "" && lab[1] != ""
    ensures Present(lab) == lab[..2] + Present(lab[2..])
  {
    assert lab == lab[..2] + lab[2..];
    PresentConcat(lab[..2], lab[2..]);
    assert Present(lab[..2]) == [lab[0]] + Present(lab[1..2]);
    assert lab[..2][1..] == [lab[1]];
    assert Present([lab[1]]) == [lab[1]] + Present([]);
  }

  /** Splicing an item led by depth d (1 to 3) keeps the slots above d and
      replaces slot d and every deeper slot with the item's own levels. */
  lemma SpliceInherits(lab: seq<string>, item: Chain)
    requires |lab| == 6 && Lead(Levels(item)) <= 3
    ensures var d := Lead(Levels(item));
            forall k :: 0 <= k < 6 ==>
              Splice(lab, item)[k] == if k <= d then lab[k] else Levels(item)[k - 2]
  {
  }

  /** An item holding only an uppercase marker does not set level 4: it
      clears slot 5 and leaves every other slot as it was. */
  lemma UpperOnlyItemClearsLevel4(lab: seq<string>, item: Chain)
    requires |lab| == 6 && Lead(Levels(item)) == 4
    ensures Splice(lab, item)[..5] == lab[..5] && Splice(lab, item)[5] == ""
  {
  }

  /** Whatever is spliced in, the running label keeps the head's part and
      section: an emitted tail label still starts with them. */
  lemma SplicedStartsWithPartSection(lab: seq<string>, items: seq<Chain>)
    requires |lab| == 6 && lab[0] != "" && lab[1] != ""
    ensures Present(Spliced(lab, items)) == lab[..2] + Present(Spliced(lab, items)[2..])
  {
    LabelStartsWithPartSection(Spliced(lab, items));
  }

  /** A label without blank slots is emitted as it is. */
  lemma {:induction false} PresentWithoutBlanks(lab: seq<string>)
    requires forall k :: 0 <= k < |lab| ==> lab[k] != ""
    ensures Present(lab) == lab
    decreases |lab|
  {
    if lab != [] {
      PresentWithoutBlanks(lab[1..]);
    }
  }

  /** "1005.7(b)(1), (2) and (3)" after a `§`: the tail items `(2)` and `(3)` inherit
      level 1 from the head and replace its level 2. */
  lemma SpliceExample()
    ensures var head := ["1005", "7", "b", "1", "", ""];
            var two := Chain("", "2", "", "", 16, 20);
            var three := Chain("", "3", "", "", 24, 27);
            Present(Spliced(head, [two])) == ["1005", "7", "b", "2"] &&
            Present(Spliced(head, [two, three])) == ["1005", "7", "b", "3"]
  {
    var head := ["1005", "7", "b", "1", "", ""];
    var two := Chain("", "2", "", "", 16, 20);
    var three := Chain("", "3", "", "", 24, 27);
    assert [two, three][..1] == [two];
    var l2, l3 := ["1005", "7", "b", "2"], ["1005", "7", "b", "3"];
    assert Spliced(head, [two]) == l2 + ["", ""];
    assert Spliced(head, [two, three]) == l3 + ["", ""];
    PresentConcat(l2, ["", ""]);
    PresentConcat(l3, ["", ""]);
    PresentWithoutBlanks(l2);
    PresentWithoutBlanks(l3);
    assert Present(["", ""]) == [];
  }
}
