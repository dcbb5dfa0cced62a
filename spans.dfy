/*
 * Trimming a span: the offsets (start, end) of a citation are moved inward
 * past the blanks at either end of the text they cover, the way the
 * extractor's `strip_whitespace` slices the text and compares its length
 * before and after stripping it on the left and on the right.
 */
module Spans {
  import opened Grammar

  /** A half-open character span [start, end) of the text. */
  type Span = (nat, nat)

  function Min(a: nat, b: nat): nat {
    if a <= b then a else b
  }

  /** `text[start:end]` for non-negative offsets: clamped to the text, and
      empty when the span is empty or reversed. */
  function Slice(text: Text, start: nat, end: nat): (s: string)
    ensures |s| <= end
    ensures start <= end <= |text| ==> s == text[start..end]
    ensures start < |text| < end ==> s == text[start..]
    ensures end <= start || |text| <= start ==> s == []
  {
    if end <= start || |text| <= start then [] else text[start..Min(end, |text|)]
  }

  /** The number of blanks a left strip removes. */
  function Leading(s: string): (n: nat)
    ensures n <= |s|
    ensures n == |s| || !IsWhite(s[n])
    decreases |s|
  {
    if s != [] && IsWhite(s[0]) then 1 + Leading(s[1..]) else 0
  }

  /** The number of blanks a right strip removes. */
  function Trailing(s: string): (n: nat)
    ensures n <= |s|
    ensures n == |s| || !IsWhite(s[|s| - n - 1])
    decreases |s|
  {
    if s != [] && IsWhite(s[|s| - 1]) then 1 + Trailing(s[..|s| - 1]) else 0
  }

  /** The span moved past its leading blanks and before its trailing ones. */
  function StripSpan(text: Text, span: Span): (r: Span)
    ensures span.0 <= r.0 && r.1 <= span.1
  {
    var s := Slice(text, span.0, span.1);
    (span.0 + Leading(s), span.1 - Trailing(s))
  }

  predicate HasNonWhite(s: string) {
    exists k :: 0 <= k < |s| && !IsWhite(s[k])
  }

  // --------------------------------------------------------------- lemmas

  /** Everything a left strip removes is blank. */
  lemma {:induction false} LeadingBlanks(s: string)
    ensures forall k :: 0 <= k < Leading(s) ==> IsWhite(s[k])
    decreases |s|
  {
    if s != [] && IsWhite(s[0]) {
      LeadingBlanks(s[1..]);
      forall k | 1 <= k < Leading(s) ensures IsWhite(s[k]) {
        assert s[k] == s[1..][k - 1];
      }
    }
  }

  /** Everything a right strip removes is blank. */
  lemma {:induction false} TrailingBlanks(s: string)
    ensures forall k :: |s| - Trailing(s) <= k < |s| ==> IsWhite(s[k])
    decreases |s|
  {
    if s != [] && IsWhite(s[|s| - 1]) {
      var init := s[..|s| - 1];
      TrailingBlanks(init);
      forall k | |s| - Trailing(s) <= k < |s| - 1 ensures IsWhite(s[k]) {
        assert s[k] == init[k];
      }
    }
  }

  lemma LeadingBeforeNonWhite(s: string, k: nat)
    requires k < |s| && !IsWhite(s[k])
    ensures Leading(s) <= k
  {
    LeadingBlanks(s);
  }

  lemma TrailingAfterNonWhite(s: string, k: nat)
    requires k < |s| && !IsWhite(s[k])
    ensures k < |s| - Trailing(s)
  {
    TrailingBlanks(s);
  }

  /** A string that is not all blank keeps a nonempty middle once stripped. */
  lemma StripKeepsMiddle(s: string)
    requires HasNonWhite(s)
    ensures Leading(s) < |s| - Trailing(s)
  {
    var k :| 0 <= k < |s| && !IsWhite(s[k]);
    LeadingBeforeNonWhite(s, k);
    TrailingAfterNonWhite(s, k);
  }

  /** What a left strip of `text[a..b]` drops, read on the text itself. */
  lemma LeadingInText(text: Text, a: nat, b: nat, l: nat)
    requires a <= b <= |text| && l == Leading(text[a..b])
    ensures a + l <= b && (a + l < b ==> !IsWhite(text[a + l]))
    ensures forall k :: a <= k < a + l ==> IsWhite(text[k])
  {
    var s := text[a..b];
    LeadingBlanks(s);
    forall k | a <= k < a + l ensures IsWhite(text[k]) {
      assert text[k] == s[k - a];
    }
    if a + l < b {
      assert text[a + l] == s[l];
    }
  }

  /** What a right strip of `text[a..b]` drops, read on the text itself. */
  lemma TrailingInText(text: Text, a: nat, b: nat, t: nat)
    requires a <= b <= |text| && t == Trailing(text[a..b])
    ensures a <= b - t && (a < b - t ==> !IsWhite(text[b - t - 1]))
    ensures forall k :: b - t <= k < b ==> IsWhite(text[k])
  {
    var s := text[a..b];
    TrailingBlanks(s);
    forall k | b - t <= k < b ensures IsWhite(text[k]) {
      assert text[k] == s[k - a];
    }
    if a < b - t {
      assert text[b - t - 1] == s[|s| - t - 1];
    }
  }

  /** On a span of the text that is not all blank, the stripped span lies
      inside it, starts and ends on a non-blank character, and what it drops
      on either side is blank: slicing it yields the stripped text. */
  lemma StripSpanTrims(text: Text, span: Span)
    requires span.0 <= span.1 <= |text| && HasNonWhite(text[span.0..span.1])
    ensures var r := StripSpan(text, span);
            span.0 <= r.0 < r.1 <= span.1 &&
            !IsWhite(text[r.0]) && !IsWhite(text[r.1 - 1]) &&
            (forall k :: span.0 <= k < r.0 ==> IsWhite(text[k])) &&
            (forall k :: r.1 <= k < span.1 ==> IsWhite(text[k]))
  {
    var l, t := Leading(text[span.0..span.1]), Trailing(text[span.0..span.1]);
    assert span.0 + l < span.1 - t by {
      StripKeepsMiddle(text[span.0..span.1]);
    }
    assert StripSpan(text, span) == (span.0 + l, span.1 - t) by {
      StripSpanInText(text, span);
    }
    LeadingInText(text, span.0, span.1, l);
    TrailingInText(text, span.0, span.1, t);
    StripSpanEnds(text, span, l, t);
  }

  /** The ends of the stripped span, once the blanks on either side are known. */
  lemma StripSpanEnds(text: Text, span: Span, l: nat, t: nat)
    requires span.0 + l < span.1 - t && span.1 <= |text|
    requires !IsWhite(text[span.0 + l]) && !IsWhite(text[span.1 - t - 1])
    requires forall k :: span.0 <= k < span.0 + l ==> IsWhite(text[k])
    requires forall k :: span.1 - t <= k < span.1 ==> IsWhite(text[k])
    requires StripSpan(text, span) == (span.0 + l, span.1 - t)
    ensures var r := StripSpan(text, span);
            span.0 <= r.0 < r.1 <= span.1 &&
            !IsWhite(text[r.0]) && !IsWhite(text[r.1 - 1]) &&
            (forall k :: span.0 <= k < r.0 ==> IsWhite(text[k])) &&
            (forall k :: r.1 <= k < span.1 ==> IsWhite(text[k]))
  {
  }

  /** Within the text, the stripped span is read off `text[span.0..span.1]`. */
  lemma StripSpanInText(text: Text, span: Span)
    requires span.0 <= span.1 <= |text|
    ensures StripSpan(text, span) == (span.0 + Leading(text[span.0..span.1]), span.1 - Trailing(text[span.0..span.1]))
  {
    assert Slice(text, span.0, span.1) == text[span.0..span.1];
  }

  /** Conversely, a sub-span that starts and ends on a non-blank character
      and drops only blanks on either side is the stripped span. */
  lemma StripSpanExact(text: Text, span: Span, r: Span)
    requires span.0 <= r.0 < r.1 <= span.1 <= |text|
    requires !IsWhite(text[r.0]) && !IsWhite(text[r.1 - 1])
    requires forall k :: span.0 <= k < r.0 ==> IsWhite(text[k])
    requires forall k :: r.1 <= k < span.1 ==> IsWhite(text[k])
    ensures StripSpan(text, span) == r
  {
    assert HasNonWhite(text[span.0..span.1]) by {
      assert text[span.0..span.1][r.0 - span.0] == text[r.0];
    }
    StripSpanTrims(text, span);
  }

  /** A blank-only span of the text is turned inside out, as
      `strip_whitespace` does: its start moves to its end and its end to its start. */
  lemma StripSpanBlank(text: Text, span: Span)
    requires span.0 <= span.1 <= |text| && !HasNonWhite(text[span.0..span.1])
    ensures StripSpan(text, span) == (span.1, span.0)
  {
    var s := text[span.0..span.1];
    assert forall k :: 0 <= k < |s| ==> IsWhite(s[k]);
    assert Leading(s) == |s|;
    assert Trailing(s) == |s|;
  }

  /** A second trimming pass changes nothing. */
  lemma StripSpanIdempotent(text: Text, span: Span)
    requires span.1 <= |text|
    ensures StripSpan(text, StripSpan(text, span)) == StripSpan(text, span)
  {
    var r := StripSpan(text, span);
    if span.1 < span.0 {
      assert r == span;
    } else if HasNonWhite(text[span.0..span.1]) {
      StripSpanTrims(text, span);
      var s := text[r.0..r.1];
      assert s[0] == text[r.0];
      assert Leading(s) == 0;
      assert s[|s| - 1] == text[r.1 - 1];
      assert Trailing(s) == 0;
    } else {
      StripSpanBlank(text, span);
    }
  }
}
