/**
  Finding the answers that still need grading on the quiz report page
  (`find_requires_grade_links`). The page is given as its anchors in document
  order; fetching and parsing the HTML is outside the model.
 */
module Discovery {
  import opened Outcomes
  import opened Text

  /** One `<a>` element: its `href` attribute, if any, and its text content. */
  datatype Anchor = Anchor(href: Option<string>, text: string)

  /** The literal start of the href pattern, `reviewquestion\.php\?`. */
  const ReviewQuestion: string := "reviewquestion.php?"

  /** The literal end of the href pattern. */
  const SlotEquals: string := "slot="

  /** The phrase the lower-cased link text must contain. */
  const RequiresGrading: string := "requires grading"

  /** No newline in `s[from..to]`: the stretch a regex `.*` can cross. */
  predicate NoNewline(s: string, from: int, to: int) {
    forall m :: from <= m < to && 0 <= m < |s| ==> s[m] != '\n'
  }

  /**
    The regular expression `reviewquestion\.php\?.*slot=` matches somewhere in
    `s` (a search, not a full match): the first literal at `a`, the second at
    `k`, and only non-newline characters between them.
   */
  ghost predicate MatchesReviewPattern(s: string) {
    exists a, k :: ReviewPatternAt(s, a, k)
  }

  ghost predicate ReviewPatternAt(s: string, a: int, k: int) {
    HasAt(s, a, ReviewQuestion) && a + |ReviewQuestion| <= k
    && HasAt(s, k, SlotEquals) && NoNewline(s, a + |ReviewQuestion|, k)
  }

  /** `slot=` starts at `j` or later, with no newline before it from `j` on. */
  function SlotAhead(s: string, j: nat): (b: bool)
    requires j <= |s|
    decreases |s| - j
    ensures b <==> exists k :: j <= k && HasAt(s, k, SlotEquals) && NoNewline(s, j, k)
  {
    if HasAt(s, j, SlotEquals) then true
    else if j == |s| || s[j] == '\n' then
      assert forall k :: j <= k && HasAt(s, k, SlotEquals) ==> j < k < |s| && !NoNewline(s, j, k);
      false
    else
      var b := SlotAhead(s, j + 1);
      assert forall k :: j < k && NoNewline(s, j, k) ==> NoNewline(s, j + 1, k);
      assert forall k :: j < k && NoNewline(s, j + 1, k) ==> NoNewline(s, j, k);
      assert forall k :: j <= k && HasAt(s, k, SlotEquals) ==> j < k;
      b
  }

  /** The pattern matches starting from some occurrence of `reviewquestion.php?` at `i` or later. */
  function MatchesFrom(s: string, i: nat): (b: bool)
    requires i <= |s|
    decreases |s| - i
    ensures b <==> exists a :: i <= a && HasAt(s, a, ReviewQuestion) && SlotAhead(s, a + |ReviewQuestion|)
  {
    if HasAt(s, i, ReviewQuestion) && SlotAhead(s, i + |ReviewQuestion|) then true
    else if i == |s| then false
    else MatchesFrom(s, i + 1)
  }

  /** The href test BeautifulSoup applies: a regex search of the attribute value. */
  function HrefMatches(href: string): bool {
    MatchesFrom(href, 0)
  }

  /** The executable search agrees with the regular expression's meaning. */
  lemma HrefMatchesPattern(href: string)
    ensures HrefMatches(href) <==> MatchesReviewPattern(href)
  {
    if HrefMatches(href) {
      var a :| 0 <= a && HasAt(href, a, ReviewQuestion) && SlotAhead(href, a + |ReviewQuestion|);
      var k :| a + |ReviewQuestion| <= k && HasAt(href, k, SlotEquals) && NoNewline(href, a + |ReviewQuestion|, k);
      assert ReviewPatternAt(href, a, k);
    }
    if MatchesReviewPattern(href) {
      var a, k :| ReviewPatternAt(href, a, k);
      assert SlotAhead(href, a + |ReviewQuestion|);
    }
  }

  /** The link text, lower-cased, mentions that the answer requires grading. */
  function NeedsGrading(text: string): bool {
    Contains(ToLower(text), RequiresGrading)
  }

  /** An anchor the script keeps: an href matching the pattern and a text asking for grading. */
  predicate Qualifies(a: Anchor) {
    a.href.Some? && HrefMatches(a.href.value) && NeedsGrading(a.text)
  }

  /** The hrefs of the qualifying anchors, in document order. */
  function FindRequiresGradeLinks(anchors: seq<Anchor>): (links: seq<string>)
    ensures |links| <= |anchors|
    ensures forall x :: x in links <==> exists i :: LinkFrom(anchors, i, x)
  {
    if |anchors| == 0 then []
    else
      var rest := FindRequiresGradeLinks(anchors[1..]);
      var links := if Qualifies(anchors[0]) then [anchors[0].href.value] + rest else rest;
      FindLinksCons(anchors, rest, links);
      links
  }

  /** Anchor `i` qualifies and its href is `x`. */
  predicate LinkFrom(anchors: seq<Anchor>, i: int, x: string) {
    0 <= i < |anchors| && Qualifies(anchors[i]) && anchors[i].href.value == x
  }

  lemma FindLinksCons(anchors: seq<Anchor>, rest: seq<string>, links: seq<string>)
    requires |anchors| > 0
    requires forall x :: x in rest <==> exists i :: LinkFrom(anchors[1..], i, x)
    requires links == if Qualifies(anchors[0]) then [anchors[0].href.value] + rest else rest
    ensures forall x :: x in links <==> exists i :: LinkFrom(anchors, i, x)
  {
    var tail := anchors[1..];
    forall x
      ensures x in links <==> exists i :: LinkFrom(anchors, i, x)
    {
      if x in rest {
        var i :| LinkFrom(tail, i, x);
        assert tail[i] == anchors[i + 1];
        assert LinkFrom(anchors, i + 1, x);
      }
      if Qualifies(anchors[0]) && x == anchors[0].href.value {
        assert LinkFrom(anchors, 0, x);
      }
      if exists i :: LinkFrom(anchors, i, x) {
        var i :| LinkFrom(anchors, i, x);
        if i > 0 {
          assert tail[i - 1] == anchors[i];
          assert LinkFrom(tail, i - 1, x);
        }
      }
    }
  }

  /** Filtering distributes over concatenation of the anchor list: document order is kept. */
  lemma {:induction false} FindLinksAppend(xs: seq<Anchor>, ys: seq<Anchor>)
    ensures FindRequiresGradeLinks(xs + ys) == FindRequiresGradeLinks(xs) + FindRequiresGradeLinks(ys)
    decreases |xs|
  {
    if |xs| == 0 {
      assert xs + ys == ys;
    } else {
      assert (xs + ys)[1..] == xs[1..] + ys;
      FindLinksAppend(xs[1..], ys);
    }
  }

  /** A single anchor contributes its href exactly when it qualifies. */
  lemma FindLinksSingle(a: Anchor)
    ensures FindRequiresGradeLinks([a]) == if Qualifies(a) then [a.href.value] else []
  {
  }

  /** Finding nothing is an ordinary empty result, and happens exactly when no anchor qualifies. */
  lemma {:induction false} FindLinksEmpty(anchors: seq<Anchor>)
    ensures FindRequiresGradeLinks(anchors) == [] <==> forall i :: 0 <= i < |anchors| ==> !Qualifies(anchors[i])
    decreases |anchors|
  {
    if |anchors| > 0 {
      var tail := anchors[1..];
      FindLinksEmpty(tail);
      assert forall i :: 0 < i < |anchors| ==> anchors[i] == tail[i - 1];
      assert (forall i :: 0 <= i < |anchors| ==> !Qualifies(anchors[i]))
        <==> !Qualifies(anchors[0]) && forall i :: 0 <= i < |tail| ==> !Qualifies(tail[i]);
    }
  }
}
