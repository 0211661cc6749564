/**
  The grading session of the main script: find the answers that need
  grading, group and rerank them, rewrite the links, then for each link fetch
  the question, show a header when the question changes, read a grade and
  submit it. Everything the session receives from the outside (the report
  page's anchors, each review page, the grade typed at the prompt and the exit
  status of the submission) is an input; printing is left out.
 */
module Session {
  import opened Outcomes
  import opened Text
  import opened Discovery
  import opened Query
  import opened Grouping
  import opened Numbers
  import opened Ordering
  import opened Details
  import opened Submission

  // The question header.

  /** The header is shown when the question differs from the previously shown one (none at the start). */
  function ShowHeader(previous: Option<string>, question: string): bool {
    previous != Some(question)
  }

  /** The header flags the loop's state machine produces, starting from `previous`. */
  function HeaderRun(previous: Option<string>, questions: seq<string>): (flags: seq<bool>)
    ensures |flags| == |questions|
    decreases |questions|
  {
    if |questions| == 0 then []
    else
      var show := ShowHeader(previous, questions[0]);
      var next := if show then Some(questions[0]) else previous;
      [show] + HeaderRun(next, questions[1..])
  }

  /** Reference rule: item `i` has a header exactly when it is first or its question differs from item `i - 1`'s. */
  predicate HeaderAt(questions: seq<string>, i: int)
    requires 0 <= i < |questions|
  {
    i == 0 || questions[i] != questions[i - 1]
  }

  /** The state machine keeps the last question as its state, whether or not it showed a header. */
  lemma {:induction false} HeaderRunFrom(last: string, questions: seq<string>)
    ensures forall i :: 0 <= i < |questions| ==>
      HeaderRun(Some(last), questions)[i] == (if i == 0 then questions[0] != last else questions[i] != questions[i - 1])
    decreases |questions|
  {
    if |questions| > 0 {
      var q := questions[0];
      var next := if ShowHeader(Some(last), q) then Some(q) else Some(last);
      assert next == Some(q);
      HeaderRunFrom(q, questions[1..]);
      var flags := HeaderRun(Some(last), questions);
      assert flags == [q != last] + HeaderRun(Some(q), questions[1..]);
      forall i | 0 < i < |questions|
        ensures flags[i] == (questions[i] != questions[i - 1])
      {
        assert flags[i] == HeaderRun(Some(q), questions[1..])[i - 1];
        assert questions[1..][i - 1] == questions[i];
        if i > 1 {
          assert questions[1..][i - 2] == questions[i - 1];
        }
      }
    }
  }

  /** Starting with no previous question, the loop shows a header exactly by the reference rule. */
  lemma HeaderRunMatches(questions: seq<string>)
    ensures forall i :: 0 <= i < |questions| ==> HeaderRun(None, questions)[i] == HeaderAt(questions, i)
  {
    if |questions| > 0 {
      HeaderRunFrom(questions[0], questions[1..]);
      var flags := HeaderRun(None, questions);
      assert flags == [true] + HeaderRun(Some(questions[0]), questions[1..]);
      forall i | 0 < i < |questions|
        ensures flags[i] == HeaderAt(questions, i)
      {
        assert questions[1..][i - 1] == questions[i];
        if i > 1 {
          assert questions[1..][i - 2] == questions[i - 1];
        }
      }
    }
  }

  /** A run of answers to one question shows the header once. */
  lemma OneQuestionOneHeader(questions: seq<string>, q: string)
    requires |questions| > 0 && forall i :: 0 <= i < |questions| ==> questions[i] == q
    ensures HeaderRun(None, questions)[0]
    ensures forall i :: 0 < i < |questions| ==> !HeaderRun(None, questions)[i]
  {
    HeaderRunMatches(questions);
    assert HeaderAt(questions, 0);
    forall i | 0 < i < |questions|
      ensures !HeaderAt(questions, i)
    {
    }
  }

  // One item of the loop.

  /** What the outside world gives for one link: the review page's texts, the comment page, the typed grade, the exit status. */
  datatype Reply = Reply(
    question: Option<string>, answer: Option<string>, gradeInfo: Option<string>,
    page: string, inputs: seq<HtmlInput>, grade: string, exitCode: int)

  /**
    Grading one link: its question details, then the request for the typed
    grade. Either step may raise, which ends the session.
   */
  function GradeItem(link: string, reply: Reply, base: string): (r: Result<(QuestionDetails, Request)>)
    ensures r.Ok? ==> AttemptAndSlot(link) == Ok((r.value.1.attempt, r.value.1.slot))
    ensures r.Ok? ==> r.value.1.commentUrl == CommentUrl(base, r.value.1.attempt, r.value.1.slot)
    ensures AttemptAndSlot(link).Err? ==> r.Err?
    ensures reply.gradeInfo.Some? && MaxMark(reply.gradeInfo.value).Err? ==> r.Err?
    ensures !TokensPresent(reply.inputs) ==> r.Err?
    ensures r.Ok? ==> (GetQuestionDetails(reply.question, reply.answer, reply.gradeInfo) == Ok(r.value.0)
                       && PrepareSubmission(link, reply.grade, r.value.0.maxMark, base, reply.page, reply.inputs) == Ok(r.value.1))
    ensures r.Err? <==> (GetQuestionDetails(reply.question, reply.answer, reply.gradeInfo).Err?
                         || PrepareSubmission(link, reply.grade, GetQuestionDetails(reply.question, reply.answer, reply.gradeInfo).value.maxMark,
                                              base, reply.page, reply.inputs).Err?)
  {
    match GetQuestionDetails(reply.question, reply.answer, reply.gradeInfo)
    case Err(e) => Err(e)
    case Ok(details) =>
      match PrepareSubmission(link, reply.grade, details.maxMark, base, reply.page, reply.inputs)
      case Err(e) => Err(e)
      case Ok(request) => Ok((details, request))
  }

  /** One processed link: its details, whether a header was shown, the request, and whether posting it succeeded. */
  datatype Step = Step(link: string, details: QuestionDetails, header: bool, request: Request, succeeded: bool)

  /** A session runs to the end with its tally, or stops at the first exception. */
  datatype Session = Completed(steps: seq<Step>, graded: nat) | Aborted(steps: seq<Step>, error: Error)

  /** Step `i` is what grading link `i` with reply `i` gives. */
  predicate StepFaithful(links: seq<string>, replies: seq<Reply>, base: string, steps: seq<Step>, i: int)
    requires 0 <= i < |steps| <= |links| == |replies|
  {
    && steps[i].link == links[i]
    && GradeItem(links[i], replies[i], base) == Ok((steps[i].details, steps[i].request))
    && steps[i].succeeded == (replies[i].exitCode == 0)
  }

  /** The header of step `i` follows the reference rule over the steps' questions. */
  predicate HeaderFaithful(steps: seq<Step>, i: int)
    requires 0 <= i < |steps|
  {
    steps[i].header == (i == 0 || steps[i].details.question != steps[i - 1].details.question)
  }

  /** Appending the step that grading the next link gives keeps every step faithful. */
  lemma StepSnoc(links: seq<string>, replies: seq<Reply>, base: string, steps: seq<Step>, step: Step)
    requires |steps| < |links| == |replies|
    requires forall k :: 0 <= k < |steps| ==> StepFaithful(links, replies, base, steps, k)
    requires step.link == links[|steps|] && step.succeeded == (replies[|steps|].exitCode == 0)
    requires GradeItem(links[|steps|], replies[|steps|], base) == Ok((step.details, step.request))
    ensures forall k :: 0 <= k <= |steps| ==> StepFaithful(links, replies, base, steps + [step], k)
  {
    var longer := steps + [step];
    forall k | 0 <= k <= |steps|
      ensures StepFaithful(links, replies, base, longer, k)
    {
      if k < |steps| {
        assert longer[k] == steps[k];
        assert StepFaithful(links, replies, base, steps, k);
      } else {
        assert longer[k] == step;
      }
    }
  }

  /** Appending a step whose header follows the rule keeps every header faithful. */
  lemma HeaderSnoc(steps: seq<Step>, step: Step)
    requires forall k :: 0 <= k < |steps| ==> HeaderFaithful(steps, k)
    requires step.header == (|steps| == 0 || step.details.question != steps[|steps| - 1].details.question)
    ensures forall k :: 0 <= k <= |steps| ==> HeaderFaithful(steps + [step], k)
  {
    var longer := steps + [step];
    forall k | 0 <= k <= |steps|
      ensures HeaderFaithful(longer, k)
    {
      if k < |steps| {
        assert HeaderFaithful(steps, k);
      }
      if k > 0 {
        assert longer[k - 1] == steps[k - 1];
      }
    }
  }

  /**
    Everything the loop promises about a session over `links`: each step is
    what grading its link gives, headers follow the reference rule, a
    completed session covers every link and tallies them, and an aborted one
    stops at a link whose grading raises.
   */
  predicate SessionFaithful(links: seq<string>, replies: seq<Reply>, base: string, s: Session)
    requires |replies| == |links|
  {
    && |s.steps| <= |links|
    && (s.Completed? ==> |s.steps| == |links| && s.graded == |links|)
    && (s.Aborted? ==> |s.steps| < |links| && GradeItem(links[|s.steps|], replies[|s.steps|], base) == Err(s.error))
    && (forall i :: 0 <= i < |s.steps| ==> StepFaithful(links, replies, base, s.steps, i))
    && (forall i :: 0 <= i < |s.steps| ==> HeaderFaithful(s.steps, i))
  }

  /** A faithful session ends no later than the first link whose grading raises. */
  lemma FaithfulStopsAtFirstError(links: seq<string>, replies: seq<Reply>, base: string, s: Session, j: int)
    requires |replies| == |links| && SessionFaithful(links, replies, base, s)
    requires 0 <= j < |links| && GradeItem(links[j], replies[j], base).Err?
    ensures |s.steps| <= j
  {
    StepsSucceeded(links, replies, base, s.steps);
  }

  lemma StepsSucceeded(links: seq<string>, replies: seq<Reply>, base: string, steps: seq<Step>)
    requires |steps| <= |links| == |replies|
    requires forall k :: 0 <= k < |steps| ==> StepFaithful(links, replies, base, steps, k)
    ensures forall k :: 0 <= k < |steps| ==> GradeItem(links[k], replies[k], base).Ok?
  {
    forall k | 0 <= k < |steps|
      ensures GradeItem(links[k], replies[k], base).Ok?
    {
      assert StepFaithful(links, replies, base, steps, k);
    }
  }

  /**
    The loop's promises pin the session down: two sessions faithful to the
    same links and replies are the same session.
   */
  lemma SessionDetermined(links: seq<string>, replies: seq<Reply>, base: string, s: Session, t: Session)
    requires |replies| == |links|
    requires SessionFaithful(links, replies, base, s) && SessionFaithful(links, replies, base, t)
    ensures s == t
  {
    if s.Aborted? {
      FaithfulStopsAtFirstError(links, replies, base, t, |s.steps|);
    }
    if t.Aborted? {
      FaithfulStopsAtFirstError(links, replies, base, s, |t.steps|);
    }
    assert |s.steps| == |t.steps|;
    forall i | 0 <= i < |s.steps|
      ensures s.steps[i] == t.steps[i]
    {
      StepsAgree(links, replies, base, s.steps, t.steps, i);
    }
    assert s.steps == t.steps;
  }

  /**
    Faithful steps at the same position agree: the link, details, request and
    outcome come from grading that link, and the header from the details of
    that step and the one before.
   */
  lemma StepsAgree(links: seq<string>, replies: seq<Reply>, base: string, a: seq<Step>, b: seq<Step>, i: int)
    requires |a| <= |links| == |replies| && |b| <= |links| && 0 <= i < |a| && i < |b|
    requires forall k :: 0 <= k < |a| ==> StepFaithful(links, replies, base, a, k)
    requires forall k :: 0 <= k < |a| ==> HeaderFaithful(a, k)
    requires forall k :: 0 <= k < |b| ==> StepFaithful(links, replies, base, b, k)
    requires forall k :: 0 <= k < |b| ==> HeaderFaithful(b, k)
    ensures a[i] == b[i]
  {
    assert StepFaithful(links, replies, base, a, i) && StepFaithful(links, replies, base, b, i);
    assert HeaderFaithful(a, i) && HeaderFaithful(b, i);
    if i > 0 {
      assert StepFaithful(links, replies, base, a, i - 1) && StepFaithful(links, replies, base, b, i - 1);
    }
  }

  /**
    The loop over the reranked links. Every link is processed once, in order;
    a failed submission is reported and the loop goes on; an exception ends
    the session. The closing tally is the number of links.
   */
  method GradeAll(links: seq<string>, replies: seq<Reply>, base: string) returns (s: Session)
    requires |replies| == |links|
    ensures s.Completed? ==> |s.steps| == |links| && s.graded == |links|
    ensures s.Aborted? ==> |s.steps| < |links| && GradeItem(links[|s.steps|], replies[|s.steps|], base) == Err(s.error)
    ensures |s.steps| <= |links|
    ensures forall i :: 0 <= i < |s.steps| ==> StepFaithful(links, replies, base, s.steps, i)
    ensures forall i :: 0 <= i < |s.steps| ==> HeaderFaithful(s.steps, i)
    ensures SessionFaithful(links, replies, base, s)
  {
    var steps: seq<Step> := [];
    var previous: Option<string> := None;
    var i := 0;
    while i < |links|
      invariant 0 <= i <= |links| && |steps| == i
      invariant previous == if i == 0 then None else Some(steps[i - 1].details.question)
      invariant forall k :: 0 <= k < i ==> StepFaithful(links, replies, base, steps, k)
      invariant forall k :: 0 <= k < i ==> HeaderFaithful(steps, k)
    {
      var item := GradeItem(links[i], replies[i], base);
      if item.Err? {
        return Aborted(steps, item.error);
      }
      var details := item.value.0;
      var header := ShowHeader(previous, details.question);
      assert header == (i == 0 || details.question != steps[i - 1].details.question);
      if header {
        previous := Some(details.question);
      }
      assert previous == Some(details.question);
      var step := Step(links[i], details, header, item.value.1, replies[i].exitCode == 0);
      StepSnoc(links, replies, base, steps, step);
      HeaderSnoc(steps, step);
      steps := steps + [step];
      i := i + 1;
    }
    s := Completed(steps, |links|);
  }

  // The whole run.

  /** How the main script ends. */
  datatype Outcome =
    | NothingToGrade
    | ReorderFailed(error: Error)
    | Graded(links: seq<string>, session: Session)

  /** Every link rewritten, in place. */
  function RewriteLinks(links: seq<string>): seq<string> {
    seq(|links|, i requires 0 <= i < |links| => RewriteLink(links[i]))
  }

  /** The links to grade, in the order they are graded, with `comment.php` rewritten. */
  function RerankedLinks(links: seq<string>): Result<seq<string>> {
    match ReorderLinks(GroupLinksBySlot(links))
    case Err(e) => Err(e)
    case Ok(reranked) => Ok(RewriteLinks(reranked))
  }

  lemma RewriteLinksOf(links: seq<string>, out: seq<string>)
    requires |out| == |links| && forall i :: 0 <= i < |links| ==> out[i] == RewriteLink(links[i])
    ensures out == RewriteLinks(links)
  {
  }

  /** Reranking keeps the number of links. */
  lemma RerankedLength(links: seq<string>)
    requires RerankedLinks(links).Ok?
    ensures |RerankedLinks(links).value| == |links|
  {
    var groups := GroupLinksBySlot(links);
    GroupByPermutation(links, SlotOf);
    var reranked := ReorderLinks(groups).value;
    assert |multiset(reranked)| == |reranked|;
    assert |multiset(links)| == |links|;
  }

  /** The sorted groups behind a successful rerank keep what grouping promised of them. */
  lemma {:induction false} SortedGroups(links: seq<string>, s: string)
    requires ReorderLinks(GroupLinksBySlot(links)).Ok?
    ensures SortGroups(GroupLinksBySlot(links)).Ok?
    ensures var sorted := SortGroups(GroupLinksBySlot(links)).value;
      ReorderLinks(GroupLinksBySlot(links)).value == Flatten(sorted)
      && DistinctSlots(sorted) && LinksCarrySlot(sorted, SlotOf)
      && (forall k :: 0 <= k < |sorted| ==> sorted[k].links == WithSlot(links, SlotOf, sorted[k].slot))
      && (HasSlot(sorted, s) <==> Occurs(links, SlotOf, s))
  {
    var groups := GroupLinksBySlot(links);
    SortGroupsPermutation(groups);
    var sorted := SortGroups(groups).value;
    DistinctSlotsPermutation(sorted, groups);
    forall k | 0 <= k < |sorted|
      ensures sorted[k].links == WithSlot(links, SlotOf, sorted[k].slot)
    {
      assert sorted[k] in multiset(groups);
    }
    GroupsCarrySlot(sorted, links, SlotOf);
    HasSlotPermutation(sorted, groups, s);
  }

  /** Flattening the sorted groups visits the slots in ascending integer order. */
  lemma {:induction false} SortedFlattenAscending(groups: seq<Group>, i: int, j: int)
    requires SortGroups(groups).Ok? && LinksCarrySlot(SortGroups(groups).value, SlotOf)
    requires 0 <= i < j < |Flatten(SortGroups(groups).value)|
    ensures var r := Flatten(SortGroups(groups).value);
      ParseInt(SlotOf(r[i])).Ok? && ParseInt(SlotOf(r[j])).Ok?
      && ParseInt(SlotOf(r[i])).value <= ParseInt(SlotOf(r[j])).value
  {
    var sorted := SortGroups(groups).value;
    var ki, kj := Owner(sorted, i), Owner(sorted, j);
    OwnerMonotone(sorted, i, j);
    OwnerSlot(sorted, SlotOf, i);
    OwnerSlot(sorted, SlotOf, j);
    var r := Flatten(sorted);
    assert SlotOf(r[i]) == sorted[ki].slot;
    assert SlotOf(r[j]) == sorted[kj].slot;
    if ki < kj {
      SortGroupsAscending(groups, ki, kj);
      assert ParseInt(sorted[ki].slot).value <= ParseInt(sorted[kj].slot).value;
    } else {
      SortGroupsParse(groups, ki);
      assert ki == kj;
    }
  }

  /** The reranked links are graded in ascending integer order of their slots. */
  lemma {:induction false} RerankAscending(links: seq<string>, i: int, j: int)
    requires ReorderLinks(GroupLinksBySlot(links)).Ok?
    requires 0 <= i < j < |ReorderLinks(GroupLinksBySlot(links)).value|
    ensures var r := ReorderLinks(GroupLinksBySlot(links)).value;
      ParseInt(SlotOf(r[i])).Ok? && ParseInt(SlotOf(r[j])).Ok?
      && ParseInt(SlotOf(r[i])).value <= ParseInt(SlotOf(r[j])).value
  {
    SortedGroups(links, "");
    SortedFlattenAscending(GroupLinksBySlot(links), i, j);
  }

  /** The links of one slot are graded one after another, with no other slot between them. */
  lemma {:induction false} RerankContiguous(links: seq<string>, i: int, k: int, j: int)
    requires ReorderLinks(GroupLinksBySlot(links)).Ok?
    requires 0 <= i <= k <= j < |ReorderLinks(GroupLinksBySlot(links)).value|
    requires var r := ReorderLinks(GroupLinksBySlot(links)).value; SlotOf(r[i]) == SlotOf(r[j])
    ensures var r := ReorderLinks(GroupLinksBySlot(links)).value; SlotOf(r[k]) == SlotOf(r[i])
  {
    SortedGroups(links, "");
    FlattenContiguous(SortGroups(GroupLinksBySlot(links)).value, SlotOf, i, k, j);
  }

  /** Within each slot the reranked links keep the order in which they were found. */
  lemma {:induction false} RerankKeepsSlotOrder(links: seq<string>, s: string)
    requires ReorderLinks(GroupLinksBySlot(links)).Ok?
    ensures WithSlot(ReorderLinks(GroupLinksBySlot(links)).value, SlotOf, s) == WithSlot(links, SlotOf, s)
  {
    SortedGroups(links, s);
    RegroupedWithSlot(SortGroups(GroupLinksBySlot(links)).value, links, SlotOf, s);
  }

  /**
    `main` after the configuration check: discovery, the early return when
    nothing needs grading, the rerank (which raises on a non-integer slot),
    the rewrite, and the grading loop with one reply per link.
   */
  method RunGrader(anchors: seq<Anchor>, replies: seq<Reply>, base: string) returns (o: Outcome)
    requires |replies| == |FindRequiresGradeLinks(anchors)|
    ensures o.NothingToGrade? <==> forall i :: 0 <= i < |anchors| ==> !Qualifies(anchors[i])
    ensures o.ReorderFailed? <==> FindRequiresGradeLinks(anchors) != [] && RerankedLinks(FindRequiresGradeLinks(anchors)).Err?
    ensures o.Graded? ==> RerankedLinks(FindRequiresGradeLinks(anchors)) == Ok(o.links)
    ensures o.Graded? ==> |o.links| == |FindRequiresGradeLinks(anchors)|
    ensures o.Graded? ==> forall i :: 0 <= i < |o.links| ==> !Contains(o.links[i], CommentPhp)
    ensures o.Graded? ==> |replies| == |o.links| && SessionFaithful(o.links, replies, base, o.session)
  {
    var links := FindRequiresGradeLinks(anchors);
    FindLinksEmpty(anchors);
    if links == [] {
      return NothingToGrade;
    }
    var groups := GroupLinksBySlot(links);
    var reordered := ReorderLinks(groups);
    if reordered.Err? {
      return ReorderFailed(reordered.error);
    }
    var reranked := RewriteAll(reordered.value);
    RewriteLinksOf(reordered.value, reranked);
    RerankedLength(links);
    var session := GradeAll(reranked, replies, base);
    o := Graded(reranked, session);
  }
}
