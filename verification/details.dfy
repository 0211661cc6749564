/**
  The arithmetic on the text of a question review page
  (`get_question_details`): the question and answer texts with their
  fallbacks, and the maximum mark read from the grade text. Fetching the page
  and selecting its elements is outside the model; each element's stripped
  text is an input, absent when the element is missing.
 */
module Details {
  import opened Outcomes
  import opened Text
  import opened Numbers

  const OutOf: string := "out of"

  /** The placeholder the script puts in place of a mark it did not find; it reads as 0. */
  const MaxMarkNotFound: string := "Max mark not found"

  const QuestionNotFound: string := "Question not found"
  const AnswerNotFound: string := "Answer not found"
  const GradeInfoNotFound: string := "Grade info not found"

  /** What one review page yields: question text, student answer and maximum mark. */
  datatype QuestionDetails = QuestionDetails(question: string, answer: string, maxMark: nat)

  /**
    The text the mark is read from: the stripped piece after the last
    `out of`, or the placeholder when the grade text has no `out of`.
   */
  function MaxMarkText(gradeInfo: string): (t: string)
    ensures Contains(gradeInfo, OutOf) ==> |t| == 0 || (!IsSpace(t[0], StrBlanks) && !IsSpace(t[|t| - 1], StrBlanks))
  {
    if Contains(gradeInfo, OutOf) then Strip(LastPiece(gradeInfo, OutOf), StrBlanks) else MaxMarkNotFound
  }

  /**
    The maximum mark: `int(float(text))` of the mark text, or 0 for the
    placeholder. A mark text that is not a decimal numeral raises, which
    is an error here.
   */
  function MaxMark(gradeInfo: string): (r: Result<nat>)
    ensures !Contains(gradeInfo, OutOf) ==> r == Ok(0)
    ensures r.Err? ==> Contains(gradeInfo, OutOf) && r.error == NotANumber(MaxMarkText(gradeInfo))
  {
    var t := MaxMarkText(gradeInfo);
    if t != MaxMarkNotFound then TruncateDecimal(t) else Ok(0)
  }

  /** `out of` has no border, so its occurrences cannot overlap. */
  lemma OutOfUnbordered()
    ensures Unbordered(OutOf)
  {
    forall k | 0 < k < |OutOf|
      ensures OutOf[k..] != OutOf[..|OutOf| - k]
    {
      if k == 4 {
        assert OutOf[k..][1] != OutOf[..|OutOf| - k][1];
      } else {
        assert OutOf[k..][0] != OutOf[..|OutOf| - k][0];
      }
    }
  }

  lemma NoFirstChar(s: string, p: string)
    requires |p| > 0 && p[0] !in s
    ensures !Contains(s, p)
  {
    forall i | 0 <= i && i + |p| <= |s|
      ensures !HasAt(s, i, p)
    {
      assert s[i] in s;
      assert s[i..i + |p|][0] == s[i];
    }
  }

  /** The mark text is what follows the last `out of`, stripped. */
  lemma MaxMarkTextAfterLast(pre: string, post: string)
    requires !Contains(post, OutOf)
    ensures MaxMarkText(pre + OutOf + post) == Strip(post, StrBlanks)
  {
    OutOfUnbordered();
    LastPieceAfter(pre, OutOf, post);
  }

  /** Only the last `out of` counts: the mark is read from the text after it. */
  lemma MaxMarkAfterLast(pre: string, post: string)
    requires !Contains(post, OutOf) && Strip(post, StrBlanks) != MaxMarkNotFound
    ensures MaxMark(pre + OutOf + post) == TruncateDecimal(Strip(post, StrBlanks))
  {
    MaxMarkTextAfterLast(pre, post);
  }

  /**
    The whole reading of the text after the last `out of`: the fallback
    text itself reads as 0, like a missing `out of`, and anything else is
    truncated as a decimal.
   */
  lemma MaxMarkOfLastPiece(pre: string, post: string)
    requires !Contains(post, OutOf)
    ensures MaxMark(pre + OutOf + post)
      == if Strip(post, StrBlanks) == MaxMarkNotFound then Ok(0) else TruncateDecimal(Strip(post, StrBlanks))
  {
    MaxMarkTextAfterLast(pre, post);
  }

  /**
    A decimal mark after the last `out of`, with any surrounding whitespace,
    gives its whole part.
   */
  lemma MaxMarkOfDecimal(pre: string, a: string, whole: string, fraction: string, b: string)
    requires AllSpace(a, StrBlanks) && AllSpace(b, StrBlanks)
    requires |whole| > 0 && AllDigits(whole) && AllDigits(fraction)
    ensures MaxMark(pre + OutOf + (a + (whole + "." + fraction) + b)) == Ok(DigitsValue(whole))
  {
    PaddedDecimal(a, whole, fraction, b);
    TruncateDecimalOfFraction(whole, fraction);
    MaxMarkAfterLast(pre, a + (whole + "." + fraction) + b);
  }

  /** A padded decimal holds no `out of` and strips to the decimal itself. */
  lemma PaddedDecimal(a: string, whole: string, fraction: string, b: string)
    requires AllSpace(a, StrBlanks) && AllSpace(b, StrBlanks)
    requires |whole| > 0 && AllDigits(whole) && AllDigits(fraction)
    ensures var m := whole + "." + fraction; var post := a + m + b;
      !Contains(post, OutOf) && Strip(post, StrBlanks) == m && Strip(post, StrBlanks) != MaxMarkNotFound
  {
    var m := whole + "." + fraction;
    var post := a + m + b;
    assert forall k :: 0 <= k < |post| ==> post[k] != 'o';
    NoFirstChar(post, OutOf);
    assert !IsSpace(m[0], StrBlanks) && !IsSpace(m[|m| - 1], StrBlanks);
    StripPadded(a, m, b, StrBlanks);
    assert m[0] != MaxMarkNotFound[0];
  }

  /** The grade text of an ungraded essay question. */
  lemma MaxMarkExample()
    ensures MaxMark("Marked out of 10.00") == Ok(10)
  {
    assert "Marked out of 10.00" == "Marked " + OutOf + (" " + ("10" + "." + "00") + "");
    MaxMarkOfDecimal("Marked ", " ", "10", "00", "");
    assert DigitsValue("1") == 1;
  }

  /** Text after `out of` that is not a number is an error, not a mark of 0. */
  lemma MaxMarkNotNumeric(pre: string, post: string)
    requires !Contains(post, OutOf) && Strip(post, StrBlanks) != MaxMarkNotFound
    requires TruncateDecimal(Strip(post, StrBlanks)).Err?
    ensures MaxMark(pre + OutOf + post) == Err(NotANumber(Strip(post, StrBlanks)))
  {
    MaxMarkAfterLast(pre, post);
  }

  lemma Differs(s: string, i: int, p: string, k: int)
    requires 0 <= i && 0 <= k < |p| && i + k < |s| && s[i + k] != p[k]
    ensures !HasAt(s, i, p)
  {
    if i + |p| <= |s| {
      assert s[i..i + |p|][k] == s[i + k];
    }
  }

  /** The fallback text of a page without a grade element reads as a maximum mark of 0. */
  lemma GradeInfoFallback()
    ensures MaxMark(GradeInfoNotFound) == Ok(0)
  {
    var s := GradeInfoNotFound;
    forall i | 0 <= i <= |s| - |OutOf|
      ensures !HasAt(s, i, OutOf)
    {
      Differs(s, i, OutOf, 1);
    }
    assert !Contains(s, OutOf);
  }

  function OrElse(text: Option<string>, fallback: string): string {
    match text
    case Some(t) => t
    case None => fallback
  }

  /**
    The triple the page yields, from the stripped texts of the question,
    answer and grade elements, each absent when the page lacks it.
   */
  function GetQuestionDetails(question: Option<string>, answer: Option<string>, gradeInfo: Option<string>): (r: Result<QuestionDetails>)
    ensures r.Ok? && question.Some? ==> r.value.question == question.value
    ensures r.Ok? && question.None? ==> r.value.question == QuestionNotFound
    ensures r.Ok? && answer.Some? ==> r.value.answer == answer.value
    ensures r.Ok? && answer.None? ==> r.value.answer == AnswerNotFound
    ensures gradeInfo.None? ==> r.Ok? && r.value.maxMark == 0
    ensures gradeInfo.Some? ==> (r.Err? <==> MaxMark(gradeInfo.value).Err?)
    ensures gradeInfo.Some? && r.Ok? ==> r.value.maxMark == MaxMark(gradeInfo.value).value
    ensures gradeInfo.Some? && r.Err? ==> r.error == MaxMark(gradeInfo.value).error
  {
    var grade := OrElse(gradeInfo, GradeInfoNotFound);
    GradeInfoFallback();
    match MaxMark(grade)
    case Err(e) => Err(e)
    case Ok(m) => Ok(QuestionDetails(OrElse(question, QuestionNotFound), OrElse(answer, AnswerNotFound), m))
  }
}
