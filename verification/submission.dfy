/**
  Building the grade submission of `submit_grade`: the `attempt` and `slot`
  read from the review link, the comment page address, the tokens scraped
  from the comment page and the fixed form body. Fetching the comment page
  and posting the form are outside the model: the page text and its `<input>`
  elements are inputs.
 */
module Submission {
  import opened Outcomes
  import opened Text
  import opened Numbers
  import opened Query

  // Regular-expression searches of the comment page.

  /** The character classes the two patterns repeat: `\d` and `[^"]`. */
  datatype CharClass = Digit | NotQuote

  predicate InClass(c: char, cls: CharClass) {
    match cls
    case Digit => IsDigit(c)
    case NotQuote => c != '"'
  }

  /** Every character of `s[from..to]` is in the class. */
  predicate AllIn(s: string, from: int, to: int, cls: CharClass) {
    0 <= from <= to <= |s| && forall m :: from <= m < to ==> InClass(s[m], cls)
  }

  /** A pattern `prefix(c+)suffix`: a literal, a captured non-empty run of one class, a literal. */
  datatype Pattern = Pattern(prefix: string, cls: CharClass, suffix: string)

  /** The suffix starts outside the class, so the greedy run never has to give characters back. */
  predicate WellFormed(p: Pattern) {
    |p.suffix| > 0 && !InClass(p.suffix[0], p.cls)
  }

  /** The pattern matches at `a`, its capture ending at `e`. */
  predicate MatchesAt(s: string, p: Pattern, a: int, e: int) {
    && HasAt(s, a, p.prefix)
    && a + |p.prefix| < e
    && AllIn(s, a + |p.prefix|, e, p.cls)
    && HasAt(s, e, p.suffix)
  }

  /** Some match of the pattern starts at `a`. */
  ghost predicate MatchStartsAt(s: string, p: Pattern, a: int) {
    exists e :: MatchesAt(s, p, a, e)
  }

  /** The end of the longest run of class characters starting at `i`. */
  function RunEnd(s: string, i: nat, cls: CharClass): (e: nat)
    requires i <= |s|
    decreases |s| - i
    ensures i <= e <= |s| && AllIn(s, i, e, cls)
    ensures e == |s| || !InClass(s[e], cls)
  {
    if i < |s| && InClass(s[i], cls) then RunEnd(s, i + 1, cls) else i
  }

  /** A run that stops before a character outside the class is the longest run. */
  lemma RunEndUnique(s: string, i: nat, cls: CharClass, e: int)
    requires i <= |s| && AllIn(s, i, e, cls) && e < |s| && !InClass(s[e], cls)
    ensures RunEnd(s, i, cls) == e
  {
  }

  /** The greedy test at one position: prefix, longest run, then suffix. */
  function MatchHere(s: string, p: Pattern, a: nat): (b: bool)
    requires WellFormed(p)
    ensures b <==> MatchStartsAt(s, p, a)
    ensures b ==> MatchesAt(s, p, a, RunEnd(s, a + |p.prefix|, p.cls))
  {
    if HasAt(s, a, p.prefix) then
      var e := RunEnd(s, a + |p.prefix|, p.cls);
      var b := a + |p.prefix| < e && HasAt(s, e, p.suffix);
      assert b ==> MatchesAt(s, p, a, e);
      assert !b ==> forall e' :: !MatchesAt(s, p, a, e') by {
        forall e' | MatchesAt(s, p, a, e')
          ensures b
        {
          assert s[e'] == s[e'..e' + |p.suffix|][0];
          RunEndUnique(s, a + |p.prefix|, p.cls, e');
        }
      }
      b
    else false
  }

  /** The leftmost start of a match at or after `from` (`re.search`). */
  function FindMatch(s: string, p: Pattern, from: nat): (r: Option<nat>)
    requires WellFormed(p)
    decreases |s| + 1 - from
    ensures r.Some? ==> from <= r.value && MatchStartsAt(s, p, r.value)
    ensures r.Some? ==> forall a :: from <= a < r.value ==> !MatchStartsAt(s, p, a)
    ensures r.None? ==> forall a :: from <= a ==> !MatchStartsAt(s, p, a)
  {
    if from > |s| then
      assert forall a :: from <= a ==> !HasAt(s, a, p.prefix);
      None
    else if MatchHere(s, p, from) then Some(from)
    else FindMatch(s, p, from + 1)
  }

  /** The text of capture group 1 of the leftmost match, if any (`re.search(...).group(1)`). */
  function Search(s: string, p: Pattern): Option<string>
    requires WellFormed(p)
  {
    match FindMatch(s, p, 0)
    case None => None
    case Some(a) => Some(s[a + |p.prefix|..RunEnd(s, a + |p.prefix|, p.cls)])
  }

  /** Nothing is found exactly when no match starts anywhere; otherwise the capture is that of the leftmost match. */
  lemma SearchSpec(s: string, p: Pattern)
    requires WellFormed(p)
    ensures Search(s, p).None? <==> forall a :: !MatchStartsAt(s, p, a)
    ensures Search(s, p).Some? ==> exists a, e :: (MatchesAt(s, p, a, e) && Search(s, p).value == s[a + |p.prefix|..e]
      && forall a' :: 0 <= a' < a ==> !MatchStartsAt(s, p, a'))
  {
    match FindMatch(s, p, 0)
    case None =>
    case Some(a) =>
      var e := RunEnd(s, a + |p.prefix|, p.cls);
      assert MatchHere(s, p, a);
      assert MatchesAt(s, p, a, e);
  }

  /** A capture is a non-empty run of class characters. */
  lemma SearchCapture(s: string, p: Pattern)
    requires WellFormed(p) && Search(s, p).Some?
    ensures var c := Search(s, p).value; |c| > 0 && forall k :: 0 <= k < |c| ==> InClass(c[k], p.cls)
  {
    SearchSpec(s, p);
    var a, e :| MatchesAt(s, p, a, e) && Search(s, p).value == s[a + |p.prefix|..e];
    var c := s[a + |p.prefix|..e];
    forall k | 0 <= k < |c|
      ensures InClass(c[k], p.cls)
    {
      assert c[k] == s[a + |p.prefix| + k];
    }
  }

  /** A match with none before it is the one the search reports. */
  lemma SearchLeftmost(s: string, p: Pattern, a: int, e: int)
    requires WellFormed(p) && MatchesAt(s, p, a, e)
    requires forall a' :: 0 <= a' < a ==> !MatchStartsAt(s, p, a')
    ensures Search(s, p) == Some(s[a + |p.prefix|..e])
  {
    FindMatchLeftmost(s, p, a);
    assert s[e] == s[e..e + |p.suffix|][0];
    SearchAt(s, p, a, e);
  }

  /** Once the leftmost start is known, the capture runs to the first character outside the class. */
  lemma {:induction false} SearchAt(s: string, p: Pattern, a: nat, e: int)
    requires WellFormed(p) && FindMatch(s, p, 0) == Some(a)
    requires a + |p.prefix| <= |s| && AllIn(s, a + |p.prefix|, e, p.cls) && e < |s| && !InClass(s[e], p.cls)
    ensures Search(s, p) == Some(s[a + |p.prefix|..e])
  {
    RunEndUnique(s, a + |p.prefix|, p.cls, e);
  }

  lemma FindMatchLeftmost(s: string, p: Pattern, a: int)
    requires WellFormed(p) && MatchStartsAt(s, p, a)
    requires forall a' :: 0 <= a' < a ==> !MatchStartsAt(s, p, a')
    ensures FindMatch(s, p, 0) == Some(a)
  {
    var r := FindMatch(s, p, 0);
    assert r.Some?;
    assert r.value <= a;
  }

  /** No match starts in a stretch that lacks the first character of the prefix. */
  lemma NoMatchIn(pre: string, p: Pattern, rest: string)
    requires |p.prefix| > 0 && p.prefix[0] !in pre
    ensures forall a' :: 0 <= a' < |pre| ==> !MatchStartsAt(pre + rest, p, a')
  {
    var s := pre + rest;
    forall a' | 0 <= a' < |pre|
      ensures !HasAt(s, a', p.prefix)
    {
      assert s[a'] == pre[a'];
      assert s[a'] in pre;
      if a' + |p.prefix| <= |s| {
        assert s[a'..a' + |p.prefix|][0] == s[a'];
      }
    }
  }

  /** When the text before a match cannot hold the first prefix character, that match is the leftmost. */
  lemma SearchFirst(pre: string, p: Pattern, run: string, post: string)
    requires WellFormed(p) && |p.prefix| > 0 && p.prefix[0] !in pre
    requires |run| > 0 && forall k :: 0 <= k < |run| ==> InClass(run[k], p.cls)
    ensures Search(pre + p.prefix + run + p.suffix + post, p) == Some(run)
  {
    var rest := p.prefix + run + p.suffix + post;
    var s := pre + rest;
    assert s == pre + p.prefix + run + p.suffix + post;
    var a := |pre|;
    var e := a + |p.prefix| + |run|;
    assert s[a..a + |p.prefix|] == p.prefix;
    assert s[e..e + |p.suffix|] == p.suffix;
    assert s[a + |p.prefix|..e] == run;
    assert AllIn(s, a + |p.prefix|, e, p.cls) by {
      forall m | a + |p.prefix| <= m < e
        ensures InClass(s[m], p.cls)
      {
        assert s[m] == run[m - a - |p.prefix|];
      }
    }
    assert MatchesAt(s, p, a, e);
    NoMatchIn(pre, p, rest);
    SearchLeftmost(s, p, a, e);
  }

  /** `question-(\d+)-{slot}`. */
  function QuestionPattern(slot: string): (p: Pattern)
    ensures WellFormed(p)
  {
    Pattern("question-", Digit, "-" + slot)
  }

  /** `"sesskey":"([^"]+)"`. */
  function SesskeyPattern(): (p: Pattern)
    ensures WellFormed(p)
  {
    Pattern("\"sesskey\":\"", NotQuote, "\"")
  }

  /** `q` and the question number from the first `question-<digits>-<slot>`, or '' when the page has none. */
  function QValue(page: string, slot: string): (q: string)
  {
    match Search(page, QuestionPattern(slot))
    case Some(digits) => "q" + digits
    case None => ""
  }

  /** The session key from the first `"sesskey":"..."`, or '' when the page has none. */
  function Sesskey(page: string): string {
    match Search(page, SesskeyPattern())
    case Some(key) => key
    case None => ""
  }

  /** `q_value` is `q` and digits, or empty exactly when no match exists. */
  lemma QValueShape(page: string, slot: string)
    ensures QValue(page, slot) == "" <==> forall a :: !MatchStartsAt(page, QuestionPattern(slot), a)
    ensures QValue(page, slot) != "" ==> var q := QValue(page, slot);
      |q| > 1 && q[0] == 'q' && AllDigits(q[1..])
  {
    var p := QuestionPattern(slot);
    if Search(page, p).Some? {
      SearchCapture(page, p);
      var q := QValue(page, slot);
      assert q[1..] == Search(page, p).value;
    }
  }

  /** The question number of the first `question-<digits>-<slot>` on the page becomes `q<digits>`. */
  lemma QValueOf(pre: string, digits: string, slot: string, post: string)
    requires 'q' !in pre && |digits| > 0 && AllDigits(digits)
    ensures QValue(pre + "question-" + digits + "-" + slot + post, slot) == "q" + digits
  {
    var p := QuestionPattern(slot);
    assert pre + "question-" + digits + "-" + slot + post == pre + p.prefix + digits + p.suffix + post;
    SearchFirst(pre, p, digits, post);
  }

  /** The first quoted session key on the page is the token. */
  lemma SesskeyOf(pre: string, key: string, post: string)
    requires '"' !in pre && |key| > 0 && '"' !in key
    ensures Sesskey(pre + "\"sesskey\":\"" + key + "\"" + post) == key
  {
    var p := SesskeyPattern();
    SearchFirst(pre, p, key, post);
  }

  /** A page without a session key gives the empty token rather than an error. */
  lemma SesskeyMissing(page: string)
    requires !Contains(page, "\"sesskey\":\"")
    ensures Sesskey(page) == ""
  {
    forall a
      ensures !MatchStartsAt(page, SesskeyPattern(), a)
    {
      assert !HasAt(page, a, SesskeyPattern().prefix);
    }
  }

  // Hidden form inputs.

  /** One `<input>` element of the comment page: its `name` and `value` attributes, if present. */
  datatype HtmlInput = HtmlInput(name: Option<string>, value: Option<string>)

  /** The name filter `lambda x: x and marker in x`. */
  predicate NameHas(input: HtmlInput, marker: string) {
    input.name.Some? && |input.name.value| > 0 && Contains(input.name.value, marker)
  }

  /** Input `i` is the first whose name holds the marker (what `soup.find` returns). */
  predicate FirstNamed(inputs: seq<HtmlInput>, marker: string, i: int) {
    0 <= i < |inputs| && NameHas(inputs[i], marker) && forall j :: 0 <= j < i ==> !NameHas(inputs[j], marker)
  }

  /**
    The `value` of the first input whose name holds the marker; '' when there
    is none; KeyError when that input has no `value`.
   */
  function InputValue(inputs: seq<HtmlInput>, marker: string): (r: Result<string>)
    ensures r.Err? ==> r.error == MissingValue(marker)
    ensures (forall i :: 0 <= i < |inputs| ==> !NameHas(inputs[i], marker)) ==> r == Ok("")
    ensures forall i :: FirstNamed(inputs, marker, i) && inputs[i].value.None? ==> r == Err(MissingValue(marker))
    ensures forall i :: FirstNamed(inputs, marker, i) && inputs[i].value.Some? ==> r == Ok(inputs[i].value.value)
  {
    if |inputs| == 0 then Ok("")
    else if NameHas(inputs[0], marker) then
      match inputs[0].value
      case None => Err(MissingValue(marker))
      case Some(v) => Ok(v)
    else
      var r := InputValue(inputs[1..], marker);
      FirstNamedCons(inputs, marker);
      r
  }

  /** Past an input whose name lacks the marker, the first named input is the first named of the rest. */
  lemma FirstNamedCons(inputs: seq<HtmlInput>, marker: string)
    requires |inputs| > 0 && !NameHas(inputs[0], marker)
    ensures (forall i :: 0 <= i < |inputs| - 1 ==> !NameHas(inputs[1..][i], marker)) ==> forall i :: 0 <= i < |inputs| ==> !NameHas(inputs[i], marker)
    ensures forall i :: FirstNamed(inputs, marker, i) ==> i > 0 && FirstNamed(inputs[1..], marker, i - 1) && inputs[i] == inputs[1..][i - 1]
  {
    var tail := inputs[1..];
    assert forall i :: 0 < i < |inputs| ==> inputs[i] == tail[i - 1];
    forall i | FirstNamed(inputs, marker, i)
      ensures i > 0 && FirstNamed(tail, marker, i - 1)
    {
      forall j | 0 <= j < i - 1
        ensures !NameHas(tail[j], marker)
      {
        assert tail[j] == inputs[j + 1];
      }
    }
  }

  // The form body.

  /** The field-name prefix `{q_value}%3A{slot}_` of the question's fields. */
  function FieldPrefix(qValue: string, slot: string): string {
    qValue + "%3A" + slot + "_"
  }

  /**
    The 13 fields of the body, in the order they are posted: eight fields
    named after the question, then `attempt`, `slot`, `slots`, `sesskey` and
    `submit`.
   */
  function FormPairs(qValue: string, slot: string, sequenceCheck: string, itemId: string,
                     grade: string, maxMark: nat, attempt: string, sesskey: string): (form: seq<(string, string)>)
    ensures |form| == 13
    ensures form[0] == (FieldPrefix(qValue, slot) + "%3Asequencecheck", sequenceCheck)
    ensures form[1] == (FieldPrefix(qValue, slot) + "-comment", "")
    ensures form[2] == (FieldPrefix(qValue, slot) + "-comment%3Aitemid", itemId)
    ensures form[3] == (FieldPrefix(qValue, slot) + "-commentformat", "1")
    ensures form[4] == (FieldPrefix(qValue, slot) + "-mark", grade)
    ensures form[5] == (FieldPrefix(qValue, slot) + "-maxmark", NatToString(maxMark))
    ensures form[6] == (FieldPrefix(qValue, slot) + "%3Aminfraction", "0")
    ensures form[7] == (FieldPrefix(qValue, slot) + "%3Amaxfraction", "1")
    ensures form[8] == ("attempt", attempt) && form[9] == ("slot", slot) && form[10] == ("slots", slot)
    ensures form[11] == ("sesskey", sesskey) && form[12] == ("submit", "Save")
  {
    var p := FieldPrefix(qValue, slot);
    var question := [
      (p + "%3Asequencecheck", sequenceCheck),
      (p + "-comment", ""),
      (p + "-comment%3Aitemid", itemId),
      (p + "-commentformat", "1"),
      (p + "-mark", grade),
      (p + "-maxmark", NatToString(maxMark)),
      (p + "%3Aminfraction", "0"),
      (p + "%3Amaxfraction", "1")
    ];
    var rest := [("attempt", attempt), ("slot", slot), ("slots", slot), ("sesskey", sesskey), ("submit", "Save")];
    question + rest
  }

  /**
    The grade is posted verbatim in the `-mark` field, and the maximum mark
    as the numeral `int()` reads back as that mark.
   */
  lemma FormMaxMark(qValue: string, slot: string, sequenceCheck: string, itemId: string,
                    grade: string, maxMark: nat, attempt: string, sesskey: string)
    ensures var form := FormPairs(qValue, slot, sequenceCheck, itemId, grade, maxMark, attempt, sesskey);
      && form[4] == (FieldPrefix(qValue, slot) + "-mark", grade)
      && form[5].0 == FieldPrefix(qValue, slot) + "-maxmark" && ParseInt(form[5].1) == Ok(maxMark)
  {
    var form := FormPairs(qValue, slot, sequenceCheck, itemId, grade, maxMark, attempt, sesskey);
    assert form[5] == (FieldPrefix(qValue, slot) + "-maxmark", NatToString(maxMark));
    ParseNatToString(maxMark);
  }

  /** `name=value`. */
  function Field(pair: (string, string)): string {
    pair.0 + "=" + pair.1
  }

  function Fields(pairs: seq<(string, string)>): (fields: seq<string>)
    ensures |fields| == |pairs| && forall i :: 0 <= i < |pairs| ==> fields[i] == Field(pairs[i])
  {
    seq(|pairs|, i requires 0 <= i < |pairs| => Field(pairs[i]))
  }

  /** The raw body: the fields joined with '&', nothing escaped. */
  function EncodeForm(pairs: seq<(string, string)>): string {
    Join(Fields(pairs), "&")
  }

  /** Neither '&' nor '=' appears in any name or value. */
  predicate PlainPairs(pairs: seq<(string, string)>) {
    forall i :: 0 <= i < |pairs| ==> PlainText(pairs[i].0) && PlainText(pairs[i].1)
  }

  predicate PlainText(s: string) {
    '&' !in s && '=' !in s
  }

  /** A body of plain fields is read back, field by field, by the same naive parser that reads links. */
  lemma DecodeEncodeForm(pairs: seq<(string, string)>)
    requires |pairs| > 0 && PlainPairs(pairs)
    ensures Split(EncodeForm(pairs), "&") == Fields(pairs)
    ensures Pairs(Fields(pairs)) == Ok(pairs)
  {
    var fields := Fields(pairs);
    forall k | 0 <= k < |fields|
      ensures !Contains(fields[k], "&")
    {
      ContainsChar(fields[k], '&');
    }
    SplitJoin(fields, "&");
    forall i | 0 <= i < |pairs|
      ensures Pair(fields[i]) == Ok(pairs[i])
    {
      PairOf(pairs[i].0, pairs[i].1);
    }
    var r := Pairs(fields);
    assert r.Ok?;
    assert |r.value| == |pairs|;
    assert forall i :: 0 <= i < |pairs| ==> r.value[i] == pairs[i];
    assert r.value == pairs;
  }

  /** The names of the form's fields, and so its values, sit in fixed places. */
  lemma FormNamesPlain(qValue: string, slot: string)
    requires PlainText(qValue) && PlainText(slot)
    ensures PlainText(FieldPrefix(qValue, slot) + "%3Asequencecheck")
    ensures PlainText(FieldPrefix(qValue, slot) + "-comment")
    ensures PlainText(FieldPrefix(qValue, slot) + "-comment%3Aitemid")
    ensures PlainText(FieldPrefix(qValue, slot) + "-commentformat")
    ensures PlainText(FieldPrefix(qValue, slot) + "-mark")
    ensures PlainText(FieldPrefix(qValue, slot) + "-maxmark")
    ensures PlainText(FieldPrefix(qValue, slot) + "%3Aminfraction")
    ensures PlainText(FieldPrefix(qValue, slot) + "%3Amaxfraction")
  {
    var p := FieldPrefix(qValue, slot);
    PlainConcat(qValue + "%3A", slot);
    PlainConcat(qValue + "%3A" + slot, "_");
    FieldSuffixesPlain();
    PlainConcat(p, "%3Asequencecheck");
    PlainConcat(p, "-comment");
    PlainConcat(p, "-comment%3Aitemid");
    PlainConcat(p, "-commentformat");
    PlainConcat(p, "-mark");
    PlainConcat(p, "-maxmark");
    PlainConcat(p, "%3Aminfraction");
    PlainConcat(p, "%3Amaxfraction");
  }

  lemma PlainConcat(a: string, b: string)
    requires PlainText(a) && PlainText(b)
    ensures PlainText(a + b)
  {
  }

  lemma FieldSuffixesPlain()
    ensures PlainText("%3A") && PlainText("_")
    ensures PlainText("%3Asequencecheck") && PlainText("-comment") && PlainText("-comment%3Aitemid")
    ensures PlainText("-commentformat") && PlainText("-mark") && PlainText("-maxmark")
    ensures PlainText("%3Aminfraction") && PlainText("%3Amaxfraction")
  {
    CommentSuffixesPlain();
    MarkSuffixesPlain();
    FractionSuffixesPlain();
  }

  lemma CommentSuffixesPlain()
    ensures PlainText("%3Asequencecheck") && PlainText("-comment") && PlainText("-comment%3Aitemid")
  {
  }

  lemma MarkSuffixesPlain()
    ensures PlainText("%3A") && PlainText("_")
    ensures PlainText("-commentformat") && PlainText("-mark") && PlainText("-maxmark")
  {
  }

  lemma FractionSuffixesPlain()
    ensures PlainText("%3Aminfraction") && PlainText("%3Amaxfraction")
  {
  }

  /**
    When no token holds '&' or '=', the body splits back into exactly its 13
    fields, and reading it as a query gives the attempt and slot it was built
    from.
   */
  lemma FormReadsBack(qValue: string, slot: string, sequenceCheck: string, itemId: string,
                      grade: string, maxMark: nat, attempt: string, sesskey: string)
    requires PlainText(qValue) && PlainText(slot) && PlainText(sequenceCheck) && PlainText(itemId)
    requires PlainText(grade) && PlainText(attempt) && PlainText(sesskey)
    ensures var form := FormPairs(qValue, slot, sequenceCheck, itemId, grade, maxMark, attempt, sesskey);
      |Split(EncodeForm(form), "&")| == 13
      && AttemptAndSlotIn(Split(EncodeForm(form), "&")) == Ok((attempt, slot))
  {
    var form := FormPairs(qValue, slot, sequenceCheck, itemId, grade, maxMark, attempt, sesskey);
    FormPlain(qValue, slot, sequenceCheck, itemId, grade, maxMark, attempt, sesskey);
    DecodeEncodeForm(form);
    FormShape(qValue, slot, sequenceCheck, itemId, grade, maxMark, attempt, sesskey);
    FormKeys(form, attempt, slot);
    AttemptAndSlotOfDict(Fields(form), form);
  }

  lemma FormShape(qValue: string, slot: string, sequenceCheck: string, itemId: string,
                  grade: string, maxMark: nat, attempt: string, sesskey: string)
    ensures var form := FormPairs(qValue, slot, sequenceCheck, itemId, grade, maxMark, attempt, sesskey);
      && form[8] == ("attempt", attempt) && form[9] == ("slot", slot)
      && (forall i :: 0 <= i < 8 ==> |form[i].0| > 7)
      && form[10].0 == "slots" && form[11].0 == "sesskey" && form[12].0 == "submit"
  {
  }

  /** A form built from plain tokens is plain. */
  lemma FormPlain(qValue: string, slot: string, sequenceCheck: string, itemId: string,
                  grade: string, maxMark: nat, attempt: string, sesskey: string)
    requires PlainText(qValue) && PlainText(slot) && PlainText(sequenceCheck) && PlainText(itemId)
    requires PlainText(grade) && PlainText(attempt) && PlainText(sesskey)
    ensures PlainPairs(FormPairs(qValue, slot, sequenceCheck, itemId, grade, maxMark, attempt, sesskey))
  {
    FormNamesPlain(qValue, slot);
    var digits := NatToString(maxMark);
    assert PlainText(digits) by {
      forall k | 0 <= k < |digits|
        ensures digits[k] != '&' && digits[k] != '='
      {
        assert IsDigit(digits[k]);
      }
    }
  }

  /** In the form, `attempt` and `slot` are the last entries with their keys. */
  lemma FormKeys(form: seq<(string, string)>, attempt: string, slot: string)
    requires |form| == 13 && form[8] == ("attempt", attempt) && form[9] == ("slot", slot)
    requires forall i :: 0 <= i < 8 ==> |form[i].0| > 7
    requires form[10].0 == "slots" && form[11].0 == "sesskey" && form[12].0 == "submit"
    ensures "attempt" in DictFrom(form) && DictFrom(form)["attempt"] == attempt
    ensures "slot" in DictFrom(form) && DictFrom(form)["slot"] == slot
  {
    assert LastForKey(form, 8);
    assert LastForKey(form, 9);
  }

  /** Once the entries are read, the two keys are looked up in the dict they build. */
  lemma AttemptAndSlotOfDict(params: seq<string>, pairs: seq<(string, string)>)
    requires Pairs(params) == Ok(pairs) && "attempt" in DictFrom(pairs) && "slot" in DictFrom(pairs)
    ensures AttemptAndSlotIn(params) == Ok((DictFrom(pairs)["attempt"], DictFrom(pairs)["slot"]))
  {
  }

  // The whole request.

  /** `{base}/mod/quiz/comment.php?attempt={attempt}&slot={slot}`. */
  function CommentUrl(base: string, attempt: string, slot: string): string {
    base + "/mod/quiz/comment.php" + "?" + AttemptSlotQuery(attempt, slot)
  }

  /** The comment page address carries the attempt and slot it was built from, for both query readers. */
  lemma CommentUrlReadsBack(base: string, attempt: string, slot: string)
    requires '?' !in base && '#' !in base && NoUnsafe(base)
    requires '&' !in attempt && '=' !in attempt && '?' !in attempt && '#' !in attempt && NoUnsafe(attempt)
    requires '&' !in slot && '=' !in slot && '?' !in slot && '#' !in slot && '+' !in slot && NoUnsafe(slot) && |slot| > 0
    ensures AttemptAndSlot(CommentUrl(base, attempt, slot)) == Ok((attempt, slot))
    ensures SlotOf(CommentUrl(base, attempt, slot)) == slot
  {
    var path := base + "/mod/quiz/comment.php";
    CommentPathSafe(base);
    AttemptAndSlotOfLink(path, attempt, slot);
    SlotOfLink(path, attempt, slot);
  }

  lemma CommentPathSafe(base: string)
    requires '?' !in base && '#' !in base && NoUnsafe(base)
    ensures var path := base + "/mod/quiz/comment.php"; '?' !in path && '#' !in path && NoUnsafe(path)
  {
    var tail := "/mod/quiz/comment.php";
    assert '?' !in tail && '#' !in tail && NoUnsafe(tail);
    var path := base + tail;
    forall k | 0 <= k < |path|
      ensures !IsUnsafe(path[k])
    {
      if k >= |base| {
        assert path[k] == tail[k - |base|];
      }
    }
  }

  /**
    What `submit_grade` sends. `commentUrl` is the page it fetches to read the
    tokens from, and the post names it as referer; the post itself goes to
    `{base}/mod/quiz/comment.php` with no query, carrying `body`.
   */
  datatype Request = Request(commentUrl: string, attempt: string, slot: string, body: string)

  /**
    The request for one link, grade and maximum mark, given the comment
    page's text and inputs. A link the naive parser rejects, or a token input
    without a value, raises before anything is posted.
   */
  function PrepareSubmission(url: string, grade: string, maxMark: nat, base: string,
                             page: string, inputs: seq<HtmlInput>): (r: Result<Request>)
    ensures AttemptAndSlot(url).Err? ==> r == Err(AttemptAndSlot(url).error)
    ensures r.Err? <==> AttemptAndSlot(url).Err? || !TokensPresent(inputs)
    ensures r.Ok? ==> AttemptAndSlot(url) == Ok((r.value.attempt, r.value.slot))
    ensures r.Ok? ==> RequestFor(r.value.attempt, r.value.slot, grade, maxMark, base, page, inputs) == r
    ensures (r.Ok? && PlainText(r.value.attempt) && PlainText(r.value.slot) && PlainText(grade)
             && PlainText(Sesskey(page)) && PlainTokens(inputs)) ==>
      var fields := Split(r.value.body, "&");
      && Pairs(fields).Ok? && |Pairs(fields).value| == 13
      && Pairs(fields).value[4] == (FieldPrefix(QValue(page, r.value.slot), r.value.slot) + "-mark", grade)
      && ParseInt(Pairs(fields).value[5].1) == Ok(maxMark)
  {
    match AttemptAndSlot(url)
    case Err(e) => Err(e)
    case Ok((attempt, slot)) =>
      var r := RequestFor(attempt, slot, grade, maxMark, base, page, inputs);
      if r.Ok? && PlainText(attempt) && PlainText(slot) && PlainText(grade)
        && PlainText(Sesskey(page)) && PlainTokens(inputs)
      then
        RequestReadsBack(attempt, slot, grade, maxMark, base, page, inputs);
        r
      else r
  }

  /** Both token inputs of the comment page can be read: none of them lacks its value. */
  predicate TokensPresent(inputs: seq<HtmlInput>) {
    InputValue(inputs, "sequencecheck").Ok? && InputValue(inputs, "comment:itemid").Ok?
  }

  /** Both token inputs can be read, and their values hold neither '&' nor '='. */
  predicate PlainTokens(inputs: seq<HtmlInput>) {
    && TokensPresent(inputs)
    && PlainText(InputValue(inputs, "sequencecheck").value)
    && PlainText(InputValue(inputs, "comment:itemid").value)
  }

  /**
    The request once the link's attempt and slot are known: the comment page
    to fetch for those two, and the form body to post.
   */
  function RequestFor(attempt: string, slot: string, grade: string, maxMark: nat, base: string,
                      page: string, inputs: seq<HtmlInput>): (r: Result<Request>)
    ensures r.Err? <==> !TokensPresent(inputs)
    ensures r.Err? ==> r.error == (if InputValue(inputs, "sequencecheck").Err? then InputValue(inputs, "sequencecheck").error
      else InputValue(inputs, "comment:itemid").error)
    ensures r.Ok? ==> r.value.attempt == attempt && r.value.slot == slot
    ensures r.Ok? ==> r.value.commentUrl == CommentUrl(base, attempt, slot)
  {
    var commentUrl := CommentUrl(base, attempt, slot);
    var qValue := QValue(page, slot);
    var sesskey := Sesskey(page);
    match InputValue(inputs, "sequencecheck")
    case Err(e) => Err(e)
    case Ok(sequenceCheck) =>
      match InputValue(inputs, "comment:itemid")
      case Err(e) => Err(e)
      case Ok(itemId) =>
        var form := FormPairs(qValue, slot, sequenceCheck, itemId, grade, maxMark, attempt, sesskey);
        Ok(Request(commentUrl, attempt, slot, EncodeForm(form)))
  }

  /** The question token is `q` and digits, or empty, so it holds neither '&' nor '='. */
  lemma QValuePlain(page: string, slot: string)
    ensures PlainText(QValue(page, slot))
  {
    QValueShape(page, slot);
    var q := QValue(page, slot);
    forall k | 0 <= k < |q|
      ensures q[k] != '&' && q[k] != '='
    {
      if k > 0 {
        assert q[k] == q[1..][k - 1];
        assert IsDigit(q[1..][k - 1]);
      }
    }
  }

  /**
    When the link's tokens, the typed grade and the page's tokens hold
    neither '&' nor '=', the posted body splits into exactly its 13 fields;
    the naive parser reads back the link's attempt and slot, the mark field
    carries the grade, the maximum-mark field reads back as the mark, and
    the session key is the page's.
   */
  lemma RequestReadsBack(attempt: string, slot: string, grade: string, maxMark: nat, base: string,
                         page: string, inputs: seq<HtmlInput>)
    requires RequestFor(attempt, slot, grade, maxMark, base, page, inputs).Ok?
    requires PlainText(attempt) && PlainText(slot) && PlainText(grade) && PlainText(Sesskey(page))
    requires PlainTokens(inputs)
    ensures var fields := Split(RequestFor(attempt, slot, grade, maxMark, base, page, inputs).value.body, "&");
      && |fields| == 13
      && AttemptAndSlotIn(fields) == Ok((attempt, slot))
      && Pairs(fields) == Ok(FormPairs(QValue(page, slot), slot, InputValue(inputs, "sequencecheck").value,
        InputValue(inputs, "comment:itemid").value, grade, maxMark, attempt, Sesskey(page)))
      && Pairs(fields).value[0] == (FieldPrefix(QValue(page, slot), slot) + "%3Asequencecheck", InputValue(inputs, "sequencecheck").value)
      && Pairs(fields).value[2] == (FieldPrefix(QValue(page, slot), slot) + "-comment%3Aitemid", InputValue(inputs, "comment:itemid").value)
      && Pairs(fields).value[4] == (FieldPrefix(QValue(page, slot), slot) + "-mark", grade)
      && ParseInt(Pairs(fields).value[5].1) == Ok(maxMark)
      && Pairs(fields).value[11] == ("sesskey", Sesskey(page))
  {
    var sequenceCheck := InputValue(inputs, "sequencecheck").value;
    var itemId := InputValue(inputs, "comment:itemid").value;
    var qValue := QValue(page, slot);
    var form := FormPairs(qValue, slot, sequenceCheck, itemId, grade, maxMark, attempt, Sesskey(page));
    assert RequestFor(attempt, slot, grade, maxMark, base, page, inputs).value.body == EncodeForm(form);
    QValuePlain(page, slot);
    FormPlain(qValue, slot, sequenceCheck, itemId, grade, maxMark, attempt, Sesskey(page));
    DecodeEncodeForm(form);
    FormReadsBack(qValue, slot, sequenceCheck, itemId, grade, maxMark, attempt, Sesskey(page));
    FormMaxMark(qValue, slot, sequenceCheck, itemId, grade, maxMark, attempt, Sesskey(page));
  }
}
