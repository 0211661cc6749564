# Moodle auto-grader, modelled in Dafny

A model of the core of a command-line helper for grading Moodle essay
questions. The helper reads the quiz report page and keeps the links whose
text says the answer "requires grading". It groups those links by question
slot and reorders them by slot number, and it rewrites `comment.php` links
into `reviewquestion.php` links. Then it walks the list. For each answer it
fetches the question text, the student's answer and the maximum mark. It
shows a "new question" header whenever the question changes. It reads the
typed mark, extracts the attempt and slot from the link, and posts the
grade to the comment form with the form's hidden tokens.

The modules follow that flow:

- `Outcomes`: `Option`, `Result` and one `Error` constructor per place where the Python code raises.
- `Text` and `Numbers`: the Python string and number built-ins the code relies on, restricted to ASCII. This covers `in`, `split`, `join`, `replace`, `strip`, `lower`, `int()` and `int(float())`.
- `Discovery`: `find_requires_grade_links`.
- `Query`: the two URL readers. `urlparse` with `parse_qs` yields the grouping slot. The hand-written `dict(param.split('='))` parser of `submit_grade` yields the attempt and slot.
- `Grouping`: `group_links_by_slot`.
- `Ordering`: the `sorted(key=int)` rerank and the link rewrite.
- `Details`: the maximum mark of `get_question_details`.
- `Submission`: the two regular-expression searches, the input lookups, the form body and the comment URL of `submit_grade`.
- `Session`: `main` after the configuration check. This covers the early return, the rerank, the header rule and the grading loop with its tally.

Anything that comes from the network, the terminal or a subprocess is a parameter. This covers the report page's anchors, each review page's texts, each comment page, the typed grade and the exit status of the posting command.

## Model

| member | source | states |
|---|---|---|
| Discovery.FindRequiresGradeLinks | moodle_client.py:36-37 | A link is returned exactly when some anchor has an href matching the review pattern, and its lower-cased text contains "requires grading". There are never more links than anchors. |
| Discovery.FindLinksAppend | moodle_client.py:36-37 | Discovery distributes over concatenation of the page's anchors, so links keep document order. |
| Discovery.FindLinksEmpty | auto_grader.py:37-41 | The list is empty exactly when no anchor qualifies. This is the case where the script stops with nothing to grade. |
| Discovery.HrefMatchesPattern | moodle_client.py:36 | The executable href test holds exactly when `reviewquestion\.php\?.*slot=` matches somewhere in the href: the two literals appear in order, with no newline between them. |
| Query.SlotOfLink | moodle_client.py:52-54 | For a link `base?attempt=A&slot=S`, grouping reads back S. |
| Query.SlotOfFirstWins | moodle_client.py:53-54 | When the `slot` parameter is repeated, grouping uses the first non-blank value, with `+` read as a space. |
| Query.FirstValue | moodle_client.py:53-54 | There is no value exactly when no query piece carries a non-blank value for the key. Otherwise the value is that of the first such piece. |
| Query.Pairs | moodle_client.py:114 | Splitting every parameter at `=` succeeds exactly when each parameter has exactly one `=`. Otherwise it raises on the first parameter that does not. |
| Query.DictFrom | moodle_client.py:114 | The dictionary's keys are exactly the keys of the pairs. Each key maps to the value of its last pair. |
| Query.DictLaterWins | moodle_client.py:114 | When a key is repeated, the naive parser keeps the later value. This is the opposite of the grouping reader. |
| Query.AttemptAndSlotIn | moodle_client.py:114-116 | The lookup succeeds exactly when the parameters all split into pairs and both `attempt` and `slot` occur among them, and then gives the value of the last `attempt` pair and of the last `slot` pair. A malformed parameter raises the splitting error. Otherwise a missing `attempt` raises its lookup error, and a missing `slot` raises its lookup error exactly when `attempt` is present. |
| Query.AttemptAndSlotOfLink | moodle_client.py:114-116 | For a link `base?attempt=A&slot=S`, `submit_grade` reads back A and S. |
| Query.AttemptAndSlotNoQuery | moodle_client.py:114 | A link without `?` makes `submit_grade` raise before anything is fetched. |
| Query.QueryPart | moodle_client.py:114 | `url.split('?')[1]` raises exactly when the URL has no `?`. Otherwise it is the text between the first `?` and the next `?` or the end. |
| Query.UrlQuery | moodle_client.py:52-53 | After tabs, carriage returns and line feeds are removed and the fragment from the first `#` is cut off, the query is everything after the first `?`, or empty when there is none. |
| Query.UrlQueryOf | moodle_client.py:52-53 | For a base without `?`, `#` or unsafe characters, `base?q` has the query `q`. |
| Grouping.GroupLinksBySlot | moodle_client.py:50-58 | The slots are distinct, are exactly the slots that occur, and come in order of first occurrence. Each group is non-empty and holds exactly the links with its slot, in input order. The groups together are a permutation of the links. |
| Grouping.GroupByContents | moodle_client.py:50-58 | Each group holds exactly the links with its slot, in input order. The groups' slots are exactly the slots that occur. |
| Grouping.LinkInOneGroup | moodle_client.py:50-58 | Every link is in the one group whose slot is its own, and in no other group. |
| Grouping.GroupByPermutation | moodle_client.py:50-58 | The groups, concatenated, are a permutation of the input links. |
| Grouping.GroupOrder | moodle_client.py:55-56 | The dictionary's keys are in the order in which their slots first occur. |
| Grouping.GroupsNonEmpty | moodle_client.py:55-57 | No group is empty. |
| Numbers.ParseIntRoundTrip | auto_grader.py:46 | `int()` reads back any integer written in decimal, surrounded by any amount of the whitespace `int()` skips (space and U+0009..U+000D). |
| Numbers.ParseInt | auto_grader.py:46 | A failure is the `int()` error naming the text, and a blank slot, the slot of a link without one, always fails. |
| Numbers.ParseIntSeparator | auto_grader.py:46 | The separators U+001C..U+001F, which `str.strip` removes, are not skipped by `int()`, so `int('\x1c5')` raises. |
| Ordering.Sort | auto_grader.py:46 | The sort keeps the length, puts the keys in ascending order and is a permutation. |
| Ordering.SortStable | auto_grader.py:46 | Entries with equal keys keep their relative order. |
| Ordering.SortedUnique | auto_grader.py:46 | Two ascending sequences with the same per-key subsequences are equal. |
| Ordering.StableSortIsSort | auto_grader.py:46 | Any stable ascending sort of the keyed slots, as Python's `sorted` is, equals the model's sort. |
| Ordering.SlotKeysFail | auto_grader.py:46 | Keying the slots fails exactly when some slot is not an integer. |
| Ordering.ReorderLinks | auto_grader.py:45-48 | The rerank raises exactly when some slot is not an integer, with the error of the first such slot. Otherwise the reranked list is a permutation of the grouped links, and it is the groups' lists, one whole list after another, in the order of the stable sort by integer slot. |
| Ordering.SortGroupsAscending | auto_grader.py:46 | After the rerank, the slots' integer values are in ascending order. |
| Ordering.ReorderStable | auto_grader.py:45-48 | Slots with the same integer value keep their first-occurrence order. |
| Ordering.RewriteRemovesComment | auto_grader.py:51-52 | No rewritten link contains `comment.php`. |
| Ordering.RewriteIdentity | auto_grader.py:52 | A link without `comment.php` is left unchanged. |
| Ordering.RewriteIdempotent | auto_grader.py:52 | Rewriting twice gives the same link as rewriting once. |
| Ordering.RewriteFirstOccurrence | auto_grader.py:52 | The first occurrence becomes `reviewquestion.php`, and the rest of the link is rewritten the same way. |
| Ordering.RewriteAll | auto_grader.py:51-52 | The in-place loop rewrites every link and keeps the count, and no result contains `comment.php`. |
| Details.MaxMark | moodle_client.py:96-97 | Without "out of" the mark is 0. The computation raises only when "out of" is present, and then with the text after the last "out of". |
| Details.MaxMarkOfLastPiece | moodle_client.py:96-97 | The mark is read from the stripped text after the last "out of". If that text is exactly the "Max mark not found" fallback, the mark is 0. Otherwise it is the text truncated as a decimal, or that error. |
| Details.MaxMarkAfterLast | moodle_client.py:96-97 | The mark is the stripped text after the last "out of", truncated to an integer. |
| Details.MaxMarkOfDecimal | moodle_client.py:96-97 | A padded decimal after the last "out of" gives its whole part. |
| Details.MaxMarkExample | moodle_client.py:96-97 | "Marked out of 10.00" gives 10. |
| Details.MaxMarkNotNumeric | moodle_client.py:96-97 | Non-numeric text after the last "out of" raises the `float()` error. |
| Details.GradeInfoFallback | moodle_client.py:95-97 | A missing grade box gives a maximum mark of 0. |
| Details.GetQuestionDetails | moodle_client.py:86-97 | A missing question or answer becomes its placeholder text, and a missing grade box gives 0. With a grade box, the call raises exactly when the max-mark computation does, with that error, and otherwise returns the mark computed from the grade box. |
| Numbers.TruncateDecimal | moodle_client.py:97 | Truncation succeeds exactly on a plain decimal literal (digits, optionally a point and digits, at least one digit), and then gives the value of the digits before the point. Any other text raises the `float()` error naming it. |
| Numbers.TruncateDecimalOfFraction | moodle_client.py:97 | `int(float(w.f))` for a digit string `w.f` is the value of `w`. |
| Numbers.TruncateDecimalOfWhole | moodle_client.py:97 | A numeral without a point truncates to its own value. |
| Submission.SearchSpec | moodle_client.py:133-137 | Nothing is found exactly when the pattern matches nowhere. Otherwise the result is the capture of the leftmost match. |
| Submission.SearchLeftmost | moodle_client.py:133-137 | A match with no match starting before it is the one returned. |
| Submission.QValueShape | moodle_client.py:133-134 | The question token is empty exactly when `question-(\d+)-<slot>` matches nowhere. Otherwise it is `q` followed by digits. |
| Submission.QValueOf | moodle_client.py:133-134 | On a page containing `question-<digits>-<slot>`, the token is `q<digits>`. |
| Submission.SesskeyOf | moodle_client.py:136-137 | The session key is read back from `"sesskey":"<key>"`. |
| Submission.SesskeyMissing | moodle_client.py:136-137 | A page without `"sesskey":"` gives an empty key. |
| Submission.InputValue | moodle_client.py:139-143 | The first input whose name contains the marker gives its value. With no such input the value is empty, and if that input has no value the lookup raises. |
| Submission.FormPairs | moodle_client.py:155 | The body has 13 fields in a fixed order. The eight question fields, named with the `{q}%3A{slot}_` prefix, carry the scraped sequence check, an empty comment, the scraped item id, comment format 1, the typed grade, the maximum mark, minimum fraction 0 and maximum fraction 1. The last five carry the attempt, the slot twice, the session key and `submit=Save`. |
| Submission.FormMaxMark | moodle_client.py:155 | The form carries the typed grade as the mark, and a max mark that `int()` reads back. |
| Submission.DecodeEncodeForm | moodle_client.py:155 | A form body of plain pairs splits back into its fields, and the naive parser reads back the pairs. |
| Submission.FormReadsBack | moodle_client.py:155 | The posted body has 13 fields, and `submit_grade`'s own parser reads back its attempt and slot. |
| Submission.FormKeys | moodle_client.py:155 | In the posted form, `attempt` and `slot` map to the link's attempt and slot. |
| Submission.CommentUrlReadsBack | moodle_client.py:119 | Both URL readers get the attempt and slot back from the comment-page URL. |
| Submission.PrepareSubmission | moodle_client.py:114-155 | A link the naive parser rejects raises that same error, and the call raises exactly when the parser rejects the link or a token input lacks its value. A request carries the attempt and slot the parser read and is the request built from them with the given grade and maximum mark. For plain tokens its body decodes into 13 fields whose mark is the grade and whose maximum mark reads back through `int()`. |
| Submission.RequestFor | moodle_client.py:119-155 | The request fails exactly when one of the two input lookups raises, with the error of the first one that does. Otherwise its comment page, fetched for the tokens and named as referer of the post, is the one of its attempt and slot. |
| Submission.RequestReadsBack | moodle_client.py:133-155 | For plain tokens, the posted body splits into 13 fields that decode to exactly the form: the scraped sequence check and item id in fields 0 and 2, the typed grade as the mark, a max-mark field that reads back as the maximum mark, and the scraped session key. Its own parser reads back the attempt and slot. |
| Session.HeaderRunMatches | auto_grader.py:61-73 | Starting with no previous question, the loop shows a header exactly for the first item and for each item whose question differs from the item before it. |
| Session.OneQuestionOneHeader | auto_grader.py:61-73 | A run of answers to one question shows the header once. |
| Session.GradeItem | moodle_client.py:93-155 | A graded item holds the question details the review page gives and the submission prepared from the link with the typed grade and those details' maximum mark; it raises exactly when one of those two steps raises. So it succeeds only with the link's own attempt and slot and fetches their comment page, and a link the parser rejects, a maximum mark that raises, or a token input without a value ends the item with an error. |
| Session.GradeAll | auto_grader.py:61-93 | Each step is what grading its own link gives, and each header follows the reference rule. A failed post does not stop the loop. A completed session has one step per link and a tally equal to the link count. An aborted one stops at the first link that raises, with that link's error. |
| Session.FaithfulStopsAtFirstError | auto_grader.py:61-93 | A session of that shape never has a step past a link whose grading raises. |
| Session.SessionDetermined | auto_grader.py:61-93 | The links and replies determine that shape's session completely: two sessions that both have it are equal. |
| Session.RerankAscending | auto_grader.py:44-48 | In the reranked list, every later link's slot has an integer value no smaller than an earlier link's. |
| Session.RerankContiguous | auto_grader.py:44-48 | Each slot's links form one unbroken block of the reranked list. |
| Session.RerankKeepsSlotOrder | auto_grader.py:44-48 | For every slot, the reranked list holds exactly the found links with that slot, in the order they were found. |
| Session.RerankedLength | auto_grader.py:44-55 | Reranking keeps the number of links. |
| Session.RunGrader | auto_grader.py:37-93 | The run stops with nothing to grade exactly when no anchor qualifies. It fails in the rerank exactly when some slot is not an integer. Otherwise it grades the reranked links, which number as many as were found and contain no `comment.php`, and its session is the one the links and replies determine: every step is its own link's grading, every header follows the rule, and it completes or stops at the first link that raises. |

## Left out

- Fetching and posting: `requests.get`, the `curl` command lines and `subprocess.run` are left out. Their results (the report's anchors, each review page's texts, the comment page, the exit status) are inputs. Cookies, headers and shell quoting of the URL are not modelled. The `--data-raw` form body is also single-quoted for the shell (moodle_client.py:155): a grade or token holding `'` changes what `curl` sends, while the model's `Request.body` is the form exactly as built.
- HTML parsing: BeautifulSoup is replaced by its results. The report page is a sequence of anchors (href, text). The comment page's inputs are a sequence of (name, value) records. The `div.qtext`, `div.qtype_essay_response` and `div.grade` texts are optional strings. `get_text(strip=True)` is assumed done.
- Configuration: `Config` and `Config.validate()` come from config.py, which is not part of this model. The run starts after a successful check, and the base URL is a parameter.
- Printing and `input()`: the console output is left out. The typed grade is part of each reply, and the "press Enter" prompt has no effect on the model.
- Percent-decoding in `parse_qs` is not modelled. Slots and attempts are taken literally, except that `+` is read as a space.
- `urlsplit` errors are not modelled. `urlsplit` raises `ValueError` on a network location that has a `[` without a `]` or the reverse, `_check_bracketed_host` raises `ValueError` on a bracketed host that is not a valid IPv6 or IPvFuture address, such as `http://[foo]/`, and `_checknetloc` raises `ValueError` on a non-ASCII network location whose NFKC normalization introduces one of `/`, `?`, `#`, `@` or `:`. The model's `Query.UrlQuery` returns a query for such links instead.
- Text.IsSpace: only ASCII characters can be whitespace: space and U+0009..U+000D for `int()`, and also U+001C..U+001F for `str.strip`. The same goes for `lower()` (ASCII letters only) and for `\d` (ASCII digits only). Python accepts the other Unicode whitespace, case mappings and digits too.
- Numbers.TruncateDecimal: reads only an unsigned decimal with optional fraction. Signs, exponents, underscores, `inf` and `nan`, which `float()` also accepts, are reported as errors. The overflow error of `int(float('inf'))` is therefore not modelled.
- Numbers.TruncateDecimal: truncates the exact decimal, while `int(float(x))` first rounds to the nearest double. The two differ when the literal has more than about 15 significant digits (`0.99999999999999999` gives 1 in Python and 0 here) or a whole part of 2^53 or more, and a literal beyond the largest double (about 1.8e308) would raise `OverflowError` in Python.
- Numbers.TruncateDecimalOfWhole: states that a numeral without a point truncates to its own value, which `int(float(str(n)))` gives for every n up to 2^53 but not for every n beyond, where the double rounds: for example `int(float('9007199254740993'))` is 9007199254740992.
- Numbers.TruncateDecimalOfFraction: states the exact-decimal truncation above, so it matches Python only for literals a double represents closely enough, up to about 15 significant digits.
- Details.MaxMarkAfterLast: the mark is the exact-decimal truncation, with the same rounding gap as `Numbers.TruncateDecimal`.
- Details.MaxMarkOfDecimal: the whole part is exact, with the same rounding gap as `Numbers.TruncateDecimal`; a Moodle mark such as `10.00` is far inside the range where the two agree.
- Numbers.ParseInt: accepts an optional sign, digits with single underscores, and the C-locale whitespace (space, U+0009..U+000D) around them. Non-ASCII digits and non-ASCII whitespace, which `int()` also accepts, are reported as errors.
- Submission.QuestionPattern: the slot is inserted into the pattern as literal text. Python's `re` would interpret regular-expression metacharacters in a non-numeric slot, and this model does not.
