/**
  Reading query parameters out of a link, in the two ways the script does it:
  `parse_qs(urlparse(link).query)` when grouping links by slot, and the naive
  `dict(param.split('=') for param in url.split('?')[1].split('&'))` when
  submitting a grade. The two disagree on repeated and blank parameters.
 */
module Query {
  import opened Outcomes
  import opened Text

  /** The characters `urlsplit` deletes from a URL before splitting it. */
  predicate IsUnsafe(c: char) {
    c == '\t' || c == '\r' || c == '\n'
  }

  predicate NoUnsafe(s: string) {
    forall k :: 0 <= k < |s| ==> !IsUnsafe(s[k])
  }

  /** `s` with every tab, carriage return and line feed removed. */
  function RemoveUnsafe(s: string): (r: string)
    ensures NoUnsafe(r) && |r| <= |s|
    ensures NoUnsafe(s) ==> r == s
  {
    if |s| == 0 then ""
    else
      var rest := RemoveUnsafe(s[1..]);
      if IsUnsafe(s[0]) then rest else [s[0]] + rest
  }

  /**
    The query component of `urlparse(url)`: after removing unsafe characters,
    the fragment starts at the first '#', and the query is what follows the
    first '?' before it; a URL without '?' has an empty query.
   */
  function UrlQuery(url: string): (q: string)
    ensures '#' !in q && NoUnsafe(q)
    ensures var b := BeforeFragment(RemoveUnsafe(url));
      && ('?' !in b ==> q == "")
      && ('?' in b ==> exists i :: 0 <= i < |b| && b[i] == '?' && '?' !in b[..i] && q == b[i + 1..])
  {
    var b := BeforeFragment(RemoveUnsafe(url));
    FindCharFacts(b, '?');
    match FindFrom(b, "?", 0)
    case None => ""
    case Some(i) => b[i + 1..]
  }

  /** The part of `u` before its first '#'; all of `u` when it has none. */
  function BeforeFragment(u: string): (r: string)
    ensures '#' !in r && |r| <= |u| && r == u[..|r|]
    ensures |r| < |u| ==> u[|r|] == '#'
  {
    FindCharFacts(u, '#');
    match FindFrom(u, "#", 0)
    case None => u
    case Some(i) => u[..i]
  }

  /** A URL made of a base without '?', '#' or unsafe characters, then '?', then a query. */
  lemma UrlQueryOf(base: string, q: string)
    requires '?' !in base && '#' !in base && NoUnsafe(base)
    requires '#' !in q && NoUnsafe(q)
    ensures UrlQuery(base + "?" + q) == q
  {
    var u := base + "?" + q;
    assert NoUnsafe(u);
    assert '#' !in u;
    ContainsChar(u, '#');
    FindCharAfter(base, '?', q);
    assert u[|base| + 1..] == q;
  }

  /** A URL without '?' has an empty query. */
  lemma UrlQueryWithoutQuestionMark(url: string)
    requires '?' !in url
    ensures UrlQuery(url) == ""
  {
    var u := RemoveUnsafe(url);
    assert '?' !in u by {
      RemoveUnsafeKeeps(url, '?');
    }
    ContainsChar(u, '?');
    match FindFrom(u, "#", 0)
    case None =>
    case Some(i) =>
      assert '?' !in u[..i];
      ContainsChar(u[..i], '?');
  }

  /** Removing unsafe characters introduces no character that was not there. */
  lemma {:induction false} RemoveUnsafeKeeps(s: string, c: char)
    requires c !in s
    ensures c !in RemoveUnsafe(s)
    decreases |s|
  {
    if |s| > 0 {
      assert c !in s[1..];
      RemoveUnsafeKeeps(s[1..], c);
    }
  }

  /** `s.replace('+', ' ')`, the only decoding applied to unencoded query text. */
  function PlusToSpace(s: string): (r: string)
    ensures |r| == |s| && forall k :: 0 <= k < |s| ==> r[k] == (if s[k] == '+' then ' ' else s[k])
  {
    seq(|s|, k requires 0 <= k < |s| => if s[k] == '+' then ' ' else s[k])
  }

  lemma PlusToSpaceIdentity(s: string)
    requires '+' !in s
    ensures PlusToSpace(s) == s
  {
  }

  /** `piece.split('=', 1)` when it has two parts: the name before the first '=' and the rest. */
  function NameValue(piece: string): (r: Option<(string, string)>)
    ensures r.None? <==> '=' !in piece
    ensures r.Some? ==> piece == r.value.0 + "=" + r.value.1 && '=' !in r.value.0
  {
    FindCharFacts(piece, '=');
    match FindFrom(piece, "=", 0)
    case None => None
    case Some(i) => Some((piece[..i], piece[i + 1..]))
  }

  lemma NameValueOf(name: string, value: string)
    requires '=' !in name
    ensures NameValue(name + "=" + value) == Some((name, value))
  {
    var s := name + "=" + value;
    FindCharAfter(name, '=', value);
    assert s[..|name|] == name;
    assert s[|name| + 1..] == value;
  }

  /** `parse_qs` keeps a piece for `key` when it has an '=', names `key`, and its value is not blank. */
  predicate Carries(piece: string, key: string) {
    var nv := NameValue(piece);
    nv.Some? && PlusToSpace(nv.value.0) == key && |nv.value.1| > 0
  }

  /** Piece `i` is the first one that carries `key`. */
  predicate FirstCarrier(pieces: seq<string>, key: string, i: int) {
    && 0 <= i < |pieces|
    && Carries(pieces[i], key)
    && forall j :: 0 <= j < i ==> !Carries(pieces[j], key)
  }

  /** What the first value for `key` among `pieces` is: nothing when no piece carries it, else the first carrier's value. */
  ghost predicate IsFirstValue(pieces: seq<string>, key: string, r: Option<string>) {
    && (r.None? <==> forall i :: 0 <= i < |pieces| ==> !Carries(pieces[i], key))
    && (r.Some? ==> exists i :: FirstCarrier(pieces, key, i) && r.value == PlusToSpace(NameValue(pieces[i]).value.1))
  }

  /** `parse_qs(query).get(key, [...])[0]`: the first non-blank value given for `key`. */
  function FirstValue(pieces: seq<string>, key: string): (r: Option<string>)
    ensures r.None? <==> forall i :: 0 <= i < |pieces| ==> !Carries(pieces[i], key)
    ensures r.Some? ==> exists i :: FirstCarrier(pieces, key, i) && r.value == PlusToSpace(NameValue(pieces[i]).value.1)
    ensures r.Some? ==> |r.value| > 0
  {
    if |pieces| == 0 then None
    else if Carries(pieces[0], key) then
      var r := Some(PlusToSpace(NameValue(pieces[0]).value.1));
      assert FirstCarrier(pieces, key, 0);
      r
    else
      var r := FirstValue(pieces[1..], key);
      FirstValueCons(pieces, key, r);
      r
  }

  /** Past a piece that does not carry `key`, the first value is the first value of the rest. */
  lemma FirstValueCons(pieces: seq<string>, key: string, r: Option<string>)
    requires |pieces| > 0 && !Carries(pieces[0], key)
    requires IsFirstValue(pieces[1..], key, r)
    ensures IsFirstValue(pieces, key, r)
  {
    var tail := pieces[1..];
    assert forall i :: 0 < i < |pieces| ==> pieces[i] == tail[i - 1];
    if r.Some? {
      var i :| FirstCarrier(tail, key, i) && r.value == PlusToSpace(NameValue(tail[i]).value.1);
      assert pieces[i + 1] == tail[i];
      assert FirstCarrier(pieces, key, i + 1);
    }
  }

  /** The slot a link is grouped under: the first non-blank `slot` value, or '' when there is none. */
  function SlotOf(link: string): string
  {
    SlotParam(QueryPieces(link))
  }

  /** `parse_qs` splits the query on '&'. */
  function QueryPieces(link: string): seq<string> {
    Split(UrlQuery(link), "&")
  }

  /** The slot among the query pieces, or '' when there is none. */
  function SlotParam(pieces: seq<string>): (slot: string)
    ensures slot == "" <==> forall i :: 0 <= i < |pieces| ==> !Carries(pieces[i], "slot")
  {
    match FirstValue(pieces, "slot")
    case None => ""
    case Some(v) => v
  }

  /** The query of a review link as Moodle writes it. */
  function AttemptSlotQuery(attempt: string, slot: string): string {
    "attempt=" + attempt + "&slot=" + slot
  }

  /** The query `attempt=..&slot=..` splits into its two parameters. */
  lemma SplitAttemptSlot(attempt: string, slot: string)
    requires '&' !in attempt && '&' !in slot
    ensures Split(AttemptSlotQuery(attempt, slot), "&") == ["attempt=" + attempt, "slot=" + slot]
  {
    var parts := ["attempt=" + attempt, "slot=" + slot];
    assert '&' !in parts[0] && '&' !in parts[1];
    ContainsChar(parts[0], '&');
    ContainsChar(parts[1], '&');
    assert Join(parts, "&") == parts[0] + "&" + parts[1];
    assert AttemptSlotQuery(attempt, slot) == parts[0] + "&" + parts[1];
    SplitJoin(parts, "&");
  }

  /** Grouping reads back the slot a link was built with. */
  lemma SlotOfLink(base: string, attempt: string, slot: string)
    requires '?' !in base && '#' !in base && NoUnsafe(base)
    requires '&' !in attempt && '#' !in attempt && NoUnsafe(attempt)
    requires '&' !in slot && '#' !in slot && '+' !in slot && NoUnsafe(slot) && |slot| > 0
    ensures SlotOf(base + "?" + AttemptSlotQuery(attempt, slot)) == slot
  {
    var q := AttemptSlotQuery(attempt, slot);
    AttemptSlotQuerySafe(attempt, slot);
    UrlQueryOf(base, q);
    var link := base + "?" + q;
    assert QueryPieces(link) == Split(q, "&");
    SplitAttemptSlot(attempt, slot);
    SlotParamOfPair(attempt, slot);
    PlusToSpaceIdentity(slot);
  }

  lemma AttemptSlotQuerySafe(attempt: string, slot: string)
    requires '#' !in attempt && NoUnsafe(attempt)
    requires '#' !in slot && NoUnsafe(slot)
    ensures '#' !in AttemptSlotQuery(attempt, slot) && NoUnsafe(AttemptSlotQuery(attempt, slot))
  {
  }

  lemma SlotParamOfPair(attempt: string, slot: string)
    requires |slot| > 0
    ensures SlotParam(["attempt=" + attempt, "slot=" + slot]) == PlusToSpace(slot)
  {
    AttemptPieceNotSlot(attempt);
    SlotPieceCarries(slot);
    FirstValueOfTwo("attempt=" + attempt, "slot=" + slot, "slot");
  }

  lemma AttemptPieceNotSlot(attempt: string)
    ensures !Carries("attempt=" + attempt, "slot")
  {
    NameValueOf("attempt", attempt);
    assert "attempt=" + attempt == "attempt" + "=" + attempt;
    assert |PlusToSpace("attempt")| == 7;
  }

  lemma SlotPieceCarries(slot: string)
    requires |slot| > 0
    ensures Carries("slot=" + slot, "slot") && NameValue("slot=" + slot).value.1 == slot
  {
    NameValueOf("slot", slot);
    assert "slot=" + slot == "slot" + "=" + slot;
    assert PlusToSpace("slot") == "slot";
  }

  /** When only the second of two pieces carries `key`, its value is the first value. */
  lemma FirstValueOfTwo(a: string, b: string, key: string)
    requires !Carries(a, key) && Carries(b, key)
    ensures FirstValue([a, b], key) == Some(PlusToSpace(NameValue(b).value.1))
  {
    var ps := [a, b];
    assert ps[0] == a && ps[1] == b;
    var r := FirstValue(ps, key);
    assert r.Some?;
    var i :| FirstCarrier([a, b], key, i) && r.value == PlusToSpace(NameValue([a, b][i]).value.1);
    assert i == 1;
  }

  /** Of two `slot` parameters, grouping uses the first non-blank one. */
  lemma SlotOfFirstWins(pre: seq<string>, v: string, post: seq<string>)
    requires forall i :: 0 <= i < |pre| ==> !Carries(pre[i], "slot")
    requires |v| > 0
    ensures FirstValue(pre + ["slot=" + v] + post, "slot") == Some(PlusToSpace(v))
  {
    var ps := pre + ["slot=" + v] + post;
    SlotPieceCarries(v);
    assert ps[|pre|] == "slot=" + v;
    assert forall j :: 0 <= j < |pre| ==> ps[j] == pre[j];
    var r := FirstValue(ps, "slot");
    assert r.Some?;
    var i :| FirstCarrier(ps, "slot", i) && r.value == PlusToSpace(NameValue(ps[i]).value.1);
    assert i == |pre|;
  }

  // The naive parser of `submit_grade`.

  /**
    `q` is the text between the first '?' of `url`, at `i`, and the next
    '?' or the end.
   */
  predicate QueryAt(url: string, i: int, q: string) {
    && 0 <= i < |url| && url[i] == '?' && '?' !in url[..i]
    && i + 1 + |q| <= |url| && url[i + 1..i + 1 + |q|] == q && '?' !in q
    && (i + 1 + |q| == |url| || url[i + 1 + |q|] == '?')
  }

  /** `url.split('?')[1]`: the text between the first and the second '?'. */
  function QueryPart(url: string): (r: Result<string>)
    ensures r.Err? <==> '?' !in url
    ensures r.Ok? ==> exists i :: QueryAt(url, i, r.value)
  {
    var parts := Split(url, "?");
    ContainsChar(url, '?');
    if |parts| < 2 then
      Err(NoQueryString(url))
    else
      assert Contains(url, "?");
      SecondPiece(url);
      Ok(parts[1])
  }

  /** With at least two pieces, the second one is the text after the first '?'. */
  lemma SecondPiece(url: string)
    requires |Split(url, "?")| >= 2
    ensures exists i :: QueryAt(url, i, Split(url, "?")[1])
  {
    assert FindFrom(url, "?", 0).Some?;
    var i := FindFrom(url, "?", 0).value;
    FindCharFound(url, '?', i);
    SplitAtFirst(url, "?", i);
    var rest := url[i + 1..];
    SplitFirstPiece(rest, '?');
    var q := Split(rest, "?")[0];
    assert Split(url, "?")[1] == q;
    assert url[i + 1..i + 1 + |q|] == rest[..|q|];
    assert QueryAt(url, i, q);
  }

  /** `param.split('=')` as a dict entry: exactly two parts, or ValueError. */
  function Pair(param: string): (r: Result<(string, string)>)
    ensures r.Ok? ==> param == r.value.0 + "=" + r.value.1 && '=' !in r.value.0 && '=' !in r.value.1
  {
    var kv := Split(param, "=");
    if |kv| == 2 then
      JoinSplit(param, "=");
      assert Join(kv, "=") == kv[0] + "=" + kv[1];
      ContainsChar(kv[0], '=');
      ContainsChar(kv[1], '=');
      Ok((kv[0], kv[1]))
    else Err(MalformedParam(param))
  }

  lemma PairOf(name: string, value: string)
    requires '=' !in name && '=' !in value
    ensures Pair(name + "=" + value) == Ok((name, value))
  {
    ContainsChar(name, '=');
    ContainsChar(value, '=');
    assert Join([name, value], "=") == name + "=" + value;
    SplitJoin([name, value], "=");
  }

  /** The entries of all parameters, or the error of the first malformed one. */
  ghost predicate IsPairs(params: seq<string>, r: Result<seq<(string, string)>>) {
    && (r.Ok? <==> forall i :: 0 <= i < |params| ==> Pair(params[i]).Ok?)
    && (r.Ok? ==> |r.value| == |params| && forall i :: 0 <= i < |params| ==> r.value[i] == Pair(params[i]).value)
    && (r.Err? ==> exists i :: FirstMalformed(params, i) && r.error == MalformedParam(params[i]))
  }

  /** Parameter `i` is the first one that does not split into a name and a value. */
  predicate FirstMalformed(params: seq<string>, i: int) {
    && 0 <= i < |params|
    && Pair(params[i]).Err?
    && forall j :: 0 <= j < i ==> Pair(params[j]).Ok?
  }

  /** The generator inside `dict(...)`: every parameter's entry, or the error of the first malformed one. */
  function Pairs(params: seq<string>): (r: Result<seq<(string, string)>>)
    ensures r.Ok? <==> forall i :: 0 <= i < |params| ==> Pair(params[i]).Ok?
    ensures r.Ok? ==> |r.value| == |params| && forall i :: 0 <= i < |params| ==> r.value[i] == Pair(params[i]).value
    ensures r.Err? ==> exists i :: FirstMalformed(params, i) && r.error == MalformedParam(params[i])
  {
    if |params| == 0 then Ok([])
    else
      match Pair(params[0])
      case Err(e) =>
        assert FirstMalformed(params, 0);
        Err(e)
      case Ok(p) =>
        var rest := Pairs(params[1..]);
        var r := if rest.Err? then rest else Ok([p] + rest.value);
        PairsCons(params, p, rest, r);
        r
  }

  /** Past a well-formed parameter, the entries are its entry and the rest's entries. */
  lemma PairsCons(params: seq<string>, p: (string, string), rest: Result<seq<(string, string)>>, r: Result<seq<(string, string)>>)
    requires |params| > 0 && Pair(params[0]) == Ok(p)
    requires IsPairs(params[1..], rest)
    requires r == if rest.Err? then rest else Ok([p] + rest.value)
    ensures IsPairs(params, r)
  {
    if r.Err? {
      PairsConsErr(params, rest);
    } else {
      PairsConsOk(params, p, rest.value);
    }
  }

  lemma PairsConsErr(params: seq<string>, rest: Result<seq<(string, string)>>)
    requires |params| > 0 && Pair(params[0]).Ok?
    requires IsPairs(params[1..], rest) && rest.Err?
    ensures IsPairs(params, rest)
  {
    var tail := params[1..];
    var i :| FirstMalformed(tail, i) && rest.error == MalformedParam(tail[i]);
    assert forall j :: 0 < j <= i + 1 ==> params[j] == tail[j - 1];
    assert FirstMalformed(params, i + 1);
  }

  lemma PairsConsOk(params: seq<string>, p: (string, string), v: seq<(string, string)>)
    requires |params| > 0 && Pair(params[0]) == Ok(p)
    requires IsPairs(params[1..], Ok(v))
    ensures IsPairs(params, Ok([p] + v))
  {
    var tail := params[1..];
    var w := [p] + v;
    forall i | 0 <= i < |params|
      ensures Pair(params[i]).Ok? && w[i] == Pair(params[i]).value
    {
      if i > 0 {
        assert params[i] == tail[i - 1];
        assert w[i] == v[i - 1];
      }
    }
  }

  /** Entry `i` is the last one with its key. */
  predicate LastForKey(pairs: seq<(string, string)>, i: int)
    requires 0 <= i < |pairs|
  {
    forall j :: i < j < |pairs| ==> pairs[j].0 != pairs[i].0
  }

  /** Some entry has key `k`. */
  predicate HasKey(pairs: seq<(string, string)>, k: string) {
    exists i :: 0 <= i < |pairs| && pairs[i].0 == k
  }

  /** `dict(pairs)`: every key given, each with the value of its last entry. */
  function DictFrom(pairs: seq<(string, string)>): (d: map<string, string>)
    ensures forall k :: k in d <==> HasKey(pairs, k)
    ensures forall i :: 0 <= i < |pairs| && LastForKey(pairs, i) ==> pairs[i].0 in d && d[pairs[i].0] == pairs[i].1
  {
    if |pairs| == 0 then map[]
    else
      var n := |pairs| - 1;
      var init := pairs[..n];
      var d := DictFrom(init);
      DictStep(pairs, d);
      d[pairs[n].0 := pairs[n].1]
  }

  lemma DictStep(pairs: seq<(string, string)>, d: map<string, string>)
    requires |pairs| > 0
    requires forall k :: k in d <==> HasKey(pairs[..|pairs| - 1], k)
    requires forall i :: 0 <= i < |pairs| - 1 && LastForKey(pairs[..|pairs| - 1], i) ==> pairs[i].0 in d && d[pairs[i].0] == pairs[i].1
    ensures var n := |pairs| - 1; var d' := d[pairs[n].0 := pairs[n].1];
      (forall k :: k in d' <==> HasKey(pairs, k))
      && forall i :: 0 <= i < |pairs| && LastForKey(pairs, i) ==> pairs[i].0 in d' && d'[pairs[i].0] == pairs[i].1
  {
    var n := |pairs| - 1;
    var init := pairs[..n];
    var d' := d[pairs[n].0 := pairs[n].1];
    forall k
      ensures k in d' <==> HasKey(pairs, k)
    {
      if k in d' && k != pairs[n].0 {
        var i :| 0 <= i < |init| && init[i].0 == k;
        assert pairs[i].0 == k;
      }
      if HasKey(pairs, k) && k != pairs[n].0 {
        var i :| 0 <= i < |pairs| && pairs[i].0 == k;
        assert init[i].0 == k;
      }
    }
    forall i | 0 <= i < |pairs| && LastForKey(pairs, i)
      ensures pairs[i].0 in d' && d'[pairs[i].0] == pairs[i].1
    {
      if i < n {
        assert init[i] == pairs[i];
        assert LastForKey(init, i);
      }
    }
  }

  /** The `attempt` and `slot` parameters `submit_grade` reads from a link, or the exception it raises. */
  function AttemptAndSlot(url: string): Result<(string, string)>
  {
    match QueryPart(url)
    case Err(e) => Err(e)
    case Ok(q) => AttemptAndSlotIn(Split(q, "&"))
  }

  /**
    Building the dict raises on the first malformed parameter; then a missing
    `attempt` raises before a missing `slot` is looked at.
   */
  function AttemptAndSlotIn(params: seq<string>): (r: Result<(string, string)>)
    ensures r.Ok? <==> Pairs(params).Ok? && HasKey(Pairs(params).value, "attempt") && HasKey(Pairs(params).value, "slot")
    ensures r.Ok? ==> exists pairs :: Pairs(params) == Ok(pairs) && HasKey(pairs, "attempt") && HasKey(pairs, "slot")
    ensures r.Ok? ==> (Pairs(params).Ok?
      && LastValue(Pairs(params).value, "attempt", r.value.0) && LastValue(Pairs(params).value, "slot", r.value.1))
    ensures Pairs(params).Err? ==> r == Err(Pairs(params).error)
    ensures r == Err(MissingParam("attempt")) <==> Pairs(params).Ok? && !HasKey(Pairs(params).value, "attempt")
    ensures r == Err(MissingParam("slot")) <==>
      Pairs(params).Ok? && HasKey(Pairs(params).value, "attempt") && !HasKey(Pairs(params).value, "slot")
  {
    match Pairs(params)
    case Err(e) => Err(e)
    case Ok(pairs) =>
      var dict := DictFrom(pairs);
      if "attempt" !in dict then Err(MissingParam("attempt"))
      else if "slot" !in dict then Err(MissingParam("slot"))
      else
        DictLastValue(pairs, "attempt");
        DictLastValue(pairs, "slot");
        Ok((dict["attempt"], dict["slot"]))
  }

  /** `v` is the value of the last entry with key `k`. */
  predicate LastValue(pairs: seq<(string, string)>, k: string, v: string) {
    exists i :: 0 <= i < |pairs| && LastForKey(pairs, i) && pairs[i] == (k, v)
  }

  /** A key that is given has a last entry. */
  lemma {:induction false} LastEntry(pairs: seq<(string, string)>, k: string)
    requires HasKey(pairs, k)
    ensures exists i :: 0 <= i < |pairs| && LastForKey(pairs, i) && pairs[i].0 == k
    decreases |pairs|
  {
    var n := |pairs| - 1;
    if pairs[n].0 == k {
      assert LastForKey(pairs, n);
    } else {
      var init := pairs[..n];
      var w :| 0 <= w < |pairs| && pairs[w].0 == k;
      assert init[w].0 == k;
      LastEntry(init, k);
      var j :| 0 <= j < |init| && LastForKey(init, j) && init[j].0 == k;
      assert pairs[j] == init[j];
      assert LastForKey(pairs, j);
    }
  }

  /** The dict maps a given key to the value of its last entry. */
  lemma DictLastValue(pairs: seq<(string, string)>, k: string)
    requires HasKey(pairs, k)
    ensures k in DictFrom(pairs) && LastValue(pairs, k, DictFrom(pairs)[k])
  {
    LastEntry(pairs, k);
    var i :| 0 <= i < |pairs| && LastForKey(pairs, i) && pairs[i].0 == k;
    assert pairs[i] == (k, DictFrom(pairs)[k]);
  }

  /** Two well-formed parameters give their two entries. */
  lemma PairsOfTwo(a: string, b: string, pa: (string, string), pb: (string, string))
    requires Pair(a) == Ok(pa) && Pair(b) == Ok(pb)
    ensures Pairs([a, b]) == Ok([pa, pb])
  {
    var r := Pairs([a, b]);
    assert r.Ok? && |r.value| == 2;
    assert r.value[0] == pa && r.value[1] == pb;
    assert r.value == [pa, pb];
  }

  /** The dict of two entries with distinct keys maps each key to its value. */
  lemma DictOfTwo(ka: string, va: string, kb: string, vb: string)
    requires ka != kb
    ensures var d := DictFrom([(ka, va), (kb, vb)]); ka in d && kb in d && d[ka] == va && d[kb] == vb
  {
    var pairs := [(ka, va), (kb, vb)];
    assert LastForKey(pairs, 0) && LastForKey(pairs, 1);
  }

  /** The parameters of a link Moodle writes are read back as they were written. */
  lemma AttemptAndSlotOfPair(attempt: string, slot: string)
    requires '=' !in attempt && '=' !in slot
    ensures AttemptAndSlotIn(["attempt=" + attempt, "slot=" + slot]) == Ok((attempt, slot))
  {
    NamedPair("attempt", attempt);
    NamedPair("slot", slot);
    PairsOfTwo("attempt=" + attempt, "slot=" + slot, ("attempt", attempt), ("slot", slot));
    DictOfTwo("attempt", attempt, "slot", slot);
  }

  lemma NamedPair(name: string, value: string)
    requires name == "attempt" || name == "slot"
    requires '=' !in value
    ensures Pair(name + "=" + value) == Ok((name, value))
    ensures name == "attempt" ==> name + "=" + value == "attempt=" + value
    ensures name == "slot" ==> name + "=" + value == "slot=" + value
  {
    PairOf(name, value);
  }

  /** The naive parser reads back the parameters of a link built from them. */
  lemma AttemptAndSlotOfLink(base: string, attempt: string, slot: string)
    requires '?' !in base
    requires '&' !in attempt && '=' !in attempt && '?' !in attempt
    requires '&' !in slot && '=' !in slot && '?' !in slot
    ensures AttemptAndSlot(base + "?" + AttemptSlotQuery(attempt, slot)) == Ok((attempt, slot))
  {
    var q := AttemptSlotQuery(attempt, slot);
    assert '?' !in q;
    QueryPartOf(base, q);
    SplitAttemptSlot(attempt, slot);
    AttemptAndSlotOfPair(attempt, slot);
  }

  lemma QueryPartOf(base: string, q: string)
    requires '?' !in base && '?' !in q
    ensures QueryPart(base + "?" + q) == Ok(q)
  {
    var url := base + "?" + q;
    FindCharAfter(base, '?', q);
    SplitAtFirst(url, "?", |base|);
    assert url[|base| + 1..] == q;
    ContainsChar(q, '?');
  }

  /** A link with no '?' makes `submit_grade` raise before anything is fetched. */
  lemma AttemptAndSlotNoQuery(url: string)
    requires '?' !in url
    ensures AttemptAndSlot(url) == Err(NoQueryString(url))
  {
  }

  /** With a repeated key, the naive parser keeps the later value. */
  lemma DictLaterWins(pre: seq<(string, string)>, key: string, early: string, late: string)
    ensures DictFrom(pre + [(key, early), (key, late)])[key] == late
  {
    var ps := pre + [(key, early), (key, late)];
    assert ps[|ps| - 1] == (key, late);
    assert LastForKey(ps, |ps| - 1);
  }
}
