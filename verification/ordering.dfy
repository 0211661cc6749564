/**
  The reorder step of the main script: the group keys sorted with `key=int`
  (Python's `sorted`, which is stable), the lists flattened in that order, and
  every `comment.php` in a link rewritten to `reviewquestion.php`.
 */
module Ordering {
  import opened Outcomes
  import opened Text
  import opened Numbers
  import opened Grouping

  /** A group with the integer value of its slot, the sort key. */
  datatype Keyed = Keyed(key: int, group: Group)

  predicate Sorted(xs: seq<Keyed>) {
    forall i, j :: 0 <= i < j < |xs| ==> xs[i].key <= xs[j].key
  }

  /** The elements with key `v`, in their order in `xs`. */
  function WithKey(xs: seq<Keyed>, v: int): seq<Keyed> {
    if |xs| == 0 then []
    else WithKey(xs[..|xs| - 1], v) + (if xs[|xs| - 1].key == v then [xs[|xs| - 1]] else [])
  }

  /** Filtering by key commutes with appending one element. */
  lemma WithKeySnoc(xs: seq<Keyed>, x: Keyed, v: int)
    ensures WithKey(xs + [x], v) == WithKey(xs, v) + (if x.key == v then [x] else [])
  {
    assert (xs + [x])[..|xs|] == xs;
  }

  /** Places `x` after every element whose key is not greater than its own. */
  function Insert(xs: seq<Keyed>, x: Keyed): (r: seq<Keyed>)
    requires Sorted(xs)
    ensures |r| == |xs| + 1
    ensures Sorted(r)
    ensures multiset(r) == multiset(xs) + multiset{x}
  {
    if |xs| == 0 || xs[|xs| - 1].key <= x.key then
      xs + [x]
    else
      var n := |xs| - 1;
      var init := Insert(xs[..n], x);
      InsertBelow(xs, x, init);
      init + [xs[n]]
  }

  lemma InsertBelow(xs: seq<Keyed>, x: Keyed, init: seq<Keyed>)
    requires Sorted(xs) && |xs| > 0 && x.key < xs[|xs| - 1].key
    requires multiset(init) == multiset(xs[..|xs| - 1]) + multiset{x}
    ensures forall k :: 0 <= k < |init| ==> init[k].key <= xs[|xs| - 1].key
    ensures multiset(init + [xs[|xs| - 1]]) == multiset(xs) + multiset{x}
  {
    var n := |xs| - 1;
    assert xs == xs[..n] + [xs[n]];
    forall k | 0 <= k < |init|
      ensures init[k].key <= xs[n].key
    {
      assert init[k] in multiset(init);
      if init[k] != x {
        assert init[k] in multiset(xs[..n]);
        var m :| 0 <= m < n && xs[..n][m] == init[k];
      }
    }
  }

  /** Among equal keys, the inserted element comes last. */
  lemma {:induction false} InsertWithKey(xs: seq<Keyed>, x: Keyed, v: int)
    requires Sorted(xs)
    ensures WithKey(Insert(xs, x), v) == WithKey(xs, v) + (if x.key == v then [x] else [])
    decreases |xs|
  {
    if |xs| == 0 || xs[|xs| - 1].key <= x.key {
      WithKeySnoc(xs, x, v);
    } else {
      var n := |xs| - 1;
      var init := Insert(xs[..n], x);
      InsertWithKey(xs[..n], x, v);
      InsertWithKeyStep(xs, x, v, init);
    }
  }

  /** The element the insertion passes over has a larger key, so it follows `x` among any key's elements. */
  lemma InsertWithKeyStep(xs: seq<Keyed>, x: Keyed, v: int, init: seq<Keyed>)
    requires |xs| > 0 && x.key < xs[|xs| - 1].key
    requires WithKey(init, v) == WithKey(xs[..|xs| - 1], v) + (if x.key == v then [x] else [])
    ensures WithKey(init + [xs[|xs| - 1]], v) == WithKey(xs, v) + (if x.key == v then [x] else [])
  {
    var n := |xs| - 1;
    WithKeySnoc(init, xs[n], v);
    var lastPart := if xs[n].key == v then [xs[n]] else [];
    var xPart := if x.key == v then [x] else [];
    assert WithKey(xs, v) == WithKey(xs[..n], v) + lastPart;
    assert xPart == [] || lastPart == [];
  }

  /**
    Python's `sorted` on keyed elements: the insertion sort that keeps
    elements with equal keys in their input order.
   */
  function Sort(xs: seq<Keyed>): (r: seq<Keyed>)
    ensures |r| == |xs|
    ensures Sorted(r)
    ensures multiset(r) == multiset(xs)
  {
    if |xs| == 0 then []
    else
      var n := |xs| - 1;
      assert xs == xs[..n] + [xs[n]];
      Insert(Sort(xs[..n]), xs[n])
  }

  /** The sort is stable: the elements with any one key keep their input order. */
  lemma {:induction false} SortStable(xs: seq<Keyed>, v: int)
    ensures WithKey(Sort(xs), v) == WithKey(xs, v)
    decreases |xs|
  {
    if |xs| > 0 {
      var n := |xs| - 1;
      SortStable(xs[..n], v);
      InsertWithKey(Sort(xs[..n]), xs[n], v);
    }
  }

  /** Every element with key `v` is an element of `xs` with that key. */
  lemma {:induction false} WithKeyMembers(xs: seq<Keyed>, v: int)
    ensures forall y :: y in WithKey(xs, v) ==> y in xs && y.key == v
    decreases |xs|
  {
    if |xs| > 0 {
      var n := |xs| - 1;
      WithKeyMembers(xs[..n], v);
      assert forall y :: y in xs[..n] ==> y in xs;
    }
  }

  /** Every element is found among the elements with its key. */
  lemma {:induction false} KeyedIn(xs: seq<Keyed>, i: int)
    requires 0 <= i < |xs|
    ensures xs[i] in WithKey(xs, xs[i].key)
    decreases |xs|
  {
    var n := |xs| - 1;
    if i < n {
      assert xs[..n][i] == xs[i];
      KeyedIn(xs[..n], i);
    }
  }

  /** The two sequences hold the same elements for every key, in the same order. */
  ghost predicate SameKeyOrder(a: seq<Keyed>, b: seq<Keyed>) {
    forall v :: WithKey(a, v) == WithKey(b, v)
  }

  /** If one side has an element, so does the other. */
  lemma OneSide(a: seq<Keyed>, b: seq<Keyed>)
    requires SameKeyOrder(a, b) && |a| > 0
    ensures |b| > 0
  {
    KeyedIn(a, 0);
    assert WithKey(a, a[0].key) == WithKey(b, a[0].key);
    WithKeyMembers(b, a[0].key);
  }

  lemma NonEmptyBoth(a: seq<Keyed>, b: seq<Keyed>)
    requires SameKeyOrder(a, b) && (|a| > 0 || |b| > 0)
    ensures |a| > 0 && |b| > 0
  {
    if |a| > 0 {
      OneSide(a, b);
    }
    if |b| > 0 {
      assert SameKeyOrder(b, a);
      OneSide(b, a);
    }
  }

  /** No key in `b` exceeds the last key of the sorted `a` holding the same elements. */
  lemma MaxKeyBound(a: seq<Keyed>, b: seq<Keyed>, i: int)
    requires Sorted(a) && |a| > 0 && SameKeyOrder(a, b) && 0 <= i < |b|
    ensures b[i].key <= a[|a| - 1].key
  {
    KeyedIn(b, i);
    assert WithKey(a, b[i].key) == WithKey(b, b[i].key);
    WithKeyMembers(a, b[i].key);
    var k :| 0 <= k < |a| && a[k] == b[i];
  }

  lemma SnocInjective(p: seq<Keyed>, x: Keyed, q: seq<Keyed>, y: Keyed)
    requires p + [x] == q + [y]
    ensures p == q && x == y
  {
    assert |p| == |q|;
    assert (p + [x])[|p|] == x;
    assert (q + [y])[|q|] == y;
    assert (p + [x])[..|p|] == p;
    assert (q + [y])[..|q|] == q;
  }

  /** Dropping the last elements of two sequences with the same per-key order and the same last key. */
  lemma SameKeyOrderInit(a: seq<Keyed>, b: seq<Keyed>)
    requires SameKeyOrder(a, b) && |a| > 0 && |b| > 0 && a[|a| - 1].key == b[|b| - 1].key
    ensures a[|a| - 1] == b[|b| - 1]
    ensures SameKeyOrder(a[..|a| - 1], b[..|b| - 1])
  {
    var n := |a| - 1;
    var m := |b| - 1;
    var k := a[n].key;
    assert WithKey(a, k) == WithKey(a[..n], k) + [a[n]];
    assert WithKey(b, k) == WithKey(b[..m], k) + [b[m]];
    assert WithKey(a, k) == WithKey(b, k);
    SnocInjective(WithKey(a[..n], k), a[n], WithKey(b[..m], k), b[m]);
    forall v
      ensures WithKey(a[..n], v) == WithKey(b[..m], v)
    {
      assert WithKey(a, v) == WithKey(b, v);
      if v != k {
        assert WithKey(a, v) == WithKey(a[..n], v);
        assert WithKey(b, v) == WithKey(b[..m], v);
      }
    }
  }

  /**
    A sorted sequence is determined by its per-key subsequences: any two
    stable sorts of the same input agree.
   */
  lemma {:induction false} SortedUnique(a: seq<Keyed>, b: seq<Keyed>)
    requires Sorted(a) && Sorted(b) && SameKeyOrder(a, b)
    ensures a == b
    decreases |a| + |b|
  {
    if |a| > 0 || |b| > 0 {
      NonEmptyBoth(a, b);
      var n := |a| - 1;
      var m := |b| - 1;
      MaxKeyBound(a, b, m);
      assert SameKeyOrder(b, a);
      MaxKeyBound(b, a, n);
      SameKeyOrderInit(a, b);
      SortedUnique(a[..n], b[..m]);
      assert a == a[..n] + [a[n]];
      assert b == b[..m] + [b[m]];
    }
  }

  /** Python's `sorted` is the stable sort, and `Sort` is the one stable sort of its input. */
  lemma StableSortIsSort(xs: seq<Keyed>, r: seq<Keyed>)
    requires Sorted(r) && SameKeyOrder(r, xs)
    ensures r == Sort(xs)
  {
    forall v
      ensures WithKey(r, v) == WithKey(Sort(xs), v)
    {
      SortStable(xs, v);
    }
    SortedUnique(r, Sort(xs));
  }

  // Sorting the group keys with `key=int`.

  /**
    `sorted` computes `int(slot)` for every key, in dictionary order, before
    comparing; the first key that is not an integer raises ValueError.
   */
  function SlotKeys(groups: seq<Group>): (r: Result<seq<Keyed>>)
    ensures r.Ok? ==> |r.value| == |groups|
    ensures r.Ok? ==> forall i :: 0 <= i < |groups| ==> KeyedSlot(r.value[i], groups[i])
  {
    if |groups| == 0 then Ok([])
    else
      match ParseInt(groups[0].slot)
      case Err(_) => Err(NotAnInteger(groups[0].slot))
      case Ok(v) =>
        match SlotKeys(groups[1..])
        case Err(e) => Err(e)
        case Ok(ks) =>
          KeyedCons(groups, v, ks);
          Ok([Keyed(v, groups[0])] + ks)
  }

  /** `x` carries group `g` under the integer value of its slot. */
  predicate KeyedSlot(x: Keyed, g: Group) {
    x.group == g && ParseInt(g.slot) == Ok(x.key)
  }

  lemma KeyedCons(groups: seq<Group>, v: int, ks: seq<Keyed>)
    requires |groups| > 0 && ParseInt(groups[0].slot) == Ok(v)
    requires |ks| == |groups| - 1 && forall i :: 0 <= i < |ks| ==> KeyedSlot(ks[i], groups[1..][i])
    ensures forall i :: 0 <= i < |groups| ==> KeyedSlot(([Keyed(v, groups[0])] + ks)[i], groups[i])
  {
    var r := [Keyed(v, groups[0])] + ks;
    forall i | 0 <= i < |groups|
      ensures KeyedSlot(r[i], groups[i])
    {
      if i > 0 {
        assert r[i] == ks[i - 1] && groups[i] == groups[1..][i - 1];
        assert KeyedSlot(ks[i - 1], groups[1..][i - 1]);
      }
    }
  }

  /** Slot `i` is the first one in the dictionary whose key is not an integer. */
  predicate FirstBadSlot(groups: seq<Group>, i: int) {
    && 0 <= i < |groups|
    && ParseInt(groups[i].slot).Err?
    && forall j :: 0 <= j < i ==> ParseInt(groups[j].slot).Ok?
  }

  /** Past a slot that parses, the keys fail as the rest of the keys fail. */
  lemma SlotKeysCons(groups: seq<Group>)
    requires |groups| > 0 && ParseInt(groups[0].slot).Ok?
    ensures SlotKeys(groups).Err? <==> SlotKeys(groups[1..]).Err?
    ensures SlotKeys(groups).Err? ==> SlotKeys(groups).error == SlotKeys(groups[1..]).error
  {
  }

  lemma FirstBadSlotCons(groups: seq<Group>, i: int)
    requires |groups| > 0 && ParseInt(groups[0].slot).Ok? && FirstBadSlot(groups[1..], i)
    ensures FirstBadSlot(groups, i + 1) && groups[i + 1] == groups[1..][i]
  {
    var tail := groups[1..];
    forall j | 0 <= j < i + 1
      ensures ParseInt(groups[j].slot).Ok?
    {
      if j > 0 {
        assert groups[j] == tail[j - 1];
        assert ParseInt(tail[j - 1].slot).Ok?;
      }
    }
    assert groups[i + 1] == tail[i];
  }

  lemma {:induction false} SlotKeysFirstError(groups: seq<Group>)
    requires SlotKeys(groups).Err?
    ensures exists i :: FirstBadSlot(groups, i) && SlotKeys(groups).error == NotAnInteger(groups[i].slot)
    decreases |groups|
  {
    assert |groups| > 0;
    if ParseInt(groups[0].slot).Err? {
      assert FirstBadSlot(groups, 0);
    } else {
      var tail := groups[1..];
      SlotKeysCons(groups);
      SlotKeysFirstError(tail);
      var i :| FirstBadSlot(tail, i) && SlotKeys(tail).error == NotAnInteger(tail[i].slot);
      FirstBadSlotCons(groups, i);
    }
  }

  /** The keys fail exactly when some slot is not an integer, and the error names the first such slot. */
  lemma SlotKeysFail(groups: seq<Group>)
    ensures SlotKeys(groups).Err? <==> exists i :: 0 <= i < |groups| && ParseInt(groups[i].slot).Err?
    ensures SlotKeys(groups).Err? ==> exists i :: FirstBadSlot(groups, i) && SlotKeys(groups).error == NotAnInteger(groups[i].slot)
  {
    if SlotKeys(groups).Err? {
      SlotKeysFirstError(groups);
    }
  }

  /** The groups of keyed elements, in order. */
  function GroupsOf(ks: seq<Keyed>): (groups: seq<Group>)
    ensures |groups| == |ks|
  {
    if |ks| == 0 then [] else [ks[0].group] + GroupsOf(ks[1..])
  }

  lemma {:induction false} GroupsOfAt(ks: seq<Keyed>, i: int)
    requires 0 <= i < |ks|
    ensures GroupsOf(ks)[i] == ks[i].group
    decreases |ks|
  {
    if i > 0 {
      GroupsOfAt(ks[1..], i - 1);
    }
  }

  /** `sorted(grouped_links.keys(), key=int)`, carrying each key's list along. */
  function SortGroups(groups: seq<Group>): Result<seq<Group>> {
    match SlotKeys(groups)
    case Err(e) => Err(e)
    case Ok(keyed) => Ok(GroupsOf(Sort(keyed)))
  }

  /**
    The reranked list: each key's list in turn, keys in sorted order. It
    fails exactly when some slot key is not an integer, naming the first
    such key, and otherwise holds the grouped links rearranged, one whole
    group after another in the order of the stable sort.
   */
  function ReorderLinks(groups: seq<Group>): (r: Result<seq<string>>)
    ensures r.Err? <==> exists i :: 0 <= i < |groups| && ParseInt(groups[i].slot).Err?
    ensures r.Err? ==> exists i :: FirstBadSlot(groups, i) && r.error == NotAnInteger(groups[i].slot)
    ensures r.Ok? ==> multiset(r.value) == multiset(Flatten(groups))
    ensures r.Ok? ==> SortGroups(groups).Ok? && r.value == Flatten(SortGroups(groups).value)
  {
    SlotKeysFail(groups);
    match SortGroups(groups)
    case Err(e) => Err(e)
    case Ok(sorted) =>
      SortGroupsPermutation(groups);
      FlattenPermutation(sorted, groups);
      Ok(Flatten(sorted))
  }

  lemma MultisetRemove<T>(ys: seq<T>, j: int)
    requires 0 <= j < |ys|
    ensures multiset(ys) == multiset(ys[..j] + ys[j + 1..]) + multiset{ys[j]}
  {
    assert ys == ys[..j] + [ys[j]] + ys[j + 1..];
  }

  lemma MultisetCancel<T>(a: multiset<T>, b: multiset<T>, x: T)
    requires a + multiset{x} == b + multiset{x}
    ensures a == b
  {
    forall z
      ensures a[z] == b[z]
    {
      assert (a + multiset{x})[z] == a[z] + multiset{x}[z];
      assert (b + multiset{x})[z] == b[z] + multiset{x}[z];
    }
  }

  /** Taking one group out of the list takes its links out of the flattened list. */
  lemma FlattenRemove(ys: seq<Group>, j: int)
    requires 0 <= j < |ys|
    ensures multiset(Flatten(ys)) == multiset(Flatten(ys[..j] + ys[j + 1..])) + multiset(ys[j].links)
  {
    var p := ys[..j];
    var s := ys[j + 1..];
    var g := ys[j];
    SplitAround(ys, j);
    FlattenAppend(p, [g] + s);
    assert ([g] + s)[1..] == s;
    var fp := Flatten(p);
    var fs := Flatten(s);
    assert Flatten(ys) == fp + (g.links + fs);
    FlattenAppend(p, s);
    assert Flatten(p + s) == fp + fs;
    assert multiset(fp + (g.links + fs)) == multiset(fp) + (multiset(g.links) + multiset(fs));
    assert multiset(fp + fs) == multiset(fp) + multiset(fs);
  }

  /** Reordering whole groups reorders the flattened links into a permutation. */
  lemma {:induction false} FlattenPermutation(xs: seq<Group>, ys: seq<Group>)
    requires multiset(xs) == multiset(ys)
    ensures multiset(Flatten(xs)) == multiset(Flatten(ys))
    decreases |xs|
  {
    if |xs| > 0 {
      var g := xs[0];
      assert g in multiset(ys);
      var j :| 0 <= j < |ys| && ys[j] == g;
      var rest := ys[..j] + ys[j + 1..];
      MultisetRemove(ys, j);
      assert xs == [g] + xs[1..];
      assert multiset(xs) == multiset(xs[1..]) + multiset{g};
      MultisetCancel(multiset(xs[1..]), multiset(rest), g);
      FlattenPermutation(xs[1..], rest);
      FlattenRemove(ys, j);
      assert Flatten(xs) == g.links + Flatten(xs[1..]);
    } else {
      assert |multiset(ys)| == 0;
    }
  }

  lemma {:induction false} GroupsOfAppend(p: seq<Keyed>, q: seq<Keyed>)
    ensures GroupsOf(p + q) == GroupsOf(p) + GroupsOf(q)
    decreases |p|
  {
    if |p| == 0 {
      assert p + q == q;
    } else {
      assert (p + q)[1..] == p[1..] + q;
      GroupsOfAppend(p[1..], q);
    }
  }

  lemma GroupsOfRemove(ys: seq<Keyed>, j: int)
    requires 0 <= j < |ys|
    ensures multiset(GroupsOf(ys)) == multiset(GroupsOf(ys[..j] + ys[j + 1..])) + multiset{ys[j].group}
  {
    var p := ys[..j];
    var s := ys[j + 1..];
    var x := ys[j];
    SplitAround(ys, j);
    GroupsOfAppend(p, [x] + s);
    assert ([x] + s)[1..] == s;
    var gp := GroupsOf(p);
    var gs := GroupsOf(s);
    assert GroupsOf(ys) == gp + ([x.group] + gs);
    GroupsOfAppend(p, s);
    assert GroupsOf(p + s) == gp + gs;
    assert multiset(gp + ([x.group] + gs)) == multiset(gp) + (multiset{x.group} + multiset(gs));
    assert multiset(gp + gs) == multiset(gp) + multiset(gs);
  }

  /** Equal multisets of keyed groups hold equal multisets of groups. */
  lemma {:induction false} MultisetGroupsOf(xs: seq<Keyed>, ys: seq<Keyed>)
    requires multiset(xs) == multiset(ys)
    ensures multiset(GroupsOf(xs)) == multiset(GroupsOf(ys))
    decreases |xs|
  {
    if |xs| > 0 {
      var x := xs[0];
      assert x in multiset(ys);
      var j :| 0 <= j < |ys| && ys[j] == x;
      var rest := ys[..j] + ys[j + 1..];
      MultisetRemove(ys, j);
      assert xs == [x] + xs[1..];
      assert multiset(xs) == multiset(xs[1..]) + multiset{x};
      MultisetCancel(multiset(xs[1..]), multiset(rest), x);
      MultisetGroupsOf(xs[1..], rest);
      GroupsOfRemove(ys, j);
      assert GroupsOf(xs) == [x.group] + GroupsOf(xs[1..]);
    } else {
      assert |multiset(ys)| == 0;
    }
  }

  /** A successful sort holds the same groups as the dictionary. */
  lemma SortGroupsPermutation(groups: seq<Group>)
    requires SortGroups(groups).Ok?
    ensures multiset(SortGroups(groups).value) == multiset(groups)
  {
    var keyed := SlotKeys(groups).value;
    forall i | 0 <= i < |groups|
      ensures GroupsOf(keyed)[i] == groups[i]
    {
      GroupsOfAt(keyed, i);
    }
    assert GroupsOf(keyed) == groups;
    MultisetGroupsOf(Sort(keyed), keyed);
  }

  /** Each sorted element's key is the integer value of its group's slot. */
  lemma SortKeyIsSlotValue(groups: seq<Group>, i: int)
    requires SlotKeys(groups).Ok? && 0 <= i < |groups|
    ensures var x := Sort(SlotKeys(groups).value)[i]; ParseInt(x.group.slot) == Ok(x.key)
  {
    var keyed := SlotKeys(groups).value;
    var r := Sort(keyed);
    assert r[i] in multiset(keyed);
    var k :| 0 <= k < |keyed| && keyed[k] == r[i];
    assert KeyedSlot(keyed[k], groups[k]);
  }

  /** Every slot after a successful sort is an integer. */
  lemma SortGroupsParse(groups: seq<Group>, i: int)
    requires SortGroups(groups).Ok? && 0 <= i < |SortGroups(groups).value|
    ensures ParseInt(SortGroups(groups).value[i].slot).Ok?
  {
    SortKeyIsSlotValue(groups, i);
    GroupsOfAt(Sort(SlotKeys(groups).value), i);
  }

  /** A successful sort visits the slots in ascending integer order. */
  lemma {:induction false} SortGroupsAscending(groups: seq<Group>, i: int, j: int)
    requires SortGroups(groups).Ok? && 0 <= i < j < |SortGroups(groups).value|
    ensures var sorted := SortGroups(groups).value;
      ParseInt(sorted[i].slot).Ok? && ParseInt(sorted[j].slot).Ok?
      && ParseInt(sorted[i].slot).value <= ParseInt(sorted[j].slot).value
  {
    var r := Sort(SlotKeys(groups).value);
    var sorted := SortGroups(groups).value;
    assert sorted == GroupsOf(r);
    SortKeyIsSlotValue(groups, i);
    SortKeyIsSlotValue(groups, j);
    GroupsOfAt(r, i);
    GroupsOfAt(r, j);
    assert sorted[i] == r[i].group && sorted[j] == r[j].group;
    assert Sorted(r);
    assert r[i].key <= r[j].key;
  }

  /**
    Groups whose slots have the same integer value, like "3" and "03", keep
    their dictionary order.
   */
  /** A group occurring once in a list with distinct slots has count one. */
  lemma CountOfDistinct(ys: seq<Group>, p: int)
    requires DistinctSlots(ys) && 0 <= p < |ys|
    ensures multiset(ys)[ys[p]] == 1
  {
    var pre, post := ys[..p], ys[p + 1..];
    assert ys == pre + [ys[p]] + post;
    assert forall i :: 0 <= i < |pre| ==> pre[i] == ys[i];
    assert forall i :: 0 <= i < |post| ==> post[i] == ys[p + 1 + i];
    assert ys[p] !in pre && ys[p] !in post;
  }

  /** Rearranging groups with distinct slots keeps them distinct. */
  lemma DistinctSlotsPermutation(xs: seq<Group>, ys: seq<Group>)
    requires multiset(xs) == multiset(ys) && DistinctSlots(ys)
    ensures DistinctSlots(xs)
  {
    forall a, b | 0 <= a < b < |xs|
      ensures xs[a].slot != xs[b].slot
    {
      DistinctSlotsAt(xs, ys, a, b);
    }
  }

  /** Rearranging groups keeps the set of slots. */
  lemma HasSlotPermutation(xs: seq<Group>, ys: seq<Group>, s: string)
    requires multiset(xs) == multiset(ys)
    ensures HasSlot(xs, s) <==> HasSlot(ys, s)
  {
    if HasSlot(xs, s) {
      var a :| 0 <= a < |xs| && xs[a].slot == s;
      assert xs[a] in multiset(ys);
    }
    if HasSlot(ys, s) {
      var b :| 0 <= b < |ys| && ys[b].slot == s;
      assert ys[b] in multiset(xs);
    }
  }

  lemma DistinctSlotsAt(xs: seq<Group>, ys: seq<Group>, a: int, b: int)
    requires multiset(xs) == multiset(ys) && DistinctSlots(ys)
    requires 0 <= a < b < |xs|
    ensures xs[a].slot != xs[b].slot
  {
    assert xs[a] in multiset(ys) && xs[b] in multiset(ys);
    var p :| 0 <= p < |ys| && ys[p] == xs[a];
    var q :| 0 <= q < |ys| && ys[q] == xs[b];
    CountOfDistinct(ys, p);
    assert xs == xs[..b] + xs[b..];
    assert xs[..b][a] == xs[a] && xs[b..][0] == xs[b];
    assert multiset(xs)[xs[a]] == multiset(xs[..b])[xs[a]] + multiset(xs[b..])[xs[a]];
    assert xs[a] != xs[b];
    assert p != q;
  }

  lemma ReorderStable(groups: seq<Group>, v: int)
    requires SlotKeys(groups).Ok?
    ensures SortGroups(groups) == Ok(GroupsOf(Sort(SlotKeys(groups).value)))
    ensures WithKey(Sort(SlotKeys(groups).value), v) == WithKey(SlotKeys(groups).value, v)
  {
    SortStable(SlotKeys(groups).value, v);
  }

  // The link rewrite.

  const CommentPhp: string := "comment.php"
  const ReviewQuestionPhp: string := "reviewquestion.php"

  /** `link.replace('comment.php', 'reviewquestion.php')`. */
  function RewriteLink(link: string): string {
    ReplaceAll(link, CommentPhp, ReviewQuestionPhp)
  }

  lemma CommentPhpUnbordered()
    ensures Unbordered(CommentPhp)
  {
    UnborderedByFirst(CommentPhp);
  }

  /** No `comment.php` survives the rewrite. */
  lemma RewriteRemovesComment(link: string)
    ensures !Contains(RewriteLink(link), CommentPhp)
  {
    ReplaceAllRemovesPattern(link, CommentPhp, ReviewQuestionPhp);
  }

  /** A link without `comment.php` is left as it is. */
  lemma RewriteIdentity(link: string)
    requires !Contains(link, CommentPhp)
    ensures RewriteLink(link) == link
  {
    ReplaceAllIdentity(link, CommentPhp, ReviewQuestionPhp);
  }

  /** Rewriting twice is rewriting once. */
  lemma RewriteIdempotent(link: string)
    ensures RewriteLink(RewriteLink(link)) == RewriteLink(link)
  {
    RewriteRemovesComment(link);
    RewriteIdentity(RewriteLink(link));
  }

  /** Only the occurrence is replaced: the text before it is kept, and the rest is rewritten in turn. */
  lemma RewriteFirstOccurrence(pre: string, post: string)
    requires !Contains(pre, CommentPhp)
    ensures RewriteLink(pre + CommentPhp + post) == pre + ReviewQuestionPhp + RewriteLink(post)
  {
    CommentPhpUnbordered();
    ReplaceAllAfterPrefix(pre, CommentPhp, ReviewQuestionPhp, post);
  }

  /** The loop over the reranked list, rewriting each link in place. */
  method RewriteAll(links: seq<string>) returns (out: seq<string>)
    ensures |out| == |links|
    ensures forall i :: 0 <= i < |links| ==> out[i] == RewriteLink(links[i]) && !Contains(out[i], CommentPhp)
  {
    out := links;
    var i := 0;
    while i < |out|
      invariant 0 <= i <= |out| && |out| == |links|
      invariant forall k :: 0 <= k < i ==> out[k] == RewriteLink(links[k]) && !Contains(out[k], CommentPhp)
      invariant forall k :: i <= k < |out| ==> out[k] == links[k]
    {
      RewriteRemovesComment(out[i]);
      out := out[i := RewriteLink(out[i])];
      i := i + 1;
    }
  }
}
