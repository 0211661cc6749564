/**
  `group_links_by_slot`: links collected into lists keyed by their slot, in a
  dictionary whose keys keep the order they were first inserted in. The
  dictionary is a sequence of groups with distinct slots, in insertion order.
  The slot of a link is given by a key function, `Query.SlotOf` in the script.
 */
module Grouping {
  import opened Query

  datatype Group = Group(slot: string, links: seq<string>)

  /** The dictionary's keys, in insertion order. */
  function Slots(groups: seq<Group>): (slots: seq<string>)
    ensures |slots| == |groups| && forall i :: 0 <= i < |groups| ==> slots[i] == groups[i].slot
  {
    seq(|groups|, i requires 0 <= i < |groups| => groups[i].slot)
  }

  /** `s` is one of the dictionary's keys. */
  predicate HasSlot(groups: seq<Group>, s: string) {
    exists i :: 0 <= i < |groups| && groups[i].slot == s
  }

  /** Some link has slot `s`. */
  predicate Occurs(links: seq<string>, key: string -> string, s: string) {
    exists j :: 0 <= j < |links| && key(links[j]) == s
  }

  predicate DistinctSlots(groups: seq<Group>) {
    forall i, j :: 0 <= i < j < |groups| ==> groups[i].slot != groups[j].slot
  }

  /** All the lists, one after another, in key order. */
  function Flatten(groups: seq<Group>): seq<string> {
    if |groups| == 0 then [] else groups[0].links + Flatten(groups[1..])
  }

  lemma {:induction false} FlattenAppend(xs: seq<Group>, ys: seq<Group>)
    ensures Flatten(xs + ys) == Flatten(xs) + Flatten(ys)
    decreases |xs|
  {
    if |xs| == 0 {
      assert xs + ys == ys;
    } else {
      assert (xs + ys)[1..] == xs[1..] + ys;
      FlattenAppend(xs[1..], ys);
    }
  }

  /** Reference definition of a group: the links with slot `s`, in input order. */
  function WithSlot(links: seq<string>, key: string -> string, s: string): seq<string> {
    if |links| == 0 then []
    else WithSlot(links[..|links| - 1], key, s) + (if key(links[|links| - 1]) == s then [links[|links| - 1]] else [])
  }

  /** `grouped_links[s].append(link)` after creating `grouped_links[s] = []` when `s` is new. */
  function AddLink(groups: seq<Group>, s: string, link: string): (r: seq<Group>)
    requires DistinctSlots(groups)
    ensures DistinctSlots(r)
    ensures |r| == |groups| + (if HasSlot(groups, s) then 0 else 1)
    ensures forall i :: 0 <= i < |groups| ==>
      r[i].slot == groups[i].slot && r[i].links == groups[i].links + (if groups[i].slot == s then [link] else [])
    ensures !HasSlot(groups, s) ==> r[|groups|] == Group(s, [link])
  {
    if |groups| == 0 then [Group(s, [link])]
    else if groups[0].slot == s then
      assert !HasSlot(groups[1..], s);
      [Group(s, groups[0].links + [link])] + groups[1..]
    else
      assert HasSlot(groups, s) <==> HasSlot(groups[1..], s);
      [groups[0]] + AddLink(groups[1..], s, link)
  }

  /** The groups built by the loop over `links`, keyed by `key`. */
  function GroupBy(links: seq<string>, key: string -> string): (groups: seq<Group>)
    ensures DistinctSlots(groups)
  {
    if |links| == 0 then []
    else
      var n := |links| - 1;
      AddLink(GroupBy(links[..n], key), key(links[n]), links[n])
  }

  /**
    Each group holds exactly the links with its slot, in input order, and the
    keys are exactly the slots that occur.
   */
  lemma {:induction false} GroupByContents(links: seq<string>, key: string -> string)
    ensures var groups := GroupBy(links, key);
      && (forall g :: g in groups ==> g.links == WithSlot(links, key, g.slot))
      && (forall s :: HasSlot(groups, s) <==> Occurs(links, key, s))
    decreases |links|
  {
    if |links| > 0 {
      var n := |links| - 1;
      GroupByContents(links[..n], key);
      GroupByStep(links, key, GroupBy(links[..n], key));
    }
  }

  /** Adding the last link to the groups of the others gives the groups of all. */
  lemma GroupByStep(links: seq<string>, key: string -> string, init: seq<Group>)
    requires |links| > 0 && DistinctSlots(init)
    requires forall g :: g in init ==> g.links == WithSlot(links[..|links| - 1], key, g.slot)
    requires forall s :: HasSlot(init, s) <==> Occurs(links[..|links| - 1], key, s)
    ensures var r := AddLink(init, key(links[|links| - 1]), links[|links| - 1]);
      && (forall g :: g in r ==> g.links == WithSlot(links, key, g.slot))
      && (forall s :: HasSlot(r, s) <==> Occurs(links, key, s))
  {
    GroupByStepLinks(links, key, init);
    GroupByStepSlots(links, key, init);
  }

  lemma GroupByStepLinks(links: seq<string>, key: string -> string, init: seq<Group>)
    requires |links| > 0 && DistinctSlots(init)
    requires forall g :: g in init ==> g.links == WithSlot(links[..|links| - 1], key, g.slot)
    requires forall s :: HasSlot(init, s) <== Occurs(links[..|links| - 1], key, s)
    ensures var r := AddLink(init, key(links[|links| - 1]), links[|links| - 1]);
      forall g :: g in r ==> g.links == WithSlot(links, key, g.slot)
  {
    var n := |links| - 1;
    var s := key(links[n]);
    var r := AddLink(init, s, links[n]);
    var prefix := links[..n];
    forall g | g in r
      ensures g.links == WithSlot(links, key, g.slot)
    {
      var i :| 0 <= i < |r| && r[i] == g;
      assert WithSlot(links, key, g.slot) == WithSlot(prefix, key, g.slot) + (if s == g.slot then [links[n]] else []);
      if i < |init| {
        assert init[i] in init;
        assert g.links == init[i].links + (if init[i].slot == s then [links[n]] else []);
      } else {
        assert !HasSlot(init, s);
        assert forall j :: 0 <= j < |prefix| ==> key(prefix[j]) != s;
        NoneWithSlot(prefix, key, s);
        assert g == Group(s, [links[n]]);
      }
    }
  }

  lemma GroupByStepSlots(links: seq<string>, key: string -> string, init: seq<Group>)
    requires |links| > 0 && DistinctSlots(init)
    requires forall s :: HasSlot(init, s) <==> Occurs(links[..|links| - 1], key, s)
    ensures var r := AddLink(init, key(links[|links| - 1]), links[|links| - 1]);
      forall s :: HasSlot(r, s) <==> Occurs(links, key, s)
  {
    forall t
      ensures var r := AddLink(init, key(links[|links| - 1]), links[|links| - 1]);
        HasSlot(r, t) <==> Occurs(links, key, t)
    {
      if Occurs(links[..|links| - 1], key, t) {
        assert HasSlot(init, t);
      }
      if HasSlot(init, t) {
        assert Occurs(links[..|links| - 1], key, t);
      }
      StepSlotOld(links, key, init, t);
      StepSlotNew(links, key, init, t);
    }
  }

  /** A key of the new dictionary is an old key or the new link's slot, and conversely. */
  lemma StepSlotOld(links: seq<string>, key: string -> string, init: seq<Group>, t: string)
    requires |links| > 0 && DistinctSlots(init)
    ensures var r := AddLink(init, key(links[|links| - 1]), links[|links| - 1]);
      HasSlot(r, t) <==> HasSlot(init, t) || key(links[|links| - 1]) == t
  {
    AddLinkSlots(init, key(links[|links| - 1]), links[|links| - 1], t);
  }

  lemma AddLinkSlots(groups: seq<Group>, s: string, link: string, t: string)
    requires DistinctSlots(groups)
    ensures HasSlot(AddLink(groups, s, link), t) <==> HasSlot(groups, t) || s == t
  {
    if HasSlot(groups, t) {
      AddLinkKeeps(groups, s, link, t);
    }
    if s == t {
      AddLinkAdds(groups, s, link);
    }
    if HasSlot(AddLink(groups, s, link), t) && s != t {
      AddLinkOnlyAdds(groups, s, link, t);
    }
  }

  lemma AddLinkKeeps(groups: seq<Group>, s: string, link: string, t: string)
    requires DistinctSlots(groups) && HasSlot(groups, t)
    ensures HasSlot(AddLink(groups, s, link), t)
  {
    var i :| 0 <= i < |groups| && groups[i].slot == t;
    assert AddLink(groups, s, link)[i].slot == t;
  }

  lemma AddLinkAdds(groups: seq<Group>, s: string, link: string)
    requires DistinctSlots(groups)
    ensures HasSlot(AddLink(groups, s, link), s)
  {
    var r := AddLink(groups, s, link);
    if HasSlot(groups, s) {
      AddLinkKeeps(groups, s, link, s);
    } else {
      assert r[|groups|].slot == s;
    }
  }

  lemma AddLinkOnlyAdds(groups: seq<Group>, s: string, link: string, t: string)
    requires DistinctSlots(groups) && HasSlot(AddLink(groups, s, link), t) && s != t
    ensures HasSlot(groups, t)
  {
    var r := AddLink(groups, s, link);
    var i :| 0 <= i < |r| && r[i].slot == t;
    assert i < |groups|;
    assert groups[i].slot == t;
  }

  /** A slot occurs among all the links exactly when it occurs before the last link or is the last link's. */
  lemma StepSlotNew(links: seq<string>, key: string -> string, init: seq<Group>, t: string)
    requires |links| > 0
    ensures Occurs(links, key, t) <==> Occurs(links[..|links| - 1], key, t) || key(links[|links| - 1]) == t
  {
    var n := |links| - 1;
    var prefix := links[..n];
    if Occurs(links, key, t) {
      var j :| 0 <= j < |links| && key(links[j]) == t;
      if j < n {
        assert key(prefix[j]) == t;
      }
    }
    if Occurs(prefix, key, t) {
      var j :| 0 <= j < |prefix| && key(prefix[j]) == t;
      assert key(links[j]) == t;
    }
  }

  lemma {:induction false} NoneWithSlot(links: seq<string>, key: string -> string, s: string)
    requires forall j :: 0 <= j < |links| ==> key(links[j]) != s
    ensures WithSlot(links, key, s) == []
    decreases |links|
  {
    if |links| > 0 {
      var n := |links| - 1;
      assert forall j :: 0 <= j < n ==> links[..n][j] == links[j];
      NoneWithSlot(links[..n], key, s);
    }
  }

  /** A group holds only links with its slot. */
  lemma {:induction false} WithSlotKeys(links: seq<string>, key: string -> string, s: string)
    ensures forall x :: x in WithSlot(links, key, s) ==> key(x) == s
    decreases |links|
  {
    if |links| > 0 {
      WithSlotKeys(links[..|links| - 1], key, s);
    }
  }

  /** Every link with slot `s` is in the group of `s`. */
  lemma {:induction false} WithSlotHas(links: seq<string>, key: string -> string, s: string, q: int)
    requires 0 <= q < |links| && key(links[q]) == s
    ensures links[q] in WithSlot(links, key, s)
    decreases |links|
  {
    var n := |links| - 1;
    if q < n {
      assert links[..n][q] == links[q];
      WithSlotHas(links[..n], key, s, q);
    }
  }

  /**
    Grouping is a partition: a link is in a group exactly when the group's
    slot is the link's own, and slots are distinct, so it is in exactly one.
   */
  lemma LinkInOneGroup(links: seq<string>, key: string -> string, q: int)
    requires 0 <= q < |links|
    ensures var groups := GroupBy(links, key);
      && DistinctSlots(groups)
      && (forall i :: 0 <= i < |groups| ==> (links[q] in groups[i].links <==> groups[i].slot == key(links[q])))
      && HasSlot(groups, key(links[q]))
  {
    var groups := GroupBy(links, key);
    GroupByContents(links, key);
    forall i | 0 <= i < |groups|
      ensures links[q] in groups[i].links <==> groups[i].slot == key(links[q])
    {
      assert groups[i] in groups;
      WithSlotKeys(links, key, groups[i].slot);
      if groups[i].slot == key(links[q]) {
        WithSlotHas(links, key, groups[i].slot, q);
      }
    }
    assert Occurs(links, key, key(links[q]));
  }

  /** No group is empty. */
  lemma {:induction false} GroupsNonEmpty(links: seq<string>, key: string -> string)
    ensures forall g :: g in GroupBy(links, key) ==> |g.links| > 0
  {
    var groups := GroupBy(links, key);
    GroupByContents(links, key);
    forall g | g in groups
      ensures |g.links| > 0
    {
      var i :| 0 <= i < |groups| && groups[i] == g;
      assert HasSlot(groups, g.slot);
      var q :| 0 <= q < |links| && key(links[q]) == g.slot;
      WithSlotHas(links, key, g.slot, q);
    }
  }

  /** Adding a link adds it, and only it, to the flattened lists. */
  lemma {:induction false} FlattenAddLink(groups: seq<Group>, s: string, link: string)
    requires DistinctSlots(groups)
    ensures multiset(Flatten(AddLink(groups, s, link))) == multiset(Flatten(groups)) + multiset{link}
    decreases |groups|
  {
    if |groups| > 0 && groups[0].slot != s {
      FlattenAddLink(groups[1..], s, link);
    }
  }

  /** The groups hold the input links and nothing else: their sizes add up to the number of links. */
  lemma {:induction false} GroupByPermutation(links: seq<string>, key: string -> string)
    ensures multiset(Flatten(GroupBy(links, key))) == multiset(links)
    ensures |Flatten(GroupBy(links, key))| == |links|
    decreases |links|
  {
    var flat := Flatten(GroupBy(links, key));
    if |links| > 0 {
      var n := |links| - 1;
      var prefix := links[..n];
      var init := GroupBy(prefix, key);
      GroupByPermutation(prefix, key);
      FlattenAddLink(init, key(links[n]), links[n]);
      assert multiset(flat) == multiset(prefix) + multiset{links[n]};
      MultisetSnoc(links);
    }
    assert |multiset(flat)| == |flat|;
  }

  lemma MultisetSnoc(links: seq<string>)
    requires |links| > 0
    ensures multiset(links) == multiset(links[..|links| - 1]) + multiset{links[|links| - 1]}
  {
    assert links == links[..|links| - 1] + [links[|links| - 1]];
  }

  /** Before any link with slot `t` there is a link with slot `s`: `s` was seen first. */
  predicate SeenBefore(links: seq<string>, key: string -> string, s: string, t: string) {
    forall q :: 0 <= q < |links| && key(links[q]) == t ==> exists p :: 0 <= p < q && key(links[p]) == s
  }

  /** The dictionary's keys are in the order their slots first occur in the input. */
  lemma {:induction false} GroupOrder(links: seq<string>, key: string -> string)
    ensures var groups := GroupBy(links, key);
      forall i, j :: 0 <= i < j < |groups| ==> SeenBefore(links, key, groups[i].slot, groups[j].slot)
    decreases |links|
  {
    if |links| > 0 {
      var n := |links| - 1;
      var prefix := links[..n];
      GroupOrder(prefix, key);
      GroupByContents(prefix, key);
      var groups := GroupBy(links, key);
      forall i, j | 0 <= i < j < |groups|
        ensures SeenBefore(links, key, groups[i].slot, groups[j].slot)
      {
        GroupOrderStep(links, key, GroupBy(prefix, key), i, j);
      }
    }
  }

  lemma {:induction false} GroupOrderStep(links: seq<string>, key: string -> string, init: seq<Group>, i: int, j: int)
    requires |links| > 0 && DistinctSlots(init)
    requires forall s :: HasSlot(init, s) <==> Occurs(links[..|links| - 1], key, s)
    requires forall i, j :: 0 <= i < j < |init| ==> SeenBefore(links[..|links| - 1], key, init[i].slot, init[j].slot)
    requires var groups := AddLink(init, key(links[|links| - 1]), links[|links| - 1]); 0 <= i < j < |groups|
    ensures var groups := AddLink(init, key(links[|links| - 1]), links[|links| - 1]);
      SeenBefore(links, key, groups[i].slot, groups[j].slot)
  {
    var n := |links| - 1;
    var s := key(links[n]);
    var groups := AddLink(init, s, links[n]);
    assert groups[i].slot == init[i].slot;
    assert HasSlot(init, init[i].slot);
    if j < |init| {
      assert HasSlot(init, init[j].slot);
      SeenBeforeExtend(links, key, init[i].slot, init[j].slot);
    } else {
      assert !HasSlot(init, s) && groups[j].slot == s;
      SeenBeforeNew(links, key, init[i].slot, s);
    }
  }

  /** An order between two slots that both occurred already survives one more link. */
  lemma SeenBeforeExtend(links: seq<string>, key: string -> string, s: string, t: string)
    requires |links| > 0
    requires SeenBefore(links[..|links| - 1], key, s, t) && Occurs(links[..|links| - 1], key, t)
    ensures SeenBefore(links, key, s, t)
  {
    var n := |links| - 1;
    var prefix := links[..n];
    forall q | 0 <= q < |links| && key(links[q]) == t
      ensures exists p :: 0 <= p < q && key(links[p]) == s
    {
      var q0 := q;
      if q == n {
        q0 :| 0 <= q0 < |prefix| && key(prefix[q0]) == t;
      }
      assert key(prefix[q0]) == t;
      var p :| 0 <= p < q0 && key(prefix[p]) == s;
      assert key(links[p]) == s;
    }
  }

  /** A slot that occurred comes before one that the last link brings in. */
  lemma SeenBeforeNew(links: seq<string>, key: string -> string, s: string, t: string)
    requires |links| > 0
    requires Occurs(links[..|links| - 1], key, s) && !Occurs(links[..|links| - 1], key, t)
    ensures SeenBefore(links, key, s, t)
  {
    var n := |links| - 1;
    var prefix := links[..n];
    var p0 :| 0 <= p0 < |prefix| && key(prefix[p0]) == s;
    assert key(links[p0]) == s;
    forall q | 0 <= q < |links| && key(links[q]) == t
      ensures exists p :: 0 <= p < q && key(links[p]) == s
    {
      assert forall m :: 0 <= m < n ==> key(prefix[m]) != t;
      assert q == n by {
        assert forall m :: 0 <= m < n ==> links[m] == prefix[m];
      }
    }
  }

  /** Every link in a group has that group's slot. */
  predicate LinksCarrySlot(groups: seq<Group>, key: string -> string) {
    forall k, x :: 0 <= k < |groups| && x in groups[k].links ==> key(x) == groups[k].slot
  }

  /** Groups drawn from a grouping of `links` carry their slot. */
  lemma GroupsCarrySlot(groups: seq<Group>, links: seq<string>, key: string -> string)
    requires forall k :: 0 <= k < |groups| ==> groups[k].links == WithSlot(links, key, groups[k].slot)
    ensures LinksCarrySlot(groups, key)
  {
    forall k | 0 <= k < |groups| {
      WithSlotKeys(links, key, groups[k].slot);
    }
  }

  /** The group whose list holds position `i` of the flattened lists. */
  function Owner(groups: seq<Group>, i: int): (k: int)
    requires 0 <= i < |Flatten(groups)|
    ensures 0 <= k < |groups| && Flatten(groups)[i] in groups[k].links
    decreases |groups|
  {
    if i < |groups[0].links| then 0 else 1 + Owner(groups[1..], i - |groups[0].links|)
  }

  /** A flattened link has the slot of the group that holds it. */
  lemma OwnerSlot(groups: seq<Group>, key: string -> string, i: int)
    requires LinksCarrySlot(groups, key) && 0 <= i < |Flatten(groups)|
    ensures key(Flatten(groups)[i]) == groups[Owner(groups, i)].slot
  {
  }

  /** Later positions of the flattened lists belong to the same or a later group. */
  lemma {:induction false} OwnerMonotone(groups: seq<Group>, i: int, j: int)
    requires 0 <= i <= j < |Flatten(groups)|
    ensures Owner(groups, i) <= Owner(groups, j)
    decreases |groups|
  {
    var n := |groups[0].links|;
    if i >= n {
      OwnerMonotone(groups[1..], i - n, j - n);
    }
  }

  lemma {:induction false} WithSlotAppend(a: seq<string>, b: seq<string>, key: string -> string, s: string)
    ensures WithSlot(a + b, key, s) == WithSlot(a, key, s) + WithSlot(b, key, s)
    decreases |b|
  {
    if |b| > 0 {
      var n := |b| - 1;
      assert (a + b)[..|a + b| - 1] == a + b[..n];
      WithSlotAppend(a, b[..n], key, s);
    } else {
      assert a + b == a;
    }
  }

  lemma {:induction false} WithSlotAll(links: seq<string>, key: string -> string, s: string)
    requires forall j :: 0 <= j < |links| ==> key(links[j]) == s
    ensures WithSlot(links, key, s) == links
    decreases |links|
  {
    if |links| > 0 {
      var n := |links| - 1;
      assert forall j :: 0 <= j < n ==> links[..n][j] == links[j];
      WithSlotAll(links[..n], key, s);
      assert links == links[..n] + [links[n]];
    }
  }

  /** No group has slot `s`, so no flattened link has it. */
  lemma FlattenWithoutSlot(groups: seq<Group>, key: string -> string, s: string)
    requires LinksCarrySlot(groups, key) && !HasSlot(groups, s)
    ensures WithSlot(Flatten(groups), key, s) == []
  {
    forall j | 0 <= j < |Flatten(groups)|
      ensures key(Flatten(groups)[j]) != s
    {
      var k := Owner(groups, j);
      assert key(Flatten(groups)[j]) == groups[k].slot;
    }
    NoneWithSlot(Flatten(groups), key, s);
  }

  /**
    Groups with distinct slots that hold exactly the links of their slot, one
    for each slot that occurs, flatten to a list in which every slot's links
    keep their input order.
   */
  lemma RegroupedWithSlot(groups: seq<Group>, links: seq<string>, key: string -> string, s: string)
    requires DistinctSlots(groups)
    requires forall k :: 0 <= k < |groups| ==> groups[k].links == WithSlot(links, key, groups[k].slot)
    requires Occurs(links, key, s) ==> HasSlot(groups, s)
    ensures WithSlot(Flatten(groups), key, s) == WithSlot(links, key, s)
  {
    GroupsCarrySlot(groups, links, key);
    if HasSlot(groups, s) {
      var k :| 0 <= k < |groups| && groups[k].slot == s;
      FlattenWithSlot(groups, key, s, k);
    } else {
      FlattenWithoutSlot(groups, key, s);
      NoneWithSlot(links, key, s);
    }
  }

  /** A slot's links sit in one block of the flattened lists. */
  lemma FlattenContiguous(groups: seq<Group>, key: string -> string, i: int, k: int, j: int)
    requires LinksCarrySlot(groups, key) && DistinctSlots(groups)
    requires 0 <= i <= k <= j < |Flatten(groups)|
    requires key(Flatten(groups)[i]) == key(Flatten(groups)[j])
    ensures key(Flatten(groups)[k]) == key(Flatten(groups)[i])
  {
    var ki, kk, kj := Owner(groups, i), Owner(groups, k), Owner(groups, j);
    OwnerMonotone(groups, i, k);
    OwnerMonotone(groups, k, j);
    assert groups[ki].slot == groups[kj].slot;
    assert ki == kj;
  }

  lemma CarryRest(groups: seq<Group>, key: string -> string)
    requires LinksCarrySlot(groups, key) && DistinctSlots(groups) && |groups| > 0
    ensures LinksCarrySlot(groups[1..], key) && DistinctSlots(groups[1..])
    ensures forall m :: 0 <= m < |groups| - 1 ==> groups[1..][m].slot != groups[0].slot
  {
    assert forall m :: 0 <= m < |groups| - 1 ==> groups[1..][m] == groups[m + 1];
  }

  /**
    With distinct slots, the flattened links with slot `s` are exactly the
    list of the one group with that slot, in the same order.
   */
  lemma {:induction false} FlattenWithSlot(groups: seq<Group>, key: string -> string, s: string, k: int)
    requires LinksCarrySlot(groups, key) && DistinctSlots(groups)
    requires 0 <= k < |groups| && groups[k].slot == s
    ensures WithSlot(Flatten(groups), key, s) == groups[k].links
    decreases |groups|
  {
    var rest := groups[1..];
    CarryRest(groups, key);
    WithSlotAppend(groups[0].links, Flatten(rest), key, s);
    if k == 0 {
      WithSlotAll(groups[0].links, key, s);
      FlattenWithoutSlot(rest, key, s);
    } else {
      assert groups[0].slot != s;
      NoneWithSlot(groups[0].links, key, s);
      FlattenWithSlot(rest, key, s, k - 1);
    }
  }

  /**
    `group_links_by_slot`: the links grouped by the slot `parse_qs` finds in
    each. The slots are distinct and are exactly those that occur, each in
    order of first appearance; each group holds exactly the links with its
    slot, in input order; nothing is lost or added.
   */
  function GroupLinksBySlot(links: seq<string>): (groups: seq<Group>)
    ensures DistinctSlots(groups)
    ensures forall s :: HasSlot(groups, s) <==> Occurs(links, SlotOf, s)
    ensures forall g :: g in groups ==> |g.links| > 0 && g.links == WithSlot(links, SlotOf, g.slot)
    ensures forall i, j :: 0 <= i < j < |groups| ==> SeenBefore(links, SlotOf, groups[i].slot, groups[j].slot)
    ensures multiset(Flatten(groups)) == multiset(links)
  {
    GroupByContents(links, SlotOf);
    GroupsNonEmpty(links, SlotOf);
    GroupOrder(links, SlotOf);
    GroupByPermutation(links, SlotOf);
    GroupBy(links, SlotOf)
  }
}
