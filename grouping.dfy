/**
 * The reduction every stage of the duplicate finder repeats: group a list of
 * paths by a discriminator in an insertion-ordered dictionary of lists, then
 * keep the groups that hold more than one path.
 *
 * A discriminator is a total function `key: P -> Option<K>`; `None` means the
 * path is not put in any group (the size stage's `if file_size:` test), and the
 * hash stages use `p => Some(hash(p))`, so they drop nothing.
 *
 * The specification functions are defined from the right end of the input so
 * that each step of the source's loops is one unfolding of them.
 */
module Grouping {

  datatype Option<T> = None | Some(value: T)

  // ---------------------------------------------------------------------------
  // Specification of the grouping state
  // ---------------------------------------------------------------------------

  /** Some entry of `s` has discriminator `Some(k)`. */
  ghost predicate Occurs<P(!new), K(!new)>(key: P -> Option<K>, s: seq<P>, k: K) {
    exists m :: 0 <= m < |s| && key(s[m]) == Some(k)
  }

  /** The first entry with key `k1` comes before every entry with key `k2`. */
  ghost predicate SeenBefore<P(!new), K(!new)>(key: P -> Option<K>, s: seq<P>, k1: K, k2: K) {
    exists m :: 0 <= m < |s| && key(s[m]) == Some(k1) &&
      forall n :: 0 <= n <= m ==> key(s[n]) != Some(k2)
  }

  /** No key is listed twice. */
  predicate Distinct<K(==,!new)>(ks: seq<K>) {
    forall i, j :: 0 <= i < j < |ks| ==> ks[i] != ks[j]
  }

  /**
   * The list the dictionary holds for `k` once every entry of `s` went
   * through `setdefault(k, []).append(p)`: the entries whose key is `k`,
   * each with its full multiplicity.
   */
  function Select<P(==,!new), K(==,!new)>(key: P -> Option<K>, s: seq<P>, k: K): (r: seq<P>)
    ensures |r| <= |s|
    ensures forall p :: p in r ==> key(p) == Some(k)
  {
    if s == [] then []
    else
      var last := s[|s| - 1];
      var init := Select(key, s[..|s| - 1], k);
      if key(last) == Some(k) then init + [last] else init
  }

  /**
   * The dictionary's keys in its iteration order: every key that occurs, once,
   * in the order of its first occurrence.
   */
  function FirstSeen<P(!new), K(==,!new)>(key: P -> Option<K>, s: seq<P>): (r: seq<K>)
    ensures Distinct(r)
    ensures forall k :: k in r <==> Occurs(key, s, k)
  {
    if s == [] then []
    else
      var init := s[..|s| - 1];
      var r0 := FirstSeen(key, init);
      assert forall k :: Occurs(key, init, k) ==> Occurs(key, s, k) by {
        forall k | Occurs(key, init, k) ensures Occurs(key, s, k) {
          var m :| 0 <= m < |init| && key(init[m]) == Some(k);
          assert s[m] == init[m];
        }
      }
      match key(s[|s| - 1])
      case Some(k) => if k in r0 then r0 else r0 + [k]
      case None => r0
  }

  /** The keys of `ks`, in order, whose group holds more than one entry. */
  function MultiKeys<P(==,!new), K(==,!new)>(key: P -> Option<K>, s: seq<P>, ks: seq<K>): (r: seq<K>)
    ensures forall k :: k in r <==> k in ks && |Select(key, s, k)| >= 2
  {
    if ks == [] then []
    else
      var r0 := MultiKeys(key, s, ks[..|ks| - 1]);
      assert ks == ks[..|ks| - 1] + [ks[|ks| - 1]];
      if |Select(key, s, ks[|ks| - 1])| > 1 then r0 + [ks[|ks| - 1]] else r0
  }

  /** The groups of the given keys, in the order of the keys. */
  function GroupsOf<P(==,!new), K(==,!new)>(key: P -> Option<K>, s: seq<P>, ks: seq<K>): seq<seq<P>> {
    seq(|ks|, i requires 0 <= i < |ks| => Select(key, s, ks[i]))
  }

  /** The keys of the groups that survive, in dictionary order. */
  function GroupKeys<P(==,!new), K(==,!new)>(key: P -> Option<K>, s: seq<P>): seq<K> {
    MultiKeys(key, s, FirstSeen(key, s))
  }

  /** `[paths for paths in d.values() if len(paths) > 1]` */
  function DuplicateGroups<P(==,!new), K(==,!new)>(key: P -> Option<K>, s: seq<P>): seq<seq<P>> {
    GroupsOf(key, s, GroupKeys(key, s))
  }

  /** Concatenation of a list of lists, as repeated `extend` builds it. */
  function Flatten<P>(gs: seq<seq<P>>): seq<P> {
    if gs == [] then [] else Flatten(gs[..|gs| - 1]) + gs[|gs| - 1]
  }

  /** The output of the size and prefix stages: the surviving groups, concatenated. */
  function Survivors<P(==,!new), K(==,!new)>(key: P -> Option<K>, s: seq<P>): seq<P> {
    Flatten(DuplicateGroups(key, s))
  }

  /** An entry survives when it has a key that at least one other entry shares. */
  predicate Kept<P(==,!new), K(==,!new)>(key: P -> Option<K>, s: seq<P>, p: P) {
    key(p).Some? && |Select(key, s, key(p).value)| >= 2
  }

  // ---------------------------------------------------------------------------
  // Facts about the specification
  // ---------------------------------------------------------------------------

  /** The group of `k` is empty exactly when no entry has key `k`. */
  lemma {:induction false} SelectEmpty<P(!new), K(!new)>(key: P -> Option<K>, s: seq<P>, k: K)
    ensures Select(key, s, k) != [] <==> Occurs(key, s, k)
  {
    if s != [] {
      var init := s[..|s| - 1];
      SelectEmpty(key, init, k);
      if Occurs(key, init, k) {
        var m :| 0 <= m < |init| && key(init[m]) == Some(k);
        assert s[m] == init[m];
      }
      if Occurs(key, s, k) && key(s[|s| - 1]) != Some(k) {
        var m :| 0 <= m < |s| && key(s[m]) == Some(k);
        assert init[m] == s[m];
      }
    }
  }

  /** The group of `k` holds every entry with key `k`, with its multiplicity, and nothing else. */
  lemma {:induction false} SelectMultiset<P(!new), K(!new)>(key: P -> Option<K>, s: seq<P>, k: K)
    ensures forall p :: multiset(Select(key, s, k))[p] == if key(p) == Some(k) then multiset(s)[p] else 0
  {
    if s != [] {
      var init := s[..|s| - 1];
      SelectMultiset(key, init, k);
      assert s == init + [s[|s| - 1]];
    }
  }

  /** One more entry: one step of the `setdefault`/`append` loop on one key's list. */
  lemma SelectSnoc<P(!new), K(!new)>(key: P -> Option<K>, s: seq<P>, x: P, k: K)
    ensures Select(key, s + [x], k) == Select(key, s, k) + if key(x) == Some(k) then [x] else []
  {
  }

  /** One more entry: a key not seen before is appended to the insertion order. */
  lemma FirstSeenSnoc<P(!new), K(!new)>(key: P -> Option<K>, s: seq<P>, x: P)
    ensures FirstSeen(key, s + [x]) ==
      match key(x)
      case Some(k) => if k in FirstSeen(key, s) then FirstSeen(key, s) else FirstSeen(key, s) + [k]
      case None => FirstSeen(key, s)
  {
  }

  /** Grouping distributes over concatenation: groups keep the input order. */
  lemma {:induction false} SelectAppend<P(!new), K(!new)>(key: P -> Option<K>, a: seq<P>, b: seq<P>, k: K)
    ensures Select(key, a + b, k) == Select(key, a, k) + Select(key, b, k)
  {
    if b == [] {
      assert a + b == a;
    } else {
      var b0 := b[..|b| - 1];
      SelectAppend(key, a, b0, k);
      assert (a + b)[..|a + b| - 1] == a + b0;
    }
  }

  /** Regrouping a group by the same discriminator gives it back whole or not at all. */
  lemma {:induction false} SelectSelect<P(!new), K(!new)>(key: P -> Option<K>, s: seq<P>, k: K, k': K)
    ensures Select(key, Select(key, s, k), k') == if k == k' then Select(key, s, k) else []
  {
    if s != [] {
      var init := s[..|s| - 1];
      var last := s[|s| - 1];
      SelectSelect(key, init, k, k');
      if key(last) == Some(k) {
        SelectAppend(key, Select(key, init, k), [last], k');
      }
    }
  }

  /** Extending the key list by one key extends the surviving keys by at most that key. */
  lemma MultiKeysSnoc<P(!new), K(!new)>(key: P -> Option<K>, s: seq<P>, ks: seq<K>, k: K)
    ensures MultiKeys(key, s, ks + [k]) ==
      MultiKeys(key, s, ks) + if |Select(key, s, k)| > 1 then [k] else []
  {
  }

  lemma GroupsOfSnoc<P(!new), K(!new)>(key: P -> Option<K>, s: seq<P>, ks: seq<K>, k: K)
    ensures GroupsOf(key, s, ks + [k]) == GroupsOf(key, s, ks) + [Select(key, s, k)]
  {
  }

  lemma FlattenSnoc<P>(gs: seq<seq<P>>, g: seq<P>)
    ensures Flatten(gs + [g]) == Flatten(gs) + g
  {
  }

  /** Filtering keeps distinctness and the first-seen order of the keys. */
  lemma {:induction false} MultiKeysOrdered<P(!new), K(!new)>(key: P -> Option<K>, s: seq<P>, ks: seq<K>)
    requires forall a, b :: 0 <= a < b < |ks| ==> ks[a] != ks[b] && SeenBefore(key, s, ks[a], ks[b])
    ensures forall i, j :: 0 <= i < j < |MultiKeys(key, s, ks)| ==>
      MultiKeys(key, s, ks)[i] != MultiKeys(key, s, ks)[j] &&
      SeenBefore(key, s, MultiKeys(key, s, ks)[i], MultiKeys(key, s, ks)[j])
  {
    if ks != [] {
      var ks0 := ks[..|ks| - 1];
      var last := ks[|ks| - 1];
      MultiKeysOrdered(key, s, ks0);
      assert ks == ks0 + [last];
      MultiKeysSnoc(key, s, ks0, last);
      var r0, r := MultiKeys(key, s, ks0), MultiKeys(key, s, ks);
      forall i, j | 0 <= i < j < |r| ensures r[i] != r[j] && SeenBefore(key, s, r[i], r[j]) {
        if j >= |r0| {
          assert r[i] in r0;
          var a :| 0 <= a < |ks0| && ks0[a] == r[i];
          assert r[j] == ks[|ks| - 1] && ks[a] == r[i];
        }
      }
    }
  }

  /** The dictionary iterates its keys in the order in which they were first seen. */
  lemma {:induction false} FirstSeenOrder<P(!new), K(!new)>(key: P -> Option<K>, s: seq<P>)
    ensures forall i, j :: 0 <= i < j < |FirstSeen(key, s)| ==>
      SeenBefore(key, s, FirstSeen(key, s)[i], FirstSeen(key, s)[j])
  {
    if s != [] {
      var init := s[..|s| - 1];
      FirstSeenOrder(key, init);
      var r0, r := FirstSeen(key, init), FirstSeen(key, s);
      assert |r0| <= |r| && forall i :: 0 <= i < |r0| ==> r[i] == r0[i];
      forall i, j | 0 <= i < j < |r| ensures SeenBefore(key, s, r[i], r[j]) {
        if j < |r0| {
          assert SeenBefore(key, init, r0[i], r0[j]);
          var m :| 0 <= m < |init| && key(init[m]) == Some(r0[i]) &&
            forall n :: 0 <= n <= m ==> key(init[n]) != Some(r0[j]);
          assert s[m] == init[m];
          forall n | 0 <= n <= m ensures key(s[n]) != Some(r[j]) {
            assert s[n] == init[n];
          }
        } else {
          // r[j] is the key of the last entry, seen for the first time there
          assert r[j] !in r0;
          assert Occurs(key, init, r0[i]);
          var m :| 0 <= m < |init| && key(init[m]) == Some(r0[i]);
          assert s[m] == init[m];
          forall n | 0 <= n <= m ensures key(s[n]) != Some(r[j]) {
            assert s[n] == init[n];
          }
        }
      }
    }
  }

  /** Regrouping the concatenation of distinct keys' groups returns each group whole. */
  lemma {:induction false} SelectFlattenGroups<P(!new), K(!new)>(key: P -> Option<K>, s: seq<P>, ks: seq<K>, k: K)
    requires Distinct(ks)
    ensures Select(key, Flatten(GroupsOf(key, s, ks)), k) == if k in ks then Select(key, s, k) else []
  {
    if ks != [] {
      var ks0 := ks[..|ks| - 1];
      var last := ks[|ks| - 1];
      assert ks == ks0 + [last];
      SelectFlattenGroups(key, s, ks0, k);
      GroupsOfSnoc(key, s, ks0, last);
      FlattenSnoc(GroupsOf(key, s, ks0), Select(key, s, last));
      SelectAppend(key, Flatten(GroupsOf(key, s, ks0)), Select(key, s, last), k);
      SelectSelect(key, s, last, k);
      assert k == last ==> k !in ks0;
    }
  }

  /** Every entry of the concatenated groups has a key, one of `ks`. */
  lemma {:induction false} FlattenGroupsKeys<P(!new), K(!new)>(key: P -> Option<K>, s: seq<P>, ks: seq<K>)
    ensures forall p :: p in Flatten(GroupsOf(key, s, ks)) ==> key(p).Some? && key(p).value in ks
  {
    if ks != [] {
      var ks0 := ks[..|ks| - 1];
      var last := ks[|ks| - 1];
      assert ks == ks0 + [last];
      FlattenGroupsKeys(key, s, ks0);
      GroupsOfSnoc(key, s, ks0, last);
      FlattenSnoc(GroupsOf(key, s, ks0), Select(key, s, last));
    }
  }

  // ---------------------------------------------------------------------------
  // Properties of one stage
  // ---------------------------------------------------------------------------

  /**
   * The surviving groups: exactly the groups of the keys shared by two or more
   * entries, one group per key, each group holding every entry of its key in
   * input order, the groups in the order their keys were first seen.
   */
  lemma DuplicateGroupsSpec<P(!new), K(!new)>(key: P -> Option<K>, s: seq<P>)
    ensures |DuplicateGroups(key, s)| == |GroupKeys(key, s)|
    ensures forall i :: 0 <= i < |DuplicateGroups(key, s)| ==>
      DuplicateGroups(key, s)[i] == Select(key, s, GroupKeys(key, s)[i]) && |DuplicateGroups(key, s)[i]| >= 2
    ensures forall i, j :: 0 <= i < j < |GroupKeys(key, s)| ==>
      GroupKeys(key, s)[i] != GroupKeys(key, s)[j] &&
      SeenBefore(key, s, GroupKeys(key, s)[i], GroupKeys(key, s)[j])
    ensures forall k :: k in GroupKeys(key, s) <==> |Select(key, s, k)| >= 2
  {
    FirstSeenOrder(key, s);
    MultiKeysOrdered(key, s, FirstSeen(key, s));
    var ks := GroupKeys(key, s);
    forall k | |Select(key, s, k)| >= 2 ensures k in FirstSeen(key, s) {
      SelectEmpty(key, s, k);
    }
    assert forall i :: 0 <= i < |ks| ==> ks[i] in ks;
  }

  /** A member of a surviving group is a kept input entry carrying the group's key. */
  lemma DuplicateGroupsMembers<P(!new), K(!new)>(key: P -> Option<K>, s: seq<P>)
    ensures forall g, p :: g in DuplicateGroups(key, s) && p in g ==>
              p in s && Kept(key, s, p) && key(p) == key(g[0])
  {
    var gs, ks := DuplicateGroups(key, s), GroupKeys(key, s);
    DuplicateGroupsSpec(key, s);
    forall g, p | g in gs && p in g ensures p in s && Kept(key, s, p) && key(p) == key(g[0]) {
      var i :| 0 <= i < |gs| && gs[i] == g;
      SelectMultiset(key, s, ks[i]);
      assert multiset(g)[p] > 0;
    }
  }

  /**
   * Regrouping a stage's output gives back, for every key, the input's whole
   * group when it had two or more entries and nothing otherwise.
   */
  lemma SurvivorsSelect<P(!new), K(!new)>(key: P -> Option<K>, s: seq<P>, k: K)
    ensures Select(key, Survivors(key, s), k) ==
      if |Select(key, s, k)| >= 2 then Select(key, s, k) else []
  {
    DuplicateGroupsSpec(key, s);
    SelectFlattenGroups(key, s, GroupKeys(key, s), k);
  }

  /** An entry survives, with all its copies, exactly when it is kept. */
  lemma SurvivorsMultiset<P(!new), K(!new)>(key: P -> Option<K>, s: seq<P>)
    ensures forall p :: multiset(Survivors(key, s))[p] == if Kept(key, s, p) then multiset(s)[p] else 0
  {
    forall p ensures multiset(Survivors(key, s))[p] == if Kept(key, s, p) then multiset(s)[p] else 0 {
      match key(p)
      case None =>
        FlattenGroupsKeys(key, s, GroupKeys(key, s));
      case Some(k) =>
        SurvivorsSelect(key, s, k);
        SelectMultiset(key, s, k);
        SelectMultiset(key, Survivors(key, s), k);
        assert multiset(Select(key, Survivors(key, s), k))[p] == multiset(Survivors(key, s))[p];
    }
  }

  /** A stage only narrows: its output is a sub-multiset of its input. */
  lemma StageNarrows<P(!new), K(!new)>(key: P -> Option<K>, s: seq<P>)
    ensures multiset(Survivors(key, s)) <= multiset(s)
    ensures |Survivors(key, s)| <= |s|
    ensures forall p :: p in Survivors(key, s) ==> p in s && Kept(key, s, p)
  {
    SurvivorsMultiset(key, s);
    var out := Survivors(key, s);
    MultisetSubCard(multiset(out), multiset(s));
    forall p | p in out ensures p in s && Kept(key, s, p) {
      assert multiset(out)[p] > 0;
    }
  }

  /** Every survivor shares its key with at least one other survivor. */
  lemma SurvivorsShareKeys<P(!new), K(!new)>(key: P -> Option<K>, s: seq<P>)
    ensures forall p :: p in Survivors(key, s) ==> Kept(key, Survivors(key, s), p)
  {
    forall p | p in Survivors(key, s) ensures Kept(key, Survivors(key, s), p) {
      StageNarrows(key, s);
      SurvivorsSelect(key, s, key(p).value);
    }
  }

  /**
   * Two entries with one key, counted with multiplicity, are both kept and
   * both found in the surviving group of that key.
   */
  lemma PairSurvives<P(!new), K(!new)>(key: P -> Option<K>, s: seq<P>, a: P, b: P)
    requires multiset{a, b} <= multiset(s)
    requires key(a).Some? && key(a) == key(b)
    ensures Kept(key, s, a) && Kept(key, s, b)
    ensures multiset{a, b} <= multiset(Select(key, s, key(a).value))
    ensures multiset{a, b} <= multiset(Survivors(key, s))
  {
    var g := Select(key, s, key(a).value);
    SelectMultiset(key, s, key(a).value);
    assert multiset(g)[a] == multiset(s)[a] && multiset(g)[b] == multiset(s)[b];
    assert multiset{a, b} <= multiset(g);
    MultisetSubCard(multiset{a, b}, multiset(g));
    SurvivorsMultiset(key, s);
  }

  /**
   * Two entries with one key, counted with multiplicity, end up together in
   * one of the surviving groups.
   */
  lemma PairGrouped<P(!new), K(!new)>(key: P -> Option<K>, s: seq<P>, a: P, b: P)
    requires multiset{a, b} <= multiset(s)
    requires key(a).Some? && key(a) == key(b)
    ensures exists g :: g in DuplicateGroups(key, s) && multiset{a, b} <= multiset(g)
  {
    PairSurvives(key, s, a, b);
    DuplicateGroupsSpec(key, s);
    var ks := GroupKeys(key, s);
    var i :| 0 <= i < |ks| && ks[i] == key(a).value;
    assert DuplicateGroups(key, s)[i] in DuplicateGroups(key, s);
  }

  lemma {:induction false} MultisetSubCard<T>(a: multiset<T>, b: multiset<T>)
    requires a <= b
    ensures |a| <= |b|
  {
    if a != multiset{} {
      var x :| x in a;
      MultisetSubCard(a[x := 0], b[x := b[x] - a[x]]);
    }
  }

  // ---------------------------------------------------------------------------
  // The loops
  // ---------------------------------------------------------------------------

  /**
   * `for p in s: d.setdefault(key(p), []).append(p)`, with `order` holding the
   * dictionary's insertion order; an entry whose key is `None` is skipped.
   */
  method GroupBy<P(==,!new), K(==,!new)>(key: P -> Option<K>, s: seq<P>) returns (order: seq<K>, groups: map<K, seq<P>>)
    ensures order == FirstSeen(key, s)
    ensures forall k :: k in groups <==> k in order
    ensures forall k :: k in groups ==> groups[k] == Select(key, s, k)
  {
    order, groups := [], map[];
    for i := 0 to |s|
      invariant order == FirstSeen(key, s[..i])
      invariant forall k :: k in groups <==> k in order
      invariant forall k :: k in groups ==> groups[k] == Select(key, s[..i], k)
    {
      assert s[..i + 1] == s[..i] + [s[i]];
      forall k ensures Select(key, s[..i + 1], k) == Select(key, s[..i], k) + if key(s[i]) == Some(k) then [s[i]] else [] {
        SelectSnoc(key, s[..i], s[i], k);
      }
      FirstSeenSnoc(key, s[..i], s[i]);
      match key(s[i])
      case Some(k) =>
        if k !in groups {
          SelectEmpty(key, s[..i], k);
          order := order + [k];
          groups := groups[k := []];
        }
        groups := groups[k := groups[k] + [s[i]]];
      case None =>
    }
    assert s[..|s|] == s;
  }

  /**
   * Groups `s` and extends the result with every group of more than one entry,
   * in dictionary order.
   */
  method ReduceByKey<P(==,!new), K(==,!new)>(key: P -> Option<K>, s: seq<P>) returns (duplicates: seq<P>)
    ensures duplicates == Survivors(key, s)
  {
    var order, groups := GroupBy(key, s);
    duplicates := [];
    for i := 0 to |order|
      invariant duplicates == Flatten(GroupsOf(key, s, MultiKeys(key, s, order[..i])))
    {
      assert order[..i + 1] == order[..i] + [order[i]];
      MultiKeysSnoc(key, s, order[..i], order[i]);
      var paths := groups[order[i]];
      if |paths| > 1 {
        GroupsOfSnoc(key, s, MultiKeys(key, s, order[..i]), order[i]);
        FlattenSnoc(GroupsOf(key, s, MultiKeys(key, s, order[..i])), paths);
        duplicates := duplicates + paths;
      }
    }
    assert order[..|order|] == order;
  }

  /**
   * Groups `s` and keeps, unflattened, every group of more than one entry, in
   * dictionary order.
   */
  method CollectGroups<P(==,!new), K(==,!new)>(key: P -> Option<K>, s: seq<P>) returns (duplicates: seq<seq<P>>)
    ensures duplicates == DuplicateGroups(key, s)
  {
    var order, groups := GroupBy(key, s);
    duplicates := [];
    for i := 0 to |order|
      invariant duplicates == GroupsOf(key, s, MultiKeys(key, s, order[..i]))
    {
      assert order[..i + 1] == order[..i] + [order[i]];
      MultiKeysSnoc(key, s, order[..i], order[i]);
      var paths := groups[order[i]];
      if |paths| > 1 {
        GroupsOfSnoc(key, s, MultiKeys(key, s, order[..i]), order[i]);
        duplicates := duplicates + [paths];
      }
    }
    assert order[..|order|] == order;
  }
}
