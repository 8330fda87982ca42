/**
 * The two sorts of the aggregation. Stream.sorted on an ordered stream is a
 * stable sort; both are modelled as insertion sorts that keep equal
 * elements in their input order.
 *   - the picks of one picker, by comparing(PickRequest::getTimestamp);
 *   - the map entries, by comparingByKey(comparing(Picker::getActiveSince)
 *     .thenComparing(Picker::getId)).
 */
module Sorting {
  import opened Model
  import opened Grouping
  import JavaStrings

  // ---------------------------------------------------------------------
  // Picks by timestamp

  /** Inserts p before the first pick with a timestamp at least p's. */
  function InsertByTimestamp(p: PickRequest, sorted: seq<PickRequest>): (r: seq<PickRequest>)
    ensures multiset(r) == multiset(sorted) + multiset{p}
  {
    if sorted == [] || p.timestamp <= sorted[0].timestamp then [p] + sorted
    else
      assert sorted == [sorted[0]] + sorted[1..];
      [sorted[0]] + InsertByTimestamp(p, sorted[1..])
  }

  /** sorted(comparing(PickRequest::getTimestamp)). */
  function SortByTimestamp(s: seq<PickRequest>): (r: seq<PickRequest>)
    ensures multiset(r) == multiset(s)
  {
    if s == [] then []
    else
      assert s == [s[0]] + s[1..];
      InsertByTimestamp(s[0], SortByTimestamp(s[1..]))
  }

  ghost predicate SortedByTimestamp(s: seq<PickRequest>) {
    forall i, j :: 0 <= i < j < |s| ==> s[i].timestamp <= s[j].timestamp
  }

  /** The picks of s that carry timestamp t, in their order in s. */
  function WithTimestamp(s: seq<PickRequest>, t: Instant): seq<PickRequest> {
    if s == [] then []
    else (if s[0].timestamp == t then [s[0]] else []) + WithTimestamp(s[1..], t)
  }

  lemma {:induction false} InsertByTimestampSorted(p: PickRequest, sorted: seq<PickRequest>)
    requires SortedByTimestamp(sorted)
    ensures SortedByTimestamp(InsertByTimestamp(p, sorted))
  {
    if sorted != [] && p.timestamp > sorted[0].timestamp {
      var rest := InsertByTimestamp(p, sorted[1..]);
      InsertByTimestampSorted(p, sorted[1..]);
      var r := [sorted[0]] + rest;
      forall k | 0 < k < |r| ensures r[0].timestamp <= r[k].timestamp {
        assert r[k] in multiset(rest);
        assert r[k] == p || r[k] in sorted[1..];
      }
    }
  }

  lemma WithTimestampCons(x: PickRequest, s: seq<PickRequest>, t: Instant)
    ensures WithTimestamp([x] + s, t) == (if x.timestamp == t then [x] else []) + WithTimestamp(s, t)
  {
    assert ([x] + s)[0] == x && ([x] + s)[1..] == s;
  }

  /**
   * Insertion does not reorder picks that share a timestamp: p only moves
   * past picks with a strictly smaller one.
   */
  lemma {:induction false} InsertByTimestampStable(p: PickRequest, sorted: seq<PickRequest>, t: Instant)
    ensures WithTimestamp(InsertByTimestamp(p, sorted), t) == WithTimestamp([p] + sorted, t)
  {
    if sorted != [] && p.timestamp > sorted[0].timestamp {
      var first, rest := sorted[0], sorted[1..];
      assert sorted == [first] + rest;
      InsertByTimestampStable(p, rest, t);
      WithTimestampCons(first, InsertByTimestamp(p, rest), t);
      WithTimestampCons(p, rest, t);
      WithTimestampCons(first, rest, t);
      WithTimestampCons(p, sorted, t);
      // at most one of p and first carries t, so they commute in the filter
      assert p.timestamp != t || first.timestamp != t;
    }
  }

  lemma {:induction false} SortByTimestampSorted(s: seq<PickRequest>)
    ensures SortedByTimestamp(SortByTimestamp(s))
  {
    if s != [] {
      SortByTimestampSorted(s[1..]);
      InsertByTimestampSorted(s[0], SortByTimestamp(s[1..]));
    }
  }

  /**
   * The sort by timestamp yields a non-decreasing permutation of its input
   * that keeps picks with equal timestamps in their input order.
   */
  lemma {:induction false} SortByTimestampCorrect(s: seq<PickRequest>)
    ensures |SortByTimestamp(s)| == |s|
    ensures multiset(SortByTimestamp(s)) == multiset(s)
    ensures SortedByTimestamp(SortByTimestamp(s))
    ensures forall t :: WithTimestamp(SortByTimestamp(s), t) == WithTimestamp(s, t)
  {
    assert |multiset(SortByTimestamp(s))| == |multiset(s)|;
    SortByTimestampSorted(s);
    if s != [] {
      SortByTimestampCorrect(s[1..]);
      forall t ensures WithTimestamp(SortByTimestamp(s), t) == WithTimestamp(s, t) {
        InsertByTimestampStable(s[0], SortByTimestamp(s[1..]), t);
        assert ([s[0]] + SortByTimestamp(s[1..]))[1..] == SortByTimestamp(s[1..]);
      }
    }
  }

  // ---------------------------------------------------------------------
  // Entries by (activeSince, id)

  /**
   * comparing(Picker::getActiveSince).thenComparing(Picker::getId): the
   * sign says which picker comes first.
   */
  function ComparePickers(p: Picker, q: Picker): (r: int)
    ensures r == 0 <==> p.activeSince == q.activeSince && p.id == q.id
  {
    if p.activeSince < q.activeSince then -1
    else if p.activeSince > q.activeSince then 1
    else JavaStrings.CompareTo(p.id, q.id)
  }

  /** p sorts strictly before q. */
  predicate PickerBefore(p: Picker, q: Picker) {
    ComparePickers(p, q) < 0
  }

  /**
   * p sorts before q exactly when it became active earlier, or at the same
   * instant with an id that is lexicographically smaller.
   */
  lemma PickerBeforeMeaning(p: Picker, q: Picker)
    ensures PickerBefore(p, q) <==>
      p.activeSince < q.activeSince || (p.activeSince == q.activeSince && JavaStrings.CompareTo(p.id, q.id) < 0)
  {
  }

  lemma PickerBeforeAsymmetric(p: Picker, q: Picker)
    ensures PickerBefore(p, q) ==> !PickerBefore(q, p)
  {
    JavaStrings.CompareToAntisymmetric(p.id, q.id);
  }

  lemma PickerBeforeTransitive(p: Picker, q: Picker, r: Picker)
    requires PickerBefore(p, q) && PickerBefore(q, r)
    ensures PickerBefore(p, r)
  {
    if p.activeSince == q.activeSince == r.activeSince {
      JavaStrings.CompareToTransitive(p.id, q.id, r.id);
    }
  }

  /** Pickers with different ids are always ordered one way or the other. */
  lemma PickerBeforeTotal(p: Picker, q: Picker)
    requires GroupingKey(p) != GroupingKey(q)
    ensures PickerBefore(p, q) || PickerBefore(q, p)
  {
    JavaStrings.CompareToAntisymmetric(p.id, q.id);
  }

  /** Inserts g before the first entry whose key does not sort before g's. */
  function InsertGroup(g: Group, sorted: seq<Group>): (r: seq<Group>)
    ensures multiset(r) == multiset(sorted) + multiset{g}
  {
    if sorted == [] || ComparePickers(g.key, sorted[0].key) <= 0 then [g] + sorted
    else
      assert sorted == [sorted[0]] + sorted[1..];
      [sorted[0]] + InsertGroup(g, sorted[1..])
  }

  /** sorted(comparingByKey(...)) over the map entries. */
  function SortGroups(gs: seq<Group>): (r: seq<Group>)
    ensures multiset(r) == multiset(gs)
  {
    if gs == [] then []
    else
      assert gs == [gs[0]] + gs[1..];
      InsertGroup(gs[0], SortGroups(gs[1..]))
  }

  /** Every entry's key sorts strictly before the keys of all later entries. */
  ghost predicate StrictlyAscending(gs: seq<Group>) {
    forall i, j :: 0 <= i < j < |gs| ==> PickerBefore(gs[i].key, gs[j].key)
  }

  /** An entry that sorts before all of a strictly ascending sequence can head it. */
  lemma ConsAscending(x: Group, rest: seq<Group>)
    requires StrictlyAscending(rest) && DistinctKeys(rest)
    requires forall h :: h in rest ==> PickerBefore(x.key, h.key) && GroupingKey(x.key) != GroupingKey(h.key)
    ensures StrictlyAscending([x] + rest) && DistinctKeys([x] + rest)
  {
    var r := [x] + rest;
    forall i, j | 0 <= i < j < |r|
      ensures PickerBefore(r[i].key, r[j].key) && GroupingKey(r[i].key) != GroupingKey(r[j].key)
    {
      assert r[j] == rest[j - 1] && rest[j - 1] in rest;
      if i > 0 {
        assert r[i] == rest[i - 1];
      }
    }
  }

  lemma {:induction false} InsertGroupTotal(g: Group, sorted: seq<Group>)
    ensures TotalMembers(InsertGroup(g, sorted)) == |g.members| + TotalMembers(sorted)
  {
    if sorted != [] && ComparePickers(g.key, sorted[0].key) > 0 {
      InsertGroupTotal(g, sorted[1..]);
      assert ([sorted[0]] + InsertGroup(g, sorted[1..]))[1..] == InsertGroup(g, sorted[1..]);
    } else {
      assert ([g] + sorted)[1..] == sorted;
    }
  }

  /** An entry with a new key that sorts before the head sorts before every entry. */
  lemma BeforeHeadBeforeAll(g: Group, sorted: seq<Group>)
    requires sorted != [] && StrictlyAscending(sorted)
    requires forall h :: h in sorted ==> GroupingKey(h.key) != GroupingKey(g.key)
    requires ComparePickers(g.key, sorted[0].key) <= 0
    ensures forall h :: h in sorted ==> PickerBefore(g.key, h.key) && GroupingKey(g.key) != GroupingKey(h.key)
  {
    assert sorted[0] in sorted;
    forall h | h in sorted ensures PickerBefore(g.key, h.key) && GroupingKey(g.key) != GroupingKey(h.key) {
      var m :| 0 <= m < |sorted| && sorted[m] == h;
      if m > 0 {
        PickerBeforeTransitive(g.key, sorted[0].key, h.key);
      }
    }
  }

  /** The head that an entry sorts after stays before everything the entry is inserted among. */
  lemma HeadBeforeInserted(g: Group, sorted: seq<Group>)
    requires sorted != [] && StrictlyAscending(sorted)
    requires forall h :: h in sorted ==> GroupingKey(h.key) != GroupingKey(g.key)
    requires DistinctKeys(sorted) && ComparePickers(g.key, sorted[0].key) > 0
    ensures forall h :: h in InsertGroup(g, sorted[1..]) ==>
      PickerBefore(sorted[0].key, h.key) && GroupingKey(sorted[0].key) != GroupingKey(h.key)
  {
    var tail := sorted[1..];
    var rest := InsertGroup(g, tail);
    assert sorted[0] in sorted;
    PickerBeforeTotal(g.key, sorted[0].key);
    forall h | h in rest ensures PickerBefore(sorted[0].key, h.key) && GroupingKey(sorted[0].key) != GroupingKey(h.key) {
      assert h in multiset(rest);
      if h != g {
        var m :| 0 <= m < |tail| && tail[m] == h;
        assert sorted[m + 1] == h;
      }
    }
  }

  /**
   * Inserting an entry whose key is new keeps a strictly ascending sequence
   * of distinct keys strictly ascending.
   */
  lemma {:induction false} InsertGroupAscending(g: Group, sorted: seq<Group>)
    requires StrictlyAscending(sorted) && DistinctKeys(sorted)
    requires forall h :: h in sorted ==> GroupingKey(h.key) != GroupingKey(g.key)
    ensures StrictlyAscending(InsertGroup(g, sorted)) && DistinctKeys(InsertGroup(g, sorted))
  {
    if sorted == [] {
    } else if ComparePickers(g.key, sorted[0].key) <= 0 {
      BeforeHeadBeforeAll(g, sorted);
      ConsAscending(g, sorted);
    } else {
      var tail := sorted[1..];
      var rest := InsertGroup(g, tail);
      assert forall h :: h in tail ==> h in sorted;
      InsertGroupAscending(g, tail);
      HeadBeforeInserted(g, sorted);
      ConsAscending(sorted[0], rest);
    }
  }

  /** Sorting entries keeps their number and their picks overall. */
  lemma {:induction false} SortGroupsTotal(gs: seq<Group>)
    ensures |SortGroups(gs)| == |gs|
    ensures TotalMembers(SortGroups(gs)) == TotalMembers(gs)
  {
    assert |multiset(SortGroups(gs))| == |multiset(gs)|;
    if gs != [] {
      SortGroupsTotal(gs[1..]);
      InsertGroupTotal(gs[0], SortGroups(gs[1..]));
    }
  }

  /** Sorting entries with pairwise distinct keys orders every key strictly before every later one. */
  lemma {:induction false} SortGroupsAscending(gs: seq<Group>)
    requires DistinctKeys(gs)
    ensures StrictlyAscending(SortGroups(gs)) && DistinctKeys(SortGroups(gs))
  {
    if gs != [] {
      var rest := gs[1..];
      assert DistinctKeys(rest);
      SortGroupsAscending(rest);
      HeadKeyNotInTail(gs);
      forall h | h in SortGroups(rest) ensures GroupingKey(h.key) != GroupingKey(gs[0].key) {
        assert h in multiset(SortGroups(rest));
      }
      InsertGroupAscending(gs[0], SortGroups(rest));
    }
  }

  /**
   * Sorting entries with pairwise distinct keys yields a permutation of
   * them in which every key sorts strictly before every later key.
   */
  lemma SortGroupsCorrect(gs: seq<Group>)
    requires DistinctKeys(gs)
    ensures |SortGroups(gs)| == |gs|
    ensures multiset(SortGroups(gs)) == multiset(gs)
    ensures StrictlyAscending(SortGroups(gs)) && DistinctKeys(SortGroups(gs))
    ensures TotalMembers(SortGroups(gs)) == TotalMembers(gs)
  {
    SortGroupsTotal(gs);
    SortGroupsAscending(gs);
  }

  /** Two strictly ascending arrangements of the same entries start alike. */
  lemma AscendingHeadsAgree(a: seq<Group>, b: seq<Group>)
    requires StrictlyAscending(a) && StrictlyAscending(b)
    requires multiset(a) == multiset(b) && a != []
    ensures b != [] && a[0] == b[0]
  {
    assert a[0] in multiset(b);
    var k :| 0 <= k < |b| && b[k] == a[0];
    if k != 0 {
      assert b[0] in multiset(a);
      var m :| 0 <= m < |a| && a[m] == b[0];
      if m == 0 {
        assert false;
      } else {
        PickerBeforeAsymmetric(a[0].key, b[0].key);
        assert false;
      }
    }
  }

  /**
   * A strictly ascending order is unique: two strictly ascending
   * arrangements of the same entries are equal.
   */
  lemma {:induction false} StrictlyAscendingUnique(a: seq<Group>, b: seq<Group>)
    requires StrictlyAscending(a) && StrictlyAscending(b)
    requires multiset(a) == multiset(b)
    ensures a == b
  {
    if a == [] {
      assert |b| == |multiset(b)| == 0;
    } else {
      AscendingHeadsAgree(a, b);
      assert a == [a[0]] + a[1..] && b == [b[0]] + b[1..];
      assert multiset(a[1..]) == multiset(a) - multiset{a[0]};
      assert multiset(b[1..]) == multiset(b) - multiset{b[0]};
      StrictlyAscendingUnique(a[1..], b[1..]);
    }
  }

  /**
   * The sorted entries do not depend on the order in which the map hands
   * them out: any two arrangements of the same entries sort alike.
   */
  lemma SortGroupsOrderIndependent(gs1: seq<Group>, gs2: seq<Group>)
    requires DistinctKeys(gs1) && DistinctKeys(gs2)
    requires multiset(gs1) == multiset(gs2)
    ensures SortGroups(gs1) == SortGroups(gs2)
  {
    SortGroupsCorrect(gs1);
    SortGroupsCorrect(gs2);
    StrictlyAscendingUnique(SortGroups(gs1), SortGroups(gs2));
  }
}
