/**
 * Collectors.groupingBy(PickRequest::getPicker): a HashMap from picker to
 * the list of its picks, filled by computeIfAbsent(picker, new list).add(pick)
 * for each pick in encounter order. The map's entries are kept as a
 * sequence in the order their keys were first seen.
 */
module Grouping {
  import opened Model

  /** One Map.Entry<Picker, List<PickRequest>>. */
  datatype Group = Group(key: Picker, members: seq<PickRequest>)

  /** The picks of s whose picker has the given grouping key, in order. */
  function PicksOf(s: seq<PickRequest>, id: string): (r: seq<PickRequest>)
    ensures |r| <= |s|
    ensures forall p :: p in r <==> p in s && GroupingKey(p.picker) == id
  {
    if s == [] then []
    else PicksOf(s[..|s| - 1], id) + (if GroupingKey(s[|s| - 1].picker) == id then [s[|s| - 1]] else [])
  }

  /** The grouping key of every picker occurring in s. */
  ghost function PickerIds(s: seq<PickRequest>): set<string> {
    set p | p in s :: GroupingKey(p.picker)
  }

  /** The grouping keys of the entries. */
  ghost function KeyIds(gs: seq<Group>): set<string> {
    set g | g in gs :: GroupingKey(g.key)
  }

  /** No two entries have equal keys. */
  ghost predicate DistinctKeys(gs: seq<Group>) {
    forall i, j :: 0 <= i < j < |gs| ==> GroupingKey(gs[i].key) != GroupingKey(gs[j].key)
  }

  /** The number of picks over all entries. */
  function TotalMembers(gs: seq<Group>): nat {
    if gs == [] then 0 else |gs[0].members| + TotalMembers(gs[1..])
  }

  /**
   * The lookup of HashMap.get: the index of the entry whose key equals the
   * given picker (key.equals(entry key)), or |gs| when there is none.
   */
  function FindGroup(gs: seq<Group>, key: Picker): (i: nat)
    ensures i <= |gs|
    ensures i < |gs| ==> key.Equals(Some(gs[i].key))
    ensures forall j :: 0 <= j < i ==> !key.Equals(Some(gs[j].key))
  {
    if gs == [] then 0
    else if key.Equals(Some(gs[0].key)) then 0
    else 1 + FindGroup(gs[1..], key)
  }

  /**
   * computeIfAbsent(p.picker, k -> new ArrayList()).add(p): append p to the
   * entry of an equal picker, keeping that entry's key; otherwise add a new
   * entry keyed by p's own picker.
   */
  function AddPick(gs: seq<Group>, p: PickRequest): (r: seq<Group>)
    ensures |gs| <= |r| <= |gs| + 1
    ensures forall j {:trigger r[j]} :: 0 <= j < |gs| ==> r[j].key == gs[j].key
    ensures |r| == |gs| + 1 ==> r[|gs|] == Group(p.picker, [p])
    ensures TotalMembers(r) == TotalMembers(gs) + 1
  {
    var i := FindGroup(gs, p.picker);
    if i < |gs| then
      var g := Group(gs[i].key, gs[i].members + [p]);
      TotalMembersUpdate(gs, i, g);
      gs[i := g]
    else
      TotalMembersConcat(gs, [Group(p.picker, [p])]);
      gs + [Group(p.picker, [p])]
  }

  /** groupingBy over the picks in encounter order. */
  function GroupByPicker(s: seq<PickRequest>): (r: seq<Group>)
    ensures |r| <= |s|
    ensures TotalMembers(r) == |s|
  {
    if s == [] then [] else AddPick(GroupByPicker(s[..|s| - 1]), s[|s| - 1])
  }

  /** Each entry holds exactly its picker's picks and is keyed by the first of them. */
  ghost predicate EntriesMatch(gs: seq<Group>, s: seq<PickRequest>) {
    forall i :: 0 <= i < |gs| ==>
      && gs[i].members == PicksOf(s, GroupingKey(gs[i].key))
      && gs[i].members != []
      && gs[i].key == gs[i].members[0].picker
  }

  /**
   * gs is the grouping of s: one entry per picker id of s, holding exactly
   * that picker's picks in encounter order, keyed by the picker of its first
   * pick; together the entries hold every pick of s.
   */
  ghost predicate GroupedBy(gs: seq<Group>, s: seq<PickRequest>) {
    && DistinctKeys(gs)
    && EntriesMatch(gs, s)
    && KeyIds(gs) == PickerIds(s)
    && TotalMembers(gs) == |s|
  }

  /** A non-empty sequence is its prefix followed by its last element. */
  lemma SplitLast<T>(s: seq<T>)
    requires s != []
    ensures s == s[..|s| - 1] + [s[|s| - 1]]
  {
  }

  /** The key ids are exactly the ids of the entries' keys, position by position. */
  lemma KeyIdsIndexed(gs: seq<Group>)
    ensures forall i :: 0 <= i < |gs| ==> GroupingKey(gs[i].key) in KeyIds(gs)
    ensures forall id :: id in KeyIds(gs) ==> exists i :: 0 <= i < |gs| && GroupingKey(gs[i].key) == id
  {
    forall i | 0 <= i < |gs| ensures GroupingKey(gs[i].key) in KeyIds(gs) {
      assert gs[i] in gs;
    }
    forall id | id in KeyIds(gs) ensures exists i :: 0 <= i < |gs| && GroupingKey(gs[i].key) == id {
      var h :| h in gs && GroupingKey(h.key) == id;
      var i :| 0 <= i < |gs| && gs[i] == h;
    }
  }

  lemma {:induction false} TotalMembersConcat(a: seq<Group>, b: seq<Group>)
    ensures TotalMembers(a + b) == TotalMembers(a) + TotalMembers(b)
  {
    if a == [] {
      assert a + b == b;
    } else {
      assert (a + b)[0] == a[0];
      assert (a + b)[1..] == a[1..] + b;
      TotalMembersConcat(a[1..], b);
    }
  }

  /** A key that no pick of s carries selects no picks. */
  lemma PicksOfAbsent(s: seq<PickRequest>, id: string)
    requires id !in PickerIds(s)
    ensures PicksOf(s, id) == []
  {
  }

  /** Replacing one entry changes the total by the difference in its size. */
  lemma TotalMembersUpdate(gs: seq<Group>, i: nat, g: Group)
    requires i < |gs|
    ensures TotalMembers(gs[i := g]) == TotalMembers(gs) - |gs[i].members| + |g.members|
  {
    assert gs[i := g] == gs[..i] + [g] + gs[i + 1..];
    assert gs == gs[..i] + [gs[i]] + gs[i + 1..];
    TotalMembersConcat(gs[..i] + [g], gs[i + 1..]);
    TotalMembersConcat(gs[..i], [g]);
    TotalMembersConcat(gs[..i] + [gs[i]], gs[i + 1..]);
    TotalMembersConcat(gs[..i], [gs[i]]);
  }

  lemma PickerIdsSnoc(s: seq<PickRequest>, x: PickRequest)
    ensures PickerIds(s + [x]) == PickerIds(s) + {GroupingKey(x.picker)}
  {
  }

  lemma PicksOfSnoc(s: seq<PickRequest>, x: PickRequest, id: string)
    ensures PicksOf(s + [x], id) == PicksOf(s, id) + (if GroupingKey(x.picker) == id then [x] else [])
  {
    var s' := s + [x];
    assert s'[..|s'| - 1] == s;
  }

  /** The entries an existing picker's pick is appended to still match. */
  lemma {:induction false} ExistingEntriesMatch(gs: seq<Group>, s: seq<PickRequest>, x: PickRequest, i: nat)
    requires DistinctKeys(gs) && EntriesMatch(gs, s)
    requires i < |gs| && GroupingKey(gs[i].key) == GroupingKey(x.picker)
    ensures EntriesMatch(gs[i := Group(gs[i].key, gs[i].members + [x])], s + [x])
  {
    var gs' := gs[i := Group(gs[i].key, gs[i].members + [x])];
    forall j | 0 <= j < |gs'|
      ensures gs'[j].members == PicksOf(s + [x], GroupingKey(gs'[j].key))
      ensures gs'[j].members != [] && gs'[j].key == gs'[j].members[0].picker
    {
      PicksOfSnoc(s, x, GroupingKey(gs[j].key));
    }
  }

  lemma {:induction false} ExistingKeyIds(gs: seq<Group>, i: nat, g: Group)
    requires i < |gs| && g.key == gs[i].key
    ensures KeyIds(gs[i := g]) == KeyIds(gs)
  {
    var gs' := gs[i := g];
    forall k | k in KeyIds(gs') ensures k in KeyIds(gs) {
      var h :| h in gs' && GroupingKey(h.key) == k;
      var j :| 0 <= j < |gs'| && gs'[j] == h;
      assert GroupingKey(gs[j].key) == k;
      assert gs[j] in gs;
    }
    forall k | k in KeyIds(gs) ensures k in KeyIds(gs') {
      var h :| h in gs && GroupingKey(h.key) == k;
      var j :| 0 <= j < |gs| && gs[j] == h;
      assert GroupingKey(gs'[j].key) == k;
      assert gs'[j] in gs';
    }
  }

  /** The fold step when the picker already has an entry. */
  lemma {:induction false} AddPickToExisting(gs: seq<Group>, s: seq<PickRequest>, x: PickRequest, i: nat)
    requires GroupedBy(gs, s)
    requires i == FindGroup(gs, x.picker) && i < |gs|
    ensures GroupedBy(AddPick(gs, x), s + [x])
  {
    var g' := Group(gs[i].key, gs[i].members + [x]);
    var gs' := gs[i := g'];
    assert AddPick(gs, x) == gs';
    PickerIdsSnoc(s, x);
    TotalMembersUpdate(gs, i, g');
    ExistingKeyIds(gs, i, g');
    assert gs[i] in gs;
    ExistingEntriesMatch(gs, s, x, i);
    assert DistinctKeys(gs');
  }

  /** Appending a new entry for a new picker keeps every entry matching. */
  lemma {:induction false} NewEntriesMatch(gs: seq<Group>, s: seq<PickRequest>, x: PickRequest)
    requires EntriesMatch(gs, s)
    requires GroupingKey(x.picker) !in KeyIds(gs) && GroupingKey(x.picker) !in PickerIds(s)
    ensures EntriesMatch(gs + [Group(x.picker, [x])], s + [x])
  {
    var gs' := gs + [Group(x.picker, [x])];
    forall j | 0 <= j < |gs'|
      ensures gs'[j].members == PicksOf(s + [x], GroupingKey(gs'[j].key))
      ensures gs'[j].members != [] && gs'[j].key == gs'[j].members[0].picker
    {
      PicksOfSnoc(s, x, GroupingKey(gs'[j].key));
      if j < |gs| {
        assert gs[j] in gs;
      } else {
        PicksOfAbsent(s, GroupingKey(x.picker));
      }
    }
  }

  lemma {:induction false} NewDistinctKeys(gs: seq<Group>, g: Group)
    requires DistinctKeys(gs) && GroupingKey(g.key) !in KeyIds(gs)
    ensures DistinctKeys(gs + [g])
  {
    var gs' := gs + [g];
    forall j, k | 0 <= j < k < |gs'| ensures GroupingKey(gs'[j].key) != GroupingKey(gs'[k].key) {
      if k == |gs| {
        assert gs[j] in gs;
      }
    }
  }

  /** The fold step when the picker has no entry yet. */
  lemma {:induction false} AddPickToNew(gs: seq<Group>, s: seq<PickRequest>, x: PickRequest)
    requires GroupedBy(gs, s)
    requires FindGroup(gs, x.picker) == |gs|
    ensures GroupedBy(AddPick(gs, x), s + [x])
  {
    var id := GroupingKey(x.picker);
    var g' := Group(x.picker, [x]);
    var gs' := gs + [g'];
    assert AddPick(gs, x) == gs';
    forall g | g in gs ensures GroupingKey(g.key) != id {
      var j :| 0 <= j < |gs| && gs[j] == g;
      assert !x.picker.Equals(Some(gs[j].key));
    }
    assert id !in KeyIds(gs);
    PickerIdsSnoc(s, x);
    TotalMembersConcat(gs, [g']);
    assert KeyIds(gs') == KeyIds(gs) + {id};
    NewEntriesMatch(gs, s, x);
    NewDistinctKeys(gs, g');
  }

  /** One step of the fold keeps the grouping invariant. */
  lemma AddPickGroups(gs: seq<Group>, s: seq<PickRequest>, x: PickRequest)
    requires GroupedBy(gs, s)
    ensures GroupedBy(AddPick(gs, x), s + [x])
  {
    var i := FindGroup(gs, x.picker);
    if i < |gs| {
      AddPickToExisting(gs, s, x, i);
    } else {
      AddPickToNew(gs, s, x);
    }
  }

  /**
   * groupingBy builds one entry per picker id, in order of first
   * appearance; each entry holds exactly that picker's picks in encounter
   * order, its key is the picker of the first of them, and no pick is lost.
   */
  lemma {:induction false} GroupByPickerGroups(s: seq<PickRequest>)
    ensures GroupedBy(GroupByPicker(s), s)
  {
    if s == [] {
      assert PickerIds(s) == {};
    } else {
      var init, last := s[..|s| - 1], s[|s| - 1];
      GroupByPickerGroups(init);
      AddPickGroups(GroupByPicker(init), init, last);
      SplitLast(s);
    }
  }

  /** A pick with a given key is counted in PicksOf as often as it occurs in s. */
  lemma {:induction false} PicksOfCount(s: seq<PickRequest>, id: string, p: PickRequest)
    ensures multiset(PicksOf(s, id))[p] == if GroupingKey(p.picker) == id then multiset(s)[p] else 0
  {
    if s != [] {
      var init := s[..|s| - 1];
      PicksOfCount(init, id, p);
      SplitLast(s);
    }
  }

  lemma HeadKeyNotInTail(gs: seq<Group>)
    requires gs != [] && DistinctKeys(gs)
    ensures forall h :: h in gs[1..] ==> GroupingKey(h.key) != GroupingKey(gs[0].key)
  {
    forall h | h in gs[1..] ensures GroupingKey(h.key) != GroupingKey(gs[0].key) {
      var m :| 0 <= m < |gs[1..]| && gs[1..][m] == h;
      assert gs[m + 1] == h;
    }
  }

  lemma KeyIdsCons(gs: seq<Group>)
    requires gs != []
    ensures KeyIds(gs) == {GroupingKey(gs[0].key)} + KeyIds(gs[1..])
  {
    forall k | k in KeyIds(gs) ensures k in {GroupingKey(gs[0].key)} + KeyIds(gs[1..]) {
      var h :| h in gs && GroupingKey(h.key) == k;
      var m :| 0 <= m < |gs| && gs[m] == h;
      if m > 0 {
        assert gs[1..][m - 1] == h;
      }
    }
    forall k | k in KeyIds(gs[1..]) ensures k in KeyIds(gs) {
      var h :| h in gs[1..] && GroupingKey(h.key) == k;
      assert h in gs;
    }
    assert gs[0] in gs;
  }

  /** With pairwise distinct keys there are as many keys as entries. */
  lemma {:induction false} DistinctKeysCount(gs: seq<Group>)
    requires DistinctKeys(gs)
    ensures |KeyIds(gs)| == |gs|
  {
    if gs != [] {
      var rest := gs[1..];
      assert DistinctKeys(rest);
      DistinctKeysCount(rest);
      KeyIdsCons(gs);
      HeadKeyNotInTail(gs);
      assert GroupingKey(gs[0].key) !in KeyIds(rest);
    }
  }

  /** Reordering the entries keeps each entry matching its picks. */
  lemma EntriesMatchPermuted(gs: seq<Group>, es: seq<Group>, s: seq<PickRequest>)
    requires multiset(gs) == multiset(es) && EntriesMatch(gs, s)
    ensures EntriesMatch(es, s)
  {
    forall i | 0 <= i < |es|
      ensures es[i].members == PicksOf(s, GroupingKey(es[i].key))
      ensures es[i].members != [] && es[i].key == es[i].members[0].picker
    {
      assert es[i] in multiset(gs);
      var j :| 0 <= j < |gs| && gs[j] == es[i];
    }
  }

  /** Reordering the entries keeps the set of keys. */
  lemma KeyIdsPermuted(gs: seq<Group>, es: seq<Group>)
    requires multiset(gs) == multiset(es)
    ensures KeyIds(es) == KeyIds(gs)
  {
    forall k | k in KeyIds(es) ensures k in KeyIds(gs) {
      var h :| h in es && GroupingKey(h.key) == k;
      assert h in multiset(gs);
    }
    forall k | k in KeyIds(gs) ensures k in KeyIds(es) {
      var h :| h in gs && GroupingKey(h.key) == k;
      assert h in multiset(es);
    }
  }
}
