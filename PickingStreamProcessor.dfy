/**
 * The aggregation of PickingStreamProcessor.process, from the pick requests
 * read from the source to the list of picker summaries written to the sink:
 * keep the ambient picks, group them by picker, sort the groups by
 * (activeSince, id), sort each group's picks by timestamp and turn each
 * pick into a response with the article name upper-cased.
 */
module PickingStreamProcessor {
  import opened Model
  import opened Grouping
  import opened Sorting
  import JavaStrings

  /** REQUIRED_TEMPERATURE_ZONE. */
  const RequiredTemperatureZone: TemperatureZone := Ambient

  /** requiredArticles(): the pick's article is in the required zone. */
  predicate RequiredArticles(p: PickRequest): (r: bool)
    ensures r <==> p.article.temperatureZone.Ambient?
    ensures p.article.temperatureZone == Chilled ==> !r
  {
    p.article.temperatureZone == RequiredTemperatureZone
  }

  /** filter(requiredArticles()): the required picks, in input order. */
  function FilterRequired(s: seq<PickRequest>): (r: seq<PickRequest>)
    ensures |r| <= |s|
    ensures forall p :: p in r <==> p in s && RequiredArticles(p)
  {
    if s == [] then []
    else FilterRequired(s[..|s| - 1]) + (if RequiredArticles(s[|s| - 1]) then [s[|s| - 1]] else [])
  }

  /**
   * toPickResponse(): the pick's timestamp unchanged, and the upper case of
   * its article's name.
   */
  function ToPickResponse(p: PickRequest): (r: PickResponse)
    ensures r.timestamp == p.timestamp
    ensures |r.name| == |p.article.name|
    ensures forall c :: c in r.name ==> !JavaStrings.IsLowerAscii(c)
    ensures forall k :: 0 <= k < |p.article.name| ==> r.name[k] == JavaStrings.ToUpperChar(p.article.name[k])
  {
    PickResponse(JavaStrings.ToUpperCase(p.article.name), p.timestamp)
  }

  /** map(toPickResponse()) over a list of picks. */
  function ToPickResponses(ps: seq<PickRequest>): (r: seq<PickResponse>)
    ensures |r| == |ps|
  {
    seq(|ps|, k requires 0 <= k < |ps| => ToPickResponse(ps[k]))
  }

  /** toPickerWithPicks(): one summary for one map entry. */
  function ToPickerWithPicks(e: Group): (r: PickerWithPicks)
    ensures r.name == e.key.name && r.activeSince == e.key.activeSince
    ensures |r.picks| == |e.members|
    ensures forall k, l :: 0 <= k < l < |r.picks| ==> r.picks[k].timestamp <= r.picks[l].timestamp
    ensures forall x :: x in e.members ==> ToPickResponse(x) in r.picks
  {
    var sorted := SortByTimestamp(e.members);
    SortByTimestampSorted(e.members);
    assert |multiset(sorted)| == |multiset(e.members)|;
    ToPickResponsesOrdered(sorted);
    ToPickResponsesCover(e.members, sorted);
    PickerWithPicks(e.key.name, e.key.activeSince, ToPickResponses(sorted))
  }

  /** Responses keep the timestamp order of their picks. */
  lemma ToPickResponsesOrdered(ps: seq<PickRequest>)
    requires SortedByTimestamp(ps)
    ensures var r := ToPickResponses(ps);
      forall k, l :: 0 <= k < l < |r| ==> r[k].timestamp <= r[l].timestamp
  {
  }

  /** A rearrangement of ms yields a response for every pick of ms. */
  lemma ToPickResponsesCover(ms: seq<PickRequest>, ps: seq<PickRequest>)
    requires multiset(ps) == multiset(ms)
    ensures forall x :: x in ms ==> ToPickResponse(x) in ToPickResponses(ps)
  {
    forall x | x in ms ensures ToPickResponse(x) in ToPickResponses(ps) {
      assert x in multiset(ps);
      var k :| 0 <= k < |ps| && ps[k] == x;
      assert ToPickResponses(ps)[k] == ToPickResponse(x);
    }
  }

  /**
   * The map entries of the grouped required picks, in sorted order: no
   * more entries than required picks, and every required pick held once.
   */
  function Entries(requests: seq<PickRequest>): (r: seq<Group>)
    ensures |r| <= |FilterRequired(requests)|
    ensures TotalMembers(r) == |FilterRequired(requests)|
  {
    var gs := GroupByPicker(FilterRequired(requests));
    SortGroupsTotal(gs);
    SortGroups(gs)
  }

  /** The list of summaries that process writes to the sink. */
  function Process(requests: seq<PickRequest>): (r: seq<PickerWithPicks>)
    ensures |r| == |Entries(requests)|
  {
    var es := Entries(requests);
    seq(|es|, i requires 0 <= i < |es| => ToPickerWithPicks(es[i]))
  }

  /** The ids of the pickers that have at least one required pick. */
  ghost function RequiredPickerIds(requests: seq<PickRequest>): set<string> {
    set p | p in requests && RequiredArticles(p) :: GroupingKey(p.picker)
  }

  /** The number of responses over all summaries. */
  function TotalResponses(out: seq<PickerWithPicks>): nat {
    if out == [] then 0 else |out[0].picks| + TotalResponses(out[1..])
  }

  // ---------------------------------------------------------------------
  // Lemmas

  /** A required pick occurs among the required picks as often as in the input. */
  lemma {:induction false} FilterRequiredCount(s: seq<PickRequest>, p: PickRequest)
    ensures multiset(FilterRequired(s))[p] == if RequiredArticles(p) then multiset(s)[p] else 0
  {
    if s != [] {
      var init := s[..|s| - 1];
      FilterRequiredCount(init, p);
      SplitLast(s);
    }
  }

  /**
   * The sorted entries group the required picks: their keys are distinct
   * and strictly ascending, each holds exactly its picker's required picks
   * in input order and is keyed by the first of them, every picker with a
   * required pick has an entry, and no required pick is lost.
   */
  lemma EntriesGroupRequired(requests: seq<PickRequest>)
    ensures var es, a := Entries(requests), FilterRequired(requests);
      && DistinctKeys(es) && StrictlyAscending(es)
      && EntriesMatch(es, a)
      && KeyIds(es) == PickerIds(a)
      && TotalMembers(es) == |a|
  {
    var a := FilterRequired(requests);
    var gs := GroupByPicker(a);
    var es := Entries(requests);
    GroupByPickerGroups(a);
    SortGroupsCorrect(gs);
    EntriesMatchPermuted(gs, es, a);
    KeyIdsPermuted(gs, es);
  }

  lemma {:induction false} FilterRequiredNone(s: seq<PickRequest>)
    requires forall p :: p in s ==> !RequiredArticles(p)
    ensures FilterRequired(s) == []
  {
    if s != [] {
      assert s[|s| - 1] in s;
      FilterRequiredNone(s[..|s| - 1]);
    }
  }

  /** When every pick is required the filter keeps the input as it is. */
  lemma {:induction false} FilterRequiredAll(s: seq<PickRequest>)
    requires forall p :: p in s ==> RequiredArticles(p)
    ensures FilterRequired(s) == s
  {
    if s != [] {
      var init, last := s[..|s| - 1], s[|s| - 1];
      assert last in s && RequiredArticles(last);
      assert forall p :: p in init ==> p in s;
      FilterRequiredAll(init);
      SplitLast(s);
    }
  }

  /** Without required picks, including on empty input, the output is empty. */
  lemma ProcessWithoutRequiredIsEmpty(requests: seq<PickRequest>)
    requires forall p :: p in requests ==> !RequiredArticles(p)
    ensures Process(requests) == []
  {
    FilterRequiredNone(requests);
  }

  /**
   * There is exactly one summary per picker id among the required picks: a
   * picker whose picks are all chilled gets none, and no id gets two.
   */
  lemma ProcessOneEntryPerPicker(requests: seq<PickRequest>)
    ensures |Process(requests)| == |RequiredPickerIds(requests)|
    ensures forall i :: 0 <= i < |Entries(requests)| ==>
      GroupingKey(Entries(requests)[i].key) in RequiredPickerIds(requests)
    ensures forall id :: id in RequiredPickerIds(requests) ==>
      exists i :: 0 <= i < |Entries(requests)| && GroupingKey(Entries(requests)[i].key) == id
    ensures DistinctKeys(Entries(requests))
  {
    var es := Entries(requests);
    EntriesGroupRequired(requests);
    EntryKeysAreRequiredPickers(requests);
    DistinctKeysCount(es);
  }

  /** The keys of the entries are exactly the ids of the pickers with a required pick. */
  lemma EntryKeysAreRequiredPickers(requests: seq<PickRequest>)
    ensures KeyIds(Entries(requests)) == RequiredPickerIds(requests)
    ensures forall i :: 0 <= i < |Entries(requests)| ==>
      GroupingKey(Entries(requests)[i].key) in RequiredPickerIds(requests)
    ensures forall id :: id in RequiredPickerIds(requests) ==>
      exists i :: 0 <= i < |Entries(requests)| && GroupingKey(Entries(requests)[i].key) == id
  {
    var a := FilterRequired(requests);
    EntriesGroupRequired(requests);
    assert PickerIds(a) == RequiredPickerIds(requests);
    KeyIdsIndexed(Entries(requests));
  }

  /**
   * The summaries are strictly ascending by activeSince, with equal
   * activeSince ordered by ascending picker id (compareTo).
   */
  lemma ProcessEntriesAscending(requests: seq<PickRequest>)
    ensures var out, es := Process(requests), Entries(requests);
      forall i, j :: 0 <= i < j < |out| ==>
        out[i].activeSince < out[j].activeSince ||
        (out[i].activeSince == out[j].activeSince && JavaStrings.CompareTo(es[i].key.id, es[j].key.id) < 0)
  {
    var out, es := Process(requests), Entries(requests);
    EntriesGroupRequired(requests);
    forall i, j | 0 <= i < j < |out|
      ensures out[i].activeSince < out[j].activeSince ||
        (out[i].activeSince == out[j].activeSince && JavaStrings.CompareTo(es[i].key.id, es[j].key.id) < 0)
    {
      PickerBeforeMeaning(es[i].key, es[j].key);
    }
  }

  /**
   * A summary's name and activeSince are those of the picker of the first
   * required pick, in input order, with that summary's picker id.
   */
  lemma ProcessEntryFromFirstPick(requests: seq<PickRequest>, i: nat)
    requires i < |Process(requests)|
    ensures var picks := PicksOf(FilterRequired(requests), GroupingKey(Entries(requests)[i].key));
      && picks != []
      && Process(requests)[i].name == picks[0].picker.name
      && Process(requests)[i].activeSince == picks[0].picker.activeSince
  {
    EntriesGroupRequired(requests);
  }

  /**
   * The responses of a summary are those of its picker's required picks,
   * sorted by timestamp: non-decreasing, a permutation of those picks, and
   * picks with equal timestamps stay in input order.
   */
  lemma ProcessEntryPicks(requests: seq<PickRequest>, i: nat)
    requires i < |Process(requests)|
    ensures var picks := PicksOf(FilterRequired(requests), GroupingKey(Entries(requests)[i].key));
      var sorted := SortByTimestamp(picks);
      && Process(requests)[i].picks == ToPickResponses(sorted)
      && multiset(sorted) == multiset(picks)
      && SortedByTimestamp(sorted)
      && (forall t :: WithTimestamp(sorted, t) == WithTimestamp(picks, t))
  {
    EntriesGroupRequired(requests);
    var picks := PicksOf(FilterRequired(requests), GroupingKey(Entries(requests)[i].key));
    SortByTimestampCorrect(picks);
  }

  /** Within a summary the response timestamps never decrease. */
  lemma ProcessPicksAscending(requests: seq<PickRequest>, i: nat)
    requires i < |Process(requests)|
    ensures var picks := Process(requests)[i].picks;
      forall k, l :: 0 <= k < l < |picks| ==> picks[k].timestamp <= picks[l].timestamp
  {
    ProcessEntryPicks(requests, i);
  }

  /**
   * Only required picks reach the output: every response is the response of
   * a required input pick of that summary's picker.
   */
  lemma ProcessOnlyRequired(requests: seq<PickRequest>, i: nat, k: nat)
    requires i < |Process(requests)| && k < |Process(requests)[i].picks|
    ensures exists p :: (p in requests && RequiredArticles(p) &&
      GroupingKey(p.picker) == GroupingKey(Entries(requests)[i].key) &&
      Process(requests)[i].picks[k] == ToPickResponse(p))
  {
    ProcessEntryPicks(requests, i);
    var picks := PicksOf(FilterRequired(requests), GroupingKey(Entries(requests)[i].key));
    var sorted := SortByTimestamp(picks);
    assert sorted[k] in multiset(picks);
    var p := sorted[k];
    assert p in FilterRequired(requests);
  }

  /** The entry of the picker of a required input pick. */
  lemma EntryOfRequiredPick(requests: seq<PickRequest>, p: PickRequest) returns (i: nat)
    requires p in requests && RequiredArticles(p)
    ensures i < |Entries(requests)| && GroupingKey(Entries(requests)[i].key) == GroupingKey(p.picker)
    ensures Entries(requests)[i].members == PicksOf(FilterRequired(requests), GroupingKey(p.picker))
  {
    var es, a := Entries(requests), FilterRequired(requests);
    EntriesGroupRequired(requests);
    assert p in a;
    assert GroupingKey(p.picker) in PickerIds(a);
    var h :| h in es && GroupingKey(h.key) == GroupingKey(p.picker);
    i :| 0 <= i < |es| && es[i] == h;
  }

  /** An entry holds no pick of another picker. */
  lemma EntryHoldsOnlyItsPicker(requests: seq<PickRequest>, j: nat, p: PickRequest)
    requires j < |Entries(requests)| && GroupingKey(Entries(requests)[j].key) != GroupingKey(p.picker)
    ensures p !in Entries(requests)[j].members
  {
    EntriesGroupRequired(requests);
  }

  /** A pick in an entry's members has its response in that summary. */
  lemma ResponseOfMember(requests: seq<PickRequest>, i: nat, p: PickRequest)
    requires i < |Entries(requests)| && p in Entries(requests)[i].members
    ensures ToPickResponse(p) in Process(requests)[i].picks
  {
    assert Process(requests)[i] == ToPickerWithPicks(Entries(requests)[i]);
  }

  /**
   * Every required input pick is in the summary of its own picker, as many
   * times as it occurs in the input, and in no other summary.
   */
  lemma ProcessEachRequiredPickOnce(requests: seq<PickRequest>, p: PickRequest)
    requires p in requests && RequiredArticles(p)
    ensures exists i :: (0 <= i < |Entries(requests)|
      && GroupingKey(Entries(requests)[i].key) == GroupingKey(p.picker)
      && ToPickResponse(p) in Process(requests)[i].picks
      && multiset(SortByTimestamp(Entries(requests)[i].members))[p] == multiset(requests)[p]
      && (forall j :: 0 <= j < |Entries(requests)| && j != i ==> p !in Entries(requests)[j].members))
  {
    var es, a := Entries(requests), FilterRequired(requests);
    var i := EntryOfRequiredPick(requests, p);
    PicksOfCount(a, GroupingKey(p.picker), p);
    FilterRequiredCount(requests, p);
    ResponseOfMember(requests, i, p);
    forall j | 0 <= j < |es| && j != i ensures p !in es[j].members {
      EntriesGroupRequired(requests);
      EntryHoldsOnlyItsPicker(requests, j, p);
    }
  }

  /** Picks of pickers that are equal (same id) land in one summary. */
  lemma ProcessGroupsEqualPickers(requests: seq<PickRequest>, p: PickRequest, q: PickRequest)
    requires p in requests && q in requests && RequiredArticles(p) && RequiredArticles(q)
    requires p.picker.Equals(Some(q.picker))
    ensures exists i :: (0 <= i < |Entries(requests)| &&
      p in Entries(requests)[i].members && q in Entries(requests)[i].members)
  {
    var i := EntryOfRequiredPick(requests, p);
    var a := FilterRequired(requests);
    assert p in a && q in a;
  }

  lemma {:induction false} TotalsAgree(out: seq<PickerWithPicks>, es: seq<Group>)
    requires |out| == |es|
    requires forall i :: 0 <= i < |out| ==> |out[i].picks| == |es[i].members|
    ensures TotalResponses(out) == TotalMembers(es)
  {
    if out != [] {
      TotalsAgree(out[1..], es[1..]);
    }
  }

  /** There are as many responses over all summaries as required input picks. */
  lemma ProcessTotalResponses(requests: seq<PickRequest>)
    ensures TotalResponses(Process(requests)) == |FilterRequired(requests)|
  {
    var out, es := Process(requests), Entries(requests);
    EntriesGroupRequired(requests);
    forall i | 0 <= i < |out| ensures |out[i].picks| == |es[i].members| {
      SortByTimestampCorrect(es[i].members);
    }
    TotalsAgree(out, es);
  }
}
