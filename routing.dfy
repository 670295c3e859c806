/**
 * The protocol-range routing table (`ServerConfigManager`): membership
 * refresh into the instance map, the sorted and grouped list rebuilt from
 * it, and the lookup of a group for a protocol id.
 */
module Routing {
  import opened JavaTypes
  import opened ServerConfigs

  // ---------------------------------------------------------------------
  // Membership refresh, as a function of the old map and the feed
  // ---------------------------------------------------------------------

  /** A descriptor passes the filter: it is not the excluded (own) instance and it is healthy. */
  predicate Admitted(inst: Instance, excludeInstanceId: Option<string>) {
    excludeInstanceId != Some(inst.instanceId) && inst.healthy
  }

  /** The instance map after a refresh, and the exception that cut it short if any. */
  datatype Refreshed = Refreshed(configs: map<string, ServerConfig>, failure: Option<NumberFormatError>)

  /**
   * Walks the feed in order: skips descriptors that are not admitted, upserts
   * the record of every admitted one under its instance id, and stops at the
   * first admitted descriptor whose metadata does not parse.
   */
  function Refresh(configs: map<string, ServerConfig>, instances: seq<Instance>,
                   excludeInstanceId: Option<string>): (r: Refreshed)
    ensures configs.Keys <= r.configs.Keys
    decreases |instances|
  {
    if instances == [] then Refreshed(configs, None)
    else if !Admitted(instances[0], excludeInstanceId) then
      Refresh(configs, instances[1..], excludeInstanceId)
    else
      match ToServerConfig(instances[0])
      case Err(e) => Refreshed(configs, Some(e))
      case Ok(c) => Refresh(configs[instances[0].instanceId := c], instances[1..], excludeInstanceId)
  }

  /**
   * An id none of whose descriptors is admitted keeps exactly the entry it
   * had (or stays absent): the map is never pruned.
   */
  lemma {:induction false} RefreshKeepsUnadmitted(configs: map<string, ServerConfig>, instances: seq<Instance>,
                                                  excludeInstanceId: Option<string>, id: string)
    requires forall i :: 0 <= i < |instances| && instances[i].instanceId == id ==>
               !Admitted(instances[i], excludeInstanceId)
    ensures var r := Refresh(configs, instances, excludeInstanceId).configs;
            (id in r <==> id in configs) && (id in configs ==> r[id] == configs[id])
    decreases |instances|
  {
    if instances != [] {
      assert forall i :: 0 <= i < |instances| - 1 ==> instances[1..][i] == instances[i + 1];
      if !Admitted(instances[0], excludeInstanceId) {
        RefreshKeepsUnadmitted(configs, instances[1..], excludeInstanceId, id);
      } else if ToServerConfig(instances[0]).Ok? {
        var c := ToServerConfig(instances[0]).value;
        assert instances[0].instanceId != id;
        RefreshKeepsUnadmitted(configs[instances[0].instanceId := c], instances[1..], excludeInstanceId, id);
      }
    }
  }

  /** The own instance never enters a map it was not already in. */
  lemma RefreshNeverAddsExcluded(configs: map<string, ServerConfig>, instances: seq<Instance>, self: string)
    requires self !in configs
    ensures self !in Refresh(configs, instances, Some(self)).configs
  {
    RefreshKeepsUnadmitted(configs, instances, Some(self), self);
  }

  /**
   * An id that only appears unhealthy in a refresh is neither added nor
   * updated: a record that was present keeps its earlier value.
   */
  lemma RefreshIgnoresUnhealthy(configs: map<string, ServerConfig>, instances: seq<Instance>,
                                excludeInstanceId: Option<string>, id: string)
    requires forall i :: 0 <= i < |instances| && instances[i].instanceId == id ==> !instances[i].healthy
    ensures var r := Refresh(configs, instances, excludeInstanceId).configs;
            (id in r <==> id in configs) && (id in configs ==> r[id] == configs[id])
  {
    RefreshKeepsUnadmitted(configs, instances, excludeInstanceId, id);
  }

  /** Every id a refresh adds belongs to an admitted descriptor of the feed. */
  lemma {:induction false} RefreshAddsOnlyAdmitted(configs: map<string, ServerConfig>, instances: seq<Instance>,
                                                   excludeInstanceId: Option<string>, id: string)
    requires id in Refresh(configs, instances, excludeInstanceId).configs && id !in configs
    ensures exists i :: 0 <= i < |instances| && instances[i].instanceId == id && Admitted(instances[i], excludeInstanceId)
  {
    if forall i :: 0 <= i < |instances| && instances[i].instanceId == id ==> !Admitted(instances[i], excludeInstanceId) {
      RefreshKeepsUnadmitted(configs, instances, excludeInstanceId, id);
      assert false;
    }
  }

  /**
   * After a refresh without exception, the entry of an id is the record built
   * from its last admitted descriptor: later descriptors overwrite earlier ones.
   */
  lemma {:induction false} RefreshStoresLastAdmitted(configs: map<string, ServerConfig>, instances: seq<Instance>,
                                                     excludeInstanceId: Option<string>, j: nat)
    requires j < |instances| && Admitted(instances[j], excludeInstanceId)
    requires forall k :: j < k < |instances| && instances[k].instanceId == instances[j].instanceId ==>
               !Admitted(instances[k], excludeInstanceId)
    requires Refresh(configs, instances, excludeInstanceId).failure == None
    ensures ToServerConfig(instances[j]).Ok?
    ensures var r := Refresh(configs, instances, excludeInstanceId).configs;
            instances[j].instanceId in r && r[instances[j].instanceId] == ToServerConfig(instances[j]).value
    decreases |instances|
  {
    var id := instances[j].instanceId;
    var rest := instances[1..];
    assert forall i :: 0 <= i < |rest| ==> rest[i] == instances[i + 1];
    if j == 0 {
      var c := ToServerConfig(instances[0]).value;
      RefreshKeepsUnadmitted(configs[id := c], rest, excludeInstanceId, id);
    } else if !Admitted(instances[0], excludeInstanceId) {
      RefreshStoresLastAdmitted(configs, rest, excludeInstanceId, j - 1);
    } else {
      var c := ToServerConfig(instances[0]).value;
      RefreshStoresLastAdmitted(configs[instances[0].instanceId := c], rest, excludeInstanceId, j - 1);
    }
  }

  /**
   * The first admitted descriptor that does not parse aborts the refresh with
   * its exception; the records upserted before it stay in the map.
   */
  lemma {:induction false} RefreshStopsAtFirstFailure(configs: map<string, ServerConfig>, instances: seq<Instance>,
                                                      excludeInstanceId: Option<string>, j: nat)
    requires j < |instances| && Admitted(instances[j], excludeInstanceId) && ToServerConfig(instances[j]).Err?
    requires forall i :: 0 <= i < j && Admitted(instances[i], excludeInstanceId) ==> ToServerConfig(instances[i]).Ok?
    ensures Refresh(configs, instances, excludeInstanceId)
         == Refreshed(Refresh(configs, instances[..j], excludeInstanceId).configs, Some(ToServerConfig(instances[j]).error))
    decreases j
  {
    if j == 0 {
      assert instances[..0] == [];
    } else {
      var rest := instances[1..];
      assert instances[..j][1..] == rest[..j - 1];
      assert forall i :: 0 <= i < |rest| ==> rest[i] == instances[i + 1];
      if !Admitted(instances[0], excludeInstanceId) {
        RefreshStopsAtFirstFailure(configs, rest, excludeInstanceId, j - 1);
      } else {
        var c := ToServerConfig(instances[0]).value;
        RefreshStopsAtFirstFailure(configs[instances[0].instanceId := c], rest, excludeInstanceId, j - 1);
      }
    }
  }

  /** A refresh completes exactly when every admitted descriptor parses. */
  lemma {:induction false} RefreshSucceedsIffAllParse(configs: map<string, ServerConfig>, instances: seq<Instance>,
                                                      excludeInstanceId: Option<string>)
    ensures Refresh(configs, instances, excludeInstanceId).failure == None <==>
            forall i :: 0 <= i < |instances| && Admitted(instances[i], excludeInstanceId) ==> ToServerConfig(instances[i]).Ok?
    decreases |instances|
  {
    if instances != [] {
      var rest := instances[1..];
      assert forall i :: 0 <= i < |rest| ==> rest[i] == instances[i + 1];
      if !Admitted(instances[0], excludeInstanceId) {
        RefreshSucceedsIffAllParse(configs, rest, excludeInstanceId);
      } else if ToServerConfig(instances[0]).Ok? {
        RefreshSucceedsIffAllParse(configs[instances[0].instanceId := ToServerConfig(instances[0]).value], rest, excludeInstanceId);
      }
    }
  }

  // ---------------------------------------------------------------------
  // Sort by minProtoId (List.sort with Comparator.comparingInt: stable)
  // ---------------------------------------------------------------------

  predicate SortedByMin(s: seq<ServerConfig>) {
    forall i, j :: 0 <= i < j < |s| ==> s[i].minProtoId <= s[j].minProtoId
  }

  /** A record no larger than the head of a sorted list can go in front of it. */
  lemma ConsSorted(x: ServerConfig, t: seq<ServerConfig>)
    requires SortedByMin(t) && (t != [] ==> x.minProtoId <= t[0].minProtoId)
    ensures SortedByMin([x] + t)
  {
  }

  /** Inserts `c` before the first element whose minProtoId is not smaller. */
  function InsertByMin(c: ServerConfig, s: seq<ServerConfig>): (r: seq<ServerConfig>)
    requires SortedByMin(s)
    ensures SortedByMin(r)
    ensures |r| == |s| + 1 && (r[0] == c || (s != [] && r[0] == s[0]))
  {
    if s == [] || c.minProtoId <= s[0].minProtoId then
      ConsSorted(c, s);
      [c] + s
    else
      assert SortedByMin(s[1..]);
      var t := InsertByMin(c, s[1..]);
      ConsSorted(s[0], t);
      [s[0]] + t
  }

  /** Insertion adds exactly the inserted record. */
  lemma {:induction false} InsertByMinPermutes(c: ServerConfig, s: seq<ServerConfig>)
    requires SortedByMin(s)
    ensures multiset(InsertByMin(c, s)) == multiset(s) + multiset{c}
  {
    if !(s == [] || c.minProtoId <= s[0].minProtoId) {
      assert SortedByMin(s[1..]);
      InsertByMinPermutes(c, s[1..]);
      assert s == [s[0]] + s[1..];
    }
  }

  /** A stable sort by minProtoId. */
  function SortByMin(s: seq<ServerConfig>): (r: seq<ServerConfig>)
    ensures SortedByMin(r)
    ensures multiset(r) == multiset(s)
  {
    if s == [] then []
    else
      assert s == [s[0]] + s[1..];
      InsertByMinPermutes(s[0], SortByMin(s[1..]));
      InsertByMin(s[0], SortByMin(s[1..]))
  }

  /** The records of `s` whose minProtoId is `v`, in order. */
  function WithMin(s: seq<ServerConfig>, v: int): seq<ServerConfig> {
    if s == [] then []
    else (if s[0].minProtoId == v then [s[0]] else []) + WithMin(s[1..], v)
  }

  lemma {:induction false} WithMinInsert(c: ServerConfig, s: seq<ServerConfig>, v: int)
    requires SortedByMin(s)
    ensures WithMin(InsertByMin(c, s), v) == (if c.minProtoId == v then [c] else []) + WithMin(s, v)
  {
    var r := InsertByMin(c, s);
    var own := if c.minProtoId == v then [c] else [];
    if s != [] && c.minProtoId > s[0].minProtoId {
      var t := InsertByMin(c, s[1..]);
      assert r == [s[0]] + t;
      assert r[1..] == t;
      var head := if s[0].minProtoId == v then [s[0]] else [];
      calc {
        WithMin(r, v);
        head + WithMin(t, v);
        { WithMinInsert(c, s[1..], v); }
        head + (own + WithMin(s[1..], v));
        { assert head == [] || own == []; }
        own + (head + WithMin(s[1..], v));
        own + WithMin(s, v);
      }
    } else {
      assert r == [c] + s;
      assert r[1..] == s;
    }
  }

  /**
   * The sort is stable: the records sharing one minProtoId keep their
   * relative order, so the first member of each group is the first such
   * record in the order the map's values were extracted.
   */
  lemma {:induction false} SortByMinStable(s: seq<ServerConfig>, v: int)
    ensures WithMin(SortByMin(s), v) == WithMin(s, v)
  {
    if s != [] {
      SortByMinStable(s[1..], v);
      WithMinInsert(s[0], SortByMin(s[1..]), v);
    }
  }

  // ---------------------------------------------------------------------
  // Grouping by equal minProtoId
  // ---------------------------------------------------------------------

  /** The concatenation of all groups, in list order. */
  function Flatten(gs: seq<seq<ServerConfig>>): seq<ServerConfig> {
    if gs == [] then [] else Flatten(gs[..|gs| - 1]) + gs[|gs| - 1]
  }

  /** A non-empty group whose members share one minProtoId. */
  predicate Uniform(g: seq<ServerConfig>) {
    |g| > 0 && forall k :: 0 <= k < |g| ==> g[k].minProtoId == g[0].minProtoId
  }

  /** Every group is uniform, and minProtoId strictly increases from group to group. */
  predicate WellGrouped(gs: seq<seq<ServerConfig>>) {
    && (forall i :: 0 <= i < |gs| ==> Uniform(gs[i]))
    && (forall i, j :: 0 <= i < j < |gs| ==> gs[i][0].minProtoId < gs[j][0].minProtoId)
  }

  /** The multiset of the values of a map (one occurrence per key). */
  ghost function ValuesOf(m: map<string, ServerConfig>): multiset<ServerConfig>
    decreases |m|
  {
    if m == map[] then multiset{}
    else
      var k :| k in m;
      RemoveShrinks(m, k);
      multiset{m[k]} + ValuesOf(m - {k})
  }

  lemma RemoveShrinks(m: map<string, ServerConfig>, k: string)
    requires k in m
    ensures |m - {k}| == |m| - 1
  {
    assert (m - {k}).Keys == m.Keys - {k};
  }

  /** Any key may be taken out first: the choice in ValuesOf does not matter. */
  lemma {:induction false} ValuesOfRemove(m: map<string, ServerConfig>, k: string)
    requires k in m
    ensures ValuesOf(m) == multiset{m[k]} + ValuesOf(m - {k})
    decreases |m|
  {
    var j :| j in m && ValuesOf(m) == multiset{m[j]} + ValuesOf(m - {j});
    if j != k {
      RemoveShrinks(m, j);
      RemoveShrinks(m, k);
      var mj := m - {j};
      var mk := m - {k};
      var rest := mj - {k};
      assert mj - {k} == mk - {j};
      assert mj[k] == m[k] && mk[j] == m[j];
      ValuesOfRemove(mj, k);
      ValuesOfRemove(mk, j);
      assert ValuesOf(mj) == multiset{m[k]} + ValuesOf(rest);
      assert ValuesOf(mk) == multiset{m[j]} + ValuesOf(rest);
    }
  }

  lemma ValuesOfEmpty(m: map<string, ServerConfig>)
    ensures ValuesOf(m) == multiset{} <==> m == map[]
  {
    if m != map[] {
      var k :| k in m;
      ValuesOfRemove(m, k);
      assert m[k] in ValuesOf(m);
    }
  }

  /** `gs` is a valid result of grouping the values of `m`. */
  ghost predicate IsGroupingOf(gs: seq<seq<ServerConfig>>, m: map<string, ServerConfig>) {
    WellGrouped(gs) && multiset(Flatten(gs)) == ValuesOf(m)
  }

  /** The concatenation of a well-grouped list is sorted by minProtoId. */
  lemma {:induction false} WellGroupedFlattenSorted(gs: seq<seq<ServerConfig>>)
    requires WellGrouped(gs)
    ensures SortedByMin(Flatten(gs))
    ensures gs != [] ==> forall k :: 0 <= k < |Flatten(gs)| ==> Flatten(gs)[k].minProtoId <= gs[|gs| - 1][0].minProtoId
  {
    if gs != [] {
      var init := gs[..|gs| - 1];
      var last := gs[|gs| - 1];
      assert WellGrouped(init);
      WellGroupedFlattenSorted(init);
      var f := Flatten(gs);
      assert f == Flatten(init) + last;
      forall k | 0 <= k < |Flatten(init)|
        ensures Flatten(init)[k].minProtoId < last[0].minProtoId
      {
        assert init[|init| - 1][0].minProtoId < last[0].minProtoId;
      }
    }
  }

  /** Appending a uniform group above every existing group keeps the list well grouped. */
  lemma CloseGroup(gs: seq<seq<ServerConfig>>, g: seq<ServerConfig>)
    requires WellGrouped(gs) && Uniform(g)
    requires forall i :: 0 <= i < |gs| ==> gs[i][0].minProtoId < g[0].minProtoId
    ensures WellGrouped(gs + [g])
    ensures Flatten(gs + [g]) == Flatten(gs) + g
  {
    var all: seq<seq<ServerConfig>> := gs + [g];
    forall i | 0 <= i < |all|
      ensures Uniform(all[i])
    {
      if i < |gs| {
        assert all[i] == gs[i];
      }
    }
    forall i, j | 0 <= i < j < |all|
      ensures all[i][0].minProtoId < all[j][0].minProtoId
    {
      assert all[i] == gs[i];
      if j < |gs| {
        assert all[j] == gs[j];
      }
    }
    FlattenAppend(gs, g);
  }

  lemma FlattenAppend(gs: seq<seq<ServerConfig>>, g: seq<ServerConfig>)
    ensures Flatten(gs + [g]) == Flatten(gs) + g
  {
    assert (gs + [g])[..|gs|] == gs;
  }

  /**
   * `new ArrayList<>(map.values())`: the values of the map, one per key, in
   * the map's iteration order, which HashMap leaves unspecified.
   */
  method MapValues(m: map<string, ServerConfig>) returns (values: seq<ServerConfig>)
    ensures multiset(values) == ValuesOf(m)
  {
    values := [];
    var rest := m;
    while rest != map[]
      invariant multiset(values) + ValuesOf(rest) == ValuesOf(m)
      decreases |rest|
    {
      var k :| k in rest;
      ValuesOfRemove(rest, k);
      RemoveShrinks(rest, k);
      values := values + [rest[k]];
      rest := rest - {k};
    }
  }

  /** Adding a record with the group's minProtoId to the open group keeps it uniform. */
  lemma ExtendGroup(result: seq<seq<ServerConfig>>, currentGroup: seq<ServerConfig>, config: ServerConfig,
                    prefix: seq<ServerConfig>)
    requires Flatten(result) + currentGroup == prefix
    requires Uniform(currentGroup) && config.minProtoId == currentGroup[0].minProtoId
    ensures Flatten(result) + (currentGroup + [config]) == prefix + [config]
    ensures Uniform(currentGroup + [config])
  {
  }

  /**
   * When a record with a larger minProtoId opens a new group, every group
   * closed so far, the just-closed one included, lies below it.
   */
  lemma ClosedGroupsBelow(result: seq<seq<ServerConfig>>, currentGroup: seq<ServerConfig>, config: ServerConfig)
    requires |currentGroup| > 0
    requires forall g :: 0 <= g < |result| ==> |result[g]| > 0 && result[g][0].minProtoId < currentGroup[0].minProtoId
    requires currentGroup[0].minProtoId < config.minProtoId
    ensures forall g :: 0 <= g < |result| + 1 ==> (result + [currentGroup])[g][0].minProtoId < config.minProtoId
  {
    var all: seq<seq<ServerConfig>> := result + [currentGroup];
    forall k | 0 <= k < |all|
      ensures all[k][0].minProtoId < config.minProtoId
    {
      if k < |result| {
        assert all[k] == result[k];
      }
    }
  }

  /**
   * Closing the open group and opening one for a record with a larger
   * minProtoId keeps the list well grouped and every closed group below the
   * new one.
   */
  lemma StartGroup(result: seq<seq<ServerConfig>>, currentGroup: seq<ServerConfig>, config: ServerConfig,
                   prefix: seq<ServerConfig>)
    requires Flatten(result) + currentGroup == prefix
    requires WellGrouped(result) && Uniform(currentGroup)
    requires forall g :: 0 <= g < |result| ==> result[g][0].minProtoId < currentGroup[0].minProtoId
    requires currentGroup[0].minProtoId < config.minProtoId
    ensures WellGrouped(result + [currentGroup])
    ensures Flatten(result + [currentGroup]) + [config] == prefix + [config]
    ensures forall g :: 0 <= g < |result| + 1 ==> (result + [currentGroup])[g][0].minProtoId < config.minProtoId
  {
    CloseGroup(result, currentGroup);
    ClosedGroupsBelow(result, currentGroup, config);
  }

  /**
   * The grouping loop of `sortAndGroupByMinProtoId`: cuts a sorted list
   * into maximal runs of equal minProtoId, in order.
   */
  method GroupSortedByMinProtoId(allConfigs: seq<ServerConfig>) returns (result: seq<seq<ServerConfig>>)
    requires SortedByMin(allConfigs)
    ensures WellGrouped(result)
    ensures Flatten(result) == allConfigs
  {
    result := [];
    if |allConfigs| == 0 {
      return;
    }
    var currentGroup := [allConfigs[0]];
    var currentMinProtoId := allConfigs[0].minProtoId;
    for i := 1 to |allConfigs|
      invariant Flatten(result) + currentGroup == allConfigs[..i]
      invariant WellGrouped(result)
      invariant Uniform(currentGroup) && currentGroup[0].minProtoId == currentMinProtoId
      invariant forall g :: 0 <= g < |result| ==> result[g][0].minProtoId < currentMinProtoId
      invariant currentMinProtoId == allConfigs[i - 1].minProtoId
    {
      var config := allConfigs[i];
      assert allConfigs[..i + 1] == allConfigs[..i] + [config];
      if config.minProtoId == currentMinProtoId {
        ExtendGroup(result, currentGroup, config, allConfigs[..i]);
        currentGroup := currentGroup + [config];
      } else {
        assert allConfigs[i - 1].minProtoId <= config.minProtoId;
        StartGroup(result, currentGroup, config, allConfigs[..i]);
        result := result + [currentGroup];
        currentGroup := [config];
        currentMinProtoId := config.minProtoId;
      }
    }
    CloseGroup(result, currentGroup);
    result := result + [currentGroup];
    assert allConfigs[..|allConfigs|] == allConfigs;
  }

  /**
   * `sortAndGroupByMinProtoId`: the map's values, in the map's (unspecified)
   * iteration order, stably sorted by minProtoId and cut into runs of equal
   * minProtoId.  Nothing is lost or duplicated, and the result is empty
   * exactly when the map is.
   */
  method SortAndGroupByMinProtoId(serverConfigMap: map<string, ServerConfig>)
    returns (result: seq<seq<ServerConfig>>)
    ensures WellGrouped(result)
    ensures multiset(Flatten(result)) == ValuesOf(serverConfigMap)
    ensures result == [] <==> serverConfigMap == map[]
  {
    var allConfigs := MapValues(serverConfigMap);
    allConfigs := SortByMin(allConfigs);
    result := GroupSortedByMinProtoId(allConfigs);
    ValuesOfEmpty(serverConfigMap);
  }

  // ---------------------------------------------------------------------
  // getChannelKey
  // ---------------------------------------------------------------------

  /**
   * The test getChannelKey applies to a group: only its first member is
   * compared, and only with its maxProtoId.
   */
  predicate Serves(g: seq<ServerConfig>, protocolId: int) {
    |g| > 0 && protocolId <= g[0].maxProtoId
  }

  /** The first group in list order that `Serves` the protocol id, or null. */
  function ChannelKey(gs: seq<seq<ServerConfig>>, protocolId: int): Option<seq<ServerConfig>> {
    if gs == [] then None
    else if Serves(gs[0], protocolId) then Some(gs[0])
    else ChannelKey(gs[1..], protocolId)
  }

  /** The group at the first serving position is the one returned. */
  lemma {:induction false} ChannelKeyIsFirstServing(gs: seq<seq<ServerConfig>>, protocolId: int, i: nat)
    requires i < |gs| && Serves(gs[i], protocolId)
    requires forall j :: 0 <= j < i ==> !Serves(gs[j], protocolId)
    ensures ChannelKey(gs, protocolId) == Some(gs[i])
  {
    if i > 0 {
      assert !Serves(gs[0], protocolId);
      ChannelKeyIsFirstServing(gs[1..], protocolId, i - 1);
    }
  }

  /** Null is returned exactly when no group's first member reaches the protocol id. */
  lemma {:induction false} ChannelKeyNone(gs: seq<seq<ServerConfig>>, protocolId: int)
    ensures ChannelKey(gs, protocolId) == None <==> forall i :: 0 <= i < |gs| ==> !Serves(gs[i], protocolId)
  {
    if gs != [] {
      ChannelKeyNone(gs[1..], protocolId);
      assert forall i :: 0 < i < |gs| ==> gs[i] == gs[1..][i - 1];
    }
  }

  /** A returned group is one of the list's groups and serves the protocol id. */
  lemma {:induction false} ChannelKeyFound(gs: seq<seq<ServerConfig>>, protocolId: int)
    requires ChannelKey(gs, protocolId).Some?
    ensures ChannelKey(gs, protocolId).value in gs
    ensures Serves(ChannelKey(gs, protocolId).value, protocolId)
  {
    if !Serves(gs[0], protocolId) {
      ChannelKeyFound(gs[1..], protocolId);
    }
  }

  /** No group: every lookup misses. */
  lemma EmptyTableRoutesNothing(gs: seq<seq<ServerConfig>>, protocolId: int)
    requires IsGroupingOf(gs, map[])
    ensures ChannelKey(gs, protocolId) == None
  {
  }

  /** Groups whose ranges do not overlap, in increasing order. */
  predicate Partitioned(gs: seq<seq<ServerConfig>>)
    requires WellGrouped(gs)
  {
    forall i, j :: 0 <= i < j < |gs| ==> gs[i][0].maxProtoId < gs[j][0].minProtoId
  }

  /**
   * Under the partition assumption the lookup finds the group whose first
   * member's range contains the protocol id.
   */
  lemma PartitionedRouting(gs: seq<seq<ServerConfig>>, protocolId: int, i: nat)
    requires WellGrouped(gs) && Partitioned(gs)
    requires i < |gs| && gs[i][0].minProtoId <= protocolId <= gs[i][0].maxProtoId
    ensures ChannelKey(gs, protocolId) == Some(gs[i])
  {
    ChannelKeyIsFirstServing(gs, protocolId, i);
  }

  /**
   * Two contiguous ranges, [1, 10] in group A and [11, 20] in group B:
   * 5 routes to A, 15 to B (the scan moves past A) and 25 to nothing.
   */
  lemma ContiguousRangesExample()
    ensures var a := ServerConfig(1, 1, "a", 0, 1, 10);
            var b := ServerConfig(2, 2, "b", 0, 11, 20);
            && ChannelKey([[a], [b]], 5) == Some([a])
            && ChannelKey([[a], [b]], 15) == Some([b])
            && ChannelKey([[a], [b]], 25) == None
  {
    var a := ServerConfig(1, 1, "a", 0, 1, 10);
    var b := ServerConfig(2, 2, "b", 0, 11, 20);
    assert [[a], [b]][1..] == [[b]] && [[b]][1..] == [];
    assert ChannelKey([[b]], 25) == ChannelKey([], 25) == None;
  }

  /** minProtoId is never consulted: an id below a group's range still routes to it. */
  lemma LookupIgnoresMinProtoId()
    ensures var b := ServerConfig(2, 2, "b", 0, 11, 20);
            ChannelKey([[b]], 5) == Some([b])
  {
  }

  /**
   * Only a group's first member is compared: a group whose second member
   * covers the id is not returned when its first member does not.
   */
  lemma LookupComparesFirstMemberOnly()
    ensures var a1 := ServerConfig(1, 1, "a1", 0, 1, 10);
            var a2 := ServerConfig(1, 2, "a2", 0, 1, 20);
            ChannelKey([[a1, a2]], 15) == None
  {
  }

  // ---------------------------------------------------------------------
  // The manager
  // ---------------------------------------------------------------------

  class ServerConfigManager {
    /** Every record seen so far, keyed by instance id. */
    var serverConfigMap: map<string, ServerConfig>
    /** The groups of the map's values, ordered by minProtoId. */
    var serverConfigList: seq<seq<ServerConfig>>

    constructor ()
      ensures serverConfigMap == map[] && serverConfigList == []
    {
      serverConfigMap := map[];
      serverConfigList := [];
    }

    /**
     * `refreshServerInstances`: upserts the records of the admitted
     * descriptors, then rebuilds the grouped list.  A descriptor whose
     * metadata does not parse throws: the records already upserted stay and
     * the list is not rebuilt.
     */
    method RefreshServerInstances(allInstances: seq<Instance>, excludeInstanceId: Option<string>)
      returns (failure: Option<NumberFormatError>)
      modifies this
      ensures Refreshed(serverConfigMap, failure) == Refresh(old(serverConfigMap), allInstances, excludeInstanceId)
      ensures failure.None? ==> IsGroupingOf(serverConfigList, serverConfigMap)
      ensures failure.Some? ==> serverConfigList == old(serverConfigList)
    {
      for i := 0 to |allInstances|
        invariant Refresh(serverConfigMap, allInstances[i..], excludeInstanceId)
               == Refresh(old(serverConfigMap), allInstances, excludeInstanceId)
        invariant serverConfigList == old(serverConfigList)
      {
        var inst := allInstances[i];
        assert allInstances[i..][1..] == allInstances[i + 1..];
        if excludeInstanceId == Some(inst.instanceId) {
          continue;
        }
        if !inst.healthy {
          continue;
        }
        var protoMaxId := ParseNullable(MetadataGet(inst.metadata, PROTO_MAX_ID));
        if protoMaxId.Err? {
          return Some(protoMaxId.error);
        }
        var protoMinId := ParseNullable(MetadataGet(inst.metadata, PROTO_MIN_ID));
        if protoMinId.Err? {
          return Some(protoMinId.error);
        }
        var groupId := ParseNullable(MetadataGet(inst.metadata, GROUP_ID));
        if groupId.Err? {
          return Some(groupId.error);
        }
        var serverId := ParseNullable(Some(inst.instanceId));
        if serverId.Err? {
          return Some(serverId.error);
        }
        var serverConfig := ServerConfig(groupId.value, serverId.value, inst.ip, inst.port,
                                          protoMinId.value, protoMaxId.value);
        serverConfigMap := serverConfigMap[inst.instanceId := serverConfig];
      }
      serverConfigList := SortAndGroupByMinProtoId(serverConfigMap);
      failure := None;
    }

    /**
     * `getChannelKey`: scans the groups in order and returns the first one
     * whose first member's maxProtoId is at least the protocol id, or null.
     */
    method GetChannelKey(protocolId: int32) returns (r: Option<seq<ServerConfig>>)
      ensures r == ChannelKey(serverConfigList, protocolId)
    {
      for i := 0 to |serverConfigList|
        invariant ChannelKey(serverConfigList[i..], protocolId) == ChannelKey(serverConfigList, protocolId)
      {
        var serverConfigs := serverConfigList[i];
        assert serverConfigList[i..][1..] == serverConfigList[i + 1..];
        for j := 0 to |serverConfigs|
          invariant j == 0
        {
          if protocolId > serverConfigs[j].maxProtoId {
            break;
          } else {
            return Some(serverConfigs);
          }
        }
      }
      return None;
    }
  }
}
