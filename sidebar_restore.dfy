/** What the sidebar's group list rebuilds itself from (sidebar/main.js):
    the browser's report of a window's tabs, and the stored group records and
    per-tab session values that populate and loadFromLocalStorage restore the
    groups from. The functions here say where each tab ends up; the methods
    build the groups and place the tab entries in them. */
module SidebarRestore {
  import opened Common
  import opened TabOrder
  import opened SidebarGroups

  /** The browser's report of a window's tabs as cached indices: each tab id
      with its index, a later record of the same id winning. */
  function HostIndex(host: seq<TabInfo>): (m: map<int, int>)
    ensures forall k :: 0 <= k < |host| ==> host[k].id in m
  {
    if |host| == 0 then map[]
    else HostIndex(host[..|host| - 1])[host[|host| - 1].id := host[|host| - 1].index]
  }

  /** The browser's report as the properties resync copies: each tab id with
      its record's properties, a later record of the same id winning. */
  function HostRecords(host: seq<TabInfo>): (m: map<int, TabRecord>)
    ensures forall k :: 0 <= k < |host| ==> host[k].id in m
  {
    if |host| == 0 then map[]
    else HostRecords(host[..|host| - 1])[host[|host| - 1].id := InfoRecord(host[|host| - 1])]
  }

  /** One more record overrides its id's properties. */
  lemma HostRecordsStep(base: map<int, TabRecord>, host: seq<TabInfo>, k: nat)
    requires k < |host|
    ensures base + HostRecords(host[..k + 1]) == (base + HostRecords(host[..k]))[host[k].id := InfoRecord(host[k])]
  {
    assert host[..k + 1][..k] == host[..k];
  }

  /** Every id HostIndex knows is the id of a record of the report. */
  lemma {:induction false} HostIndexKnows(host: seq<TabInfo>, id: int)
    requires id in HostIndex(host)
    ensures exists k :: 0 <= k < |host| && host[k].id == id
  {
    var n := |host| - 1;
    if host[n].id != id {
      HostIndexKnows(host[..n], id);
      var k :| 0 <= k < n && host[..n][k].id == id;
      assert host[k].id == id;
    }
  }

  /** The tab ids of a report, in order. */
  function InfoIds(host: seq<TabInfo>): (r: seq<int>)
    ensures |r| == |host| && forall k :: 0 <= k < |host| ==> r[k] == host[k].id
  {
    seq(|host|, k requires 0 <= k < |host| => host[k].id)
  }

  /** One more record appends its id. */
  lemma InfoIdsStep(host: seq<TabInfo>, i: nat)
    requires i < |host|
    ensures InfoIds(host[..i + 1]) == InfoIds(host[..i]) + [host[i].id]
  {
    var a, b := InfoIds(host[..i + 1]), InfoIds(host[..i]) + [host[i].id];
    assert forall k :: 0 <= k < |a| ==> a[k] == b[k];
  }

  /** A report of a whole window: the tab at position k has index k, and no
      id appears twice. */
  ghost predicate WindowReport(host: seq<TabInfo>)
  {
    && (forall k :: 0 <= k < |host| ==> host[k].index == k)
    && (forall a, b :: 0 <= a < b < |host| ==> host[a].id != host[b].id)
  }

  /** In a report without repeated ids each tab's cached index is its own. */
  lemma {:induction false} HostIndexAt(host: seq<TabInfo>, k: nat)
    requires k < |host|
    requires forall a, b :: 0 <= a < b < |host| ==> host[a].id != host[b].id
    ensures HostIndex(host)[host[k].id] == host[k].index
  {
    var n := |host| - 1;
    if k < n {
      HostIndexAt(host[..n], k);
      assert host[k].id != host[n].id;
    }
  }

  /** The indices of a whole-window report are exactly the window's order. */
  lemma HostIndexMatches(host: seq<TabInfo>)
    requires WindowReport(host)
    ensures Matches(HostIndex(host), InfoIds(host))
  {
    var m := HostIndex(host);
    var order := InfoIds(host);
    forall id | id in m
      ensures 0 <= m[id] < |order| && order[m[id]] == id
    {
      HostIndexKnows(host, id);
      var k :| 0 <= k < |host| && host[k].id == id;
      HostIndexAt(host, k);
    }
    forall j | 0 <= j < |order|
      ensures order[j] in m && m[order[j]] == j
    {
      HostIndexAt(host, j);
    }
  }

  /** Extending a report by one record updates the merged indices in place. */
  lemma HostIndexStep(base: map<int, int>, host: seq<TabInfo>, k: nat)
    requires k < |host|
    ensures base + HostIndex(host[..k + 1]) == (base + HostIndex(host[..k]))[host[k].id := host[k].index]
  {
    assert host[..k + 1][..k] == host[..k];
  }

  /** The position of the first record whose id is not in `ids`, or |host|. */
  function FirstMissing(ids: set<int>, host: seq<TabInfo>): (m: nat)
    ensures m <= |host|
    ensures forall j :: 0 <= j < m ==> host[j].id in ids
    ensures m < |host| ==> host[m].id !in ids
  {
    if |host| == 0 then 0
    else if host[0].id !in ids then 0
    else 1 + FirstMissing(ids, host[1..])
  }

  /** A position with the defining properties of FirstMissing is it. */
  lemma {:induction false} FirstMissingAt(ids: set<int>, host: seq<TabInfo>, i: nat)
    requires i <= |host|
    requires forall j :: 0 <= j < i ==> host[j].id in ids
    requires i < |host| ==> host[i].id !in ids
    ensures FirstMissing(ids, host) == i
  {
    if i > 0 {
      FirstMissingAt(ids, host[1..], i - 1);
    }
  }

  /** A cached record at or before FirstMissing lies before it. */
  lemma FirstMissingPast(ids: set<int>, host: seq<TabInfo>, k: nat)
    requires k < |host| && k <= FirstMissing(ids, host) && host[k].id in ids
    ensures k + 1 <= FirstMissing(ids, host)
  {
  }

  /** After a resync of a cache holding exactly the window's tabs, the cached
      indices match the window's order: what verifyCache checks. */
  lemma ResyncRestoresMatch(idx: map<int, int>, host: seq<TabInfo>)
    requires WindowReport(host)
    requires idx.Keys == set k | 0 <= k < |host| :: host[k].id
    ensures Matches(idx + HostIndex(host), InfoIds(host))
  {
    HostIndexMatches(host);
    var m := HostIndex(host);
    forall id | id in idx
      ensures id in m
    {
      var k :| 0 <= k < |host| && host[k].id == id;
      assert host[k].id in m;
    }
    MergeCovered(idx, m);
  }


  /** The position of the last record with the uuid, or -1: the group the
      lookup map of loadFromLocalStorage keeps for the uuid, since a later
      record with the same uuid overwrites an earlier one. */
  function LastWithUuid(data: seq<GroupData>, uuid: string): (k: int)
    ensures -1 <= k < |data|
    ensures k >= 0 ==> data[k].uuid == uuid
    ensures forall j :: 0 <= j < |data| && k < j ==> data[j].uuid != uuid
  {
    if |data| == 0 then -1
    else if data[|data| - 1].uuid == uuid then |data| - 1
    else LastWithUuid(data[..|data| - 1], uuid)
  }

  /** The position of the first record marked active, or -1. */
  function FirstActiveRecord(data: seq<GroupData>): (k: int)
    ensures -1 <= k < |data|
    ensures k >= 0 ==> data[k].active
    ensures forall j :: 0 <= j < |data| && (k == -1 || j < k) ==> !data[j].active
  {
    if |data| == 0 then -1
    else if data[0].active then 0
    else
      var k := FirstActiveRecord(data[1..]);
      if k == -1 then -1 else k + 1
  }

  /** groups.find((g) => g.active): the first active group, or null. */
  function FindActive(gs: seq<Group>): (r: Group?)
    reads gs`active
    ensures r != null ==> r in gs && r.active
    ensures forall k :: 0 <= k < |gs| && gs[k].active ==> r != null && (r == gs[k] || r in gs[..k])
  {
    if |gs| == 0 then null
    else if gs[0].active then gs[0]
    else
      var r := FindActive(gs[1..]);
      assert forall k :: 1 <= k < |gs| ==> gs[1..][..k - 1] == gs[1..k];
      r
  }

  /** Groups restored from the records in order: the first active group is
      the group of the first active record. */
  lemma FindActiveIsFirst(gs: seq<Group>, data: seq<GroupData>)
    requires |gs| == |data| && forall k :: 0 <= k < |gs| ==> gs[k].active == data[k].active
    ensures FindActive(gs) == if FirstActiveRecord(data) == -1 then null else gs[FirstActiveRecord(data)]
  {
    var r := FindActive(gs);
    if r != null {
      var a := FirstActiveRecord(data);
      assert a != -1;
      assert r == gs[a];
    }
  }

  /** The group-id value of a tab's session, "" when there is none (both are
      falsy for loadFromLocalStorage). */
  function SessionGroup(session: map<int, string>, tabId: int): string
  {
    if tabId in session then session[tabId] else ""
  }

  /** The record whose group a restored tab joins: the last record with the
      uuid its session names, or the first active record for a ghost tab
      without a session value; -1 for no group. */
  function HomeOf(data: seq<GroupData>, session: map<int, string>, t: TabInfo): (k: int)
    ensures -1 <= k < |data|
    ensures SessionGroup(session, t.id) != "" && k >= 0 ==> data[k].uuid == SessionGroup(session, t.id)
    ensures SessionGroup(session, t.id) == "" ==> k == FirstActiveRecord(data)
  {
    var groupId := SessionGroup(session, t.id);
    if groupId != "" then LastWithUuid(data, groupId) else FirstActiveRecord(data)
  }

  /** The ids of the tabs of `host` that join the group of record k, in
      report order. */
  function JoinerIds(data: seq<GroupData>, session: map<int, string>, host: seq<TabInfo>, k: int): (r: seq<int>)
    ensures |r| <= |host|
  {
    if |host| == 0 then []
    else
      var last := host[|host| - 1];
      JoinerIds(data, session, host[..|host| - 1], k) + (if HomeOf(data, session, last) == k then [last.id] else [])
  }

  /** A tab id joins the group of record k exactly when a tab with that id
      has that record as its home. */
  lemma {:induction false} JoinerIdsIff(data: seq<GroupData>, session: map<int, string>, host: seq<TabInfo>, k: int, id: int)
    ensures id in JoinerIds(data, session, host, k) <==>
      exists j :: 0 <= j < |host| && host[j].id == id && HomeOf(data, session, host[j]) == k
  {
    if |host| > 0 {
      var init := host[..|host| - 1];
      JoinerIdsIff(data, session, init, k, id);
      if exists j :: 0 <= j < |host| && host[j].id == id && HomeOf(data, session, host[j]) == k {
        var j :| 0 <= j < |host| && host[j].id == id && HomeOf(data, session, host[j]) == k;
        if j < |init| {
          assert init[j] == host[j];
        }
      }
    }
  }

  /** No tab id joins two groups unless it is reported twice: the joiners of
      two records are disjoint in a report without repeated ids. */
  lemma JoinersDisjoint(data: seq<GroupData>, session: map<int, string>, host: seq<TabInfo>, a: int, b: int, id: int)
    requires forall i, j :: 0 <= i < j < |host| ==> host[i].id != host[j].id
    requires a != b && id in JoinerIds(data, session, host, a)
    ensures id !in JoinerIds(data, session, host, b)
  {
    JoinerIdsIff(data, session, host, a, id);
    JoinerIdsIff(data, session, host, b, id);
  }

  /** One more tab adds its id to the joiners of its home record only. */
  lemma JoinerIdsStep(data: seq<GroupData>, session: map<int, string>, host: seq<TabInfo>, i: nat, k: int)
    requires i < |host|
    ensures JoinerIds(data, session, host[..i + 1], k) ==
      JoinerIds(data, session, host[..i], k) + (if HomeOf(data, session, host[i]) == k then [host[i].id] else [])
  {
    assert host[..i + 1][..i] == host[..i];
  }

  /** The session writes of loadFromLocalStorage: each ghost tab (no session
      value) is written with the uuid of the first active group it joins;
      nothing is written when no group is active. */
  function GhostWrites(data: seq<GroupData>, session: map<int, string>, host: seq<TabInfo>): (r: seq<Effect>)
    ensures FirstActiveRecord(data) == -1 ==> r == []
    ensures |r| <= |host|
    ensures forall e :: e in r ==> (e.SetGroupId? && FirstActiveRecord(data) >= 0 &&
      e.groupUuid == data[FirstActiveRecord(data)].uuid && SessionGroup(session, e.tabId) == "")
  {
    if |host| == 0 then []
    else
      var last := host[|host| - 1];
      var a := FirstActiveRecord(data);
      GhostWrites(data, session, host[..|host| - 1]) +
        (if SessionGroup(session, last.id) == "" && a >= 0 then [SetGroupId(last.id, data[a].uuid)] else [])
  }

  /** One more tab adds at most its own write. */
  lemma GhostWritesStep(data: seq<GroupData>, session: map<int, string>, host: seq<TabInfo>, i: nat)
    requires i < |host|
    ensures var a := FirstActiveRecord(data);
      GhostWrites(data, session, host[..i + 1]) == GhostWrites(data, session, host[..i]) +
        (if SessionGroup(session, host[i].id) == "" && a >= 0 then [SetGroupId(host[i].id, data[a].uuid)] else [])
  {
    assert host[..i + 1][..i] == host[..i];
  }

  /** The position of the last active tab of a report, or -1: the tab whose
      entry populate leaves as _activeTab. */
  function LastActive(host: seq<TabInfo>): (k: int)
    ensures -1 <= k < |host|
    ensures k >= 0 ==> host[k].active
    ensures forall j :: 0 <= j < |host| && k < j ==> !host[j].active
  {
    if |host| == 0 then -1
    else if host[|host| - 1].active then |host| - 1
    else LastActive(host[..|host| - 1])
  }

  /** The home record of the last active tab of a report, or -1. */
  function ActiveHome(data: seq<GroupData>, session: map<int, string>, host: seq<TabInfo>): (k: int)
    ensures -1 <= k < |data|
  {
    var a := LastActive(host);
    if a == -1 then -1 else HomeOf(data, session, host[a])
  }

  /** One more tab moves the active home to its own when it is active. */
  lemma ActiveHomeStep(data: seq<GroupData>, session: map<int, string>, host: seq<TabInfo>, i: nat)
    requires i < |host|
    ensures ActiveHome(data, session, host[..i + 1]) ==
      if host[i].active then HomeOf(data, session, host[i]) else ActiveHome(data, session, host[..i])
  {
    assert host[..i + 1][..i] == host[..i];
  }

  /** A group as loadFromLocalStorage creates it from its record: same name,
      uuid and flags, no members, and a parent. */
  ghost predicate Restored(g: Group, d: GroupData)
    reads g`name, g`open, g`active, g`tabs, g`selected, g`hasParent
  {
    g.name == d.name && g.uuid == d.uuid && g.open == d.open && g.active == d.active &&
    g.tabs == [] && g.selected == [] && g.hasParent
  }

  /** The lookup map of loadFromLocalStorage after the records `data`: each
      uuid that occurs maps to the group of its last record. */
  ghost predicate UuidLookup(data: seq<GroupData>, gs: seq<Group>, lookup: map<string, Group>)
  {
    && |gs| == |data|
    && (forall u :: u in lookup <==> LastWithUuid(data, u) >= 0)
    && (forall u :: u in lookup ==> lookup[u] == gs[LastWithUuid(data, u)])
  }

  /** One more record overwrites the entry of its uuid. */
  lemma UuidLookupStep(data: seq<GroupData>, i: nat, gs: seq<Group>, lookup: map<string, Group>, g: Group)
    requires i < |data| && g.uuid == data[i].uuid && UuidLookup(data[..i], gs, lookup)
    ensures UuidLookup(data[..i + 1], gs + [g], lookup[g.uuid := g])
  {
    assert data[..i + 1][..i] == data[..i];
  }

  /** One group of the first loop of loadFromLocalStorage. */
  method NewRestored(d: GroupData) returns (g: Group)
    ensures fresh(g) && Restored(g, d)
  {
    g := new Group.FromData(d);
    g.hasParent := true;
  }

  /** The first loop of loadFromLocalStorage: a group per record, in order,
      and the lookup map from uuid to the last group with that uuid. */
  method RestoreGroups(data: seq<GroupData>) returns (gs: seq<Group>, lookup: map<string, Group>)
    ensures |gs| == |data| && forall a, b :: 0 <= a < b < |gs| ==> gs[a] != gs[b]
    ensures forall k :: 0 <= k < |data| ==> fresh(gs[k]) && Restored(gs[k], data[k])
    ensures UuidLookup(data, gs, lookup)
  {
    gs := [];
    lookup := map[];
    var i := 0;
    while i < |data|
      invariant 0 <= i <= |data| && |gs| == i
      invariant forall a, b :: 0 <= a < b < i ==> gs[a] != gs[b]
      invariant forall k :: 0 <= k < i ==> fresh(gs[k]) && Restored(gs[k], data[k])
      invariant UuidLookup(data[..i], gs, lookup)
    {
      var g := NewRestored(data[i]);
      assert forall k :: 0 <= k < i ==> gs[k] != g;
      UuidLookupStep(data, i, gs, lookup, g);
      ghost var next := data[..i + 1];
      gs, lookup, i := gs + [g], lookup[g.uuid := g], i + 1;
      assert UuidLookup(next, gs, lookup) && next == data[..i];
    }
    assert data[..i] == data;
  }

  /** The groups restored from `data`, in order and distinct, with the lookup
      map of loadFromLocalStorage and its first active group. */
  ghost predicate RestoredLookup(data: seq<GroupData>, gs: seq<Group>, lookup: map<string, Group>, oldActive: Group?)
  {
    && |gs| == |data| && (forall a, b :: 0 <= a < b < |gs| ==> gs[a] != gs[b])
    && (forall k :: 0 <= k < |gs| ==> gs[k].uuid == data[k].uuid)
    && (forall u :: u in lookup <==> LastWithUuid(data, u) >= 0)
    && (forall u :: u in lookup ==> lookup[u] == gs[LastWithUuid(data, u)])
    && oldActive == if FirstActiveRecord(data) == -1 then null else gs[FirstActiveRecord(data)]
  }

  /** The first loop of loadFromLocalStorage and the search for the first
      active group that follows it. */
  method RestoreList(data: seq<GroupData>) returns (gs: seq<Group>, lookup: map<string, Group>, oldActive: Group?)
    ensures RestoredLookup(data, gs, lookup, oldActive)
    ensures forall k :: 0 <= k < |data| ==> fresh(gs[k]) && Restored(gs[k], data[k])
  {
    gs, lookup := RestoreGroups(data);
    oldActive := FindActive(gs);
    FindActiveIsFirst(gs, data);
  }

  /** The rest of the middle loop of loadFromLocalStorage for one tab's new
      entry: it joins the group its session names (the lookup's group; a
      name the lookup lacks is only logged), or, as a ghost tab without a
      session value, the first active group through addTab. */
  method JoinHome(data: seq<GroupData>, session: map<int, string>, t: TabInfo, entry: TabEntry,
                  gs: seq<Group>, lookup: map<string, Group>, oldActive: Group?)
      returns (e: seq<Effect>)
    requires entry.id == t.id && entry.group == null
    requires RestoredLookup(data, gs, lookup, oldActive)
    modifies gs`tabs, entry`group
    ensures var home := HomeOf(data, session, t);
      && entry.group == (if home == -1 then null else gs[home])
      && forall k :: 0 <= k < |gs| ==> gs[k].tabs == old(gs[k].tabs) + (if home == k then [entry] else [])
    ensures var a := FirstActiveRecord(data);
      e == if SessionGroup(session, t.id) == "" && a >= 0 then [SetGroupId(t.id, data[a].uuid)] else []
  {
    ghost var home := HomeOf(data, session, t);
    assert forall k :: 0 <= k < |gs| && k != home && home >= 0 ==> gs[k] != gs[home];
    var groupId := SessionGroup(session, entry.id);
    e := [];
    if groupId != "" {
      if groupId in lookup {
        lookup[groupId].LoadTab(entry);
      }
    } else if oldActive != null {
      var w := oldActive.AddTab(entry, null);
      e := [w];
    }
  }

  /** The group of record k, or null for -1. */
  function GroupAt(gs: seq<Group>, k: int): (r: Group?)
    ensures 0 <= k < |gs| ==> r == gs[k]
    ensures k < 0 || k >= |gs| ==> r == null
  {
    if 0 <= k < |gs| then gs[k] else null
  }

  /** One more tab's entry joining the group of its home record extends the
      members of every group as JoinerIds says. */
  lemma JoinersStep(data: seq<GroupData>, session: map<int, string>, host: seq<TabInfo>, i: nat,
                    lists: seq<seq<TabEntry>>, lists': seq<seq<TabEntry>>, entry: TabEntry)
    requires i < |host| && entry.id == host[i].id && |lists| == |lists'|
    requires forall k :: 0 <= k < |lists| ==> Ids(lists[k]) == JoinerIds(data, session, host[..i], k)
    requires forall k :: 0 <= k < |lists| ==>
      lists'[k] == lists[k] + (if HomeOf(data, session, host[i]) == k then [entry] else [])
    ensures forall k :: 0 <= k < |lists| ==> Ids(lists'[k]) == JoinerIds(data, session, host[..i + 1], k)
  {
    forall k | 0 <= k < |lists|
      ensures Ids(lists'[k]) == JoinerIds(data, session, host[..i + 1], k)
    {
      JoinerIdsStep(data, session, host, i, k);
      IdsSnoc(lists[k], entry, "");
    }
  }

  /** The first branch of populate after the tabs `host`, stated on the
      values it leaves: the cached indices, the active entry, the members of
      the new group (uuid `uuid`) and the session writes. */
  ghost predicate FilledState(host: seq<TabInfo>, uuid: string, indices: map<int, int>, active: TabEntry?,
                              tabs: seq<TabEntry>, effects: seq<Effect>)
  {
    && indices == HostIndex(host)
    && (active == null <==> LastActive(host) == -1)
    && (active != null ==> active.id == host[LastActive(host)].id)
    && Ids(tabs) == InfoIds(host)
    && effects == GroupIdWrites(tabs, uuid)
  }

  /** One tab through the first branch of populate, on values. */
  lemma FilledStateStep(host: seq<TabInfo>, i: nat, uuid: string, entry: TabEntry,
                        indices: map<int, int>, active: TabEntry?, tabs: seq<TabEntry>, effects: seq<Effect>,
                        indices': map<int, int>, active': TabEntry?, tabs': seq<TabEntry>, effects': seq<Effect>)
    requires i < |host| && entry.id == host[i].id
    requires FilledState(host[..i], uuid, indices, active, tabs, effects)
    requires indices' == indices[host[i].id := host[i].index]
    requires active' == if host[i].active then entry else active
    requires tabs' == tabs + [entry] && effects' == effects + [SetGroupId(host[i].id, uuid)]
    ensures FilledState(host[..i + 1], uuid, indices', active', tabs', effects')
  {
    assert host[..i + 1][..i] == host[..i];
    IdsSnoc(tabs, entry, uuid);
    InfoIdsStep(host, i);
  }

  /** The middle loop of loadFromLocalStorage after the tabs `host`, stated
      on the values it leaves: the cached indices, the active entry and its
      group, the groups' members and the session writes. */
  ghost predicate PlacedState(data: seq<GroupData>, session: map<int, string>, host: seq<TabInfo>, gs: seq<Group>,
                              indices: map<int, int>, active: TabEntry?, activeGroup: Group?,
                              lists: seq<seq<TabEntry>>, effects: seq<Effect>)
  {
    && indices == HostIndex(host)
    && (active == null <==> LastActive(host) == -1)
    && (active != null ==> active.id == host[LastActive(host)].id && activeGroup == GroupAt(gs, ActiveHome(data, session, host)))
    && |lists| == |gs|
    && (forall k :: 0 <= k < |gs| ==> Ids(lists[k]) == JoinerIds(data, session, host, k))
    && effects == GhostWrites(data, session, host)
  }

  /** Before the middle loop of loadFromLocalStorage nothing is placed. */
  lemma PlacedStateEmpty(data: seq<GroupData>, session: map<int, string>, gs: seq<Group>, lists: seq<seq<TabEntry>>)
    requires |lists| == |gs| && forall k :: 0 <= k < |gs| ==> lists[k] == []
    ensures PlacedState(data, session, [], gs, map[], null, null, lists, [])
  {
  }

  /** One tab through the middle loop of loadFromLocalStorage, on values. */
  lemma PlacedStateStep(data: seq<GroupData>, session: map<int, string>, host: seq<TabInfo>, i: nat,
                        gs: seq<Group>, entry: TabEntry,
                        indices: map<int, int>, active: TabEntry?, activeGroup: Group?,
                        lists: seq<seq<TabEntry>>, effects: seq<Effect>,
                        indices': map<int, int>, active': TabEntry?, activeGroup': Group?,
                        lists': seq<seq<TabEntry>>, effects': seq<Effect>)
    requires i < |host| && entry.id == host[i].id
    requires PlacedState(data, session, host[..i], gs, indices, active, activeGroup, lists, effects)
    requires indices' == indices[host[i].id := host[i].index]
    requires active' == if host[i].active then entry else active
    requires activeGroup' == if host[i].active then GroupAt(gs, HomeOf(data, session, host[i])) else activeGroup
    requires |lists'| == |lists| && forall k :: 0 <= k < |lists| ==>
      lists'[k] == lists[k] + (if HomeOf(data, session, host[i]) == k then [entry] else [])
    requires var a := FirstActiveRecord(data);
      effects' == effects + if SessionGroup(session, host[i].id) == "" && a >= 0 then [SetGroupId(host[i].id, data[a].uuid)] else []
    ensures PlacedState(data, session, host[..i + 1], gs, indices', active', activeGroup', lists', effects')
  {
    assert host[..i + 1][..i] == host[..i];
    ActiveHomeStep(data, session, host, i);
    GhostWritesStep(data, session, host, i);
    JoinersStep(data, session, host, i, lists, lists', entry);
  }

  /** The members of each group, as a list. */
  ghost function TabLists(gs: seq<Group>): (r: seq<seq<TabEntry>>)
    reads gs`tabs
    ensures |r| == |gs| && forall k :: 0 <= k < |gs| ==> r[k] == gs[k].tabs
  {
    if |gs| == 0 then [] else TabLists(gs[..|gs| - 1]) + [gs[|gs| - 1].tabs]
  }

  /** The last loop of loadFromLocalStorage: every group sorts by position. */
  method SortAll(gs: seq<Group>)
    requires forall a, b :: 0 <= a < b < |gs| ==> gs[a] != gs[b]
    modifies gs`tabs
    ensures forall k :: 0 <= k < |gs| ==> gs[k].tabs == old(SortBy(gs[k].tabs, Position))
  {
    var i := 0;
    while i < |gs|
      invariant 0 <= i <= |gs|
      invariant forall k :: 0 <= k < i ==> gs[k].tabs == old(SortBy(gs[k].tabs, Position))
      invariant forall k :: i <= k < |gs| ==> gs[k].tabs == old(gs[k].tabs)
    {
      assert forall k :: 0 <= k < |gs| && k != i ==> gs[k] != gs[i];
      ghost var want := SortBy(gs[i].tabs, Position);
      assert want == old(SortBy(gs[i].tabs, Position));
      gs[i].SortByPosition();
      assert gs[i].tabs == want;
      i := i + 1;
    }
  }

  /** Appending one entry appends its id and its group-id write. */
  lemma IdsSnoc(s: seq<TabEntry>, e: TabEntry, uuid: string)
    ensures Ids(s + [e]) == Ids(s) + [e.id]
    ensures GroupIdWrites(s + [e], uuid) == GroupIdWrites(s, uuid) + [SetGroupId(e.id, uuid)]
  {
    assert (s + [e])[..|s|] == s;
  }
}
