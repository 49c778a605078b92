/** popup/main.js: the toolbar popup that lists the window's groups and their
    tabs. It builds a cache of groups from the stored records and hangs each
    tab of the window under the group its session value names; it picks a
    group's most recently used tab, steps the selection with the arrow keys,
    shows whether the current domain is assigned to the current group, and
    writes or removes that assignment.

    Browser reads (the stored records, the window's tabs, each tab's
    "group-id" session value, generated uuids, the host name URL parsing
    yields) are parameters; storage writes are returned as edits. */
module Popup {
  import opened Common
  import opened PageSettings

  // ----- createIcon -----

  const DefaultIcon := "/icons/favicon.svg"

  /** The background image createIcon gives a tab: its favicon, unless that
      is missing or empty, or is a chrome:// address, which a page may not
      load. */
  function IconUrl(favIconUrl: Option<string>): (r: string)
    ensures !("chrome://" <= r)
    ensures r == DefaultIcon || (favIconUrl.Some? && r == favIconUrl.value)
    ensures favIconUrl.Some? && favIconUrl.value != "" && !("chrome://" <= favIconUrl.value) ==>
      r == favIconUrl.value
  {
    var url := if favIconUrl.Some? && favIconUrl.value != "" then favIconUrl.value else DefaultIcon;
    assert DefaultIcon[0] == '/';
    if "chrome://" <= url then DefaultIcon else url
  }

  // ----- Tab -----

  /** The fields of a browser tab the popup reads. */
  datatype TabData = TabData(id: int, url: string, title: string, lastAccessed: int, active: bool)

  /** A tab row of the popup; it starts hidden, and the search shows it. */
  class Tab {
    const data: TabData
    var hidden: bool

    constructor(data: TabData)
      ensures this.data == data && hidden
    {
      this.data := data;
      hidden := true;
    }

    /** hide: the view is detached only when the tab was shown, so hiding a
        hidden tab changes nothing. */
    method Hide() returns (detached: bool)
      modifies this`hidden
      ensures hidden
      ensures detached <==> !old(hidden)
    {
      detached := !hidden;
      if !hidden {
        hidden := true;
      }
    }

    /** show: the view is attached only when the tab was hidden, so showing
        a shown tab changes nothing. */
    method Show() returns (attached: bool)
      modifies this`hidden
      ensures !hidden
      ensures attached <==> old(hidden)
    {
      attached := hidden;
      if hidden {
        hidden := false;
      }
    }
  }

  /** The data of a run of tab rows. */
  function Datas(ts: seq<Tab>): (r: seq<TabData>)
    ensures |r| == |ts| && forall k :: 0 <= k < |ts| ==> r[k] == ts[k].data
  {
    seq(|ts|, k requires 0 <= k < |ts| => ts[k].data)
  }

  /** The lastAccessed times of a run of tab rows. */
  function Accessed(ts: seq<Tab>): (r: seq<int>)
    ensures |r| == |ts| && forall k :: 0 <= k < |ts| ==> r[k] == ts[k].data.lastAccessed
  {
    seq(|ts|, k requires 0 <= k < |ts| => ts[k].data.lastAccessed)
  }

  // ----- getLatestTab -----

  /** Position i holds a largest time, and every earlier position a smaller
      one: i is the first position of the maximum. */
  predicate IsLatest(xs: seq<int>, i: int) {
    && 0 <= i < |xs|
    && (forall j :: 0 <= j < |xs| ==> xs[j] <= xs[i])
    && (forall j :: 0 <= j < i ==> xs[j] < xs[i])
  }

  /** The reduce of getLatestTab: starting at index 0, an element replaces
      the kept index only when its time is strictly larger. */
  function ReduceLatest(xs: seq<int>): (i: nat)
    requires |xs| > 0
    ensures IsLatest(xs, i)
  {
    if |xs| == 1 then 0
    else
      var m := ReduceLatest(xs[..|xs| - 1]);
      if xs[|xs| - 1] > xs[m] then |xs| - 1 else m
  }

  // ----- getFirstVisibleTab -----

  /** The findIndex of getFirstVisibleTab: the first tab row that is not
      hidden, or -1. */
  function FirstVisible(ts: seq<Tab>): (i: int)
    reads ts
    ensures -1 <= i < |ts|
    ensures i >= 0 ==> !ts[i].hidden
    ensures forall j :: 0 <= j < |ts| && (i == -1 || j < i) ==> ts[j].hidden
  {
    if |ts| == 0 then -1
    else if !ts[0].hidden then 0
    else
      var k := FirstVisible(ts[1..]);
      if k == -1 then -1 else k + 1
  }

  // ----- Group -----

  /** A stored group record; the uuid and the colour may be missing. */
  datatype GroupData = GroupData(uuid: Option<string>, name: string, open: bool, active: bool, colour: Option<string>)

  /** A string property is truthy when present and not empty. */
  predicate Truthy(s: Option<string>) {
    s.Some? && s.value != ""
  }

  /** `data.uuid || uuid4()`, with the generated uuid given. */
  function GroupUuid(data: GroupData, generated: string): (u: string)
    ensures Truthy(data.uuid) ==> u == data.uuid.value
    ensures !Truthy(data.uuid) ==> u == generated
  {
    if Truthy(data.uuid) then data.uuid.value else generated
  }

  /** `data.colour || '#000000'`. */
  function GroupColour(data: GroupData): (c: string)
    ensures Truthy(data.colour) ==> c == data.colour.value
    ensures !Truthy(data.colour) ==> c == "#000000"
  {
    if Truthy(data.colour) then data.colour.value else "#000000"
  }

  /** The text of a group's tab counter. */
  function TabCountText(c: nat): (text: string)
    ensures text == Decimal(c) + (if c == 1 then " Tab" else " Tabs")
  {
    if c == 1 then "1 Tab" else Decimal(c) + " Tabs"
  }

  class Group {
    const uuid: string
    const name: string
    const open: bool
    const active: bool
    const colour: string
    var tabs: seq<Tab>

    /** A group of the popup built from a stored record, without tabs. */
    constructor(data: GroupData, generated: string)
      ensures Built(this, data, generated) && tabs == []
    {
      uuid := GroupUuid(data, generated);
      name := data.name;
      open := data.open;
      active := data.active;
      colour := GroupColour(data);
      tabs := [];
    }

    /** addTab: a new hidden row for the tab at the end of the group. */
    method AddTab(t: TabData) returns (tab: Tab)
      modifies this`tabs
      ensures fresh(tab) && tab.data == t && tab.hidden
      ensures tabs == old(tabs) + [tab]
    {
      tab := new Tab(t);
      tabs := tabs + [tab];
    }

    /** getLatestTab: null for a group without tabs, otherwise the first of
        its tabs with the largest lastAccessed. */
    function GetLatestTab(): (r: Tab?)
      reads this`tabs
      ensures r == null <==> |tabs| == 0
      ensures r != null ==> exists i :: IsLatest(Accessed(tabs), i) && r == tabs[i]
    {
      if |tabs| == 0 then null
      else if |tabs| == 1 then
        assert IsLatest(Accessed(tabs), 0);
        tabs[0]
      else tabs[ReduceLatest(Accessed(tabs))]
    }

    /** getFirstVisibleTab: the first tab that is not hidden, or null when
        every tab is. */
    function GetFirstVisibleTab(): (r: Tab?)
      reads this`tabs, tabs
      ensures r == null <==> forall i :: 0 <= i < |tabs| ==> tabs[i].hidden
      ensures r != null ==> exists i :: (0 <= i < |tabs| && tabs[i] == r && !r.hidden &&
        forall j :: 0 <= j < i ==> tabs[j].hidden)
    {
      var i := FirstVisible(tabs);
      if i == -1 then null else tabs[i]
    }

    /** setTabCount: the counter reads "1 Tab" for one tab and "N Tabs" for
        any other count. */
    function SetTabCount(c: nat): (text: string)
      ensures c == 1 ==> text == "1 Tab"
      ensures c != 1 ==> text == Decimal(c) + " Tabs"
    {
      TabCountText(c)
    }
  }

  /** The group was built from the record, with the generated uuid standing
      in for a missing one. */
  ghost predicate Built(g: Group, data: GroupData, generated: string) {
    && g.uuid == GroupUuid(data, generated)
    && g.name == data.name && g.open == data.open && g.active == data.active
    && g.colour == GroupColour(data)
  }

  // ----- prepare -----

  /** The cache keys of the stored records, in order. */
  function Keys(stored: seq<GroupData>, generated: seq<string>): (ks: seq<string>)
    requires |generated| == |stored|
    ensures |ks| == |stored| && forall k :: 0 <= k < |stored| ==> ks[k] == GroupUuid(stored[k], generated[k])
  {
    seq(|stored|, k requires 0 <= k < |stored| => GroupUuid(stored[k], generated[k]))
  }

  /** The last position of x in s, or -1. */
  function LastIndexOf(s: seq<string>, x: string): (i: int)
    ensures -1 <= i < |s|
    ensures i >= 0 ==> s[i] == x
    ensures forall j :: 0 <= j < |s| && i < j ==> s[j] != x
    ensures i == -1 <==> x !in s
  {
    if |s| == 0 then -1
    else if s[|s| - 1] == x then |s| - 1
    else
      var i := LastIndexOf(s[..|s| - 1], x);
      assert x in s[..|s| - 1] ==> x in s;
      i
  }

  /** The keys of a JavaScript Map in insertion order: setting a key that is
      already there keeps its place. */
  function InsertionOrder(s: seq<string>): (r: seq<string>)
    ensures forall x :: x in r <==> x in s
    ensures forall a, b :: 0 <= a < b < |r| ==> r[a] != r[b]
  {
    if |s| == 0 then []
    else
      var r := InsertionOrder(s[..|s| - 1]);
      assert forall x :: x in s[..|s| - 1] ==> x in s;
      assert forall x :: x in s ==> x in s[..|s| - 1] || x == s[|s| - 1];
      if s[|s| - 1] in r then r else r + [s[|s| - 1]]
  }

  /** The cache after storing the first records: each key holds a new group
      built from the last record with that key. */
  ghost predicate CacheOf(stored: seq<GroupData>, generated: seq<string>, cache: map<string, Group>, order: seq<string>)
    requires |generated| == |stored|
  {
    var ks := Keys(stored, generated);
    && (forall k :: k in cache <==> k in ks)
    && BuiltFromLast(stored, generated, ks, cache)
    && order == InsertionOrder(ks)
  }

  /** Each key holds a group built from the last record with that key. */
  ghost predicate BuiltFromLast(stored: seq<GroupData>, generated: seq<string>, ks: seq<string>,
                                cache: map<string, Group>)
    requires |generated| == |stored| == |ks|
  {
    forall k :: k in cache ==>
      var i := LastIndexOf(ks, k);
      0 <= i && Built(cache[k], stored[i], generated[i])
  }

  lemma BuiltFromLastStep(stored: seq<GroupData>, generated: seq<string>, i: nat, ks: seq<string>,
                          cache: map<string, Group>, g: Group)
    requires |generated| == |stored| && i < |stored| && |ks| == i
    requires BuiltFromLast(stored[..i], generated[..i], ks, cache)
    requires Built(g, stored[i], generated[i])
    ensures BuiltFromLast(stored[..i + 1], generated[..i + 1], ks + [g.uuid], cache[g.uuid := g])
  {
    var c' := cache[g.uuid := g];
    forall k | k in c'
      ensures var j := LastIndexOf(ks + [g.uuid], k);
        0 <= j && Built(c'[k], stored[..i + 1][j], generated[..i + 1][j])
    {
      LastIndexOfSnoc(ks, g.uuid, k);
      if k != g.uuid {
        var j := LastIndexOf(ks, k);
        assert stored[..i + 1][j] == stored[..i][j] && generated[..i + 1][j] == generated[..i][j];
      }
    }
  }

  lemma KeysSnoc(stored: seq<GroupData>, generated: seq<string>, i: nat)
    requires |generated| == |stored| && i < |stored|
    ensures Keys(stored[..i + 1], generated[..i + 1]) ==
      Keys(stored[..i], generated[..i]) + [GroupUuid(stored[i], generated[i])]
  {
    var a, b := Keys(stored[..i + 1], generated[..i + 1]), Keys(stored[..i], generated[..i]) + [GroupUuid(stored[i], generated[i])];
    assert forall k :: 0 <= k < |a| ==> a[k] == b[k];
  }

  lemma LastIndexOfSnoc(s: seq<string>, x: string, y: string)
    ensures LastIndexOf(s + [x], y) == if y == x then |s| else LastIndexOf(s, y)
  {
    assert (s + [x])[..|s|] == s;
  }

  lemma InsertionOrderSnoc(s: seq<string>, x: string)
    ensures InsertionOrder(s + [x]) == if x in InsertionOrder(s) then InsertionOrder(s) else InsertionOrder(s) + [x]
  {
    assert (s + [x])[..|s|] == s;
  }

  /** One more record: its group replaces the one under its key. */
  lemma CacheOfStep(stored: seq<GroupData>, generated: seq<string>, i: nat, cache: map<string, Group>,
                    order: seq<string>, g: Group)
    requires |generated| == |stored| && i < |stored|
    requires CacheOf(stored[..i], generated[..i], cache, order)
    requires Built(g, stored[i], generated[i])
    ensures CacheOf(stored[..i + 1], generated[..i + 1], cache[g.uuid := g],
                    if g.uuid in cache then order else order + [g.uuid])
  {
    var ks := Keys(stored[..i], generated[..i]);
    KeysSnoc(stored, generated, i);
    BuiltFromLastStep(stored, generated, i, ks, cache, g);
    InsertionOrderSnoc(ks, g.uuid);
  }

  /** The rows of the tabs whose "group-id" session value is `key`, in the
      window's order. */
  function TabsFor(tabs: seq<TabData>, values: seq<Option<string>>, key: string): (r: seq<TabData>)
    requires |values| == |tabs|
    ensures |r| <= |tabs|
  {
    if |tabs| == 0 then []
    else
      var n := |tabs| - 1;
      TabsFor(tabs[..n], values[..n], key) + if values[n] == Some(key) then [tabs[n]] else []
  }

  /** The tab data each cached group holds. */
  ghost function Contents(cache: map<string, Group>): map<string, seq<TabData>>
    reads cache.Values`tabs
  {
    map k | k in cache :: Datas(cache[k].tabs)
  }

  /** After the first tabs, each group holds the tabs whose session value
      names it; the others are skipped. */
  ghost predicate Placed(contents: map<string, seq<TabData>>, tabs: seq<TabData>, values: seq<Option<string>>)
    requires |values| == |tabs|
  {
    forall k :: k in contents ==> contents[k] == TabsFor(tabs, values, k)
  }

  lemma PlacedStep(tabs: seq<TabData>, values: seq<Option<string>>, i: nat,
                   contents: map<string, seq<TabData>>, contents': map<string, seq<TabData>>)
    requires |values| == |tabs| && i < |tabs|
    requires Placed(contents, tabs[..i], values[..i])
    requires contents' == if values[i].Some? && values[i].value in contents
      then contents[values[i].value := contents[values[i].value] + [tabs[i]]] else contents
    ensures Placed(contents', tabs[..i + 1], values[..i + 1])
  {
    assert tabs[..i + 1][..i] == tabs[..i] && values[..i + 1][..i] == values[..i];
  }

  /** The position of the last active tab, or -1. */
  function LastActive(tabs: seq<TabData>): (i: int)
    ensures -1 <= i < |tabs|
    ensures i >= 0 ==> tabs[i].active
    ensures forall j :: 0 <= j < |tabs| && i < j ==> !tabs[j].active
  {
    if |tabs| == 0 then -1
    else if tabs[|tabs| - 1].active then |tabs| - 1
    else LastActive(tabs[..|tabs| - 1])
  }

  lemma LastActiveStep(tabs: seq<TabData>, i: nat)
    requires i < |tabs|
    ensures LastActive(tabs[..i + 1]) == if tabs[i].active then i else LastActive(tabs[..i])
  {
    assert tabs[..i + 1][..i] == tabs[..i];
  }

  /** `cache.get(groupId)`, null when the value is missing or unknown. */
  function Lookup(cache: map<string, Group>, v: Option<string>): (g: Group?)
    ensures g != null <==> v.Some? && v.value in cache
    ensures g != null ==> g == cache[v.value]
  {
    if v.Some? && v.value in cache then cache[v.value] else null
  }

  /** The tab rows of the groups, in the cache's order. */
  function Flatten(cache: map<string, Group>, order: seq<string>): seq<Tab>
    requires forall k :: k in order ==> k in cache
    reads cache.Values`tabs
  {
    if |order| == 0 then [] else Flatten(cache, order[..|order| - 1]) + cache[order[|order| - 1]].tabs
  }

  /** The tab data of all groups, in the cache's order. */
  function Grouped(contents: map<string, seq<TabData>>, order: seq<string>): seq<TabData>
    requires forall k :: k in order ==> k in contents
  {
    if |order| == 0 then [] else Grouped(contents, order[..|order| - 1]) + contents[order[|order| - 1]]
  }

  lemma {:induction false} FlattenDatas(cache: map<string, Group>, order: seq<string>)
    requires forall k :: k in order ==> k in cache
    ensures Datas(Flatten(cache, order)) == Grouped(Contents(cache), order)
  {
    if |order| > 0 {
      var n := |order| - 1;
      FlattenDatas(cache, order[..n]);
      DatasAppend(Flatten(cache, order[..n]), cache[order[n]].tabs);
    }
  }

  lemma DatasAppend(a: seq<Tab>, b: seq<Tab>)
    ensures Datas(a + b) == Datas(a) + Datas(b)
  {
    assert forall k :: 0 <= k < |a + b| ==> Datas(a + b)[k] == (Datas(a) + Datas(b))[k];
  }

  /** The stored groups as new groups under their keys. */
  method BuildCache(stored: seq<GroupData>, generated: seq<string>) returns (cache: map<string, Group>, order: seq<string>)
    requires |generated| == |stored|
    ensures CacheOf(stored, generated, cache, order)
    ensures forall k :: k in cache ==> fresh(cache[k]) && cache[k].tabs == [] && cache[k].uuid == k
  {
    cache, order := map[], [];
    var i := 0;
    while i < |stored|
      invariant i <= |stored|
      invariant CacheOf(stored[..i], generated[..i], cache, order)
      invariant forall k :: k in cache ==> fresh(cache[k]) && cache[k].tabs == [] && cache[k].uuid == k
    {
      var g := new Group(stored[i], generated[i]);
      CacheOfStep(stored, generated, i, cache, order, g);
      if g.uuid !in cache {
        order := order + [g.uuid];
      }
      cache := cache[g.uuid := g];
      i := i + 1;
    }
    assert stored[..i] == stored && generated[..i] == generated;
  }

  /** addTab on the group under `key`; no other group changes. */
  method AddToGroup(cache: map<string, Group>, key: string, g: Group, t: TabData)
    requires key in cache && cache[key] == g
    requires forall k :: k in cache ==> cache[k].uuid == k
    modifies g`tabs
    ensures Contents(cache) == old(Contents(cache))[key := old(Contents(cache))[key] + [t]]
  {
    ghost var before := Contents(cache);
    var tab := g.AddTab(t);
    DatasAppend(old(g.tabs), [tab]);
    assert Datas(g.tabs) == before[key] + [t];
    forall k | k in cache && k != key
      ensures Datas(cache[k].tabs) == before[k]
    {
      assert cache[k].uuid == k;
    }
    assert Contents(cache) == before[key := before[key] + [t]];
  }

  /** The tab loop of prepare: each tab joins the group its session value
      names, and the last active tab becomes the current one. */
  method AddTabs(cache: map<string, Group>, tabs: seq<TabData>, values: seq<Option<string>>)
      returns (currentTab: Option<TabData>, currentGroup: Group?)
    requires |values| == |tabs|
    requires forall k :: k in cache ==> cache[k].uuid == k && cache[k].tabs == []
    modifies cache.Values`tabs
    ensures Placed(Contents(cache), tabs, values)
    ensures var a := LastActive(tabs);
      && currentTab == (if a == -1 then None else Some(tabs[a]))
      && currentGroup == (if a == -1 then null else Lookup(cache, values[a]))
  {
    currentTab, currentGroup := None, null;
    var i := 0;
    while i < |tabs|
      invariant i <= |tabs|
      invariant Placed(Contents(cache), tabs[..i], values[..i])
      invariant var a := LastActive(tabs[..i]);
        && currentTab == (if a == -1 then None else Some(tabs[a]))
        && currentGroup == (if a == -1 then null else Lookup(cache, values[a]))
    {
      ghost var before := Contents(cache);
      var group := Lookup(cache, values[i]);
      if group != null {
        AddToGroup(cache, values[i].value, group, tabs[i]);
      }
      PlacedStep(tabs, values, i, before, Contents(cache));
      LastActiveStep(tabs, i);
      if tabs[i].active {
        currentTab, currentGroup := Some(tabs[i]), group;
      }
      i := i + 1;
    }
    assert tabs[..i] == tabs && values[..i] == values;
  }

  /** What prepare leaves: nothing without stored records; otherwise the
      records as groups under their uuids, each tab in the group its session
      value names, the last active tab with its group as the current ones,
      and all tab rows in the cache's order. `contents` is the tab data each
      group holds. */
  ghost predicate Prepared(stored: Option<seq<GroupData>>, generated: seq<string>, tabs: seq<TabData>,
                           values: seq<Option<string>>, cache: map<string, Group>, order: seq<string>,
                           currentTab: Option<TabData>, currentGroup: Group?, all: seq<TabData>,
                           contents: map<string, seq<TabData>>)
    requires stored.Some? ==> |generated| == |stored.value|
    requires |values| == |tabs|
  {
    var a := LastActive(tabs);
    if stored.None? then
      cache == map[] && order == [] && currentTab == None && currentGroup == null && all == [] && contents == map[]
    else
      && CacheOf(stored.value, generated, cache, order)
      && (forall k :: k in cache ==> cache[k].uuid == k)
      && contents.Keys == cache.Keys
      && Placed(contents, tabs, values)
      && currentTab == (if a == -1 then None else Some(tabs[a]))
      && currentGroup == (if a == -1 then null else Lookup(cache, values[a]))
      && all == Grouped(contents, order)
  }

  /** prepare, on the script's initial globals: the cache, its key order,
      the current tab and group, and all tab rows it leaves. */
  method Prepare(stored: Option<seq<GroupData>>, generated: seq<string>, tabs: seq<TabData>,
                       values: seq<Option<string>>)
      returns (cache: map<string, Group>, order: seq<string>, currentTab: Option<TabData>, currentGroup: Group?,
               allTabs: seq<Tab>)
    requires stored.Some? ==> |generated| == |stored.value|
    requires |values| == |tabs|
    ensures forall k :: k in order ==> k in cache
    ensures allTabs == Flatten(cache, order)
    ensures Prepared(stored, generated, tabs, values, cache, order, currentTab, currentGroup, Datas(allTabs),
                     Contents(cache))
  {
    if stored.None? {
      return map[], [], None, null, [];
    }
    cache, order := BuildCache(stored.value, generated);
    currentTab, currentGroup := AddTabs(cache, tabs, values);
    allTabs := Flatten(cache, order);
    FlattenDatas(cache, order);
  }

  /** The new-group button: the group the sidebar created is stored in the
      cache under the uuid of the reply as it stands (not the group's own
      uuid, which differs when the reply's is empty); a key already there
      keeps its place. */
  method OnNewGroup(cache: map<string, Group>, order: seq<string>, data: GroupData, generated: string)
      returns (cache': map<string, Group>, order': seq<string>)
    requires data.uuid.Some?
    ensures var u := data.uuid.value;
      && cache'.Keys == cache.Keys + {u}
      && fresh(cache'[u]) && Built(cache'[u], data, generated) && cache'[u].tabs == []
      && (forall k :: k in cache && k != u ==> cache'[k] == cache[k])
      && order' == if u in cache then order else order + [u]
    ensures data.uuid.value != "" ==> cache'[data.uuid.value].uuid == data.uuid.value
  {
    var g := new Group(data, generated);
    var key := data.uuid.value;
    order' := if key in cache then order else order + [key];
    cache' := cache[key := g];
  }

  // ----- the current tab's domain assignment -----

  /** The pages that cannot be assigned to a group. */
  const NewTabPages: set<string> := {"about:startpage", "about:newtab", "about:home", "about:blank"}

  /** What updateTabDisplay shows for the assignment checkbox: whether it
      is enabled and ticked, the label text it writes (None when it leaves
      the label as it was), and whether it fails part way. */
  datatype AssignmentView = AssignmentView(enabled: bool, checked: bool, text: Option<string>, thrown: bool)

  /** updateTabDisplay, `current` being the active tab's group (null when
      the tab names no cached group). The box starts cleared and disabled.
      A page without a host name, or a new-tab page, cannot be assigned:
      the label says so, and reading the name of a missing group then
      fails. Otherwise a missing group fails at its uuid or name before the
      box is enabled; with a group the box is ticked exactly when the
      domain's record names it. */
  function TabAssignment(url: string, hostname: string, storage: map<string, PageSetting>,
                         current: Group?): (v: AssignmentView)
    ensures v.thrown <==> current == null
    ensures v.enabled <==> hostname != "" && url !in NewTabPages && current != null
    ensures v.checked <==> v.enabled && PageKey(hostname) in storage && storage[PageKey(hostname)].group == current.uuid
    ensures hostname == "" || url in NewTabPages ==> v.text == Some("Cannot assign to this page.")
    ensures v.enabled ==> v.text == Some("Always open " + hostname + " in " + current.name)
    ensures hostname != "" && url !in NewTabPages && current == null ==> v.text == None
  {
    if hostname == "" || url in NewTabPages then
      AssignmentView(false, false, Some("Cannot assign to this page."), current == null)
    else if current == null then AssignmentView(false, false, None, true)
    else
      var key := PageKey(hostname);
      AssignmentView(true, key in storage && storage[key].group == current.uuid,
                     Some("Always open " + hostname + " in " + current.name), false)
  }

  /** setDomainAssignment: ticking writes the domain's record to point at
      the current group, keeping its "never ask" flag when it had one;
      unticking removes the record only when it points at the current
      group. */
  function DomainAssignment(add: bool, storage: map<string, PageSetting>, hostname: string, groupUuid: string)
      : (e: seq<StorageEdit>)
    ensures var key := PageKey(hostname);
      add ==> (Apply(storage, e) ==
        storage[key := PageSetting(groupUuid, key in storage && storage[key].neverAsk)])
    ensures var key := PageKey(hostname);
      !add ==> (Apply(storage, e) ==
        if key in storage && storage[key].group == groupUuid then storage - {key} else storage)
    ensures var key := PageKey(hostname);
      !add && !(key in storage && storage[key].group == groupUuid) ==> e == []
  {
    var key := PageKey(hostname);
    if add then
      var record := if key in storage then storage[key].(group := groupUuid) else PageSetting(groupUuid, false);
      var e := [StorageSet(key, record)];
      assert Apply(storage, e) == Apply(storage[key := record], []);
      e
    else if key in storage && storage[key].group == groupUuid then
      var e := [StorageRemove(key)];
      assert Apply(storage, e) == Apply(storage - {key}, []);
      e
    else []
  }

  /** Ticking the box and reading the page again shows it ticked; unticking
      shows it clear. The other domains keep their records. */
  lemma AssignmentShown(add: bool, url: string, hostname: string, storage: map<string, PageSetting>,
                        current: Group)
    requires hostname != "" && url !in NewTabPages
    ensures var after := Apply(storage, DomainAssignment(add, storage, hostname, current.uuid));
      && TabAssignment(url, hostname, after, current).checked == add
      && forall k :: k != PageKey(hostname) ==> (k in after <==> k in storage) && (k in after ==> after[k] == storage[k])
  {
  }

  // ----- arrow keys -----

  /** The keydown step: the selection moves to the visible selectable
      element before (ArrowUp) or after (ArrowDown) the selected one, and
      stays when there is none. indexOf yields -1 for an element not in the
      list, so ArrowDown from there reaches the first element. */
  function ArrowStep<T(==)>(elements: seq<T>, selected: T, up: bool): (r: T)
    ensures var i := IndexOf(elements, selected);
      && (up && i > 0 ==> r == elements[i - 1])
      && (!up && i + 1 < |elements| ==> r == elements[i + 1])
      && (up && i <= 0 ==> r == selected)
      && (!up && i + 1 >= |elements| ==> r == selected)
  {
    var i := IndexOf(elements, selected);
    var k := if up then i - 1 else i + 1;
    if 0 <= k < |elements| then elements[k] else selected
  }

  lemma IndexOfNoRepeats<T>(s: seq<T>, k: nat)
    requires NoRepeats(s) && k < |s|
    ensures IndexOf(s, s[k]) == k
  {

  }

  /** Among distinct elements, ArrowDown and then ArrowUp come back to the
      selected element unless it was the last, and ArrowUp and then
      ArrowDown unless it was the first. */
  lemma ArrowRoundTrip<T>(elements: seq<T>, k: nat)
    requires NoRepeats(elements) && k < |elements|
    ensures k + 1 < |elements| ==> ArrowStep(elements, ArrowStep(elements, elements[k], false), true) == elements[k]
    ensures k > 0 ==> ArrowStep(elements, ArrowStep(elements, elements[k], true), false) == elements[k]
  {
    IndexOfNoRepeats(elements, k);
    if k + 1 < |elements| {
      IndexOfNoRepeats(elements, k + 1);
    }
    if k > 0 {
      IndexOfNoRepeats(elements, k - 1);
    }
  }
}
