/** The sidebar's group list (sidebar/main.js): the ordered groups of one
    window, the cache of tab entries keyed by tab id, the active tab and the
    batch-move flag, and the handlers of the browser's tab events.

    Each handler is one atomic step. What a handler reads from the browser
    (the window's tabs, a tab's stored group id, a tab looked up by id) is a
    parameter; what it asks of the browser is returned as `Effect` values in
    the order the source issues the calls. The views, the search box and the
    context menu are not modelled beyond the search text that decides
    whether a new or updated entry is shown. */
module SidebarMain {
  import opened Common
  import opened TabOrder
  import opened SidebarGroups
  import opened SidebarRestore

  /** The group `uuid` names: the first listed one, or null (getGroup). */
  function FindGroup(gs: seq<Group>, uuid: string): (r: Group?)
    ensures r == null <==> forall k :: 0 <= k < |gs| ==> gs[k].uuid != uuid
    ensures r != null ==> exists k :: 0 <= k < |gs| && gs[k] == r && r.uuid == uuid &&
                                    forall j :: 0 <= j < k ==> gs[j].uuid != uuid
  {
    if |gs| == 0 then null
    else if gs[0].uuid == uuid then gs[0]
    else
      var r := FindGroup(gs[1..], uuid);
      assert r != null ==> exists k :: 0 <= k < |gs| && gs[k] == r && r.uuid == uuid &&
                                       forall j :: 0 <= j < k ==> gs[j].uuid != uuid by {
        if r != null {
          var k :| 0 <= k < |gs| - 1 && gs[1..][k] == r && r.uuid == uuid &&
                   forall j :: 0 <= j < k ==> gs[1..][j].uuid != uuid;
          assert gs[k + 1] == r && forall j :: 0 <= j < k + 1 ==> gs[j].uuid != uuid;
        }
      }
      r
  }

  /** Array.prototype.findIndex((g) => g.uuid == uuid). */
  function FindGroupIndex(gs: seq<Group>, uuid: string): (i: int)
    ensures -1 <= i < |gs|
    ensures i == -1 <==> forall k :: 0 <= k < |gs| ==> gs[k].uuid != uuid
    ensures 0 <= i ==> gs[i].uuid == uuid && forall k :: 0 <= k < i ==> gs[k].uuid != uuid
  {
    if |gs| == 0 then -1
    else if gs[0].uuid == uuid then 0
    else
      var j := FindGroupIndex(gs[1..], uuid);
      if j == -1 then -1 else j + 1
  }

  /** The group drag-and-drop splice: take the group at `from` out and put it
      back at position `to` of the shortened list. */
  function MoveGroup(gs: seq<Group>, from: nat, to: nat): (r: seq<Group>)
    requires from < |gs| && to < |gs|
    ensures |r| == |gs| && r[to] == gs[from]
    ensures RemoveAt(r, to) == RemoveAt(gs, from)
    ensures multiset(r) == multiset(gs)
  {
    var rest := RemoveAt(gs, from);
    RemoveAtMultiset(gs, from);
    InsertAtMultiset(rest, to, gs[from]);
    var r := InsertAt(rest, to, gs[from]);
    assert RemoveAt(r, to) == rest;
    r
  }

  /** A group moved onto its own position leaves the list as it was. */
  lemma {:induction false} MoveGroupInPlace(gs: seq<Group>, k: nat)
    requires k < |gs|
    ensures MoveGroup(gs, k, k) == gs
  {
    var r := MoveGroup(gs, k, k);
    assert r == gs[..k] + [gs[k]] + gs[k + 1..];
    assert gs == gs[..k] + [gs[k]] + gs[k + 1..];
  }

  /** The groups other than the moved one keep their relative order. */
  lemma {:induction false} MoveGroupKeepsOthersInOrder(gs: seq<Group>, from: nat, to: nat, i: nat, j: nat)
    requires from < |gs| && to < |gs|
    requires i < j < |gs| && i != from && j != from
    ensures exists i', j' :: 0 <= i' < j' < |gs| && i' != to && j' != to &&
                             MoveGroup(gs, from, to)[i'] == gs[i] && MoveGroup(gs, from, to)[j'] == gs[j]
  {
    var rest := RemoveAt(gs, from);
    var r := MoveGroup(gs, from, to);
    var ri := if i < from then i else i - 1;
    var rj := if j < from then j else j - 1;
    assert rest[ri] == gs[i] && rest[rj] == gs[j];
    var i' := if ri < to then ri else ri + 1;
    var j' := if rj < to then rj else rj + 1;
    assert r[i'] == rest[ri] && r[j'] == rest[rj];
  }

  /** The net state of the batch-move flag after a group's effects ran. */
  function FlagAfter(flag: bool, effects: seq<Effect>): (r: bool)
    ensures (forall k :: 0 <= k < |effects| ==> !effects[k].BeginBatchMove? && !effects[k].EndBatchMove?) ==> r == flag
  {
    if |effects| == 0 then flag
    else
      var last := effects[|effects| - 1];
      if last.BeginBatchMove? then true
      else if last.EndBatchMove? then false
      else FlagAfter(flag, effects[..|effects| - 1])
  }

  /** Effects that are no batch markers leave the flag as it was. */
  lemma {:induction false} FlagAfterUnmarked(flag: bool, front: seq<Effect>, rest: seq<Effect>)
    requires forall k :: 0 <= k < |rest| ==> !rest[k].BeginBatchMove? && !rest[k].EndBatchMove?
    ensures FlagAfter(flag, front + rest) == FlagAfter(flag, front)
    decreases |rest|
  {
    if |rest| > 0 {
      var n := |rest| - 1;
      assert (front + rest)[..|front + rest| - 1] == front + rest[..n];
      FlagAfterUnmarked(flag, front, rest[..n]);
    } else {
      assert front + rest == front;
    }
  }

  /** A non-empty set of tab ids has a member. */
  lemma NonEmptyHasKey(keys: set<int>)
    requires |keys| > 0
    ensures exists k :: k in keys
  {
    if forall k :: k !in keys {
      assert false;
    }
  }

  /** An entry as a frame: empty for null. */
  ghost function EntrySet(t: TabEntry?): set<TabEntry>
  {
    if t == null then {} else {t}
  }

  /** An entry's group as a frame: empty for null or for an entry without a group. */
  ghost function OwnerSet(t: TabEntry?): set<Group>
    reads EntrySet(t)`group
  {
    if t == null || t.group == null then {} else {t.group}
  }

  /** A tab record matches the search text: its title or its URL contains
      the text, ignoring case (TabEntry.shouldHide on a fresh entry). */
  predicate InfoMatches(info: TabInfo, query: string)
  {
    ContainsCI(info.title, query) || ContainsCI(info.url, query)
  }

  /** A group's members, none for null. */
  ghost function MembersOf(g: Group?): seq<TabEntry>
    reads Only(g)`tabs
  {
    if g == null then [] else g.tabs
  }

  /** The listed groups other than `a`, as a frame. */
  ghost function Others(gs: seq<Group>, a: Group?): set<Group>
  {
    set k | 0 <= k < |gs| && gs[k] != a :: gs[k]
  }

  /** The members of the listed groups other than `a`, as a frame. */
  ghost function MembersOfOthers(gs: seq<Group>, a: Group?): set<TabEntry>
    reads Others(gs, a)`tabs
  {
    set k, t | 0 <= k < |gs| && gs[k] != a && t in gs[k].tabs :: t
  }

  /** Every listed group but `g` holds the clean selection of its members,
      `attachedTabs` standing for the members of `attached`. */
  ghost predicate CleanedElsewhere(gs: seq<Group>, g: Group?, attached: Group?, attachedTabs: seq<TabEntry>)
    reads gs`selected, Others(gs, attached)`tabs, MembersOfOthers(gs, attached)`active, attachedTabs`active
  {
    forall k :: 0 <= k < |gs| && gs[k] != g ==>
      gs[k].selected == CleanSelection(
        if gs[k] == attached then attachedTabs
        else assert forall t :: t in gs[k].tabs ==> t in MembersOfOthers(gs, attached); gs[k].tabs)
  }

  /** A group as a frame: empty for null. */
  ghost function Only(g: Group?): set<Group>
  {
    if g == null then {} else {g}
  }

  /** The groups storage records name, in record order: the name a group ends
      with after the records' updates, starting from `name` (an empty name is
      ignored, a later record wins). */
  function RenamedTo(data: seq<GroupData>, uuid: string, name: string): (r: string)
    ensures r == name || exists k :: 0 <= k < |data| && data[k].uuid == uuid && data[k].name == r && r != ""
  {
    if |data| == 0 then name
    else
      var last := data[|data| - 1];
      if last.uuid == uuid && last.name != "" then last.name
      else RenamedTo(data[..|data| - 1], uuid, name)
  }

  /** The position of the first record naming no listed group, or |data|. */
  function FirstUnknown(gs: seq<Group>, data: seq<GroupData>): (m: nat)
    ensures m <= |data|
    ensures forall k :: 0 <= k < m ==> FindGroup(gs, data[k].uuid) != null
    ensures m < |data| ==> FindGroup(gs, data[m].uuid) == null
  {
    if |data| == 0 then 0
    else if FindGroup(gs, data[0].uuid) == null then 0
    else 1 + FirstUnknown(gs, data[1..])
  }

  /** The name of groups[k] after the records `data`, starting from `name`:
      only the first group with a uuid is ever renamed. */
  function NameAfter(gs: seq<Group>, k: nat, data: seq<GroupData>, name: string): (r: string)
    requires k < |gs|
    ensures FindGroup(gs, gs[k].uuid) != gs[k] ==> r == name
  {
    if FindGroup(gs, gs[k].uuid) == gs[k] then RenamedTo(data, gs[k].uuid, name) else name
  }

  /** One more record renames exactly the first group with its uuid. */
  lemma NameAfterStep(gs: seq<Group>, k: nat, data: seq<GroupData>, i: nat, name: string)
    requires k < |gs| && i < |data|
    ensures var g := FindGroup(gs, data[i].uuid);
      NameAfter(gs, k, data[..i + 1], name) ==
        if gs[k] == g && data[i].name != "" then data[i].name else NameAfter(gs, k, data[..i], name)
  {
    assert data[..i + 1][..i] == data[..i];
  }

  /** A record makes its group ask to save: it names a listed group that
      has a parent, and its name is not empty (updateName ignores it then). */
  predicate SavesOn(gs: seq<Group>, d: GroupData)
    reads gs`hasParent
  {
    var g := FindGroup(gs, d.uuid);
    g != null && g.hasParent && d.name != ""
  }

  /** The saves the records `data` ask for, in record order: one per record
      that SavesOn holds for. */
  function RenameSaves(gs: seq<Group>, data: seq<GroupData>): (r: seq<Effect>)
    reads gs`hasParent
    ensures |r| <= |data| && forall e :: e in r ==> e == SaveStorage
  {
    if |data| == 0 then []
    else RenameSaves(gs, data[..|data| - 1]) + (if SavesOn(gs, data[|data| - 1]) then [SaveStorage] else [])
  }

  /** The records ask for no save exactly when none of them names a group
      with a parent under a non-empty name. */
  lemma {:induction false} RenameSavesNone(gs: seq<Group>, data: seq<GroupData>)
    ensures RenameSaves(gs, data) == [] <==> forall k :: 0 <= k < |data| ==> !SavesOn(gs, data[k])
  {
    if |data| > 0 {
      var init := data[..|data| - 1];
      RenameSavesNone(gs, init);
      assert forall k :: 0 <= k < |init| ==> init[k] == data[k];
    }
  }

  /** The loop of onStorageChange over the records: `m` records are applied
      before the first one naming no group. */
  method ApplyRenames(gs: seq<Group>, data: seq<GroupData>) returns (m: nat, effects: seq<Effect>)
    modifies gs`name
    ensures m == FirstUnknown(gs, data)
    ensures forall k :: 0 <= k < |gs| ==> gs[k].name == NameAfter(gs, k, data[..m], old(gs[k].name))
    ensures (forall e :: e in effects ==> e == SaveStorage) && |effects| <= m
    ensures effects == RenameSaves(gs, data[..m])
  {
    effects := [];
    ghost var names := Names(gs);
    m := 0;
    assert data[..0] == [];
    while m < |data|
      invariant 0 <= m <= FirstUnknown(gs, data)
      invariant Renamed(gs, data[..m], names)
      invariant (forall e :: e in effects ==> e == SaveStorage) && |effects| <= m
      invariant effects == RenameSaves(gs, data[..m])
    {
      var g := FindGroup(gs, data[m].uuid);
      if g == null {
        return;
      }
      FirstUnknownPast(gs, data, m);
      var e := RenameStep(gs, data, m, g, names);
      effects, m := effects + e, m + 1;
    }
  }

  /** A known record at or before FirstUnknown lies before it. */
  lemma FirstUnknownPast(gs: seq<Group>, data: seq<GroupData>, m: nat)
    requires m < |data| && m <= FirstUnknown(gs, data) && FindGroup(gs, data[m].uuid) != null
    ensures m + 1 <= FirstUnknown(gs, data)
  {
  }

  /** Every group carries the name the records `data` give it, starting
      from `names`. */
  ghost predicate Renamed(gs: seq<Group>, data: seq<GroupData>, names: seq<string>)
    reads gs`name
  {
    |names| == |gs| && forall k :: 0 <= k < |gs| ==> gs[k].name == NameAfter(gs, k, data, names[k])
  }

  /** One record of onStorageChange applied to the group it names. */
  method RenameStep(gs: seq<Group>, data: seq<GroupData>, m: nat, g: Group, ghost names: seq<string>)
      returns (e: seq<Effect>)
    requires m < |data| && g == FindGroup(gs, data[m].uuid)
    requires Renamed(gs, data[..m], names)
    modifies g`name
    ensures Renamed(gs, data[..m + 1], names)
    ensures e == [] || e == [SaveStorage]
    ensures e == if SavesOn(gs, data[m]) then [SaveStorage] else []
    ensures RenameSaves(gs, data[..m + 1]) == old(RenameSaves(gs, data[..m])) + e
  {
    assert data[..m + 1][..m] == data[..m];
    e := g.UpdateName(data[m].name);
    forall k | 0 <= k < |gs|
      ensures gs[k].name == NameAfter(gs, k, data[..m + 1], names[k])
    {
      NameAfterStep(gs, k, data, m, names[k]);
    }
  }

  /** Where appendTabs puts `entries` in a group whose members are `base`:
      at the end without a relative entry, otherwise right after the
      relative entry's first position (indexOf + 1, so at the front when the
      relative entry is not a member). */
  function Appended(base: seq<TabEntry>, entries: seq<TabEntry>, relative: TabEntry?): (r: seq<TabEntry>)
    ensures relative == null ==> r == base + entries
    ensures relative != null && relative !in base ==> r == entries + base
  {
    if relative == null then base + entries else BlockAfter(base, relative, entries)
  }

  /** appendTabs loses and duplicates nothing. */
  lemma AppendedMultiset(base: seq<TabEntry>, entries: seq<TabEntry>, relative: TabEntry?)
    ensures multiset(Appended(base, entries, relative)) == multiset(base) + multiset(entries)
  {
    if relative != null {
      var k := IndexOf(base, relative) + 1;
      var front, back := base[..k], base[k..];
      assert base == front + back;
      assert Appended(base, entries, relative) == front + entries + back;
      calc {
        multiset(front + entries + back);
        multiset(front) + multiset(entries) + multiset(back);
        multiset(front + back) + multiset(entries);
      }
    }
  }

  /** After a member, the entries follow it directly and in their order. */
  lemma AppendedAfter(base: seq<TabEntry>, entries: seq<TabEntry>, relative: TabEntry)
    requires relative in base
    ensures var r := Appended(base, entries, relative); var k := IndexOf(base, relative) + 1;
      && r[k - 1] == relative && r[k..k + |entries|] == entries
      && r[..k] == base[..k] && r[k + |entries|..] == base[k..]
  {
  }

  /** The effects of appendTabs that leaves the group holding `tabs`: the
      group id writes alone without a relative entry; otherwise the writes
      inside a batch move, closed by moving the whole group in the browser
      and a resync, unless the group is empty, where reading tabs[0] fails
      before the batch is closed. */
  function AppendEffects(entries: seq<TabEntry>, uuid: string, relative: TabEntry?, tabs: seq<TabEntry>)
    : (r: seq<Effect>)
    reads if |tabs| > 0 then {tabs[0]} else {}
    ensures relative == null ==> r == GroupIdWrites(entries, uuid)
    ensures relative != null ==>
      && |r| == |entries| + (if |tabs| == 0 then 1 else 4)
      && r[0] == BeginBatchMove && r[1..|entries| + 1] == GroupIdWrites(entries, uuid)
  {
    if relative == null then GroupIdWrites(entries, uuid)
    else [BeginBatchMove] + GroupIdWrites(entries, uuid) +
         (if |tabs| == 0 then [] else [MoveTabs(Ids(tabs), tabs[0].index), EndBatchMove, Resync])
  }

  /** The batch move appendTabs opens is closed again exactly when it does
      not fail on an empty group; without a relative entry the flag stays. */
  lemma AppendEffectsFlag(entries: seq<TabEntry>, uuid: string, relative: TabEntry?, tabs: seq<TabEntry>, flag: bool)
    ensures FlagAfter(flag, AppendEffects(entries, uuid, relative, tabs)) ==
      if relative == null then flag else |tabs| == 0
  {
    var writes := GroupIdWrites(entries, uuid);
    if relative != null {
      if |tabs| == 0 {
        FlagAfterUnmarked(flag, [BeginBatchMove], writes);
        assert AppendEffects(entries, uuid, relative, tabs) == [BeginBatchMove] + writes;
      } else {
        var front := [BeginBatchMove] + writes + [MoveTabs(Ids(tabs), tabs[0].index)];
        var r := AppendEffects(entries, uuid, relative, tabs);
        assert r == front + [EndBatchMove] + [Resync];
        assert r[..|r| - 1] == front + [EndBatchMove];
      }
    }
  }

  /** group.appendTabs, stated with Appended and AppendEffects: with a
      relative entry the active entries join the selection. */
  method AppendTo(list: GroupList, to: Group, entries: seq<TabEntry>, relative: TabEntry?) returns (thrown: bool, effects: seq<Effect>)
    modifies to`tabs, to`selected, entries`group, list`signalBatchMove
    ensures to.tabs == Appended(old(to.tabs), entries, relative)
    ensures forall t :: t in entries ==> t.group == to
    ensures thrown <==> relative != null && |old(to.tabs)| + |entries| == 0
    ensures to.selected == old(to.selected) + (if relative == null then [] else old(ActiveOnes(entries)))
    ensures effects == AppendEffects(entries, to.uuid, relative, to.tabs)
    ensures forall flag :: FlagAfter(flag, effects) == if relative == null then flag else thrown
    ensures list.signalBatchMove == if relative == null then old(list.signalBatchMove) else thrown
  {
    thrown, effects := to.AppendTabs(entries, relative);
    if relative != null {
      // beginBatchMove sets the flag; endBatchMove, not reached when
      // the move throws, clears it
      list.signalBatchMove := thrown;
    }
    forall flag: bool
      ensures FlagAfter(flag, effects) == if relative == null then flag else thrown
    {
      AppendEffectsFlag(entries, to.uuid, relative, to.tabs, flag);
    }
  }

  /** _dropTabs for a tab dragged alone: it leaves its group, whose
      selection stays, and joins the target group after the relative entry,
      selected there when it is active and placed after a relative entry;
      the batch move it may open is closed again. */
  method DropSolo(list: GroupList, from: Group, tab: TabEntry, to: Group, relative: TabEntry?) returns (effects: seq<Effect>)
    modifies from`tabs, to`tabs, to`selected, tab`group, list`signalBatchMove
    ensures from != to ==> from.tabs == Without(old(from.tabs), tab) && from.selected == old(from.selected)
    ensures to.tabs == Appended(if from == to then Without(old(to.tabs), tab) else old(to.tabs), [tab], relative)
    ensures tab.group == to
    ensures to.selected == old(to.selected) + (if relative != null && tab.active then [tab] else [])
    ensures effects == AppendEffects([tab], to.uuid, relative, to.tabs)
    ensures relative == null ==> effects == [SetGroupId(tab.id, to.uuid)]
    ensures forall flag :: FlagAfter(flag, effects) == (relative == null && flag)
    ensures list.signalBatchMove == FlagAfter(old(list.signalBatchMove), effects)
    ensures forall h :: h in list.groups && h != from && h != to ==> h.tabs == old(h.tabs) && h.selected == old(h.selected)
  {
    from.RemoveTab(tab);
    effects := AppendSolo(list, to, tab, relative);
  }

  /** appendTabs([tab], relative), which cannot fail: the target is not
      empty once the tab is in it. */
  method AppendSolo(list: GroupList, to: Group, tab: TabEntry, relative: TabEntry?) returns (effects: seq<Effect>)
    modifies to`tabs, to`selected, tab`group, list`signalBatchMove
    ensures to.tabs == Appended(old(to.tabs), [tab], relative)
    ensures tab.group == to
    ensures to.selected == old(to.selected) + (if relative != null && tab.active then [tab] else [])
    ensures effects == AppendEffects([tab], to.uuid, relative, to.tabs)
    ensures relative == null ==> effects == [SetGroupId(tab.id, to.uuid)]
    ensures forall flag :: FlagAfter(flag, effects) == (relative == null && flag)
    ensures list.signalBatchMove == FlagAfter(old(list.signalBatchMove), effects)
  {
    var thrown;
    thrown, effects := AppendTo(list, to, [tab], relative);
    assert [tab][..0] == [];
    assert !thrown;
  }

  /** _dropTabs for a selection: the selected members leave their group in
      member order (popSelected, which cleans that group's selection first)
      and join the target group after the relative entry, where the active
      ones are selected; with a relative entry, an empty result fails and
      leaves the batch move open. */
  method DropSelected(list: GroupList, from: Group, to: Group, relative: TabEntry?) returns (thrown: bool, moved: seq<TabEntry>, effects: seq<Effect>)
    modifies from`tabs, from`selected, to`tabs, to`selected, from.tabs`group, list`signalBatchMove
    ensures moved == TakeIds(old(from.tabs), IdSet(old(from.selected)))
    ensures from != to ==> from.tabs == DropIds(old(from.tabs), IdSet(old(from.selected)))
    ensures from != to ==> from.selected == old(CleanSelection(from.tabs))
    ensures to.tabs == Appended(if from == to then DropIds(old(to.tabs), IdSet(old(from.selected))) else old(to.tabs), moved, relative)
    ensures forall t :: t in moved ==> t.group == to
    ensures forall t :: t in old(from.tabs) && t !in moved ==> t.group == old(t.group)
    ensures to.selected == (if from == to then old(CleanSelection(to.tabs)) else old(to.selected)) +
                           (if relative == null then [] else old(ActiveOnes(moved)))
    ensures thrown <==> relative != null && |to.tabs| == 0
    ensures effects == AppendEffects(moved, to.uuid, relative, to.tabs)
    ensures forall flag :: FlagAfter(flag, effects) == if relative == null then flag else thrown
    ensures list.signalBatchMove == if relative == null then old(list.signalBatchMove) else thrown
  {
    if from == to {
      thrown, moved, effects := DropWithin(list, to, relative);
    } else {
      thrown, moved, effects := DropAcross(list, from, to, relative);
    }
  }

  /** DropSelected when the selection is dropped on its own group. */
  method DropWithin(list: GroupList, g: Group, relative: TabEntry?) returns (thrown: bool, moved: seq<TabEntry>, effects: seq<Effect>)
    modifies g`tabs, g`selected, g.tabs`group, list`signalBatchMove
    ensures moved == TakeIds(old(g.tabs), IdSet(old(g.selected)))
    ensures g.tabs == Appended(DropIds(old(g.tabs), IdSet(old(g.selected))), moved, relative)
    ensures forall t :: t in moved ==> t.group == g
    ensures forall t :: t in old(g.tabs) && t !in moved ==> t.group == old(t.group)
    ensures g.selected == old(CleanSelection(g.tabs)) + (if relative == null then [] else old(ActiveOnes(moved)))
    ensures thrown <==> relative != null && |g.tabs| == 0
    ensures effects == AppendEffects(moved, g.uuid, relative, g.tabs)
    ensures forall flag :: FlagAfter(flag, effects) == if relative == null then flag else thrown
    ensures list.signalBatchMove == if relative == null then old(list.signalBatchMove) else thrown
  {
    moved := g.PopSelected();
    assert forall i :: 0 <= i < |moved| ==> moved[i] in old(g.tabs);
    ghost var base, active := g.tabs, ActiveOnes(moved);
    assert active == old(ActiveOnes(moved));
    thrown, effects := AppendTo(list, g, moved, relative);
    assert |g.tabs| == |base| + |moved|;
  }

  /** DropSelected when the selection is dropped on another group. */
  method DropAcross(list: GroupList, from: Group, to: Group, relative: TabEntry?) returns (thrown: bool, moved: seq<TabEntry>, effects: seq<Effect>)
    requires from != to
    modifies from`tabs, from`selected, to`tabs, to`selected, from.tabs`group, list`signalBatchMove
    ensures moved == TakeIds(old(from.tabs), IdSet(old(from.selected)))
    ensures from.tabs == DropIds(old(from.tabs), IdSet(old(from.selected)))
    ensures from.selected == old(CleanSelection(from.tabs))
    ensures to.tabs == Appended(old(to.tabs), moved, relative)
    ensures forall t :: t in moved ==> t.group == to
    ensures forall t :: t in old(from.tabs) && t !in moved ==> t.group == old(t.group)
    ensures to.selected == old(to.selected) + (if relative == null then [] else old(ActiveOnes(moved)))
    ensures thrown <==> relative != null && |to.tabs| == 0
    ensures effects == AppendEffects(moved, to.uuid, relative, to.tabs)
    ensures forall flag :: FlagAfter(flag, effects) == if relative == null then flag else thrown
    ensures list.signalBatchMove == if relative == null then old(list.signalBatchMove) else thrown
  {
    moved := from.PopSelected();
    assert forall i :: 0 <= i < |moved| ==> moved[i] in old(from.tabs);
    ghost var base, active := to.tabs, ActiveOnes(moved);
    assert active == old(ActiveOnes(moved));
    thrown, effects := AppendTo(list, to, moved, relative);
    assert |to.tabs| == |base| + |moved|;
  }

  /** The names of a list of groups. */
  ghost function Names(gs: seq<Group>): (r: seq<string>)
    reads gs
    ensures |r| == |gs| && forall k :: 0 <= k < |gs| ==> r[k] == gs[k].name
  {
    seq(|gs|, k requires 0 <= k < |gs| reads gs => gs[k].name)
  }

  /** What onDrop is handed besides the drag context: the group the drop
      landed on and the tab it landed on, as read from the event target. */
  datatype DropTarget = DropTarget(groupId: Option<string>, tabId: Option<int>)

  /** A group's active flag and selection at one moment. */
  datatype GroupState = GroupState(active: bool, selected: seq<TabEntry>)

  /** What setActive reads and writes, taken as values at one moment: the
      active entry, its active flag, its group and that group's state, and
      the listed groups with their states, position by position. */
  datatype ActivationState = ActivationState(prev: TabEntry?, prevActive: bool, pg: Group?, pgState: GroupState,
                                             groups: seq<Group>, states: seq<GroupState>)
  {
    /** The recorded state of the k-th listed group. */
    function StateAt(k: nat): GroupState
    {
      if k < |states| then states[k] else GroupState(false, [])
    }

    /** The k-th listed group has the active flag and the selection it had. */
    ghost predicate Kept(k: nat)
      requires k < |groups|
      reads {groups[k]}`active, {groups[k]}`selected
    {
      groups[k].active == StateAt(k).active && groups[k].selected == StateAt(k).selected
    }
  }

  /** The states of the listed groups, position by position. */
  ghost function States(gs: seq<Group>): (r: seq<GroupState>)
    reads gs`active, gs`selected
    ensures |r| == |gs|
    ensures forall k :: 0 <= k < |gs| ==> r[k] == GroupState(gs[k].active, gs[k].selected)
  {
    if |gs| == 0 then [] else States(gs[..|gs| - 1]) + [GroupState(gs[|gs| - 1].active, gs[|gs| - 1].selected)]
  }

  /** Records that differ from `before` at most at one cached entry's id are
      `before` with that entry's record. */
  lemma RecordsAfterUpdate(list: GroupList, entry: TabEntry, before: map<int, TabRecord>)
    requires list.Valid() && before.Keys == list.tabCache.Keys
    requires entry.id in list.tabCache && list.tabCache[entry.id] == entry
    requires forall id :: id in list.tabCache && id != entry.id ==> list.tabCache[id].Record() == before[id]
    ensures list.Records() == before[entry.id := entry.Record()]
  {
  }

  class GroupList {
    var groups: seq<Group>
    var tabCache: map<int, TabEntry>
    var activeTab: TabEntry?
    var windowId: int
    var signalBatchMove: bool
    /** The search box's text: a non-empty text filters new and updated entries. */
    var searchText: string
    /** _dragContext: the dragged group, whether one tab is dragged alone, the dragged tab. */
    var dragGroup: Group?
    var dragIsSoloTab: bool
    var dragTab: TabEntry?
    /** _dragContext.tab !== null: a tab drag started, even one whose tab
        was not cached (getTab then yields undefined, modelled as null). */
    var dragTabSet: bool

    /** A list before populate: no groups, nothing cached, no drag. */
    constructor (searchText: string)
      ensures groups == [] && tabCache == map[] && activeTab == null
      ensures !signalBatchMove && this.searchText == searchText
      ensures dragGroup == null && !dragIsSoloTab && dragTab == null && !dragTabSet
    {
      groups := [];
      tabCache := map[];
      activeTab := null;
      windowId := -1;
      signalBatchMove := false;
      this.searchText := searchText;
      dragGroup := null;
      dragIsSoloTab := false;
      dragTab := null;
      dragTabSet := false;
    }

    /** Every cached entry is stored under its own tab id, so two ids never
        share an entry. */
    ghost predicate Valid()
      reads this`tabCache
    {
      forall id :: id in tabCache ==> tabCache[id].id == id
    }

    /** The properties update overwrites, per cached tab id. */
    ghost function Records(): (m: map<int, TabRecord>)
      reads this`tabCache, tabCache.Values`index, tabCache.Values`title, tabCache.Values`url,
            tabCache.Values`pinned, tabCache.Values`audible, tabCache.Values`muted,
            tabCache.Values`discarded
      ensures m.Keys == tabCache.Keys
    {
      map id | id in tabCache :: tabCache[id].Record()
    }

    /** The cached index of every cached tab. */
    ghost function Indices(): (m: map<int, int>)
      reads this`tabCache, tabCache.Values`index
      ensures m.Keys == tabCache.Keys
    {
      map id | id in tabCache :: tabCache[id].index
    }

    /** The groups of the cached entries. */
    ghost function Owners(): set<Group>
      reads this`tabCache, tabCache.Values`group
    {
      set id | id in tabCache && tabCache[id].group != null :: tabCache[id].group
    }

    /** getTab: the cached entry, or null. */
    function GetTab(tabId: int): (r: TabEntry?)
      reads this`tabCache
      ensures r != null <==> tabId in tabCache
      ensures r != null ==> r == tabCache[tabId]
    {
      if tabId in tabCache then tabCache[tabId] else null
    }

    /** getGroup: the first group with the uuid, or null. */
    function GetGroup(uuid: string): (r: Group?)
      reads this`groups
      ensures r == null <==> forall k :: 0 <= k < |groups| ==> groups[k].uuid != uuid
      ensures r != null ==> r in groups && r.uuid == uuid
    {
      FindGroup(groups, uuid)
    }

    /** activeGroup: the active entry's group, null without an active entry. */
    function ActiveGroup(): (r: Group?)
      reads this`activeTab, EntrySet(activeTab)`group
      ensures activeTab == null ==> r == null
      ensures activeTab != null ==> r == activeTab.group
    {
      if activeTab == null then null else activeTab.group
    }

    /** groupCount */
    function GroupCount(): (n: nat)
      reads this`groups
      ensures n == |groups|
    {
      |groups|
    }

    /** beginBatchMove: from now on onMoved ignores the browser's reports. */
    method BeginBatchMove()
      modifies this`signalBatchMove
      ensures signalBatchMove
    {
      signalBatchMove := true;
    }

    /** endBatchMove: onMoved handles the browser's reports again. */
    method EndBatchMove()
      modifies this`signalBatchMove
      ensures !signalBatchMove
    {
      signalBatchMove := false;
    }

    // ----- the index cache -----

    /** The loop the Moved, Created and Removed handlers share: every cached
        entry whose index lies in [lo, hi) moves by `inc` (hi None: no upper
        bound). Map iteration order does not matter, because each entry is
        visited once and only its own index changes. */
    method ShiftIndices(lo: int, hi: Option<int>, inc: int)
      requires Valid()
      modifies tabCache.Values`index
      ensures Indices() == Shift(old(Indices()), lo, hi, inc)
    {
      ghost var before := Indices();
      var pending := tabCache.Keys;
      while |pending| > 0
        invariant pending <= tabCache.Keys
        invariant forall id :: id in tabCache && id in pending ==> tabCache[id].index == before[id]
        invariant forall id :: id in tabCache && id !in pending ==>
          tabCache[id].index == ShiftOne(before[id], lo, hi, inc)
        decreases pending
      {
        NonEmptyHasKey(pending);
        var key :| key in pending;
        var entry := tabCache[key];
        if lo <= entry.index && (hi.None? || entry.index < hi.value) {
          entry.index := entry.index + inc;
        }
        pending := pending - {key};
      }
      assert forall id :: id in tabCache ==> Indices()[id] == ShiftOne(before[id], lo, hi, inc);
    }

    /** One cached entry's index is assigned; the others keep theirs. */
    method SetCachedIndex(tab: TabEntry, i: int)
      requires Valid() && tab.id in tabCache && tabCache[tab.id] == tab
      modifies tab`index
      ensures Indices() == old(Indices())[tab.id := i]
    {
      tab.index := i;
      assert forall id :: id in tabCache && id != tab.id ==> tabCache[id].index == old(tabCache[id].index);
    }

    /** onMoved: ignored for another window, while a batch move runs, and for
        a tab that is not cached or has no group. Otherwise the tab's group
        repositions it (failing on an empty group before any index changes),
        every other cached index between the two positions moves one step
        towards `fromIndex`, and the tab's index becomes `toIndex` (the
        arithmetic TabOrder.Moved states). No other group changes. */
    method OnMoved(tabId: int, moveWindowId: int, fromIndex: int, toIndex: int) returns (thrown: bool)
      requires Valid()
      modifies tabCache.Values`index, Owners()`tabs
      ensures var g := old(if tabId in tabCache then tabCache[tabId].group else null);
        var applies := old(moveWindowId == windowId && !signalBatchMove) && g != null;
        && (thrown <==> applies && |old(g.tabs)| == 0)
        && (!applies || thrown ==> Indices() == old(Indices()))
        && (applies && !thrown ==> Indices() == Moved(old(Indices()), tabId, fromIndex, toIndex))
        && (applies ==> g.tabs == old(MoveMember(SortBy(g.tabs, Position), tabId,
                                                FirstAtOrAbove(SortBy(g.tabs, Position), toIndex))))
        && (forall h :: h in old(Owners()) && (!applies || h != g) ==> h.tabs == old(h.tabs))
    {
      thrown := false;
      if moveWindowId != windowId || signalBatchMove {
        return;
      }
      var tab := GetTab(tabId);
      if tab == null || tab.group == null {
        return;
      }
      thrown := MoveGrouped(tab, tab.group, fromIndex, toIndex);
    }

    /** onMoved for a cached tab with a group: the group repositions it, then
        the cached indices move, unless the reposition failed. */
    method MoveGrouped(tab: TabEntry, g: Group, fromIndex: int, toIndex: int) returns (thrown: bool)
      requires Valid() && tab.id in tabCache && tabCache[tab.id] == tab && tab.group == g
      modifies tabCache.Values`index, g`tabs
      ensures thrown <==> |old(g.tabs)| == 0
      ensures thrown ==> Indices() == old(Indices())
      ensures !thrown ==> Indices() == Moved(old(Indices()), tab.id, fromIndex, toIndex)
      ensures g.tabs == old(MoveMember(SortBy(g.tabs, Position), tab.id,
                                       FirstAtOrAbove(SortBy(g.tabs, Position), toIndex)))
    {
      ghost var before := Indices();
      thrown := g.RepositionTab(tab.id, toIndex);
      assert Indices() == before;
      if thrown {
        return;
      }
      MoveIndices(tab, fromIndex, toIndex);
    }

    /** onMoved's index bookkeeping for a cached tab that moved. */
    method MoveIndices(tab: TabEntry, fromIndex: int, toIndex: int)
      requires Valid() && tab.id in tabCache && tabCache[tab.id] == tab
      modifies tabCache.Values`index
      ensures Indices() == Moved(old(Indices()), tab.id, fromIndex, toIndex)
    {
      ghost var before := Indices();
      if toIndex > fromIndex {
        ShiftIndices(fromIndex, Some(toIndex + 1), -1);
      } else {
        ShiftIndices(toIndex, Some(fromIndex), 1);
      }
      MoveShiftIsShift(before, fromIndex, toIndex);
      SetCachedIndex(tab, toIndex);
    }

    /** _removeTab (for onRemoved and onDetached): the entry leaves its group,
        is dropped from the cache, and every remaining index at or above its
        index moves down by one. For a tab that is not cached the source
        reads the index of null, which fails as soon as one entry remains. */
    method RemoveTab(tabId: int) returns (thrown: bool)
      requires Valid()
      modifies this`tabCache, tabCache.Values`index, Owners()`tabs
      ensures Valid() && tabCache == old(tabCache) - {tabId}
      ensures thrown <==> tabId !in old(tabCache) && |old(tabCache)| > 0
      ensures tabId !in old(tabCache) ==> Indices() == old(Indices())
      ensures tabId in old(tabCache) ==>
        Indices() == Removed(old(Indices()), tabId, old(tabCache[tabId].index))
      ensures tabId in old(tabCache) && old(tabCache[tabId].group) != null ==>
        old(tabCache[tabId].group).tabs == Without(old(tabCache[tabId].group.tabs), old(tabCache[tabId]))
      ensures forall h :: h in old(Owners()) && (tabId !in old(tabCache) || h != old(tabCache[tabId].group)) ==>
        h.tabs == old(h.tabs)
    {
      var tab := GetTab(tabId);
      if tab == null {
        thrown := |tabCache| > 0;
        return;
      }
      tab.Detach();
      DropEntry(tab);
      thrown := false;
    }

    /** _removeTab's cache work for a cached entry: delete it, then shift
        the remaining indices at or above its index down by one. */
    method DropEntry(tab: TabEntry)
      requires Valid() && tab.id in tabCache && tabCache[tab.id] == tab
      modifies this`tabCache, tabCache.Values`index
      ensures Valid() && tabCache == old(tabCache) - {tab.id}
      ensures Indices() == Removed(old(Indices()), tab.id, old(tab.index))
    {
      ghost var before := Indices();
      var at := tab.index;
      tabCache := tabCache - {tab.id};
      assert Indices() == before - {tab.id};
      ShiftIndices(at, None, -1);
      RemovedIsShift(before, tab.id, at);
    }

    // ----- the active tab and the selections -----

    /** cleanSelectedExcept: every listed group but `except` is cleaned (its
        selection keeps only its active member). */
    method CleanSelectedExcept(except: Group?)
      modifies groups`selected
      ensures forall k :: 0 <= k < |groups| && groups[k] != except ==>
        groups[k].selected == CleanSelection(groups[k].tabs)
      ensures except != null ==> except.selected == old(except.selected)
    {
      var k := 0;
      while k < |groups|
        invariant 0 <= k <= |groups|
        invariant forall j :: 0 <= j < k && groups[j] != except ==>
          groups[j].selected == CleanSelection(groups[j].tabs)
        invariant except != null ==> except.selected == old(except.selected)
      {
        if groups[k] != except {
          groups[k].CleanSelected();
        }
        k := k + 1;
      }
    }

    /** maybeCleanSelection: a click, blur or Escape outside every group
        (`targetGroupId` None) cleans the selection of every group. */
    method MaybeCleanSelection(targetGroupId: Option<string>)
      modifies groups`selected
      ensures targetGroupId.None? ==>
        forall k :: 0 <= k < |groups| ==> groups[k].selected == CleanSelection(groups[k].tabs)
      ensures targetGroupId.Some? ==> forall k :: 0 <= k < |groups| ==> groups[k].selected == old(groups[k].selected)
    {
      if targetGroupId.None? {
        CleanSelectedExcept(null);
      }
    }

    /** The first step of setActive: the active entry, if any, is deactivated
        and its group drops it from the selection. */
    method DeactivateCurrent()
      modifies EntrySet(activeTab)`active, OwnerSet(activeTab)`active, OwnerSet(activeTab)`selected
      ensures activeTab != null ==> !activeTab.active
      ensures ActiveGroup() != null ==>
        !ActiveGroup().active && ActiveGroup().selected == Without(old(ActiveGroup().selected), activeTab)
      ensures forall k :: 0 <= k < |groups| && groups[k] != ActiveGroup() ==>
        groups[k].selected == old(groups[k].selected) && groups[k].active == old(groups[k].active)
    {
      if activeTab != null {
        activeTab.ToggleActive(false);
      }
    }

    /** The second step of setActive: `tab` is activated and its group, if
        any, takes it into the selection; no other group changes. */
    method ActivateOnly(tab: TabEntry)
      modifies tab`active, OwnerSet(tab)`active, OwnerSet(tab)`selected
      ensures tab.active && tab.group == old(tab.group)
      ensures tab.group != null ==> tab.group.active && tab.group.selected == old(tab.group.selected) + [tab]
      ensures forall k :: 0 <= k < |groups| && groups[k] != tab.group ==>
        groups[k].selected == old(groups[k].selected) && groups[k].active == old(groups[k].active)
    {
      tab.ToggleActive(true);
    }

    /** The state setActive may touch, as it is now: the active entry, its
        group, and every listed group. */
    ghost function Snapshot(): (s: ActivationState)
      reads this`activeTab, this`groups, EntrySet(activeTab)`active, EntrySet(activeTab)`group,
            groups`active, groups`selected, OwnerSet(activeTab)`active, OwnerSet(activeTab)`selected
    {
      ActivationState(activeTab, activeTab != null && activeTab.active, ActiveGroup(), StateOf(ActiveGroup()), groups,
                      States(groups))
    }

    /** The state of one group as it is now (a blank one for null). */
    ghost function StateOf(g: Group?): GroupState
      reads Only(g)`active, Only(g)`selected
    {
      if g == null then GroupState(false, []) else GroupState(g.active, g.selected)
    }

    /** What setActive(tab) leaves, `g` being the group `tab` is in when it
        is activated (null for none) and `s` the state before. The previous
        active entry is deactivated, and so is its group when that is not
        `g`; `tab` and `g` are active and `g`'s selection ends with `tab`,
        after dropping the previous entry when that was a member. When the
        group changes and nothing threw, every other listed group's
        selection is cleaned; otherwise they keep their selections, but for
        the previous group, which drops the previous entry. No other listed
        group's active flag changes. `attached` names a group that took a
        member after the activation (onAttached): its clean selection is
        that of `attachedTabs`, the members it had before. `g0` is the
        state `g` had. */
    ghost predicate Activated(tab: TabEntry?, g: Group?, thrown: bool, attached: Group?,
                              attachedTabs: seq<TabEntry>, s: ActivationState, g0: GroupState)
      reads this`activeTab, EntrySet(tab)`active, EntrySet(s.prev)`active, Only(g)`active, Only(g)`selected,
            Only(s.pg)`active, Only(s.pg)`selected, s.groups`active, s.groups`selected,
            Others(s.groups, attached)`tabs, MembersOfOthers(s.groups, attached)`active, attachedTabs`active
    {
      var prev, pg, gs := s.prev, s.pg, s.groups;
      var clean := tab != null && !thrown && g != pg;
      && (thrown <==> tab != null && prev == null)
      && activeTab == (if tab != null && !thrown then tab else prev)
      && (tab != null ==> tab.active)
      && (prev != null && prev != tab ==> !prev.active)
      && (g != null && tab != null ==>
            && g.active
            && g.selected == (if pg == g && prev != null then Without(g0.selected, prev) else g0.selected) + [tab])
      && (pg != null && pg != g ==> !pg.active)
      && (prev != null && pg != null && pg != g && (!clean || pg !in gs) ==>
            pg.selected == Without(s.pgState.selected, prev))
      && (clean ==> CleanedElsewhere(gs, g, attached, attachedTabs))
      && (!clean ==> forall k :: 0 <= k < |gs| && gs[k] != g && gs[k] != pg ==> gs[k].selected == s.StateAt(k).selected)
      && (forall k :: 0 <= k < |gs| && gs[k] != g && gs[k] != pg ==> gs[k].active == s.StateAt(k).active)
    }

    /** Naming a group as the attached one, with its members as they are,
        does not change what an activation leaves. */
    lemma ActivatedAttached(tab: TabEntry?, g: Group?, thrown: bool, attached: Group?,
                            s: ActivationState, g0: GroupState)
      requires Activated(tab, g, thrown, null, [], s, g0)
      ensures Activated(tab, g, thrown, attached, MembersOf(attached), s, g0)
    {
    }

    /** No activation, `s` being the state before and `g0` the state `g`
        had: the active entry stays, and it, its group, `g` and every listed
        group keep their active flags and selections. */
    ghost predicate ActivationKept(g: Group?, s: ActivationState, g0: GroupState)
      reads this`activeTab, EntrySet(s.prev)`active, Only(s.pg)`active, Only(s.pg)`selected,
            Only(g)`active, Only(g)`selected, s.groups`active, s.groups`selected
    {
      && activeTab == s.prev
      && (s.prev != null ==> s.prev.active == s.prevActive)
      && (s.pg != null ==> s.pg.active == s.pgState.active && s.pg.selected == s.pgState.selected)
      && (g != null ==> g.active == g0.active && g.selected == g0.selected)
      && (forall k :: 0 <= k < |s.groups| ==> s.Kept(k))
    }

    /** setActive: deactivate the current entry, then activate `tab`; when the
        active group changes every other group's selection is cleaned. With
        no current entry the source dereferences null after `tab` was already
        activated, and the active entry stays unset. A null `tab` only
        deactivates: the deactivated entry stays recorded as active. */
    method SetActive(tab: TabEntry?) returns (thrown: bool)
      modifies this`activeTab, EntrySet(activeTab)`active, OwnerSet(activeTab)`active,
               OwnerSet(activeTab)`selected, EntrySet(tab)`active, OwnerSet(tab)`active,
               OwnerSet(tab)`selected, groups`selected
      ensures var g := if tab != null then old(tab.group) else null;
        Activated(tab, g, thrown, null, [], old(Snapshot()), old(StateOf(g)))
      ensures thrown <==> tab != null && old(activeTab) == null
      ensures activeTab == if tab != null && !thrown then tab else old(activeTab)
      ensures tab != null ==> tab.active
      ensures old(activeTab) != null && old(activeTab) != tab ==> !old(activeTab).active
      ensures tab != null && tab.group != null ==> tab.group.active
      ensures tab != null && tab.group != null ==>
        tab.group.selected ==
          (if old(activeTab) != null && old(activeTab).group == tab.group
           then Without(old(tab.group.selected), old(activeTab)) else old(tab.group.selected)) + [tab]
      ensures (old(activeTab) != null && old(activeTab).group != null &&
               (tab == null || tab.group != old(activeTab).group)) ==> !old(activeTab).group.active
      ensures tab != null && !thrown && tab.group != old(activeTab).group ==>
        forall k :: 0 <= k < |groups| && groups[k] != tab.group ==>
          groups[k].selected == CleanSelection(groups[k].tabs)
    {
      DeactivateCurrent();
      thrown := false;
      if tab != null {
        thrown := ActivateTab(tab);
      }
    }

    /** The rest of setActive once the current entry is deactivated: `tab`
        is activated, which fails without a current entry; otherwise, when
        the group changes, every other group is cleaned, and `tab` becomes
        the active entry. No other group's active flag changes. */
    method ActivateTab(tab: TabEntry) returns (thrown: bool)
      modifies this`activeTab, tab`active, OwnerSet(tab)`active, OwnerSet(tab)`selected, groups`selected
      ensures thrown <==> old(activeTab) == null
      ensures activeTab == if thrown then old(activeTab) else tab
      ensures tab.active && tab.group == old(tab.group)
      ensures tab.group != null ==> tab.group.active && tab.group.selected == old(tab.group.selected) + [tab]
      ensures !thrown && tab.group != old(ActiveGroup()) ==>
        forall k :: 0 <= k < |groups| && groups[k] != tab.group ==> groups[k].selected == CleanSelection(groups[k].tabs)
      ensures thrown || tab.group == old(ActiveGroup()) ==>
        forall k :: 0 <= k < |groups| && groups[k] != tab.group ==> groups[k].selected == old(groups[k].selected)
      ensures forall k :: 0 <= k < |groups| && groups[k] != tab.group ==> groups[k].active == old(groups[k].active)
      ensures var prev := old(activeTab); prev != null && prev != tab ==> prev.active == old(prev.active)
      ensures var pg := old(ActiveGroup());
        pg != null && pg != tab.group ==>
          pg.active == old(pg.active) &&
          (pg.selected == old(pg.selected) || (pg in groups && !thrown && pg.selected == CleanSelection(pg.tabs)))
    {
      ActivateOnly(tab);
      if activeTab == null {
        thrown := true;
        return;
      }
      thrown := false;
      if tab.group != activeTab.group {
        CleanSelectedExcept(tab.group);
      }
      activeTab := tab;
    }

    /** setActive on a new entry, seen from the handlers that add one: it
        fails exactly when there is no active entry yet. */
    method ActivateEntry(entry: TabEntry) returns (thrown: bool)
      modifies this`activeTab, EntrySet(activeTab)`active, OwnerSet(activeTab)`active,
               OwnerSet(activeTab)`selected, entry`active, OwnerSet(entry)`active,
               OwnerSet(entry)`selected, groups`selected
      ensures thrown <==> old(activeTab) == null
      ensures activeTab == if thrown then old(activeTab) else entry
      ensures entry.active
      ensures old(activeTab) != null && old(activeTab) != entry ==> !old(activeTab).active
      ensures entry.group != null ==> entry.group.active
      ensures entry.group != null ==>
        entry.group.selected ==
          (if old(activeTab) != null && old(activeTab).group == entry.group
           then Without(old(entry.group.selected), old(activeTab)) else old(entry.group.selected)) + [entry]
      ensures old(activeTab) != null && old(activeTab).group != null && entry.group != old(activeTab).group ==>
        !old(activeTab).group.active
      ensures !thrown && entry.group != old(activeTab).group ==>
        forall k :: 0 <= k < |groups| && groups[k] != entry.group ==>
          groups[k].selected == CleanSelection(groups[k].tabs)
      ensures Activated(entry, old(entry.group), thrown, null, [], old(Snapshot()), old(StateOf(entry.group)))
    {
      thrown := SetActive(entry);
    }

    /** onActivated: ignored for another window; otherwise the cached entry
        (or null) becomes active and the groups are saved. */
    method OnActivated(tabId: int, activatedWindowId: int) returns (thrown: bool, effects: seq<Effect>)
      modifies this`activeTab, EntrySet(activeTab)`active, OwnerSet(activeTab)`active,
               OwnerSet(activeTab)`selected, EntrySet(GetTab(tabId))`active, OwnerSet(GetTab(tabId))`active,
               OwnerSet(GetTab(tabId))`selected, groups`selected
      ensures activatedWindowId != windowId ==> !thrown && effects == [] && activeTab == old(activeTab)
      ensures activatedWindowId == windowId ==>
        && (thrown <==> tabId in tabCache && old(activeTab) == null)
        && activeTab == (if tabId in tabCache && !thrown then tabCache[tabId] else old(activeTab))
        && effects == (if thrown then [] else [SaveStorage])
      ensures activatedWindowId == windowId && tabId in tabCache ==> tabCache[tabId].active
      ensures activatedWindowId == windowId && old(activeTab) != null && old(activeTab) != GetTab(tabId) ==>
        !old(activeTab).active
      ensures activatedWindowId == windowId && tabId in tabCache && tabCache[tabId].group != null ==>
        var g := tabCache[tabId].group;
        && g.active
        && g.selected ==
             (if old(activeTab) != null && old(activeTab).group == g
              then Without(old(g.selected), old(activeTab)) else old(g.selected)) + [tabCache[tabId]]
      ensures activatedWindowId == windowId && old(activeTab) != null && old(activeTab).group != null &&
              (tabId !in tabCache || tabCache[tabId].group != old(activeTab).group) ==>
        !old(activeTab).group.active
      ensures activatedWindowId == windowId && tabId in tabCache && !thrown &&
              tabCache[tabId].group != old(activeTab).group ==>
        forall k :: 0 <= k < |groups| && groups[k] != tabCache[tabId].group ==>
          groups[k].selected == CleanSelection(groups[k].tabs)
      ensures activatedWindowId == windowId ==>
        var g := if tabId in tabCache then old(tabCache[tabId].group) else null;
        Activated(GetTab(tabId), g, thrown, null, [], old(Snapshot()), old(StateOf(g)))
      ensures activatedWindowId != windowId ==> ActivationKept(null, old(Snapshot()), StateOf(null))
    {
      effects := [];
      thrown := false;
      if activatedWindowId != windowId {
        return;
      }
      thrown := SetActive(GetTab(tabId));
      if !thrown {
        effects := [SaveStorage];
      }
    }

    // ----- new, attached and updated tabs -----

    /** The group a new tab joins: the group its stored group id names (a
        non-empty id), otherwise the active group, as onCreated picks it. */
    function Destination(storedGroupId: Option<string>): (r: Group?)
      reads this`groups, this`activeTab, EntrySet(activeTab)`group
      ensures storedGroupId.Some? && storedGroupId.value != "" ==> r == GetGroup(storedGroupId.value)
      ensures !(storedGroupId.Some? && storedGroupId.value != "") ==> r == ActiveGroup()
    {
      if storedGroupId.Some? && storedGroupId.value != "" then GetGroup(storedGroupId.value) else ActiveGroup()
    }

    /** onCreated's synchronous part: shift every cached index at or above the
        new tab's index up by one, cache a new entry for it, and filter it by
        the search text. */
    method CacheNewEntry(info: TabInfo, ghost members: seq<TabEntry>) returns (entry: TabEntry)
      requires Valid()
      modifies this`tabCache, tabCache.Values`index
      ensures Valid() && fresh(entry) && tabCache == old(tabCache)[info.id := entry]
      ensures Indices() == Created(old(Indices()), info.id, info.index)
      ensures entry.id == info.id && entry.group == null && entry.active == info.active
      ensures entry.index == info.index
      ensures entry.visible == (searchText == "" || InfoMatches(info, searchText))
      ensures RightBeforeSlot(members, info.index) == old(RightBeforeSlot(members, info.index))
      ensures Snapshot() == old(Snapshot())
    {
      ghost var before := Indices();
      ShiftUpFrom(info.index, members);
      ghost var shifted := Indices();
      entry := NewEntry(info);
      assert Indices() == shifted;
      CacheEntry(entry);
      CreatedIsShift(before, info.id, info.index);
    }

    /** The shift onCreated makes, which moves no index across `lo`: the
        member getRightBefore picks for `lo` stays the same. */
    method ShiftUpFrom(lo: int, ghost members: seq<TabEntry>)
      requires Valid()
      modifies tabCache.Values`index
      ensures Indices() == Shift(old(Indices()), lo, None, 1)
      ensures RightBeforeSlot(members, lo) == old(RightBeforeSlot(members, lo))
      ensures Snapshot() == old(Snapshot())
    {
      ghost var cache := tabCache;
      ghost var olds := seq(|members|, k requires 0 <= k < |members| reads members => members[k].index);
      ghost var first := FirstAtOrAbove(members, lo);
      ShiftIndices(lo, None, 1);
      forall k | 0 <= k < |members|
        ensures members[k].index >= lo <==> olds[k] >= lo
      {
        var t := members[k];
        if t.id in cache && cache[t.id] == t {
          assert Indices()[t.id] == ShiftOne(old(Indices())[t.id], lo, None, 1);
        } else {
          forall id | id in cache
            ensures cache[id] != t
          {
            assert cache[id].id == id;
          }
        }
      }
      FirstAtOrAboveUnique(members, lo, first);
    }

    /** `this.tabCache[entry.id] = entry`. */
    method CacheEntry(entry: TabEntry)
      requires Valid()
      modifies this`tabCache
      ensures Valid() && tabCache == old(tabCache)[entry.id := entry]
      ensures Indices() == old(Indices())[entry.id := entry.index]
      ensures Snapshot() == old(Snapshot())
    {
      ghost var before := Indices();
      tabCache := tabCache[entry.id := entry];
      assert Indices() == before[entry.id := entry.index];
    }

    /** `new TabEntry(tab)`, hidden at once when a search text is set and
        the tab does not match it. */
    method NewEntry(info: TabInfo) returns (entry: TabEntry)
      ensures fresh(entry)
      ensures entry.id == info.id && entry.group == null && entry.active == info.active
      ensures entry.index == info.index
      ensures entry.visible == (searchText == "" || InfoMatches(info, searchText))
      ensures Snapshot() == old(Snapshot())
    {
      entry := new TabEntry(info);
      if searchText != "" {
        entry.ToggleVisibility(entry.ShouldHide(searchText));
      }
    }

    /** onCreated's deferred part: the entry joins `g` right after its opener
        when the browser names one (appended when the opener is not a
        member), otherwise right after the member getRightBefore picks for its
        index; an active new tab then becomes the active entry. */
    method PlaceNewEntry(entry: TabEntry, g: Group?, opener: Option<int>)
      returns (thrown: bool, effects: seq<Effect>, relative: TabEntry?)
      requires entry.group == null && entry != activeTab
      modifies entry`group, entry`active, Only(g)`tabs, Only(g)`active, Only(g)`selected,
               this`activeTab, EntrySet(activeTab)`active, OwnerSet(activeTab)`active,
               OwnerSet(activeTab)`selected, groups`selected
      ensures g == null ==> !thrown && effects == [] && entry.group == null && activeTab == old(activeTab)
      ensures g != null ==> entry.group == g && effects == [SetGroupId(entry.id, g.uuid)] && entry in g.tabs
      ensures g != null && opener.Some? ==> relative == GetTab(opener.value)
      ensures g != null && opener.None? && |old(g.tabs)| == 0 ==> relative == null
      ensures g != null && opener.None? && |old(g.tabs)| > 0 ==> relative == old(g.tabs[RightBeforeSlot(g.tabs, entry.index)])
      ensures g != null ==> g.tabs == InsertAt(old(g.tabs), AfterSlot(old(g.tabs), relative), entry)
      ensures thrown <==> g != null && old(entry.active) && old(activeTab) == null
      ensures g != null && old(entry.active) && !thrown ==> activeTab == entry && entry.active
      ensures !old(entry.active) ==> activeTab == old(activeTab)
      ensures forall h :: h in old(groups) && h != g ==> h.tabs == old(h.tabs)
      ensures tabCache == old(tabCache) && Indices() == old(Indices())
      ensures g != null && old(entry.active) ==> Activated(entry, g, thrown, null, [], old(Snapshot()), old(StateOf(g)))
      ensures g == null || !old(entry.active) ==> ActivationKept(g, old(Snapshot()), old(StateOf(g)))
    {
      thrown := false;
      effects := [];
      relative := null;
      if g == null {
        return;
      }
      ghost var indices := Indices();
      thrown, effects, relative := JoinAndActivate(entry, g, opener);
      assert Indices() == indices;
    }

    /** PlaceNewEntry for a group. */
    method JoinAndActivate(entry: TabEntry, g: Group, opener: Option<int>)
      returns (thrown: bool, effects: seq<Effect>, relative: TabEntry?)
      requires entry != activeTab
      modifies entry`group, entry`active, g`tabs, g`active, g`selected,
               this`activeTab, EntrySet(activeTab)`active, OwnerSet(activeTab)`active,
               OwnerSet(activeTab)`selected, groups`selected
      ensures entry.group == g && effects == [SetGroupId(entry.id, g.uuid)]
      ensures opener.Some? ==> relative == GetTab(opener.value)
      ensures opener.None? && |old(g.tabs)| == 0 ==> relative == null
      ensures opener.None? && |old(g.tabs)| > 0 ==> relative == old(g.tabs[RightBeforeSlot(g.tabs, entry.index)])
      ensures g.tabs == InsertAt(old(g.tabs), AfterSlot(old(g.tabs), relative), entry)
      ensures thrown <==> old(entry.active) && old(activeTab) == null
      ensures old(entry.active) && !thrown ==> activeTab == entry && entry.active
      ensures !old(entry.active) ==> activeTab == old(activeTab)
      ensures forall h :: h in groups && h != g ==> h.tabs == old(h.tabs)
      ensures old(entry.active) ==> Activated(entry, g, thrown, null, [], old(Snapshot()), old(StateOf(g)))
      ensures !old(entry.active) ==> ActivationKept(g, old(Snapshot()), old(StateOf(g)))
    {
      var e;
      ghost var before, g0 := Snapshot(), StateOf(g);
      e, relative := JoinNear(entry, g, opener);
      assert Snapshot() == before && StateOf(g) == g0;
      effects := [e];
      thrown := MaybeActivate(entry, g);
    }

    /** The placement of PlaceNewEntry in a group `g`: the member it joins
        after is the cached opener when the browser names one, otherwise the
        member getRightBefore picks for the entry's index. */
    method JoinNear(entry: TabEntry, g: Group, opener: Option<int>) returns (e: Effect, relative: TabEntry?)
      modifies entry`group, g`tabs
      ensures entry.group == g && e == SetGroupId(entry.id, g.uuid)
      ensures opener.Some? ==> relative == GetTab(opener.value)
      ensures opener.None? && |old(g.tabs)| == 0 ==> relative == null
      ensures opener.None? && |old(g.tabs)| > 0 ==> relative == old(g.tabs[RightBeforeSlot(g.tabs, entry.index)])
      ensures g.tabs == InsertAt(old(g.tabs), AfterSlot(old(g.tabs), relative), entry)
      ensures multiset(g.tabs) == old(multiset(g.tabs)) + multiset{entry}
      ensures forall h :: h in groups && h != g ==> h.tabs == old(h.tabs)
    {
      if opener.Some? {
        relative := GetTab(opener.value);
      } else {
        relative := g.GetRightBefore(entry.index);
      }
      ghost var base := g.tabs;
      e := g.AddTab(entry, relative);
      InsertAtMultiset(base, AfterSlot(base, relative), entry);
    }

    /** onCreated: a tab already cached with a group is left alone (there is
        no window check: a tab created in any window is handled). Otherwise
        the indices at or above its index shift up, a new entry is cached, and
        it joins the group Destination picks, if any, right after the cached
        opener or else after the member getRightBefore picks for its index
        (`relative` names that member). No other group's members change. */
    method OnCreated(info: TabInfo, storedGroupId: Option<string>)
      returns (thrown: bool, effects: seq<Effect>, ghost relative: TabEntry?)
      requires Valid()
      modifies this`tabCache, this`activeTab, tabCache.Values`index, EntrySet(activeTab)`active,
               OwnerSet(activeTab)`active, OwnerSet(activeTab)`selected, OwnerSet(activeTab)`tabs,
               groups`active, groups`selected, groups`tabs
      ensures Valid()
      ensures old(info.id in tabCache && tabCache[info.id].group != null) ==>
        && tabCache == old(tabCache) && Indices() == old(Indices())
        && !thrown && effects == [] && activeTab == old(activeTab)
      ensures old(info.id !in tabCache || tabCache[info.id].group == null) ==>
        && info.id in tabCache && fresh(tabCache[info.id])
        && tabCache.Keys == old(tabCache.Keys) + {info.id}
        && Indices() == Created(old(Indices()), info.id, info.index)
        && tabCache[info.id].visible == (searchText == "" || InfoMatches(info, searchText))
      ensures var g := old(Destination(storedGroupId));
        old(info.id !in tabCache || tabCache[info.id].group == null) ==>
          && tabCache[info.id].group == g
          && (g == null ==> effects == [] && !thrown)
          && (g != null ==> effects == [SetGroupId(info.id, g.uuid)])
          && (thrown <==> g != null && info.active && old(activeTab) == null)
          && (g != null && info.active && !thrown ==> activeTab == tabCache[info.id] && tabCache[info.id].active)
          && (g == null || !info.active ==> activeTab == old(activeTab))
      ensures var g := old(Destination(storedGroupId));
        old(info.id !in tabCache || tabCache[info.id].group == null) && g != null ==>
          && g.tabs == InsertAt(old(g.tabs), AfterSlot(old(g.tabs), relative), tabCache[info.id])
          && (info.openerTabId.Some? ==> relative == GetTab(info.openerTabId.value))
          && (info.openerTabId.None? && |old(g.tabs)| == 0 ==> relative == null)
          && (info.openerTabId.None? && |old(g.tabs)| > 0 ==>
                relative == old(g.tabs[RightBeforeSlot(g.tabs, info.index)]))
      ensures var g := old(Destination(storedGroupId));
        forall h :: h in old(groups) && h != g ==> h.tabs == old(h.tabs)
      ensures var g := old(Destination(storedGroupId));
        old(info.id !in tabCache || tabCache[info.id].group == null) && g != null && info.active ==>
          Activated(tabCache[info.id], g, thrown, null, [], old(Snapshot()), old(StateOf(g)))
      ensures var g := old(Destination(storedGroupId));
        old(info.id in tabCache && tabCache[info.id].group != null) || g == null || !info.active ==>
          ActivationKept(g, old(Snapshot()), old(StateOf(g)))
    {
      thrown := false;
      effects := [];
      relative := null;
      var oldEntry := GetTab(info.id);
      if oldEntry != null && oldEntry.group != null {
        return;
      }
      var g := Destination(storedGroupId);
      var entry;
      thrown, effects, entry, relative := CreateEntry(info, g);
    }

    /** onCreated for a tab that is not cached with a group: cache a new
        entry, then place it in `g`. The anchor is read after the shift. */
    method CreateEntry(info: TabInfo, g: Group?)
      returns (thrown: bool, effects: seq<Effect>, entry: TabEntry, relative: TabEntry?)
      requires Valid() && (g == null || g in groups || g in OwnerSet(activeTab))
      modifies this`tabCache, this`activeTab, tabCache.Values`index, EntrySet(activeTab)`active,
               OwnerSet(activeTab)`active, OwnerSet(activeTab)`selected, OwnerSet(activeTab)`tabs,
               groups`active, groups`selected, groups`tabs
      ensures Valid() && fresh(entry) && tabCache == old(tabCache)[info.id := entry]
      ensures Indices() == Created(old(Indices()), info.id, info.index)
      ensures entry.visible == (searchText == "" || InfoMatches(info, searchText))
      ensures entry.group == g
      ensures g == null ==> effects == [] && !thrown
      ensures g != null ==> effects == [SetGroupId(info.id, g.uuid)]
      ensures thrown <==> g != null && info.active && old(activeTab) == null
      ensures g != null && info.active && !thrown ==> activeTab == entry && entry.active
      ensures g == null || !info.active ==> activeTab == old(activeTab)
      ensures g != null ==> g.tabs == InsertAt(old(g.tabs), AfterSlot(old(g.tabs), relative), entry)
      ensures g != null && info.openerTabId.Some? ==> relative == GetTab(info.openerTabId.value)
      ensures g != null && info.openerTabId.None? && |old(g.tabs)| == 0 ==> relative == null
      ensures g != null && info.openerTabId.None? && |old(g.tabs)| > 0 ==>
                relative == old(g.tabs[RightBeforeSlot(g.tabs, info.index)])
      ensures forall h :: h in old(groups) && h != g ==> h.tabs == old(h.tabs)
      ensures g != null && info.active ==> Activated(entry, g, thrown, null, [], old(Snapshot()), old(StateOf(g)))
      ensures g == null || !info.active ==> ActivationKept(g, old(Snapshot()), old(StateOf(g)))
    {
      ghost var g0, members, created := StateOf(g), MembersOf(g), Created(Indices(), info.id, info.index);
      entry := CacheNewEntry(info, members);
      assert StateOf(g) == g0 && MembersOf(g) == members;
      assert forall h :: h in groups ==> h.tabs == old(h.tabs);
      assert entry.active == info.active && activeTab == old(activeTab);
      assert Indices() == created;
      thrown, effects, relative := PlaceNewEntry(entry, g, info.openerTabId);
      assert Indices() == created;
    }

    /** onAttached: ignored for another window; otherwise a new entry for the
        tab is cached at the position the browser reports (no other cached
        index moves: see TabOrder.AttachedLosesMatch), an active tab becomes
        the active entry, and the entry joins the group that was active, by
        position. */
    method OnAttached(tabId: int, newWindowId: int, newPosition: int, info: TabInfo)
      returns (thrown: bool, effects: seq<Effect>)
      requires Valid()
      modifies this`tabCache, this`activeTab, EntrySet(activeTab)`active, OwnerSet(activeTab)`active,
               OwnerSet(activeTab)`selected, OwnerSet(activeTab)`tabs, groups`selected
      ensures Valid()
      ensures newWindowId != windowId ==>
        tabCache == old(tabCache) && !thrown && effects == [] && activeTab == old(activeTab)
      ensures newWindowId == windowId ==>
        && tabId in tabCache && fresh(tabCache[tabId])
        && Indices() == Attached(old(Indices()), tabId, info.index)
        && (thrown <==> info.active && old(activeTab) == null)
      ensures newWindowId == windowId && info.active && !thrown ==>
        activeTab == tabCache[tabId] && tabCache[tabId].active
      ensures newWindowId == windowId && !info.active ==> activeTab == old(activeTab)
      ensures var g := old(ActiveGroup());
        newWindowId == windowId && !thrown ==>
          && tabCache[tabId].group == g
          && (g == null ==> effects == [])
          && (g != null ==> effects == [SetGroupId(tabId, g.uuid)] &&
                            g.tabs == InsertAt(old(SortBy(g.tabs, Position)),
                                               old(FirstAtOrAbove(SortBy(g.tabs, Position), newPosition)),
                                               tabCache[tabId]))
      ensures newWindowId == windowId && info.active ==>
        Activated(tabCache[tabId], null, thrown, old(ActiveGroup()), old(MembersOf(ActiveGroup())), old(Snapshot()),
                  StateOf(null))
      ensures newWindowId != windowId || !info.active ==>
        ActivationKept(old(ActiveGroup()), old(Snapshot()), old(StateOf(ActiveGroup())))
    {
      thrown := false;
      effects := [];
      if newWindowId != windowId {
        return;
      }
      var entry := CacheAttached(tabId, info, newPosition);
      var g := ActiveGroup();
      thrown, effects := JoinAttached(entry, g, newPosition);
    }

    /** The rest of onAttached: an active tab becomes the active entry (which
        fails without one), then the entry joins `g` by position. */
    method JoinAttached(entry: TabEntry, g: Group?, newPosition: int) returns (thrown: bool, effects: seq<Effect>)
      requires entry.group == null
      modifies entry`group, entry`active, Only(g)`tabs,
               this`activeTab, EntrySet(activeTab)`active, OwnerSet(activeTab)`active,
               OwnerSet(activeTab)`selected, groups`selected
      ensures thrown <==> old(entry.active) && old(activeTab) == null
      ensures old(entry.active) && !thrown ==> activeTab == entry && entry.active
      ensures !old(entry.active) ==> activeTab == old(activeTab)
      ensures !thrown ==> entry.group == g
      ensures !thrown && g == null ==> effects == []
      ensures !thrown && g != null ==> effects == [SetGroupId(entry.id, g.uuid)]
      ensures !thrown && g != null ==>
        g.tabs == InsertAt(old(SortBy(g.tabs, Position)), old(FirstAtOrAbove(SortBy(g.tabs, Position), newPosition)), entry)
      ensures tabCache == old(tabCache) && Indices() == old(Indices())
      ensures old(entry.active) ==> Activated(entry, null, thrown, g, old(MembersOf(g)), old(Snapshot()), StateOf(null))
      ensures !old(entry.active) ==> ActivationKept(g, old(Snapshot()), old(StateOf(g)))
    {
      effects := [];
      thrown := ActivateAttached(entry, g, newPosition);
      if thrown {
        return;
      }
      if g != null {
        var e := AttachInGroup(entry, g, newPosition, thrown, old(Snapshot()), old(MembersOf(g)), old(StateOf(g)));
        effects := [e];
      }
    }

    /** `group.attachTab(entry, newPosition)` seen from the list: the cache
        and its indices stay as they are. */
    method AttachInGroup(entry: TabEntry, g: Group, newPosition: int, ghost thrown: bool, ghost s: ActivationState,
                         ghost members: seq<TabEntry>, ghost g0: GroupState)
      returns (e: Effect)
      modifies entry`group, g`tabs
      ensures e == SetGroupId(entry.id, g.uuid) && entry.group == g
      ensures g.tabs == InsertAt(old(SortBy(g.tabs, Position)), old(FirstAtOrAbove(SortBy(g.tabs, Position), newPosition)), entry)
      ensures tabCache == old(tabCache) && Indices() == old(Indices())
      ensures old(Activated(entry, null, thrown, g, members, s, StateOf(null))) ==>
                Activated(entry, null, thrown, g, members, s, StateOf(null))
      ensures old(ActivationKept(g, s, g0)) ==> ActivationKept(g, s, g0)
    {
      ghost var ind := Indices();
      e := g.AttachTab(entry, newPosition);
      assert forall id :: id in tabCache ==> tabCache[id].index == old(tabCache[id].index);
      assert Indices() == ind;
    }

    /** `if(entry.active) this.setActive(entry)`: the members of `g` and the
        entry's group stay as they are. */
    method MaybeActivate(entry: TabEntry, g: Group?) returns (thrown: bool)
      modifies this`activeTab, EntrySet(activeTab)`active, OwnerSet(activeTab)`active,
               OwnerSet(activeTab)`selected, entry`active, OwnerSet(entry)`active,
               OwnerSet(entry)`selected, groups`selected
      ensures thrown <==> old(entry.active) && old(activeTab) == null
      ensures old(entry.active) && !thrown ==> activeTab == entry && entry.active
      ensures !old(entry.active) ==> activeTab == old(activeTab)
      ensures entry.group == old(entry.group)
      ensures g != null ==> g.tabs == old(g.tabs)
      ensures forall h :: h in groups ==> h.tabs == old(h.tabs)
      ensures old(entry.active) ==>
        Activated(entry, old(entry.group), thrown, null, [], old(Snapshot()), old(StateOf(entry.group)))
      ensures !old(entry.active) ==> ActivationKept(g, old(Snapshot()), old(StateOf(g)))
    {
      thrown := false;
      if entry.active {
        thrown := ActivateEntry(entry);
      }
    }

    /** MaybeActivate, which leaves the order in which `g` would take the
        entry by position as it was. */
    method ActivateAttached(entry: TabEntry, g: Group?, newPosition: int) returns (thrown: bool)
      requires entry.group == null
      modifies this`activeTab, EntrySet(activeTab)`active, OwnerSet(activeTab)`active,
               OwnerSet(activeTab)`selected, entry`active, OwnerSet(entry)`active,
               OwnerSet(entry)`selected, groups`selected
      ensures thrown <==> old(entry.active) && old(activeTab) == null
      ensures old(entry.active) && !thrown ==> activeTab == entry && entry.active
      ensures !old(entry.active) ==> activeTab == old(activeTab)
      ensures tabCache == old(tabCache) && Indices() == old(Indices())
      ensures entry.group == old(entry.group)
      ensures g != null ==> (g.tabs == old(g.tabs) && SortBy(g.tabs, Position) == old(SortBy(g.tabs, Position)) &&
        FirstAtOrAbove(SortBy(g.tabs, Position), newPosition) == old(FirstAtOrAbove(SortBy(g.tabs, Position), newPosition)))
      ensures old(entry.active) ==>
        Activated(entry, old(entry.group), thrown, g, old(MembersOf(g)), old(Snapshot()), old(StateOf(entry.group)))
      ensures !old(entry.active) ==> ActivationKept(g, old(Snapshot()), old(StateOf(g)))
    {
      ghost var s0, g0 := Snapshot(), StateOf(null);
      thrown := MaybeActivate(entry, g);
      if old(entry.active) {
        ActivatedAttached(entry, null, thrown, g, s0, g0);
      }
    }

    /** onAttached's cache work: a new entry for the tab, under `tabId`. */
    method CacheAttached(tabId: int, info: TabInfo, ghost newPosition: int) returns (entry: TabEntry)
      requires Valid()
      modifies this`tabCache
      ensures Valid() && fresh(entry) && tabCache == old(tabCache)[tabId := entry]
      ensures Indices() == Attached(old(Indices()), tabId, info.index)
      ensures entry.id == tabId && entry.group == null && entry.active == info.active
      ensures ActiveGroup() == old(ActiveGroup())
      ensures Snapshot() == old(Snapshot())
      ensures MembersOf(ActiveGroup()) == old(MembersOf(ActiveGroup()))
      ensures var g := ActiveGroup(); g != null ==>
        && g.tabs == old(g.tabs) && SortBy(g.tabs, Position) == old(SortBy(g.tabs, Position))
        && FirstAtOrAbove(SortBy(g.tabs, Position), newPosition)
           == old(FirstAtOrAbove(SortBy(g.tabs, Position), newPosition))
    {
      ghost var g, state, members := ActiveGroup(), Snapshot(), MembersOf(ActiveGroup());
      entry := new TabEntry(info.(id := tabId));
      assert ActiveGroup() == g && Snapshot() == state && MembersOf(g) == members;
      CacheEntry(entry);
    }

    /** entry.update on a cached entry: only its own cached index can change. */
    method UpdateEntry(tab: TabEntry, change: ChangeInfo)
      requires Valid() && tab.id in tabCache && tabCache[tab.id] == tab
      modifies tab`pinned, tab`audible, tab`muted, tab`discarded, tab`title, tab`url, tab`index
      ensures Indices() == if change.index.Some? then old(Indices())[tab.id := change.index.value] else old(Indices())
      ensures tab.title == (if change.title.Some? then change.title.value else old(tab.title))
      ensures tab.url == (if change.url.Some? then change.url.value else old(tab.url))
      ensures tab.pinned == (if change.pinned.Some? then change.pinned.value else old(tab.pinned))
      ensures tab.audible == (if change.audible.Some? then change.audible.value else old(tab.audible))
      ensures tab.muted == (if change.muted.Some? then change.muted.value else old(tab.muted))
      ensures tab.discarded == (if change.discarded.Some? then change.discarded.value else old(tab.discarded))
    {
      tab.Update(change);
      assert forall id :: id in tabCache && id != tab.id ==> tabCache[id].index == old(tabCache[id].index);
    }

    /** resync: every tab of the browser's report updates its cached entry
        from the whole record, so the cached index becomes the reported one;
        the source fails on the first reported tab that is not cached. */
    method Resync(host: seq<TabInfo>) returns (thrown: bool)
      requires Valid()
      modifies tabCache.Values`pinned, tabCache.Values`audible, tabCache.Values`muted,
               tabCache.Values`discarded, tabCache.Values`title, tabCache.Values`url, tabCache.Values`index
      ensures thrown <==> exists k :: 0 <= k < |host| && host[k].id !in tabCache
      ensures var m := FirstMissing(tabCache.Keys, host);
        Indices() == old(Indices()) + HostIndex(host[..m])
      ensures var m := FirstMissing(tabCache.Keys, host);
        Records() == old(Records()) + HostRecords(host[..m])
    {
      thrown := false;
      var k := 0;
      while k < |host|
        invariant 0 <= k <= FirstMissing(tabCache.Keys, host)
        invariant Indices() == old(Indices()) + HostIndex(host[..k])
        invariant Records() == old(Records()) + HostRecords(host[..k])
      {
        var entry := GetTab(host[k].id);
        if entry == null {
          thrown := true;
          return;
        }
        FirstMissingPast(tabCache.Keys, host, k);
        ResyncStep(entry, host, k, old(Indices()), old(Records()));
        k := k + 1;
      }
    }

    /** One record of resync: the entry of the k-th reported tab takes the
        record's index, title, url and flags. */
    method ResyncStep(entry: TabEntry, host: seq<TabInfo>, k: nat, ghost base: map<int, int>,
                      ghost records: map<int, TabRecord>)
      requires Valid() && k < |host| && host[k].id in tabCache && entry == tabCache[host[k].id]
      requires Indices() == base + HostIndex(host[..k])
      requires Records() == records + HostRecords(host[..k])
      modifies entry`pinned, entry`audible, entry`muted, entry`discarded, entry`title, entry`url, entry`index
      ensures Indices() == base + HostIndex(host[..k + 1])
      ensures Records() == records + HostRecords(host[..k + 1])
      ensures tabCache == old(tabCache)
    {
      CopyRecord(entry, host[k]);
      HostIndexStep(base, host, k);
      HostRecordsStep(records, host, k);
    }

    /** `entry.update(tab)` with a whole tab object: the entry's properties
        become the record's, and no other entry changes. */
    method CopyRecord(entry: TabEntry, info: TabInfo)
      requires Valid() && entry.id in tabCache && tabCache[entry.id] == entry
      modifies entry`pinned, entry`audible, entry`muted, entry`discarded, entry`title, entry`url, entry`index
      ensures Indices() == old(Indices())[entry.id := info.index]
      ensures Records() == old(Records())[entry.id := InfoRecord(info)]
    {
      ghost var before := Records();
      UpdateEntry(entry, FullChange(info));
      forall id | id in tabCache && id != entry.id
        ensures tabCache[id].Record() == before[id]
      {
        assert tabCache[id].id == id;
      }
      RecordsAfterUpdate(this, entry, before);
    }

    /** onUpdated: a cached entry takes the properties present in the change
        and, while a search text is set, is shown exactly when it matches. */
    method OnUpdated(tabId: int, change: ChangeInfo)
      requires Valid()
      modifies EntrySet(GetTab(tabId))`pinned, EntrySet(GetTab(tabId))`audible,
               EntrySet(GetTab(tabId))`muted, EntrySet(GetTab(tabId))`discarded,
               EntrySet(GetTab(tabId))`title, EntrySet(GetTab(tabId))`url,
               EntrySet(GetTab(tabId))`index, EntrySet(GetTab(tabId))`visible
      ensures tabId !in tabCache ==> Indices() == old(Indices())
      ensures tabId in tabCache ==>
        Indices() == if change.index.Some? then old(Indices())[tabId := change.index.value] else old(Indices())
      ensures tabId in tabCache ==> var t := tabCache[tabId];
        && t.title == (if change.title.Some? then change.title.value else old(t.title))
        && t.url == (if change.url.Some? then change.url.value else old(t.url))
        && t.pinned == (if change.pinned.Some? then change.pinned.value else old(t.pinned))
        && t.audible == (if change.audible.Some? then change.audible.value else old(t.audible))
        && t.muted == (if change.muted.Some? then change.muted.value else old(t.muted))
        && t.discarded == (if change.discarded.Some? then change.discarded.value else old(t.discarded))
        && t.group == old(t.group) && t.active == old(t.active)
        && t.visible == (if searchText != "" then t.ShouldHide(searchText) else old(t.visible))
    {
      var tab := GetTab(tabId);
      if tab != null {
        UpdateEntry(tab, change);
        if searchText != "" {
          tab.ToggleVisibility(tab.ShouldHide(searchText));
        }
      }
    }

    // ----- the search box -----

    /** filterFromText: every cached entry is shown exactly when its title or
        URL contains the query, ignoring case. */
    method FilterFromText(query: string)
      modifies tabCache.Values`visible
      ensures forall id :: id in tabCache ==> tabCache[id].visible == tabCache[id].ShouldHide(query)
    {
      var pending := tabCache.Keys;
      while |pending| > 0
        invariant pending <= tabCache.Keys
        invariant forall id :: id in tabCache && id !in pending ==>
          tabCache[id].visible == tabCache[id].ShouldHide(query)
        decreases pending
      {
        NonEmptyHasKey(pending);
        var key :| key in pending;
        var entry := tabCache[key];
        entry.ToggleVisibility(entry.ShouldHide(query));
        pending := pending - {key};
      }
    }

    /** displayAll: every cached entry is shown. */
    method DisplayAll()
      modifies tabCache.Values`visible
      ensures forall id :: id in tabCache ==> tabCache[id].visible
    {
      var pending := tabCache.Keys;
      while |pending| > 0
        invariant pending <= tabCache.Keys
        invariant forall id :: id in tabCache && id !in pending ==> tabCache[id].visible
        decreases pending
      {
        NonEmptyHasKey(pending);
        var key :| key in pending;
        tabCache[key].Show();
        pending := pending - {key};
      }
    }

    /** The search box's keyup, `value` being the box's text after the key:
        Escape empties the box and shows everything; otherwise a non-empty
        text filters the entries and an empty one shows them all. */
    method OnSearchKeyUp(key: string, value: string)
      modifies this`searchText, tabCache.Values`visible
      ensures key == "Escape" || key == "Esc" ==>
        searchText == "" && forall id :: id in tabCache ==> tabCache[id].visible
      ensures !(key == "Escape" || key == "Esc") ==> (searchText == value &&
        forall id :: id in tabCache ==> tabCache[id].visible == (value == "" || tabCache[id].ShouldHide(value)))
    {
      if key == "Escape" || key == "Esc" {
        searchText := "";
        DisplayAll();
        return;
      }
      searchText := value;
      if value != "" {
        FilterFromText(value);
      } else {
        DisplayAll();
      }
    }

    /** The cancel button: empty the box and show everything. */
    method OnCancelSearch()
      modifies this`searchText, tabCache.Values`visible
      ensures searchText == "" && forall id :: id in tabCache ==> tabCache[id].visible
    {
      searchText := "";
      DisplayAll();
    }

    // ----- groups -----

    /** createTab's request: the target group is the option's group or else
        the active group, and `opts.active || true` makes every new tab
        active whatever the option says. */
    function CreateTabRequest(optGroup: Group?, optActive: Option<bool>): (r: (Group?, Effect))
      reads this`activeTab, EntrySet(activeTab)`group
      ensures r.1 == CreateTab(true)
      ensures optGroup != null ==> r.0 == optGroup
      ensures optGroup == null ==> r.0 == ActiveGroup()
    {
      var active := if optActive.Some? && optActive.value then true else true;
      (if optGroup != null then optGroup else ActiveGroup(), CreateTab(active))
    }

    // ----- populate -----

    /** _activeTab after the tabs of `host` were cached in order: the entry
        of the last active tab, or null when none is active. */
    ghost predicate ActiveIsLast(host: seq<TabInfo>)
      reads this`activeTab
    {
      && (activeTab == null <==> LastActive(host) == -1)
      && (activeTab != null ==> activeTab.id == host[LastActive(host)].id)
    }

    /** The start of each loop of populate: a new entry for the tab, the
        active entry when the tab is active, cached under the tab's id. */
    method CacheRestored(t: TabInfo) returns (entry: TabEntry)
      requires Valid()
      modifies this`tabCache, this`activeTab
      ensures fresh(entry) && entry.id == t.id && entry.index == t.index && entry.group == null
      ensures entry.active == t.active
      ensures Valid() && tabCache == old(tabCache)[t.id := entry]
      ensures Indices() == old(Indices())[t.id := t.index]
      ensures activeTab == if t.active then entry else old(activeTab)
    {
      entry := new TabEntry(t);
      if t.active {
        activeTab := entry;
      }
      CacheEntry(entry);
    }

    /** The first branch of populate: without stored groups every tab of the
        window, in window order, joins the new group `g` through addTab, so
        each one's group id is written to its session. */
    method FillGroup(g: Group, host: seq<TabInfo>) returns (effects: seq<Effect>)
      requires tabCache == map[] && activeTab == null && g.tabs == []
      modifies this`tabCache, this`activeTab, g`tabs
      ensures Filled(g, host, effects)
      ensures activeTab != null ==> fresh(activeTab) && activeTab.group == g
    {
      effects := [];
      assert host[..0] == [];
      var i := 0;
      while i < |host|
        invariant 0 <= i <= |host| && Filled(g, host[..i], effects)
        invariant activeTab != null ==> fresh(activeTab) && activeTab.group == g
      {
        effects := FillStep(g, host, i, effects);
        i := i + 1;
      }
      assert host[..i] == host;
    }

    /** The cache, the active entry, the members of `g` and the session writes
        after the first branch of populate went through the tabs `host`. */
    ghost predicate Filled(g: Group, host: seq<TabInfo>, effects: seq<Effect>)
      reads this`tabCache, tabCache.Values`index, this`activeTab, g`tabs
    {
      Valid() && FilledState(host, g.uuid, Indices(), activeTab, g.tabs, effects)
    }

    /** One iteration of the first branch of populate. */
    method FillStep(g: Group, host: seq<TabInfo>, i: nat, effects0: seq<Effect>) returns (effects: seq<Effect>)
      requires i < |host| && Filled(g, host[..i], effects0)
      modifies this`tabCache, this`activeTab, g`tabs
      ensures Filled(g, host[..i + 1], effects)
      ensures activeTab == old(activeTab) || (fresh(activeTab) && activeTab.group == g)
    {
      ghost var indices, before, tabs0 := Indices(), activeTab, g.tabs;
      var entry, e := FillOne(g, host[i]);
      effects := effects0 + [e];
      FilledStateStep(host, i, g.uuid, entry, indices, before, tabs0, effects0, Indices(), activeTab, g.tabs, effects);
    }

    /** One tab of the first branch of populate: cached, then added to `g`. */
    method FillOne(g: Group, t: TabInfo) returns (entry: TabEntry, e: Effect)
      requires Valid()
      modifies this`tabCache, this`activeTab, g`tabs
      ensures fresh(entry) && entry.id == t.id && entry.group == g
      ensures Valid() && Indices() == old(Indices())[t.id := t.index]
      ensures activeTab == if t.active then entry else old(activeTab)
      ensures g.tabs == old(g.tabs) + [entry] && e == SetGroupId(t.id, g.uuid)
    {
      entry := CacheRestored(t);
      e := g.AddTab(entry, null);
    }

    /** The middle loop of loadFromLocalStorage for one tab: cache it, then
        put it in the group its session names (the lookup's group; a name
        the lookup lacks is only logged), or, as a ghost tab without a
        session value, in the first active group through addTab. */
    method PlaceTab(data: seq<GroupData>, session: map<int, string>, t: TabInfo,
                    gs: seq<Group>, lookup: map<string, Group>, oldActive: Group?)
        returns (entry: TabEntry, e: seq<Effect>)
      requires Valid() && RestoredLookup(data, gs, lookup, oldActive)
      modifies this`tabCache, this`activeTab, gs`tabs
      ensures fresh(entry) && entry.id == t.id && entry.active == t.active
      ensures Valid() && tabCache == old(tabCache)[t.id := entry]
      ensures Indices() == old(Indices())[t.id := t.index]
      ensures activeTab == if t.active then entry else old(activeTab)
      ensures var home := HomeOf(data, session, t);
        && entry.group == (if home == -1 then null else gs[home])
        && forall k :: 0 <= k < |gs| ==> gs[k].tabs == old(gs[k].tabs) + (if home == k then [entry] else [])
      ensures var a := FirstActiveRecord(data);
        e == if SessionGroup(session, t.id) == "" && a >= 0 then [SetGroupId(t.id, data[a].uuid)] else []
    {
      entry := CacheRestored(t);
      e := JoinHome(data, session, t, entry, gs, lookup, oldActive);
    }

    /** The middle loop of loadFromLocalStorage: every tab of the window is
        cached and joins the group of its home record. */
    method PlaceTabs(data: seq<GroupData>, session: map<int, string>, host: seq<TabInfo>,
                     gs: seq<Group>, lookup: map<string, Group>, oldActive: Group?)
        returns (effects: seq<Effect>)
      requires tabCache == map[] && activeTab == null && RestoredLookup(data, gs, lookup, oldActive)
      requires forall k :: 0 <= k < |gs| ==> gs[k].tabs == []
      modifies this`tabCache, this`activeTab, gs`tabs
      ensures Placed(data, session, host, gs, effects)
      ensures activeTab != null ==> fresh(activeTab)
    {
      effects := [];
      PlacedStateEmpty(data, session, gs, TabLists(gs));
      assert host[..0] == [];
      var i := 0;
      while i < |host|
        invariant 0 <= i <= |host| && Placed(data, session, host[..i], gs, effects)
        invariant activeTab != null ==> fresh(activeTab)
      {
        effects := PlaceStep(data, session, host, i, gs, lookup, oldActive, effects);
        i := i + 1;
      }
      assert host[..i] == host;
    }

    /** The cache, the active entry and its group, the groups' members and the
        session writes after the middle loop of loadFromLocalStorage went
        through the tabs `host`. */
    ghost predicate Placed(data: seq<GroupData>, session: map<int, string>, host: seq<TabInfo>,
                           gs: seq<Group>, effects: seq<Effect>)
      reads this`tabCache, tabCache.Values`index, this`activeTab, EntrySet(activeTab)`group, gs`tabs
    {
      Valid() && PlacedState(data, session, host, gs, Indices(), activeTab,
                             if activeTab == null then null else activeTab.group, TabLists(gs), effects)
    }

    /** One iteration of the middle loop of loadFromLocalStorage. */
    method PlaceStep(data: seq<GroupData>, session: map<int, string>, host: seq<TabInfo>, i: nat,
                     gs: seq<Group>, lookup: map<string, Group>, oldActive: Group?, effects0: seq<Effect>)
        returns (effects: seq<Effect>)
      requires i < |host| && RestoredLookup(data, gs, lookup, oldActive)
      requires Placed(data, session, host[..i], gs, effects0)
      modifies this`tabCache, this`activeTab, gs`tabs
      ensures Placed(data, session, host[..i + 1], gs, effects)
      ensures activeTab == old(activeTab) || fresh(activeTab)
    {
      ghost var indices, active, lists := Indices(), activeTab, TabLists(gs);
      ghost var activeGroup := if activeTab == null then null else activeTab.group;
      var entry, e := PlaceTab(data, session, host[i], gs, lookup, oldActive);
      effects := effects0 + e;
      PlacedStateStep(data, session, host, i, gs, entry,
                      indices, active, activeGroup, lists, effects0,
                      Indices(), activeTab, if activeTab == null then null else activeTab.group, TabLists(gs), effects);
    }

    /** loadFromLocalStorage: a group per stored record, in record order;
        every tab of the window cached (the entry of the last active tab
        becoming the active one) and put in the group of its home record;
        ghost tabs' group ids written; then every group sorted by position. */
    method LoadFromLocalStorage(data: seq<GroupData>, host: seq<TabInfo>, session: map<int, string>)
        returns (effects: seq<Effect>, ghost loaded: seq<seq<TabEntry>>)
      requires groups == [] && tabCache == map[] && activeTab == null
      modifies this`groups, this`tabCache, this`activeTab
      ensures Valid() && Indices() == HostIndex(host) && ActiveIsLast(host)
      ensures |groups| == |data| && forall k :: 0 <= k < |data| ==> groups[k].uuid == data[k].uuid
      ensures activeTab != null ==> fresh(activeTab) && activeTab.group == GroupAt(groups, ActiveHome(data, session, host))
      ensures activeTab != null && activeTab.group != null ==> fresh(activeTab.group)
      ensures effects == GhostWrites(data, session, host)
      ensures |loaded| == |data| && forall k :: 0 <= k < |data| ==> Ids(loaded[k]) == JoinerIds(data, session, host, k)
      ensures forall k :: 0 <= k < |data| ==> groups[k].tabs == SortBy(loaded[k], Position)
    {
      var gs, lookup, oldActive := RestoreList(data);
      groups := gs;
      effects := PlaceTabs(data, session, host, gs, lookup, oldActive);
      loaded := TabLists(gs);
      SortGroups(gs, loaded);
    }

    /** The last loop of loadFromLocalStorage, which leaves the cache alone:
        the members `lists` of every group sorted by position. */
    method SortGroups(gs: seq<Group>, ghost lists: seq<seq<TabEntry>>)
      requires forall a, b :: 0 <= a < b < |gs| ==> gs[a] != gs[b]
      requires |lists| == |gs| && forall k :: 0 <= k < |gs| ==> lists[k] == gs[k].tabs
      modifies gs`tabs
      ensures forall k :: 0 <= k < |gs| ==> gs[k].tabs == SortBy(lists[k], Position)
      ensures Indices() == old(Indices()) && activeTab == old(activeTab) && groups == old(groups)
    {
      SortAll(gs);
    }

    /** populate: the window's id is recorded; without stored groups every
        tab joins one new group "untitled" (uuid `newUuid`) which joins the
        list, otherwise the list is restored from the stored records; the
        entry of the last active tab ends active and selected in its group.
        `session` stands for the tabs' group-id session values. */
    method Populate(wid: int, host: seq<TabInfo>, stored: Option<seq<GroupData>>,
                    session: map<int, string>, newUuid: string)
        returns (effects: seq<Effect>, ghost loaded: seq<seq<TabEntry>>)
      requires groups == [] && tabCache == map[] && activeTab == null
      modifies this`windowId, this`groups, this`tabCache, this`activeTab
      ensures windowId == wid && Valid() && Indices() == HostIndex(host) && ActiveIsLast(host)
      ensures activeTab != null ==> (activeTab.active &&
        (activeTab.group != null ==> activeTab.group.active && activeTab in activeTab.group.selected))
      ensures stored.None? ==>
        && |groups| == 1 && groups[0].name == "untitled" && groups[0].uuid == newUuid
        && Ids(groups[0].tabs) == InfoIds(host)
        && effects == GroupIdWrites(groups[0].tabs, newUuid) + [SaveStorage]
      ensures stored.Some? ==>
        var data := stored.value;
        && |groups| == |data| && (forall k :: 0 <= k < |data| ==> groups[k].uuid == data[k].uuid)
        && effects == GhostWrites(data, session, host)
        && |loaded| == |data|
        && (forall k :: 0 <= k < |data| ==> Ids(loaded[k]) == JoinerIds(data, session, host, k))
        && (forall k :: 0 <= k < |data| ==> groups[k].tabs == SortBy(loaded[k], Position))
    {
      windowId := wid;
      loaded := [];
      if stored.None? {
        effects := PopulateNew(host, newUuid);
      } else {
        effects, loaded := PopulateStored(stored.value, host, session);
      }
    }

    /** populate without stored groups: PopulateFresh, then the active entry
        is toggled active. */
    method PopulateNew(host: seq<TabInfo>, newUuid: string) returns (effects: seq<Effect>)
      requires groups == [] && tabCache == map[] && activeTab == null
      modifies this`groups, this`tabCache, this`activeTab
      ensures Valid() && Indices() == HostIndex(host) && ActiveIsLast(host)
      ensures activeTab != null ==> (activeTab.active &&
        (activeTab.group != null ==> activeTab.group.active && activeTab in activeTab.group.selected))
      ensures |groups| == 1 && groups[0].name == "untitled" && groups[0].uuid == newUuid
      ensures Ids(groups[0].tabs) == InfoIds(host)
      ensures effects == GroupIdWrites(groups[0].tabs, newUuid) + [SaveStorage]
    {
      effects := PopulateFresh(host, newUuid);
      ScrollToActive(host, []);
    }

    /** populate with stored groups: LoadFromLocalStorage, then the active
        entry is toggled active. */
    method PopulateStored(data: seq<GroupData>, host: seq<TabInfo>, session: map<int, string>)
        returns (effects: seq<Effect>, ghost loaded: seq<seq<TabEntry>>)
      requires groups == [] && tabCache == map[] && activeTab == null
      modifies this`groups, this`tabCache, this`activeTab
      ensures Valid() && Indices() == HostIndex(host) && ActiveIsLast(host)
      ensures activeTab != null ==> (activeTab.active &&
        (activeTab.group != null ==> activeTab.group.active && activeTab in activeTab.group.selected))
      ensures |groups| == |data| && (forall k :: 0 <= k < |data| ==> groups[k].uuid == data[k].uuid)
      ensures effects == GhostWrites(data, session, host)
      ensures |loaded| == |data| && forall k :: 0 <= k < |data| ==> Ids(loaded[k]) == JoinerIds(data, session, host, k)
      ensures forall k :: 0 <= k < |data| ==> groups[k].tabs == SortBy(loaded[k], Position)
    {
      effects, loaded := LoadFromLocalStorage(data, host, session);
      ScrollToActive(host, loaded);
    }

    /** The end of populate: the active entry, if there is one, is toggled
        active, which also marks its group active and selects it there. */
    method ScrollToActive(ghost host: seq<TabInfo>, ghost lists: seq<seq<TabEntry>>)
      requires Valid() && Indices() == HostIndex(host) && ActiveIsLast(host)
      modifies EntrySet(activeTab)`active, OwnerSet(activeTab)`active, OwnerSet(activeTab)`selected
      ensures Valid() && Indices() == HostIndex(host) && ActiveIsLast(host) && groups == old(groups)
      ensures forall k :: 0 <= k < |groups| ==> groups[k].tabs == old(groups[k].tabs) && groups[k].name == old(groups[k].name)
      ensures forall k :: 0 <= k < |lists| ==> SortBy(lists[k], Position) == old(SortBy(lists[k], Position))
      ensures activeTab != null ==> activeTab.active && activeTab.group == old(activeTab.group)
      ensures activeTab != null && activeTab.group != null ==>
        activeTab.group.active && activeTab in activeTab.group.selected
    {
      if activeTab != null {
        activeTab.ToggleActive(true);
      }
    }

    /** The first branch of populate: one new group "untitled" holding every
        tab of the window, joined to the list. */
    method PopulateFresh(host: seq<TabInfo>, newUuid: string) returns (effects: seq<Effect>)
      requires groups == [] && tabCache == map[] && activeTab == null
      modifies this`groups, this`tabCache, this`activeTab
      ensures Valid() && Indices() == HostIndex(host) && ActiveIsLast(host)
      ensures |groups| == 1 && fresh(groups[0]) && groups[0].name == "untitled" && groups[0].uuid == newUuid
      ensures Ids(groups[0].tabs) == InfoIds(host)
      ensures effects == GroupIdWrites(groups[0].tabs, newUuid) + [SaveStorage]
      ensures activeTab != null ==> activeTab.group == groups[0]
      ensures fresh(EntrySet(activeTab)) && fresh(OwnerSet(activeTab))
    {
      var g := new Group.Named("untitled", newUuid);
      effects := FillGroup(g, host);
      var e := AddGroup(g);
      effects := effects + e;
    }

    /** addGroup: the group joins the list at the end and the list is saved. */
    method AddGroup(g: Group) returns (effects: seq<Effect>)
      modifies this`groups, g`hasParent
      ensures groups == old(groups) + [g] && g.hasParent && effects == [SaveStorage]
    {
      g.hasParent := true;
      groups := groups + [g];
      effects := [SaveStorage];
    }

    /** removeGroup: a group that is not listed is ignored; otherwise every
        member is closed, the group leaves the list, and the list is saved. */
    method RemoveGroup(g: Group) returns (effects: seq<Effect>)
      modifies this`groups, g.tabs`aboutToClose
      ensures g !in old(groups) ==> groups == old(groups) && effects == []
      ensures g in old(groups) ==>
        && groups == RemoveAt(old(groups), IndexOf(old(groups), g))
        && multiset(groups) + multiset{g} == multiset(old(groups))
        && effects == Closing(g.tabs) + [SaveStorage]
        && forall t :: t in g.tabs ==> t.aboutToClose
    {
      effects := [];
      var index := IndexOf(groups, g);
      if index == -1 {
        return;
      }
      var members := g.tabs;
      var i := 0;
      while i < |members|
        invariant 0 <= i <= |members|
        invariant groups == old(groups)
        invariant effects == Closing(members[..i])
        invariant forall j :: 0 <= j < i ==> members[j].aboutToClose
      {
        assert members[..i + 1][..i] == members[..i];
        var e := members[i].Close();
        effects := effects + [e];
        i := i + 1;
      }
      assert members[..|members|] == members;
      RemoveAtMultiset(groups, index);
      groups := RemoveAt(groups, index);
      effects := effects + [SaveStorage];
    }

    /** onStorageChange: outside the local area, or without a groups entry,
        nothing happens; otherwise each record renames the first group with
        its uuid (an empty name is ignored, and a renamed group in the list
        asks to save again). The source fails at the first record whose uuid
        names no group, after the records before it were applied. */
    method OnStorageChange(area: string, newGroups: Option<seq<GroupData>>) returns (thrown: bool, effects: seq<Effect>)
      modifies groups`name
      ensures !(area == "local" && newGroups.Some?) ==> (!thrown && effects == [] &&
        forall k :: 0 <= k < |groups| ==> groups[k].name == old(groups[k].name))
      ensures area == "local" && newGroups.Some? ==>
        var data := newGroups.value;
        var m := FirstUnknown(groups, data);
        && (thrown <==> m < |data|)
        && (forall k :: 0 <= k < |groups| ==>
              groups[k].name == NameAfter(groups, k, data[..m], old(groups[k].name)))
        && (forall e :: e in effects ==> e == SaveStorage) && |effects| <= m
        && effects == RenameSaves(groups, data[..m])
    {
      thrown := false;
      effects := [];
      if area != "local" || newGroups.None? {
        return;
      }
      var m;
      m, effects := ApplyRenames(groups, newGroups.value);
      thrown := m < |newGroups.value|;
    }

    // ----- drag and drop -----

    /** No drag is under way, as _resetDragContext leaves it. */
    predicate DragReset()
      reads this`dragGroup, this`dragIsSoloTab, this`dragTab, this`dragTabSet
    {
      dragGroup == null && !dragIsSoloTab && dragTab == null && !dragTabSet
    }

    /** onDragStart, `tabId` being tabIdFromEvent (None for null or NaN) and
        `groupId` groupIdFromEvent. A tab id other than 0 starts a tab drag
        (0 is falsy and starts a group drag): the context records the cached
        entry, and for a cached one its group and whether at most one member
        is selected, failing on an entry without a group. Otherwise the
        group is looked up, failing when there is none. */
    method OnDragStart(tabId: Option<int>, groupId: Option<string>) returns (thrown: bool)
      modifies this`dragGroup, this`dragIsSoloTab, this`dragTab, this`dragTabSet
      ensures tabId.Some? && tabId.value != 0 ==> var t := GetTab(tabId.value);
        && dragTabSet && dragTab == t
        && (t == null ==> !thrown && dragGroup == old(dragGroup) && dragIsSoloTab == old(dragIsSoloTab))
        && (t != null ==> dragGroup == t.group && (thrown <==> t.group == null))
        && (t != null && t.group != null ==> dragIsSoloTab == (|t.group.selected| <= 1))
      ensures !(tabId.Some? && tabId.value != 0) ==>
        && dragGroup == (if groupId.Some? then GetGroup(groupId.value) else null)
        && (thrown <==> dragGroup == null)
        && dragTab == old(dragTab) && dragTabSet == old(dragTabSet) && dragIsSoloTab == old(dragIsSoloTab)
    {
      thrown := false;
      if tabId.Some? && tabId.value != 0 {
        var tab := GetTab(tabId.value);
        dragTab := tab;
        dragTabSet := true;
        if tab != null {
          dragGroup := tab.group;
          if tab.group == null {
            thrown := true;
            return;
          }
          dragIsSoloTab := |tab.group.selected| <= 1;
        }
      } else {
        dragGroup := if groupId.Some? then GetGroup(groupId.value) else null;
        thrown := dragGroup == null;
      }
    }

    /** onDragEnd: the context is reset, unless un-styling the drag fails
        first: a lone dragged tab that is not cached (the view of undefined),
        or a missing dragged group (a group drag, or a tab drag not alone). */
    method OnDragEnd() returns (thrown: bool)
      modifies this`dragGroup, this`dragIsSoloTab, this`dragTab, this`dragTabSet
      ensures thrown <==> if old(dragTabSet) && old(dragIsSoloTab) then old(dragTab) == null else old(dragGroup) == null
      ensures thrown ==> unchanged(this`dragGroup, this`dragIsSoloTab, this`dragTab, this`dragTabSet)
      ensures !thrown ==> DragReset()
    {
      thrown := if dragTabSet && dragIsSoloTab then dragTab == null else dragGroup == null;
      if thrown {
        return;
      }
      dragGroup := null;
      dragIsSoloTab := false;
      dragTab := null;
      dragTabSet := false;
    }

    /** What _dropTabs does with a tab dragged alone and dropped on
        `relative` in `to`. Dropped on itself it stays; a missing dragged
        group or tab fails; both leave the groups as they were. Otherwise
        the tab leaves its group, whose selection stays and whose other
        members keep their group field, and joins `to`
        after `relative`, selected there when it is active and placed after
        a relative entry, with appendTabs' effects. The batch flag is the
        net result of the batch markers among the effects. (Written over
        the whole heap: it only ever describes a handler's final state.) */
    twostate predicate LoneDropped(relative: TabEntry?, to: Group, thrown: bool, effects: seq<Effect>)
      reads *
    {
      var dg, dt := old(dragGroup), old(dragTab);
      && (thrown <==> relative != dt && (dg == null || dt == null))
      && (dg != null ==> forall t :: t in old(dg.tabs) && t != dt ==> t.group == old(t.group))
      && (relative == dt || thrown ==>
            && effects == [] && to.tabs == old(to.tabs) && to.selected == old(to.selected)
            && (dg != null ==> dg.tabs == old(dg.tabs) && dg.selected == old(dg.selected))
            && (dt != null ==> dt.group == old(dt.group)))
      && (relative != dt && !thrown ==>
            && to.tabs == Appended(if dg == to then Without(old(to.tabs), dt) else old(to.tabs), [dt], relative)
            && (dg != to ==>
                  dg.tabs == Without(old(dg.tabs), dt) && dg.selected == old(dg.selected))
            && dt.group == to
            && to.selected == old(to.selected) + (if relative != null && dt.active then [dt] else [])
            && effects == AppendEffects([dt], to.uuid, relative, to.tabs))
      && signalBatchMove == FlagAfter(old(signalBatchMove), effects)
    }

    /** What _dropTabs does with the dragged group's selection dropped on
        `relative` in `to`. Without a dragged group it fails and changes
        nothing. Otherwise popSelected takes the members whose ids were
        selected, in member order, and cleans the dragged group's selection;
        they join `to` after `relative`, where the active ones are selected,
        while the members left behind keep their group field,
        with appendTabs' effects; an empty result after a relative entry
        fails and leaves the batch move open. */
    twostate predicate SelectionDropped(relative: TabEntry?, to: Group, thrown: bool, effects: seq<Effect>)
      reads *
    {
      var dg := old(dragGroup);
      && (thrown <==> dg == null || (relative != null && |to.tabs| == 0))
      && (dg == null ==> effects == [] && to.tabs == old(to.tabs) && to.selected == old(to.selected))
      && (dg != null ==>
            var moved := TakeIds(old(dg.tabs), IdSet(old(dg.selected)));
            && to.tabs == Appended(if dg == to then DropIds(old(to.tabs), IdSet(old(dg.selected)))
                                   else old(to.tabs), moved, relative)
            && (dg != to ==>
                  && dg.tabs == DropIds(old(dg.tabs), IdSet(old(dg.selected)))
                  && dg.selected == old(CleanSelection(dg.tabs)))
            && (forall t :: t in moved ==> t.group == to)
            && (forall t :: t in old(dg.tabs) && t !in moved ==> t.group == old(t.group))
            && to.selected == (if dg == to then old(CleanSelection(to.tabs)) else old(to.selected)) +
                              (if relative == null then [] else old(ActiveOnes(moved)))
            && effects == AppendEffects(moved, to.uuid, relative, to.tabs))
      && signalBatchMove == FlagAfter(old(signalBatchMove), effects)
    }

    /** _dropTabs into groups[groupIndex], `relTabId` being the tab id of the
        drop target: a lone tab or the dragged group's selection. */
    method DropTabs(relTabId: Option<int>, groupIndex: nat) returns (thrown: bool, effects: seq<Effect>)
      requires groupIndex < |groups|
      modifies Only(dragGroup)`tabs, Only(dragGroup)`selected, {groups[groupIndex]}`tabs, {groups[groupIndex]}`selected
      modifies EntrySet(dragTab)`group, MembersOf(dragGroup)`group, this`signalBatchMove
      ensures var relative := if relTabId.Some? then GetTab(relTabId.value) else null;
        var to := groups[groupIndex];
        if dragIsSoloTab then LoneDropped(relative, to, thrown, effects) else SelectionDropped(relative, to, thrown, effects)
      ensures forall h :: h in old(groups) && h != old(groups[groupIndex]) && h != dragGroup ==>
        h.tabs == old(h.tabs) && h.selected == old(h.selected)
    {
      var relative := if relTabId.Some? then GetTab(relTabId.value) else null;
      var to := groups[groupIndex];
      if dragIsSoloTab {
        thrown, effects := DropLone(relative, to);
      } else {
        thrown, effects := DropSelection(relative, to);
      }
    }

    /** _dropTabs for a tab dragged alone. */
    method DropLone(relative: TabEntry?, to: Group) returns (thrown: bool, effects: seq<Effect>)
      modifies Only(dragGroup)`tabs, Only(dragGroup)`selected, to`tabs, to`selected
      modifies EntrySet(dragTab)`group, this`signalBatchMove
      ensures LoneDropped(relative, to, thrown, effects)
      ensures forall h :: h in groups && h != to && h != dragGroup ==> h.tabs == old(h.tabs) && h.selected == old(h.selected)
    {
      thrown := false;
      effects := [];
      if relative == dragTab {
        return;
      }
      if dragGroup == null || dragTab == null {
        thrown := true;
        return;
      }
      effects := DropSolo(this, dragGroup, dragTab, to, relative);
    }

    /** _dropTabs for the dragged group's selection. */
    method DropSelection(relative: TabEntry?, to: Group) returns (thrown: bool, effects: seq<Effect>)
      modifies Only(dragGroup)`tabs, Only(dragGroup)`selected, to`tabs, to`selected
      modifies MembersOf(dragGroup)`group, this`signalBatchMove
      ensures SelectionDropped(relative, to, thrown, effects)
      ensures forall h :: h in groups && h != to && h != dragGroup ==> h.tabs == old(h.tabs) && h.selected == old(h.selected)
    {
      thrown := false;
      effects := [];
      if dragGroup == null {
        thrown := true;
        return;
      }
      var moved;
      thrown, moved, effects := DropSelected(this, dragGroup, to, relative);
    }

    /** onDrop on the group `groupId` names (None for null), over the tab
        `relTabId`. A falsy or unknown group id is ignored. A tab drag drops
        the tabs; a group drag onto the dragged group itself is ignored, and
        otherwise splices the dragged group out (indexOf, so -1 when there
        is none, which takes the last group) and back in at the target's
        position, then fails if there was no dragged group or asks to save. */
    method OnDrop(groupId: Option<string>, relTabId: Option<int>) returns (thrown: bool, effects: seq<Effect>)
      modifies this`groups, Only(dragGroup)`tabs, Only(dragGroup)`selected
      modifies Only(DropTargetIn(groups, groupId))`tabs, Only(DropTargetIn(groups, groupId))`selected
      modifies EntrySet(dragTab)`group, MembersOf(dragGroup)`group, this`signalBatchMove
      ensures forall h :: h in old(groups) && h != DropTargetIn(old(groups), groupId) && h != dragGroup ==>
        h.tabs == old(h.tabs) && h.selected == old(h.selected)
      ensures DropTargetIn(old(groups), groupId) == null || !dragTabSet ==>
        && (forall h :: h in old(groups) ==> h.tabs == old(h.tabs) && h.selected == old(h.selected))
        && (dragGroup != null ==> dragGroup.tabs == old(dragGroup.tabs) && dragGroup.selected == old(dragGroup.selected))
        && (dragTab != null ==> dragTab.group == old(dragTab.group))
        && (forall t :: t in old(MembersOf(dragGroup)) ==> t.group == old(t.group))
      ensures groupId.None? || groupId.value == "" || FindGroupIndex(old(groups), groupId.value) == -1 ==>
        !thrown && effects == [] && groups == old(groups)
      ensures groupId.Some? && groupId.value != "" && FindGroupIndex(old(groups), groupId.value) != -1 && !dragTabSet ==>
        var gi := FindGroupIndex(old(groups), groupId.value);
        if old(groups)[gi] == dragGroup then !thrown && effects == [] && groups == old(groups)
        else
          && groups == MoveGroup(old(groups), SpliceStart(IndexOf(old(groups), dragGroup), |old(groups)|), gi)
          && (thrown <==> dragGroup == null)
          && effects == (if thrown then [] else [SaveStorage])
      ensures dragTabSet ==> groups == old(groups)
      ensures !(groupId.Some? && groupId.value != "" && FindGroupIndex(old(groups), groupId.value) != -1 && dragTabSet) ==>
        signalBatchMove == old(signalBatchMove)
      ensures groupId.Some? && groupId.value != "" && FindGroupIndex(old(groups), groupId.value) != -1 && dragTabSet ==>
        var relative := if relTabId.Some? then GetTab(relTabId.value) else null;
        var to := old(groups)[FindGroupIndex(old(groups), groupId.value)];
        dragIsSoloTab ==> LoneDropped(relative, to, thrown, effects)
      ensures groupId.Some? && groupId.value != "" && FindGroupIndex(old(groups), groupId.value) != -1 && dragTabSet ==>
        var relative := if relTabId.Some? then GetTab(relTabId.value) else null;
        var to := old(groups)[FindGroupIndex(old(groups), groupId.value)];
        !dragIsSoloTab ==> SelectionDropped(relative, to, thrown, effects)
    {
      thrown := false;
      effects := [];
      var groupIndex := if groupId.None? || groupId.value == "" then -1 else FindGroupIndex(groups, groupId.value);
      if groupIndex != -1 {
        if dragTabSet {
          thrown, effects := DropTabs(relTabId, groupIndex);
        } else {
          thrown, effects := DropGroup(groupIndex);
        }
      }
    }

    /** onDrop for a group drag onto groups[gi]: onto the dragged group
        itself it is ignored; otherwise the dragged group is spliced out
        (indexOf, so -1 when there is none, which takes the last group) and
        back in at gi, then the drop fails if there was no dragged group or
        asks to save. */
    method DropGroup(gi: nat) returns (thrown: bool, effects: seq<Effect>)
      requires gi < |groups|
      modifies this`groups
      ensures old(groups)[gi] == dragGroup ==> !thrown && effects == [] && groups == old(groups)
      ensures old(groups)[gi] != dragGroup ==>
        && groups == MoveGroup(old(groups), SpliceStart(IndexOf(old(groups), dragGroup), |old(groups)|), gi)
        && (thrown <==> dragGroup == null)
        && effects == (if thrown then [] else [SaveStorage])
      ensures forall h :: h in old(groups) ==> h.tabs == old(h.tabs) && h.selected == old(h.selected)
      ensures dragGroup != null ==> dragGroup.tabs == old(dragGroup.tabs) && dragGroup.selected == old(dragGroup.selected)
      ensures dragTab != null ==> dragTab.group == old(dragTab.group)
      ensures forall t :: t in old(MembersOf(dragGroup)) ==> t.group == old(t.group)
    {
      thrown := false;
      effects := [];
      if groups[gi] == dragGroup {
        return;
      }
      var originalIndex := IndexOf(groups, dragGroup);
      groups := MoveGroup(groups, SpliceStart(originalIndex, |groups|), gi);
      if dragGroup == null {
        thrown := true;
        return;
      }
      effects := [SaveStorage];
    }
  }

  /** The group onDrop targets in `gs`: none for a missing or empty id or one
      no group has, otherwise the first listed group with that id. */
  function DropTargetIn(gs: seq<Group>, groupId: Option<string>): (r: Group?)
    ensures r == null <==> groupId.None? || groupId.value == "" || forall k :: 0 <= k < |gs| ==> gs[k].uuid != groupId.value
    ensures r != null ==> r in gs && r.uuid == groupId.value
  {
    if groupId.None? || groupId.value == "" || FindGroupIndex(gs, groupId.value) == -1 then null
    else gs[FindGroupIndex(gs, groupId.value)]
  }
}
