/** The sidebar's tab entries (sidebar/tab.js) and tab groups
    (sidebar/group.js). A group is an ordered member list plus a selection
    list; a tab entry is the sidebar's record of one browser tab, with the
    cached window position `index` and a back reference to its group.

    Views and DOM mirroring are not modelled. Calls into the browser are
    returned as `Effect` values in the order they are issued; a group's calls
    on its owning list (beginBatchMove, endBatchMove, resync, saveStorage)
    are effects too, so that a group needs no reference to the list. */
module SidebarGroups {
  import opened Common

  /** What an operation asks of the browser or of the owning group list. */
  datatype Effect =
    | SetGroupId(tabId: int, groupUuid: string)   // sessions.setTabValue(tabId, "group-id", uuid)
    | CloseTab(tabId: int)                        // tabs.remove(tabId)
    | MoveTab(tabId: int, toIndex: int)           // tabs.move(tabId, {index})
    | MoveTabs(tabIds: seq<int>, toIndex: int)    // tabs.move([ids], {index})
    | CreateTab(active: bool)                     // tabs.create({active})
    | BeginBatchMove
    | EndBatchMove
    | Resync
    | SaveStorage

  /** The fields of a browser tab that a tab entry copies. */
  datatype TabInfo = TabInfo(
    id: int, windowId: int, index: int, title: string, url: string,
    favIconUrl: string, pinned: bool, muted: bool, audible: bool,
    active: bool, discarded: bool, sessionId: string, openerTabId: Option<int>)

  /** The properties of an onUpdated change record; `None` is an absent property. */
  datatype ChangeInfo = ChangeInfo(
    pinned: Option<bool>, favIconUrl: Option<string>, title: Option<string>,
    url: Option<string>, audible: Option<bool>, muted: Option<bool>,
    discarded: Option<bool>, index: Option<int>)

  /** resync passes a whole tab object to update: every property is present. */
  function FullChange(t: TabInfo): (c: ChangeInfo)
    ensures c.index == Some(t.index) && c.title == Some(t.title) && c.url == Some(t.url)
  {
    ChangeInfo(Some(t.pinned), Some(t.favIconUrl), Some(t.title), Some(t.url),
               Some(t.audible), Some(t.muted), Some(t.discarded), Some(t.index))
  }

  /** The properties of a cached entry that a whole tab object overwrites
      when resync passes it to update. */
  datatype TabRecord = TabRecord(index: int, title: string, url: string,
                                 pinned: bool, audible: bool, muted: bool, discarded: bool)

  function InfoRecord(t: TabInfo): TabRecord
  {
    TabRecord(t.index, t.title, t.url, t.pinned, t.audible, t.muted, t.discarded)
  }

  /** A stored group record (Group.toJSON). */
  datatype GroupData = GroupData(name: string, uuid: string, open: bool, active: bool)

  // ----- member lists -----

  /** No entry is listed twice: the last one is not listed before it, and
      neither is any earlier one. This is the inductive form of
      `NoRepeats`, which `DistinctPairs` shows it equal to. */
  ghost predicate Distinct(s: seq<TabEntry>) {
    |s| == 0 || (s[|s| - 1] !in s[..|s| - 1] && Distinct(s[..|s| - 1]))
  }

  lemma {:induction false} DistinctPairs(s: seq<TabEntry>)
    ensures Distinct(s) <==> NoRepeats(s)
  {
    if |s| > 0 {
      var init, last := s[..|s| - 1], s[|s| - 1];
      DistinctPairs(init);
      if NoRepeats(s) {
        assert NoRepeats(init) by {
          forall i, j | 0 <= i < j < |init|
            ensures init[i] != init[j]
          {
            assert init[i] == s[i] && init[j] == s[j];
          }
        }
        forall k | 0 <= k < |init|
          ensures init[k] != last
        {
          assert init[k] == s[k];
        }
      }
      if Distinct(s) {
        forall i, j | 0 <= i < j < |s|
          ensures s[i] != s[j]
        {
          if j == |s| - 1 {
            assert s[i] == init[i];
          } else {
            assert s[i] == init[i] && s[j] == init[j];
          }
        }
      }
    }
  }

  function Ids(s: seq<TabEntry>): (r: seq<int>)
    ensures |r| == |s| && forall k :: 0 <= k < |s| ==> r[k] == s[k].id
  {
    if |s| == 0 then [] else Ids(s[..|s| - 1]) + [s[|s| - 1].id]
  }

  /** Array.prototype.findIndex((t) => t.id === tabId). */
  function FindId(s: seq<TabEntry>, tabId: int): (i: int)
    ensures -1 <= i < |s|
    ensures i == -1 <==> forall j :: 0 <= j < |s| ==> s[j].id != tabId
    ensures 0 <= i ==> s[i].id == tabId && forall j :: 0 <= j < i ==> s[j].id != tabId
  {
    if |s| == 0 then -1
    else if s[0].id == tabId then 0
    else
      var j := FindId(s[1..], tabId);
      if j == -1 then -1 else j + 1
  }

  /** `s` without the first occurrence of `x`: indexOf followed by splice(i, 1). */
  function Without(s: seq<TabEntry>, x: TabEntry): (r: seq<TabEntry>)
    ensures x !in s ==> r == s
    ensures x in s ==> var p := IndexOf(s, x); r == s[..p] + s[p + 1..]
    ensures x in s ==> multiset(r) + multiset{x} == multiset(s)
  {
    var p := IndexOf(s, x);
    if p == -1 then s else RemoveAtMultiset(s, p); RemoveAt(s, p)
  }

  /** Position of the first member whose cached index is at least `x`, or |s|. */
  ghost function FirstAtOrAbove(s: seq<TabEntry>, x: int): (i: nat)
    reads s`index
    ensures i <= |s|
    ensures forall j :: 0 <= j < i ==> s[j].index < x
    ensures i < |s| ==> s[i].index >= x
  {
    if |s| == 0 then 0 else if s[0].index >= x then 0 else 1 + FirstAtOrAbove(s[1..], x)
  }

  /** The position getRightBefore reads: the one before FirstAtOrAbove, never below 0. */
  ghost function RightBeforeSlot(s: seq<TabEntry>, x: int): (i: nat)
    reads s`index
    ensures |s| > 0 ==> i < |s|
  {
    var j: int := FirstAtOrAbove(s, x) - 1;
    if j > 0 then j else 0
  }

  /** Where addTab puts a new member: right after `r`, or at the end when
      `r` is null or not a member. */
  function AfterSlot(s: seq<TabEntry>, r: TabEntry?): (p: nat)
    ensures p <= |s|
    ensures r != null && r in s ==> 0 < p && s[p - 1] == r && r !in s[..p - 1]
  {
    if r == null || r !in s then |s| else IndexOf(s, r) + 1
  }

  /** Where attachToNewGroup puts an entry with cached index `x`: right after
      the member getRightBefore picks, or at the front of an empty group. */
  ghost function NearSlot(s: seq<TabEntry>, x: int): (p: nat)
    reads s`index
    ensures p <= |s|
    ensures |s| > 0 ==> 0 < p && s[p - 1] == s[RightBeforeSlot(s, x)]
  {
    if |s| == 0 then 0 else AfterSlot(s, s[RightBeforeSlot(s, x)])
  }

  /** The first position carrying `tabId` is what FindId finds. */
  lemma FindIdAt(s: seq<TabEntry>, tabId: int, i: nat)
    requires i < |s| && s[i].id == tabId
    requires forall j :: 0 <= j < i ==> s[j].id != tabId
    ensures FindId(s, tabId) == i
  {
    var k := FindId(s, tabId);
    assert k != -1 by { assert s[i].id == tabId; }
    assert !(k < i) && !(i < k);
  }

  /** A position with the defining properties of FirstAtOrAbove is it. */
  lemma {:induction false} FirstAtOrAboveUnique(s: seq<TabEntry>, x: int, i: nat)
    requires i <= |s|
    requires forall j :: 0 <= j < i ==> s[j].index < x
    requires i < |s| ==> s[i].index >= x
    ensures i == FirstAtOrAbove(s, x)
  {
    if |s| > 0 && s[0].index < x {
      FirstAtOrAboveUnique(s[1..], x, i - 1);
    }
  }

  /** The scan getRightBefore and attachTab share: the first position whose
      cached index is at least `x`, or |s| when there is none. */
  method FirstSlot(s: seq<TabEntry>, x: int) returns (i: nat)
    ensures i == FirstAtOrAbove(s, x)
  {
    i := 0;
    while i < |s|
      invariant 0 <= i <= |s|
      invariant forall j :: 0 <= j < i ==> s[j].index < x
    {
      if s[i].index >= x {
        break;
      }
      i := i + 1;
    }
    FirstAtOrAboveUnique(s, x, i);
  }

  /** The loop of repositionTab over the sorted members: the first position
      with id `tabId` and the first position whose index is at least `x`,
      stopping as soon as both are known. */
  method ScanForMove(s: seq<TabEntry>, tabId: int, x: int)
    returns (tabIndex: Option<nat>, toMoveIndex: Option<nat>)
    ensures tabIndex.None? <==> FindId(s, tabId) == -1
    ensures tabIndex.Some? ==> tabIndex.value == FindId(s, tabId)
    ensures toMoveIndex.None? <==> FirstAtOrAbove(s, x) == |s|
    ensures toMoveIndex.Some? ==> toMoveIndex.value == FirstAtOrAbove(s, x)
  {
    tabIndex := None;
    toMoveIndex := None;
    ghost var found, slot := FindId(s, tabId), FirstAtOrAbove(s, x);
    var i := 0;
    while i < |s|
      invariant 0 <= i <= |s|
      invariant tabIndex.None? ==> forall j :: 0 <= j < i ==> s[j].id != tabId
      invariant tabIndex.Some? ==> tabIndex.value == found
      invariant toMoveIndex.None? ==> forall j :: 0 <= j < i ==> s[j].index < x
      invariant toMoveIndex.Some? ==> toMoveIndex.value == slot < |s|
    {
      if tabIndex.Some? && toMoveIndex.Some? {
        break;
      }
      var entry := s[i];
      if tabIndex.None? && entry.id == tabId {
        tabIndex := Some(i);
        FindIdAt(s, tabId, i);
      }
      if toMoveIndex.None? && entry.index >= x {
        toMoveIndex := Some(i);
        FirstAtOrAboveUnique(s, x, i);
      }
      i := i + 1;
    }
    if toMoveIndex.None? {
      FirstAtOrAboveUnique(s, x, |s|);
    }
  }

  /** The first member whose tab is the active one (Array.prototype.find). */
  function ActiveMember(s: seq<TabEntry>): (r: TabEntry?)
    reads s`active
    ensures r == null <==> forall j :: 0 <= j < |s| ==> !s[j].active
    ensures r != null ==> exists k :: 0 <= k < |s| && s[k] == r && r.active &&
                                    forall j :: 0 <= j < k ==> !s[j].active
  {
    if |s| == 0 then null
    else if s[0].active then s[0]
    else
      var r := ActiveMember(s[1..]);
      assert r != null ==> exists k :: 0 <= k < |s| && s[k] == r && r.active &&
                                       forall j :: 0 <= j < k ==> !s[j].active by {
        if r != null {
          var k :| 0 <= k < |s| - 1 && s[1..][k] == r && r.active &&
                   forall j :: 0 <= j < k ==> !s[1..][j].active;
          assert s[k + 1] == r && forall j :: 0 <= j < k + 1 ==> !s[j].active;
        }
      }
      r
  }

  /** The selection cleanSelected leaves: the active member alone, if any. */
  function CleanSelection(s: seq<TabEntry>): (r: seq<TabEntry>)
    reads s`active
    ensures |r| <= 1
    ensures forall t :: t in r ==> t in s && t.active
  {
    var a := ActiveMember(s);
    if a == null then [] else [a]
  }

  /** The ids of a list of entries. */
  function IdSet(s: seq<TabEntry>): (r: set<int>)
  {
    set t | t in s :: t.id
  }

  lemma IdSetSnoc(s: seq<TabEntry>, t: TabEntry)
    ensures IdSet(s + [t]) == IdSet(s) + {t.id}
  {
    assert forall u :: u in s + [t] <==> u in s || u == t;
  }

  /** The members whose id is in `ids`, in member order. */
  function TakeIds(s: seq<TabEntry>, ids: set<int>): (r: seq<TabEntry>)
    ensures forall t :: t in r ==> t in s && t.id in ids
    ensures forall k :: 0 <= k < |s| && s[k].id in ids ==> s[k] in r
  {
    if |s| == 0 then []
    else TakeIds(s[..|s| - 1], ids) + (if s[|s| - 1].id in ids then [s[|s| - 1]] else [])
  }

  /** The members whose id is not in `ids`, in member order. */
  function DropIds(s: seq<TabEntry>, ids: set<int>): (r: seq<TabEntry>)
    ensures forall t :: t in r ==> t in s && t.id !in ids
    ensures forall k :: 0 <= k < |s| && s[k].id !in ids ==> s[k] in r
  {
    if |s| == 0 then []
    else DropIds(s[..|s| - 1], ids) + (if s[|s| - 1].id !in ids then [s[|s| - 1]] else [])
  }

  /** Splitting a member list by ids loses and duplicates nothing. */
  lemma {:induction false} TakeDropPermutation(s: seq<TabEntry>, ids: set<int>)
    ensures multiset(TakeIds(s, ids)) + multiset(DropIds(s, ids)) == multiset(s)
  {
    if |s| > 0 {
      var init, x := s[..|s| - 1], s[|s| - 1];
      TakeDropPermutation(init, ids);
      TakeDropLast(s, ids);
      MultisetSnoc(s);
    }
  }

  /** One more member goes to exactly one side of the split. */
  lemma TakeDropLast(s: seq<TabEntry>, ids: set<int>)
    requires |s| > 0
    ensures var init, x := s[..|s| - 1], s[|s| - 1];
            multiset(TakeIds(s, ids)) + multiset(DropIds(s, ids))
            == multiset(TakeIds(init, ids)) + multiset(DropIds(init, ids)) + multiset{x}
  {
  }

  /** The filter of popSelected: one pass over the members that pushes the
      retrieved ones onto the returned list and keeps the others. */
  method Partition(s: seq<TabEntry>, ids: set<int>) returns (taken: seq<TabEntry>, kept: seq<TabEntry>)
    ensures taken == TakeIds(s, ids) && kept == DropIds(s, ids)
    ensures multiset(taken) + multiset(kept) == multiset(s)
  {
    taken := [];
    kept := [];
    var i := 0;
    while i < |s|
      invariant 0 <= i <= |s|
      invariant taken == TakeIds(s[..i], ids)
      invariant kept == DropIds(s[..i], ids)
    {
      assert s[..i + 1][..i] == s[..i];
      if s[i].id in ids {
        taken := taken + [s[i]];
      } else {
        kept := kept + [s[i]];
      }
      i := i + 1;
    }
    assert s[..|s|] == s;
    TakeDropPermutation(s, ids);
  }

  /** Splicing `x` in right after a block that sits between `a` and `c`
      extends the block. */
  lemma InsertAfterBlock<T>(a: seq<T>, b: seq<T>, c: seq<T>, x: T)
    ensures InsertAt(a + b + c, |a| + |b|, x) == a + (b + [x]) + c
  {
    var s := a + b + c;
    assert s[..|a| + |b|] == a + b;
    assert s[|a| + |b|..] == c;
  }

  /** The splice pair of repositionTab on the sorted members `s`: take out
      the first member with id `tabId` and put it back at position `dest` of
      the shortened list (clamped as splice clamps); unchanged without one. */
  function MoveMember(s: seq<TabEntry>, tabId: int, dest: nat): (r: seq<TabEntry>)
    ensures multiset(r) == multiset(s)
    ensures FindId(s, tabId) == -1 ==> r == s
    ensures FindId(s, tabId) != -1 ==> var p := FindId(s, tabId);
      r[SpliceStart(dest, |s| - 1)] == s[p] && RemoveAt(r, SpliceStart(dest, |s| - 1)) == RemoveAt(s, p)
  {
    var p := FindId(s, tabId);
    if p == -1 then s
    else
      var rest := RemoveAt(s, p);
      RemoveAtMultiset(s, p);
      InsertAtMultiset(rest, SpliceStart(dest, |rest|), s[p]);
      var r := InsertAt(rest, SpliceStart(dest, |rest|), s[p]);
      assert RemoveAt(r, SpliceStart(dest, |rest|)) == rest;
      r
  }

  /** The body of repositionTab on the members `sorted` (already ordered by
      position): scan for the member and the target slot, then splice. When
      no member's index reaches `newPosition` the target is past the end,
      because the last member's index is then below it; an empty list is the
      source's failure reading the last member. */
  method Reposition(sorted: seq<TabEntry>, tabId: int, newPosition: int)
    returns (r: seq<TabEntry>, thrown: bool)
    ensures thrown <==> |sorted| == 0
    ensures r == MoveMember(sorted, tabId, FirstAtOrAbove(sorted, newPosition))
  {
    var tabIndex, toMoveIndex := ScanForMove(sorted, tabId, newPosition);
    thrown := false;
    r := sorted;
    var dest: int;
    if toMoveIndex.None? {
      if |sorted| == 0 {
        thrown := true;
        return;
      }
      dest := if newPosition > sorted[|sorted| - 1].index then |sorted| else 0;
    } else {
      dest := toMoveIndex.value;
    }
    if tabIndex.None? {
      return;
    }
    var tab := sorted[tabIndex.value];
    var rest := RemoveAt(sorted, tabIndex.value);
    r := InsertAt(rest, SpliceStart(dest, |rest|), tab);
  }

  /** The move requests of sortByKey: the k-th id goes to the k-th position. */
  function Moves(ids: seq<int>, positions: seq<int>): (r: seq<Effect>)
    requires |ids| == |positions|
    ensures |r| == |ids| && forall k :: 0 <= k < |r| ==> r[k] == MoveTab(ids[k], positions[k])
  {
    if |ids| == 0 then []
    else Moves(ids[..|ids| - 1], positions[..|ids| - 1]) + [MoveTab(ids[|ids| - 1], positions[|ids| - 1])]
  }

  /** The loop of sortByKey: the member at each position asks the browser to
      move to the matching old position and caches that position. */
  method AssignPositions(members: seq<TabEntry>, positions: seq<int>) returns (effects: seq<Effect>)
    requires Distinct(members) && |positions| == |members|
    modifies members`index
    ensures forall k :: 0 <= k < |members| ==> members[k].index == positions[k]
    ensures Positions(members) == positions
    ensures effects == Moves(Ids(members), positions)
  {
    DistinctPairs(members);
    effects := [];
    var index := 0;
    while index < |members|
      invariant 0 <= index <= |members|
      invariant forall k :: 0 <= k < index ==> members[k].index == positions[k]
      invariant |effects| == index
      invariant forall k :: 0 <= k < index ==> effects[k] == MoveTab(members[k].id, positions[k])
    {
      var tab := members[index];
      effects := effects + [MoveTab(tab.id, positions[index])];
      tab.index := positions[index];
      index := index + 1;
    }
    PositionsOf(members, positions);
    MovesOf(Ids(members), positions, effects);
  }

  /** A list of move requests, one per id and position, is their Moves. */
  lemma MovesOf(ids: seq<int>, positions: seq<int>, effects: seq<Effect>)
    requires |ids| == |positions| == |effects|
    requires forall k :: 0 <= k < |effects| ==> effects[k] == MoveTab(ids[k], positions[k])
    ensures effects == Moves(ids, positions)
  {
  }

  /** The members but the one at position `index` (all of them when there is none). */
  function SkipAt(s: seq<TabEntry>, index: int): (r: seq<TabEntry>)
    ensures 0 <= index < |s| ==> |r| == |s| - 1
    ensures !(0 <= index < |s|) ==> r == s
    ensures forall t :: t in r ==> t in s
    ensures forall j :: 0 <= j < |s| && j != index ==> s[j] in r
  {
    if 0 <= index < |s| then
      assert forall j :: index < j < |s| ==> s[j] == s[index + 1..][j - index - 1];
      s[..index] + s[index + 1..]
    else s
  }

  // ----- ordering -----

  /** The keys a group can be sorted by: its cached position (a.index - b.index),
      or the URL or title compared as strings. */
  datatype SortKey = Position | Url | Title

  predicate Le(a: TabEntry, b: TabEntry, key: SortKey)
    reads a`index, a`url, a`title, b`index, b`url, b`title
  {
    match key
    case Position => a.index <= b.index
    case Url => LexLe(a.url, b.url)
    case Title => LexLe(a.title, b.title)
  }

  lemma LeTotal(a: TabEntry, b: TabEntry, key: SortKey)
    ensures Le(a, b, key) || Le(b, a, key)
  {
    match key
    case Position =>
    case Url => LexTotal(a.url, b.url);
    case Title => LexTotal(a.title, b.title);
  }

  /** Each member is ordered before the next one. */
  predicate SortedBy(s: seq<TabEntry>, key: SortKey)
    reads s`index, s`url, s`title
  {
    forall i :: 0 <= i < |s| - 1 ==> Le(s[i], s[i + 1], key)
  }

  /** Place `x` after every leading member that is not after it: in a sorted
      list, after all members that are not after it. */
  function InsertSorted(x: TabEntry, s: seq<TabEntry>, key: SortKey): (r: seq<TabEntry>)
    reads x`index, x`url, x`title, s`index, s`url, s`title
    ensures |r| == |s| + 1 && forall k :: 0 <= k < |r| ==> r[k] == x || r[k] in s
    ensures r[0] == x || (|s| > 0 && r[0] == s[0])
  {
    if |s| == 0 then [x]
    else if Le(s[0], x, key) then [s[0]] + InsertSorted(x, s[1..], key)
    else [x] + s
  }

  /** Inserting adds `x` to the members. */
  lemma {:induction false} InsertSortedPermutes(x: TabEntry, s: seq<TabEntry>, key: SortKey)
    ensures multiset(InsertSorted(x, s, key)) == multiset(s) + multiset{x}
  {
    if |s| > 0 {
      assert s == [s[0]] + s[1..];
      if Le(s[0], x, key) {
        InsertSortedPermutes(x, s[1..], key);
      }
    }
  }

  /** Inserting into a sorted list keeps it sorted. */
  lemma {:induction false} InsertSortedSorted(x: TabEntry, s: seq<TabEntry>, key: SortKey)
    requires SortedBy(s, key)
    ensures SortedBy(InsertSorted(x, s, key), key)
  {
    if |s| > 0 {
      if Le(s[0], x, key) {
        var rest := InsertSorted(x, s[1..], key);
        assert SortedBy(s[1..], key) by {
          forall i | 0 <= i < |s[1..]| - 1
            ensures Le(s[1..][i], s[1..][i + 1], key)
          {
            assert Le(s[i + 1], s[i + 2], key);
          }
        }
        InsertSortedSorted(x, s[1..], key);
        assert Le(s[0], rest[0], key) by {
          if rest[0] != x {
            assert Le(s[0], s[1], key);
          }
        }
        var r := [s[0]] + rest;
        forall i | 0 <= i < |r| - 1
          ensures Le(r[i], r[i + 1], key)
        {
          if i > 0 {
            assert r[i] == rest[i - 1] && r[i + 1] == rest[i];
          }
        }
      } else {
        LeTotal(x, s[0], key);
      }
    }
  }

  /** Array.prototype.sort with the comparator of `key`: a stable insertion sort
      that inserts the last member into the sorted rest. */
  function SortBy(s: seq<TabEntry>, key: SortKey): (r: seq<TabEntry>)
    reads s`index, s`url, s`title
    ensures |r| == |s| && forall k :: 0 <= k < |r| ==> r[k] in s
  {
    if |s| == 0 then []
    else InsertSorted(s[|s| - 1], SortBy(s[..|s| - 1], key), key)
  }

  /** Sorting reorders the members: nothing is lost or duplicated. */
  lemma {:induction false} SortByPermutes(s: seq<TabEntry>, key: SortKey)
    ensures multiset(SortBy(s, key)) == multiset(s)
  {
    if |s| > 0 {
      var init := s[..|s| - 1];
      SortByPermutes(init, key);
      InsertSortedPermutes(s[|s| - 1], SortBy(init, key), key);
      MultisetSnoc(s);
    }
  }

  /** Sorting leaves the members ordered by `key`. */
  lemma {:induction false} SortBySorted(s: seq<TabEntry>, key: SortKey)
    ensures SortedBy(SortBy(s, key), key)
  {
    if |s| > 0 {
      SortBySorted(s[..|s| - 1], key);
      InsertSortedSorted(s[|s| - 1], SortBy(s[..|s| - 1], key), key);
    }
  }

  lemma LeTransitive(a: TabEntry, b: TabEntry, c: TabEntry, key: SortKey)
    requires Le(a, b, key) && Le(b, c, key)
    ensures Le(a, c, key)
  {
    match key
    case Position =>
    case Url => LexTransitive(a.url, b.url, c.url);
    case Title => LexTransitive(a.title, b.title, c.title);
  }

  /** Two entries the comparator of `key` cannot tell apart. */
  predicate Tied(a: TabEntry, b: TabEntry, key: SortKey)
    reads a`index, a`url, a`title, b`index, b`url, b`title
  {
    Le(a, b, key) && Le(b, a, key)
  }

  /** The members tied with `e`, in list order. */
  function TiedWith(s: seq<TabEntry>, e: TabEntry, key: SortKey): (r: seq<TabEntry>)
    reads s`index, s`url, s`title, e`index, e`url, e`title
  {
    if |s| == 0 then []
    else (if Tied(s[0], e, key) then [s[0]] else []) + TiedWith(s[1..], e, key)
  }

  lemma {:induction false} TiedWithSnoc(s: seq<TabEntry>, x: TabEntry, e: TabEntry, key: SortKey)
    ensures TiedWith(s + [x], e, key) == TiedWith(s, e, key) + (if Tied(x, e, key) then [x] else [])
  {
    if |s| > 0 {
      assert (s + [x])[1..] == s[1..] + [x];
      TiedWithSnoc(s[1..], x, e, key);
    }
  }

  /** In a sorted list the first member comes before every member. */
  lemma {:induction false} SortedHeadLe(s: seq<TabEntry>, key: SortKey, k: nat)
    requires SortedBy(s, key) && k < |s|
    ensures Le(s[0], s[k], key)
    decreases k
  {
    if k == 0 {
      LeTotal(s[0], s[0], key);
    } else {
      SortedHeadLe(s, key, k - 1);
      LeTransitive(s[0], s[k - 1], s[k], key);
    }
  }

  /** A list with no member tied with `e` has no such members to keep in order. */
  lemma {:induction false} NoneTied(s: seq<TabEntry>, e: TabEntry, key: SortKey)
    requires forall k :: 0 <= k < |s| ==> !Tied(s[k], e, key)
    ensures TiedWith(s, e, key) == []
  {
    if |s| > 0 {
      assert !Tied(s[0], e, key);
      NoneTied(s[1..], e, key);
    }
  }

  /** The tail of a sorted list is sorted. */
  lemma SortedTail(s: seq<TabEntry>, key: SortKey)
    requires SortedBy(s, key) && |s| > 0
    ensures SortedBy(s[1..], key)
  {
    forall i | 0 <= i < |s[1..]| - 1
      ensures Le(s[1..][i], s[1..][i + 1], key)
    {
      assert Le(s[i + 1], s[i + 2], key);
    }
  }

  /** When `x` goes in front of a sorted list, no member of the list is tied with
      anything tied with `x`. */
  lemma {:induction false} FrontInsertUntied(x: TabEntry, s: seq<TabEntry>, e: TabEntry, key: SortKey)
    requires SortedBy(s, key) && |s| > 0 && !Le(s[0], x, key) && Tied(x, e, key)
    ensures TiedWith(s, e, key) == []
  {
    forall k | 0 <= k < |s|
      ensures !Tied(s[k], e, key)
    {
      if Tied(s[k], e, key) {
        SortedHeadLe(s, key, k);
        LeTransitive(s[k], e, x, key);
        LeTransitive(s[0], s[k], x, key);
      }
    }
    NoneTied(s, e, key);
  }

  lemma TiedWithCons(a: TabEntry, s: seq<TabEntry>, e: TabEntry, key: SortKey)
    ensures TiedWith([a] + s, e, key) == (if Tied(a, e, key) then [a] else []) + TiedWith(s, e, key)
  {
    assert ([a] + s)[1..] == s;
  }

  /** Inserting `x` into a sorted list puts it after the members tied with it. */
  lemma {:induction false} InsertSortedTied(x: TabEntry, s: seq<TabEntry>, e: TabEntry, key: SortKey)
    requires SortedBy(s, key)
    ensures TiedWith(InsertSorted(x, s, key), e, key) == TiedWith(s, e, key) + (if Tied(x, e, key) then [x] else [])
  {
    var mine := if Tied(x, e, key) then [x] else [];
    if |s| == 0 {
      TiedWithCons(x, [], e, key);
    } else if Le(s[0], x, key) {
      var head := if Tied(s[0], e, key) then [s[0]] else [];
      var rest := InsertSorted(x, s[1..], key);
      assert InsertSorted(x, s, key) == [s[0]] + rest;
      SortedTail(s, key);
      InsertSortedTied(x, s[1..], e, key);
      TiedWithCons(s[0], rest, e, key);
      TiedWithCons(s[0], s[1..], e, key);
      assert [s[0]] + s[1..] == s;
      ConcatAssociates(head, TiedWith(s[1..], e, key), mine);
    } else {
      assert InsertSorted(x, s, key) == [x] + s;
      TiedWithCons(x, s, e, key);
      if Tied(x, e, key) {
        FrontInsertUntied(x, s, e, key);
      }
    }
  }

  /** The sort is stable: the members tied with any `e` keep their relative order. */
  lemma {:induction false} SortByStable(s: seq<TabEntry>, e: TabEntry, key: SortKey)
    ensures TiedWith(SortBy(s, key), e, key) == TiedWith(s, e, key)
  {
    if |s| > 0 {
      var init, last := s[..|s| - 1], s[|s| - 1];
      var sorted := SortBy(init, key);
      SortByStable(init, e, key);
      SortBySorted(init, key);
      InsertSortedTied(last, sorted, e, key);
      TiedWithSnoc(init, last, e, key);
      assert s == init + [last];
      calc {
        TiedWith(SortBy(s, key), e, key);
        TiedWith(InsertSorted(last, sorted, key), e, key);
        TiedWith(sorted, e, key) + (if Tied(last, e, key) then [last] else []);
        TiedWith(init + [last], e, key);
      }
    }
  }

  /** A list that takes each entry at most as often as a distinct list does
      (a reordering, or the list with entries left out) lists each entry once. */
  lemma SubmultisetKeepsDistinct(s: seq<TabEntry>, r: seq<TabEntry>)
    ensures Distinct(s) && multiset(r) <= multiset(s) ==> Distinct(r)
  {
    if !Distinct(s) || !(multiset(r) <= multiset(s)) {
      return;
    }
    forall i, j | 0 <= i < j < |r|
      ensures r[i] != r[j]
    {
      if r[i] == r[j] {
        assert r == r[..j] + r[j..];
        assert multiset(r)[r[i]] >= 2 by {
          assert r[i] in multiset(r[..j]) && r[j] in multiset(r[j..]);
        }
        DistinctCount(s, r[i]);
      }
    }
    DistinctPairs(r);
  }

  /** Inserting an entry that is not yet listed keeps a list distinct. */
  lemma InsertFreshKeepsDistinct(s: seq<TabEntry>, i: nat, x: TabEntry)
    requires Distinct(s) && x !in s && i <= |s|
    ensures Distinct(InsertAt(s, i, x))
  {
    DistinctPairs(s);
    var r := InsertAt(s, i, x);
    forall a, b | 0 <= a < b < |r|
      ensures r[a] != r[b]
    {
      if a != i && b != i {
        var a' := if a < i then a else a - 1;
        var b' := if b < i then b else b - 1;
        assert r[a] == s[a'] && r[b] == s[b'];
      } else if a == i {
        assert r[b] == s[b - 1];
      } else {
        assert r[a] == s[a];
      }
    }
    DistinctPairs(r);
  }

  /** Sorting a distinct list and inserting an entry not yet listed keeps it distinct. */
  lemma SortKeepsDistinct(s: seq<TabEntry>, x: TabEntry)
    ensures Distinct(s) && x !in s ==> Distinct(SortBy(s, Position)) && x !in SortBy(s, Position)
  {
    if !Distinct(s) || x in s {
      return;
    }
    var sorted := SortBy(s, Position);
    SortByPermutes(s, Position);
    SubmultisetKeepsDistinct(s, sorted);
    assert x !in multiset(sorted);
  }

  /** Removing an entry keeps a list distinct. */
  lemma WithoutKeepsDistinct(s: seq<TabEntry>, x: TabEntry)
    ensures Distinct(s) ==> Distinct(Without(s, x))
  {
    if Distinct(s) && x in s {
      SubmultisetKeepsDistinct(s, Without(s, x));
    }
  }

  lemma {:induction false} DistinctCount(s: seq<TabEntry>, x: TabEntry)
    requires Distinct(s)
    ensures multiset(s)[x] <= 1
  {
    if |s| > 0 {
      var init := s[..|s| - 1];
      DistinctCount(init, x);
      assert s == init + [s[|s| - 1]];
    }
  }

  /** The cached positions of the members, in member order (tabs.map((t) => t.index)). */
  function Positions(s: seq<TabEntry>): (r: seq<int>)
    reads s
    ensures |r| == |s| && forall k :: 0 <= k < |s| ==> r[k] == s[k].index
  {
    seq(|s|, k requires 0 <= k < |s| reads s => s[k].index)
  }

  lemma PositionsOf(s: seq<TabEntry>, p: seq<int>)
    requires |s| == |p| && forall k :: 0 <= k < |s| ==> s[k].index == p[k]
    ensures Positions(s) == p
  {
  }

  /** The close requests for a list of entries. */
  function Closing(s: seq<TabEntry>): (r: seq<Effect>)
    ensures |r| == |s| && forall k :: 0 <= k < |s| ==> r[k] == CloseTab(s[k].id)
  {
    seq(|s|, k requires 0 <= k < |s| => CloseTab(s[k].id))
  }

  /** close() on every entry of a run, in order: each entry is marked as
      closing and its tab removal requested. */
  method CloseAll(run: seq<TabEntry>) returns (effects: seq<Effect>)
    modifies run`aboutToClose
    ensures effects == Closing(run)
    ensures forall t :: t in run ==> t.aboutToClose
  {
    effects := [];
    var i := 0;
    while i < |run|
      invariant 0 <= i <= |run|
      invariant effects == Closing(run[..i])
      invariant forall j :: 0 <= j < i ==> run[j].aboutToClose
    {
      assert run[..i + 1][..i] == run[..i];
      var e := run[i].Close();
      effects := effects + [e];
      i := i + 1;
    }
    assert run[..i] == run;
  }

  /** Where appendTabs puts a block of entries: right after `r`, or at the
      front when `r` is not a member. */
  function BlockAfter(s: seq<TabEntry>, r: TabEntry, entries: seq<TabEntry>): (t: seq<TabEntry>)
    ensures |t| == |s| + |entries|
    ensures r in s ==> t[..IndexOf(s, r) + 1] == s[..IndexOf(s, r) + 1]
    ensures r !in s ==> t == entries + s
  {
    s[..IndexOf(s, r) + 1] + entries + s[IndexOf(s, r) + 1..]
  }

  /** The active members of a list, in order. */
  function ActiveOnes(s: seq<TabEntry>): (r: seq<TabEntry>)
    reads s`active
  {
    if |s| == 0 then []
    else ActiveOnes(s[..|s| - 1]) + (if s[|s| - 1].active then [s[|s| - 1]] else [])
  }

  /** The active members of a list are exactly its members that are active. */
  lemma {:induction false} ActiveOnesSpec(s: seq<TabEntry>)
    ensures forall t :: t in ActiveOnes(s) ==> t in s && t.active
    ensures forall k :: 0 <= k < |s| && s[k].active ==> s[k] in ActiveOnes(s)
  {
    if |s| > 0 {
      ActiveOnesSpec(s[..|s| - 1]);
    }
  }

  /** The group-id writes for a list of entries. */
  function GroupIdWrites(s: seq<TabEntry>, uuid: string): (r: seq<Effect>)
    ensures |r| == |s| && forall k :: 0 <= k < |s| ==> r[k] == SetGroupId(s[k].id, uuid)
  {
    seq(|s|, k requires 0 <= k < |s| => SetGroupId(s[k].id, uuid))
  }

  /** One more entry appends its write. */
  lemma GroupIdWritesSnoc(s: seq<TabEntry>, t: TabEntry, uuid: string)
    ensures GroupIdWrites(s + [t], uuid) == GroupIdWrites(s, uuid) + [SetGroupId(t.id, uuid)]
  {
    var a, b := GroupIdWrites(s + [t], uuid), GroupIdWrites(s, uuid) + [SetGroupId(t.id, uuid)];
    assert forall k :: 0 <= k < |a| ==> a[k] == b[k];
  }

  /** The members of positions [begin, end) that _selectRange adds to a
      selection whose ids are `seen`: each id not seen before, once. */
  function RangeAdditions(s: seq<TabEntry>, begin: nat, end: nat, seen: set<int>): (r: seq<TabEntry>)
    requires begin <= end <= |s|
    decreases end - begin
  {
    if begin == end then []
    else if s[begin].id in seen then RangeAdditions(s, begin + 1, end, seen)
    else [s[begin]] + RangeAdditions(s, begin + 1, end, seen + {s[begin].id})
  }

  /** _selectRange adds only entries of the range whose ids were not selected,
      no id twice, and afterwards every member of the range has its id selected. */
  lemma {:induction false} RangeAdditionsSpec(s: seq<TabEntry>, begin: nat, end: nat, seen: set<int>)
    requires begin <= end <= |s|
    ensures var r := RangeAdditions(s, begin, end, seen);
      && (forall t :: t in r ==> t in s[begin..end] && t.id !in seen)
      && (forall i, j :: 0 <= i < j < |r| ==> r[i].id != r[j].id)
      && (forall k :: begin <= k < end ==> s[k].id in seen + IdSet(r))
    decreases end - begin
  {
    if begin < end {
      var x := s[begin];
      if x.id in seen {
        RangeAdditionsSpec(s, begin + 1, end, seen);
      } else {
        RangeAdditionsSpec(s, begin + 1, end, seen + {x.id});
      }
      var r := RangeAdditions(s, begin, end, seen);
      forall t | t in r
        ensures t in s[begin..end]
      {
        if t != x {
          assert t in s[begin + 1..end];
        }
      }
    }
  }

  /** The selection onClick's ctrl-shift branch leaves before sorting: the old
      selection followed by what _selectRange adds from the positions between
      its first member and the clicked one, both included. */
  function CtrlShiftSelection(s: seq<TabEntry>, selected: seq<TabEntry>, clicked: nat): (r: seq<TabEntry>)
    requires clicked < |s| && |selected| > 0 && selected[0] in s
    ensures |selected| <= |r| && r[..|selected|] == selected
    ensures forall k :: 0 <= k < |s| && (IndexOf(s, selected[0]) <= k <= clicked || clicked <= k <= IndexOf(s, selected[0])) ==>
              s[k].id in IdSet(r)
  {
    var anchor := IndexOf(s, selected[0]);
    var lo := if anchor < clicked then anchor else clicked;
    var hi := if anchor < clicked then clicked else anchor;
    RangeAdditionsSpec(s, lo, hi + 1, IdSet(selected));
    var r := selected + RangeAdditions(s, lo, hi + 1, IdSet(selected));
    assert r[..|selected|] == selected;
    assert forall t :: t in RangeAdditions(s, lo, hi + 1, IdSet(selected)) ==> t in r;
    r
  }

  // ----- the tab entry -----

  class TabEntry {
    const id: int
    var title: string
    var favIconUrl: string
    var url: string
    var pinned: bool
    var muted: bool
    var audible: bool
    var sessionId: string
    var index: int
    var active: bool
    var discarded: bool
    var visible: bool
    var group: Group?
    var aboutToClose: bool

    /** A new entry copies the tab, belongs to no group, is visible and is not closing. */
    constructor (info: TabInfo)
      ensures id == info.id && title == info.title && favIconUrl == info.favIconUrl
      ensures url == info.url && pinned == info.pinned && muted == info.muted
      ensures audible == info.audible && sessionId == info.sessionId
      ensures index == info.index && active == info.active && discarded == info.discarded
      ensures visible && group == null && !aboutToClose
    {
      id := info.id;
      title := info.title;
      favIconUrl := info.favIconUrl;
      url := info.url;
      pinned := info.pinned;
      muted := info.muted;
      audible := info.audible;
      sessionId := info.sessionId;
      index := info.index;
      active := info.active;
      discarded := info.discarded;
      visible := true;
      group := null;
      aboutToClose := false;
    }

    /** The entry's position in its group: -1 without a group or when the group
        does not list its id, otherwise the first member position with its id. */
    function TabIndex(): (i: int)
      reads this`group, Owner()`tabs
      ensures group == null ==> i == -1
      ensures group != null ==> -1 <= i < |group.tabs|
      ensures group != null ==> (i == -1 <==> forall j :: 0 <= j < |group.tabs| ==> group.tabs[j].id != id)
      ensures 0 <= i ==> group.tabs[i].id == id && forall j :: 0 <= j < i ==> group.tabs[j].id != id
    {
      if group == null then -1 else group.TabIndex(id)
    }

    /** "Close Tabs Above" is enabled iff the entry is listed in its group
        and the first member is another tab. */
    function CanCloseAbove(): (r: bool)
      reads this`group, Owner()`tabs
      ensures r <==> group != null && (exists j :: 0 <= j < |group.tabs| && group.tabs[j].id == id)
                     && group.tabs[0].id != id
    {
      TabIndex() > 0
    }

    /** "Close Tabs Below" is enabled unless the entry is the last member
        (or the group is empty, where -1 equals length - 1). */
    function CanCloseBelow(): (r: bool)
      reads this`group, Owner()`tabs
      requires group != null
      ensures !r <==> |group.tabs| == 0 ||
                      (group.tabs[|group.tabs| - 1].id == id &&
                       forall j :: 0 <= j < |group.tabs| - 1 ==> group.tabs[j].id != id)
    {
      TabIndex() != |group.tabs| - 1
    }

    /** "Close Other Tabs" is enabled iff the group has another member besides one. */
    function CanCloseOthers(): (r: bool)
      reads this`group, Owner()`tabs
      requires group != null
      ensures r <==> |group.tabs| > 1
    {
      |group.tabs| >= 2
    }

    /** A "Move To" target is enabled iff it is a group with another uuid;
        in particular the entry's own group never is. */
    function CanMoveTo(target: Group): (r: bool)
      reads this`group
      requires group != null
      ensures r ==> target != group
      ensures r <==> target.uuid != group.uuid
    {
      group.uuid != target.uuid
    }

    /** close: mark the entry as closing and ask the browser to remove the tab. */
    method Close() returns (e: Effect)
      modifies this`aboutToClose
      ensures aboutToClose && e == CloseTab(id)
      ensures index == old(index) && group == old(group) && active == old(active)
      ensures visible == old(visible) && title == old(title) && url == old(url)
    {
      aboutToClose := true;
      e := CloseTab(id);
    }

    method Hide()
      modifies this`visible
      ensures !visible && index == old(index) && group == old(group) && active == old(active)
      ensures title == old(title) && url == old(url)
    {
      visible := false;
    }

    method Show()
      modifies this`visible
      ensures visible && index == old(index) && group == old(group) && active == old(active)
      ensures title == old(title) && url == old(url)
    {
      visible := true;
    }

    /** toggleVisibility(v) leaves the entry visible exactly when v holds. */
    method ToggleVisibility(v: bool)
      modifies this`visible
      ensures visible == v && index == old(index) && group == old(group) && active == old(active)
      ensures title == old(title) && url == old(url)
    {
      if v {
        Show();
      } else {
        Hide();
      }
    }

    /** matchesTitle: the title contains the text, ignoring case. */
    function MatchesTitle(sub: string): (r: bool)
      reads this`title
      ensures r <==> exists k: nat :: OccursAtCI(title, sub, k)
    {
      ContainsCI(title, sub)
    }

    /** shouldHide (despite its name, true for a match): the title or the URL
        contains the query, ignoring case. */
    function ShouldHide(query: string): (r: bool)
      reads this`title, this`url
      ensures r <==> (exists k: nat :: OccursAtCI(title, query, k)) ||
                     (exists k: nat :: OccursAtCI(url, query, k))
    {
      ContainsCI(title, query) || ContainsCI(url, query)
    }

    /** The properties update overwrites. */
    ghost function Record(): TabRecord
      reads this`index, this`title, this`url, this`pinned, this`audible, this`muted, this`discarded
    {
      TabRecord(index, title, url, pinned, audible, muted, discarded)
    }

    /** update: every property present in the change record is copied, every
        other field keeps its value. A new favicon only changes the view. */
    method Update(change: ChangeInfo)
      modifies this`pinned, this`audible, this`muted, this`discarded, this`title, this`url, this`index
      ensures pinned == (if change.pinned.Some? then change.pinned.value else old(pinned))
      ensures title == (if change.title.Some? then change.title.value else old(title))
      ensures url == (if change.url.Some? then change.url.value else old(url))
      ensures audible == (if change.audible.Some? then change.audible.value else old(audible))
      ensures muted == (if change.muted.Some? then change.muted.value else old(muted))
      ensures discarded == (if change.discarded.Some? then change.discarded.value else old(discarded))
      ensures index == (if change.index.Some? then change.index.value else old(index))
    {
      UpdateFlags(change);
      UpdatePage(change);
    }

    /** The boolean properties of update: pinned, audible, muted, discarded. */
    method UpdateFlags(change: ChangeInfo)
      modifies this`pinned, this`audible, this`muted, this`discarded
      ensures pinned == (if change.pinned.Some? then change.pinned.value else old(pinned))
      ensures audible == (if change.audible.Some? then change.audible.value else old(audible))
      ensures muted == (if change.muted.Some? then change.muted.value else old(muted))
      ensures discarded == (if change.discarded.Some? then change.discarded.value else old(discarded))
    {
      if change.pinned.Some? {
        pinned := change.pinned.value;
      }
      if change.audible.Some? {
        audible := change.audible.value;
      }
      if change.muted.Some? {
        muted := change.muted.value;
      }
      if change.discarded.Some? {
        discarded := change.discarded.value;
      }
    }

    /** The title, URL and index properties of update. */
    method UpdatePage(change: ChangeInfo)
      modifies this`title, this`url, this`index
      ensures title == (if change.title.Some? then change.title.value else old(title))
      ensures url == (if change.url.Some? then change.url.value else old(url))
      ensures index == (if change.index.Some? then change.index.value else old(index))
    {
      if change.title.Some? {
        UpdateTitle(change.title.value);
      }
      if change.url.Some? {
        url := change.url.value;
      }
      if change.index.Some? {
        index := change.index.value;
      }
    }

    /** updateTitle: the new title replaces the old one and nothing else changes. */
    method UpdateTitle(newTitle: string)
      modifies this`title
      ensures title == newTitle
    {
      title := newTitle;
    }

    /** The entry's group as a frame: empty without a group. */
    ghost function Owner(): set<Group>
      reads this`group
    {
      if group == null then {} else {group}
    }

    /** toggleActive: set the flag and let the group record it. */
    method ToggleActive(value: bool)
      modifies this`active, Owner()`active, Owner()`selected
      ensures active == value && group == old(group) && index == old(index)
      ensures group != null ==> group.active == value && group.tabs == old(group.tabs)
      ensures group != null && value ==> group.selected == old(group.selected) + [this]
      ensures group != null && !value ==> group.selected == Without(old(group.selected), this)
    {
      active := value;
      if group != null {
        group.ToggleActive(this, value);
      }
    }

    /** detach: leave the group; the group field itself is kept. */
    method Detach()
      modifies Owner()`tabs
      ensures group == old(group)
      ensures group != null ==> group.tabs == Without(old(group.tabs), this)
      ensures group != null ==> group.selected == old(group.selected) && group.active == old(group.active)
    {
      if group != null {
        group.RemoveTab(this);
      }
    }

    /** attachToNewGroup: leave the old group and join `target` right after the
        member getRightBefore picks for this entry's cached index. */
    method AttachToNewGroup(target: Group) returns (e: Effect)
      modifies this`group, Owner()`tabs, target`tabs
      ensures group == target && e == SetGroupId(id, target.uuid)
      ensures old(group) != null && old(group) != target ==>
        old(group).tabs == Without(old(group.tabs), this)
      ensures target.tabs == old(var base := if group == target then Without(target.tabs, this) else target.tabs;
        InsertAt(base, NearSlot(base, index), this))
      ensures multiset(target.tabs) == old(multiset(if group == target then Without(target.tabs, this) else target.tabs)) + multiset{this}
    {
      ghost var base := if group == target then Without(target.tabs, this) else target.tabs;
      ghost var slot := NearSlot(base, index);
      Detach();
      assert target.tabs == base;
      assert slot == NearSlot(base, index);
      e := target.AddNearIndex(this);
    }
  }

  // ----- the group -----

  class Group {
    const uuid: string
    var name: string
    var open: bool
    var active: bool
    /** parent !== null: the group belongs to a group list. */
    var hasParent: bool
    var tabs: seq<TabEntry>
    var selected: seq<TabEntry>

    /** A group restored from its stored record, empty and without a list. */
    constructor FromData(d: GroupData)
      ensures name == d.name && uuid == d.uuid && open == d.open && active == d.active
      ensures tabs == [] && selected == [] && !hasParent && Valid()
    {
      name := d.name;
      uuid := d.uuid;
      open := d.open;
      active := d.active;
      hasParent := false;
      tabs := [];
      selected := [];
    }

    /** A new group: `id` is the uuid4() the source draws at random. */
    constructor Named(n: string, id: string)
      ensures name == n && uuid == id && open && !active
      ensures tabs == [] && selected == [] && !hasParent && Valid()
    {
      name := n;
      uuid := id;
      open := true;
      active := false;
      hasParent := false;
      tabs := [];
      selected := [];
    }

    ghost predicate Valid()
      reads this`tabs
    {
      Distinct(tabs)
    }

    /** tabIndex: findIndex of the id among the members. */
    function TabIndex(tabId: int): (i: int)
      reads this`tabs
      ensures -1 <= i < |tabs|
      ensures i == -1 <==> forall j :: 0 <= j < |tabs| ==> tabs[j].id != tabId
      ensures 0 <= i ==> tabs[i].id == tabId && forall j :: 0 <= j < i ==> tabs[j].id != tabId
    {
      FindId(tabs, tabId)
    }

    /** getRightBefore: null only for an empty group; otherwise the member just
        before the first one whose index is at least `tabIndex`, the first member
        when that one is first, and the last member when there is none. */
    method GetRightBefore(tabIndex: int) returns (r: TabEntry?)
      ensures r == null <==> |tabs| == 0
      ensures |tabs| > 0 ==> r == tabs[RightBeforeSlot(tabs, tabIndex)]
    {
      var i := FirstSlot(tabs, tabIndex);
      i := if i - 1 > 0 then i - 1 else 0;
      r := if i < |tabs| then tabs[i] else null;
    }

    /** getRightBefore followed by addTab: join right after the member picked
        for the entry's cached index, or as the only member. */
    method AddNearIndex(entry: TabEntry) returns (e: Effect)
      modifies this`tabs, entry`group
      ensures entry.group == this && e == SetGroupId(entry.id, uuid)
      ensures tabs == old(InsertAt(tabs, NearSlot(tabs, entry.index), entry))
      ensures multiset(tabs) == multiset(old(tabs)) + multiset{entry}
      ensures selected == old(selected) && active == old(active) && name == old(name)
    {
      ghost var base := tabs;
      var relative := GetRightBefore(entry.index);
      e := AddTab(entry, relative);
      InsertAtMultiset(base, AfterSlot(base, relative), entry);
    }

    /** _sortSelected: order the selection by cached index. */
    method SortSelected()
      modifies this`selected
      ensures selected == old(SortBy(selected, Position))
      ensures SortedBy(selected, Position) && multiset(selected) == multiset(old(selected))
      ensures tabs == old(tabs) && active == old(active)
    {
      SortByPermutes(selected, Position);
      SortBySorted(selected, Position);
      selected := SortBy(selected, Position);
    }

    /** popSelected: take the members whose ids were selected out of the group
        and return them in member order; the selection is cleaned first, so it
        keeps the active member even when that member is taken out. */
    method PopSelected() returns (popped: seq<TabEntry>)
      modifies this`tabs, this`selected
      ensures popped == TakeIds(old(tabs), IdSet(old(selected)))
      ensures tabs == DropIds(old(tabs), IdSet(old(selected)))
      ensures multiset(popped) + multiset(tabs) == multiset(old(tabs))
      ensures selected == old(CleanSelection(tabs))
      ensures active == old(active)
    {
      var toRetrieve := IdSet(selected);
      CleanSelected();
      assert selected == old(CleanSelection(tabs));
      var kept;
      popped, kept := Partition(tabs, toRetrieve);
      tabs := kept;
    }

    method AddSelected(tab: TabEntry)
      modifies this`selected
      ensures selected == old(selected) + [tab]
      ensures tabs == old(tabs) && active == old(active) && name == old(name)
    {
      selected := selected + [tab];
    }

    /** removeSelected: drop the first occurrence, if there is one. */
    method RemoveSelected(tab: TabEntry)
      modifies this`selected
      ensures selected == Without(old(selected), tab)
      ensures tabs == old(tabs) && active == old(active)
    {
      var i := IndexOf(selected, tab);
      if i != -1 {
        selected := RemoveAt(selected, i);
      }
    }

    /** isSelected: the active tab counts as selected even when it is not listed. */
    predicate IsSelected(tab: TabEntry)
      reads this`selected, tab`active
    {
      tab.active || tab in selected
    }

    method ClearSelected()
      modifies this`selected
      ensures selected == [] && tabs == old(tabs) && active == old(active)
    {
      selected := [];
    }

    /** cleanSelected: clear, but keep the active member selected. */
    method CleanSelected()
      modifies this`selected
      ensures selected == CleanSelection(tabs)
      ensures tabs == old(tabs) && active == old(active)
    {
      ClearSelected();
      var entry := ActiveMember(tabs);
      if entry != null {
        AddSelected(entry);
      }
    }

    /** _selectRange(begin, end): add each member of positions begin..min(end, n - 1)
        whose id is not yet selected, once; nothing is dropped or duplicated. */
    method SelectRange(begin: nat, end: int)
      requires begin <= (if end + 1 < |tabs| then end + 1 else |tabs|)
      modifies this`selected
      ensures tabs == old(tabs) && active == old(active)
      ensures var trueEnd := if end + 1 < |tabs| then end + 1 else |tabs|;
        selected == old(selected) + RangeAdditions(tabs, begin, trueEnd, IdSet(old(selected)))
    {
      var trueEnd := if end + 1 < |tabs| then end + 1 else |tabs|;
      var seen := IdSet(selected);
      ghost var added: seq<TabEntry> := [];
      var b := begin;
      while b != trueEnd
        invariant begin <= b <= trueEnd
        invariant tabs == old(tabs) && active == old(active)
        invariant selected == old(selected) + added
        invariant seen == IdSet(old(selected)) + IdSet(added)
        invariant added + RangeAdditions(tabs, b, trueEnd, seen) ==
                  RangeAdditions(tabs, begin, trueEnd, IdSet(old(selected)))
        decreases trueEnd - b
      {
        var tab := tabs[b];
        if tab.id !in seen {
          AddSelected(tab);
          ConcatAssociates(added, [tab], RangeAdditions(tabs, b + 1, trueEnd, seen + {tab.id}));
          IdSetSnoc(added, tab);
          added := added + [tab];
          seen := seen + {tab.id};
        }
        b := b + 1;
      }
    }

    /** The clicks onClick acts on: a non-zero tab id of a member that is not
        closing, in the list's active group. */
    predicate ClickApplies(tabId: Option<int>, isActiveGroup: bool)
      reads this`tabs, tabs`aboutToClose
    {
      && tabId.Some? && tabId.value != 0 && isActiveGroup
      && FindId(tabs, tabId.value) != -1 && !tabs[FindId(tabs, tabId.value)].aboutToClose
    }

    /** onClick on the member with id `tabId`, with the modifier keys pressed;
        `isActiveGroup` is parent.activeGroup === this. A plain click selects
        the member alone, a ctrl-click toggles it, a shift-click selects the
        closed range from the anchor, a ctrl-shift-click adds that range; the
        selection ends ordered by index. `thrown` is the TypeError the source
        raises when a shift-click's anchor, the first selected entry, is no
        longer a member. */
    method OnClick(tabId: Option<int>, isActiveGroup: bool, ctrl: bool, shift: bool)
      returns (thrown: bool)
      modifies this`selected
      ensures tabs == old(tabs) && active == old(active)
      ensures !old(ClickApplies(tabId, isActiveGroup)) ==> selected == old(selected) && !thrown
      ensures thrown <==> old(ClickApplies(tabId, isActiveGroup)) && shift &&
                          |old(selected)| > 0 && old(selected)[0] !in tabs
      ensures ctrl && shift && |old(selected)| == 0 ==> selected == old(selected)
      ensures old(ClickApplies(tabId, isActiveGroup)) && !ctrl && !shift ==>
        selected == [tabs[FindId(tabs, tabId.value)]]
      ensures old(ClickApplies(tabId, isActiveGroup)) && ctrl && !shift ==>
        var tab := tabs[FindId(tabs, tabId.value)];
        multiset(selected) == multiset(if old(IsSelected(tab)) then Without(old(selected), tab)
                                       else old(selected) + [tab])
      ensures old(ClickApplies(tabId, isActiveGroup)) && ctrl && shift && |old(selected)| > 0 ==>
        if thrown then selected == old(selected)
        else multiset(selected) == multiset(CtrlShiftSelection(tabs, old(selected), FindId(tabs, tabId.value)))
      ensures old(ClickApplies(tabId, isActiveGroup)) && !ctrl && shift ==>
        var tabIndex := FindId(tabs, tabId.value);
        if thrown then selected == []
        else multiset(selected) ==
          multiset(RangeAdditions(tabs, old(ShiftLow(tabs, selected, tabIndex)), old(ShiftHigh(tabs, selected, tabIndex)) + 1, {}))
      ensures old(ClickApplies(tabId, isActiveGroup)) && !thrown ==> SortedBy(selected, Position)
    {
      thrown := false;
      if tabId.None? || tabId.value == 0 {
        return;
      }
      if !isActiveGroup {
        return;
      }
      var tabIndex := FindId(tabs, tabId.value);
      if tabIndex == -1 || tabs[tabIndex].aboutToClose {
        return;
      }
      var tab := tabs[tabIndex];
      if ctrl && shift {
        if |selected| == 0 {
          return;
        }
        thrown := CtrlShiftClickSorted(tabIndex);
      } else if ctrl {
        CtrlClickSorted(tab);
      } else if shift {
        thrown := ShiftClickSorted(tabIndex);
      } else {
        PlainClickSorted(tab);
      }
    }

    /** onClick's ctrl-shift branch followed by _sortSelected. */
    method CtrlShiftClickSorted(tabIndex: nat) returns (thrown: bool)
      requires tabIndex < |tabs| && |selected| > 0
      modifies this`selected
      ensures tabs == old(tabs) && active == old(active)
      ensures thrown <==> old(selected)[0] !in tabs
      ensures thrown ==> selected == old(selected)
      ensures !thrown ==> SortedBy(selected, Position)
      ensures !thrown ==> multiset(selected) == multiset(CtrlShiftSelection(tabs, old(selected), tabIndex))
    {
      thrown := CtrlShiftClick(tabIndex);
      if !thrown {
        SortSelected();
      }
    }

    /** onClick's ctrl branch followed by _sortSelected. */
    method CtrlClickSorted(tab: TabEntry)
      modifies this`selected
      ensures tabs == old(tabs) && active == old(active)
      ensures multiset(selected) == multiset(if old(IsSelected(tab)) then Without(old(selected), tab)
                                             else old(selected) + [tab])
      ensures SortedBy(selected, Position)
    {
      CtrlClick(tab);
      SortSelected();
    }

    /** onClick's shift branch followed by _sortSelected. */
    method ShiftClickSorted(tabIndex: nat) returns (thrown: bool)
      requires tabIndex < |tabs|
      modifies this`selected
      ensures tabs == old(tabs) && active == old(active)
      ensures thrown <==> |old(selected)| > 0 && old(selected)[0] !in tabs
      ensures thrown ==> selected == []
      ensures !thrown ==> SortedBy(selected, Position)
      ensures !thrown ==> (multiset(selected) ==
        multiset(RangeAdditions(tabs, old(ShiftLow(tabs, selected, tabIndex)), old(ShiftHigh(tabs, selected, tabIndex)) + 1, {})))
    {
      thrown := ShiftClick(tabIndex);
      if !thrown {
        ghost var picked := selected;
        SortSelected();
        assert multiset(selected) == multiset(picked);
      }
    }

    /** onClick without modifiers: the member alone is selected. */
    method PlainClickSorted(tab: TabEntry)
      modifies this`selected
      ensures tabs == old(tabs) && active == old(active)
      ensures selected == [tab]
    {
      ClearSelected();
      AddSelected(tab);
      SortSelected();
    }

    /** The ctrl-shift branch of onClick: add the closed range between the
        anchor (the first selected entry) and the clicked member. */
    method CtrlShiftClick(tabIndex: nat) returns (thrown: bool)
      requires tabIndex < |tabs| && |selected| > 0
      modifies this`selected
      ensures tabs == old(tabs) && active == old(active)
      ensures thrown <==> old(selected)[0] !in tabs
      ensures thrown ==> selected == old(selected)
      ensures !thrown ==> selected == CtrlShiftSelection(tabs, old(selected), tabIndex)
    {
      var anchor := IndexOf(tabs, selected[0]);
      thrown := false;
      if tabIndex > anchor {
        if anchor == -1 {
          thrown := true;
          return;
        }
        SelectRange(anchor, tabIndex);
      } else {
        SelectRange(tabIndex, anchor);
      }
    }

    /** The ctrl branch of onClick: toggle the clicked member's selection. */
    method CtrlClick(tab: TabEntry)
      modifies this`selected
      ensures tabs == old(tabs) && active == old(active)
      ensures selected == if old(IsSelected(tab)) then Without(old(selected), tab)
                          else old(selected) + [tab]
    {
      if IsSelected(tab) {
        RemoveSelected(tab);
      } else {
        AddSelected(tab);
      }
    }

    /** The shift branch of onClick: replace the selection by the closed range
        between the anchor and the clicked member. The anchor is the first
        selected entry, or the active member (position 0 without one) when
        nothing is selected. */
    method ShiftClick(tabIndex: nat) returns (thrown: bool)
      requires tabIndex < |tabs|
      modifies this`selected
      ensures tabs == old(tabs) && active == old(active)
      ensures thrown <==> |old(selected)| > 0 && old(selected)[0] !in tabs
      ensures thrown ==> selected == []
      ensures !thrown ==> selected == RangeAdditions(tabs, old(ShiftLow(tabs, selected, tabIndex)),
                                                     old(ShiftHigh(tabs, selected, tabIndex)) + 1, {})
    {
      var anchor := ShiftAnchor(tabs, selected);
      thrown := tabIndex > anchor && anchor == -1;
      if thrown {
        ClearSelected();
      } else {
        SelectBetween(anchor, tabIndex);
      }
    }

    /** The rest of the shift branch once the anchor is a member: clear the
        selection, then select the closed range between the two positions. */
    method SelectBetween(anchor: nat, tabIndex: nat)
      requires anchor < |tabs| && tabIndex < |tabs|
      modifies this`selected
      ensures tabs == old(tabs) && active == old(active)
      ensures var lo := if anchor < tabIndex then anchor else tabIndex;
        var hi := if anchor < tabIndex then tabIndex else anchor;
        selected == RangeAdditions(tabs, lo, hi + 1, {})
    {
      ClearSelected();
      assert IdSet(selected) == {};
      if tabIndex > anchor {
        SelectRange(anchor, tabIndex);
      } else if tabIndex < anchor {
        SelectRange(tabIndex, anchor);
      } else {
        AddSelected(tabs[tabIndex]);
        assert RangeAdditions(tabs, tabIndex, tabIndex + 1, {}) == [tabs[tabIndex]];
      }
    }

    /** addTab: join the group, appended when `relativeTo` is absent or not a
        member, otherwise immediately after it; the other members keep their order. */
    method AddTab(entry: TabEntry, relativeTo: TabEntry?) returns (e: Effect)
      modifies this`tabs, entry`group
      ensures entry.group == this && e == SetGroupId(entry.id, uuid)
      ensures tabs == InsertAt(old(tabs), AfterSlot(old(tabs), relativeTo), entry)
      ensures relativeTo != null && relativeTo in old(tabs) ==> tabs[AfterSlot(old(tabs), relativeTo) - 1] == relativeTo
      ensures selected == old(selected) && active == old(active) && name == old(name)
      ensures entry.index == old(entry.index) && entry.active == old(entry.active)
      ensures old(Valid()) && entry !in old(tabs) ==> Valid()
    {
      if Valid() && entry !in tabs {
        InsertFreshKeepsDistinct(tabs, AfterSlot(tabs, relativeTo), entry);
      }
      entry.group := this;
      if relativeTo == null {
        tabs := tabs + [entry];
      } else {
        var relativeIndex := IndexOf(tabs, relativeTo);
        if relativeIndex == -1 {
          tabs := tabs + [entry];
        } else {
          tabs := InsertAt(tabs, relativeIndex + 1, entry);
        }
      }
      e := SetGroupId(entry.id, uuid);
    }

    /** loadTab: join the group at the end, without telling the browser. */
    method LoadTab(entry: TabEntry)
      modifies this`tabs, entry`group
      ensures entry.group == this && tabs == old(tabs) + [entry]
      ensures selected == old(selected) && active == old(active) && name == old(name)
      ensures entry.index == old(entry.index) && entry.active == old(entry.active)
      ensures old(Valid()) && entry !in old(tabs) ==> Valid()
    {
      if Valid() && entry !in tabs {
        InsertFreshKeepsDistinct(tabs, |tabs|, entry);
      }
      entry.group := this;
      tabs := tabs + [entry];
    }

    /** appendTabs: without `relativeTo`, load each entry at the end; otherwise
        insert the entries as a block after `relativeTo` (at the front when it
        is not a member), select the active ones, and move the whole group in
        the browser inside a batch move, then resynchronise. When the group is
        still empty at the end the source fails reading tabs[0], before
        endBatchMove, so the batch is never closed. */
    method AppendTabs(entries: seq<TabEntry>, relativeTo: TabEntry?) returns (thrown: bool, effects: seq<Effect>)
      modifies this`tabs, this`selected, entries`group
      ensures forall e :: e in entries ==> e.group == this
      ensures thrown <==> relativeTo != null && |old(tabs)| + |entries| == 0
      ensures relativeTo == null ==> tabs == old(tabs) + entries && selected == old(selected)
      ensures relativeTo == null ==> effects == GroupIdWrites(entries, uuid)
      ensures relativeTo != null ==>
        && tabs == BlockAfter(old(tabs), relativeTo, entries)
        && selected == old(selected) + old(ActiveOnes(entries))
        && effects == [BeginBatchMove] + GroupIdWrites(entries, uuid) +
                      (if thrown then [] else [MoveTabs(Ids(tabs), tabs[0].index), EndBatchMove, Resync])
      ensures active == old(active) && name == old(name)
    {
      if relativeTo == null {
        thrown := false;
        effects := LoadTabs(entries);
      } else {
        thrown, effects := InsertBlock(entries, relativeTo);
      }
    }

    /** The second branch of appendTabs: insert the entries as a block after
        `relativeTo` inside a batch move, then move the group and resynchronise;
        an empty group fails reading tabs[0]. */
    method InsertBlock(entries: seq<TabEntry>, relativeTo: TabEntry) returns (thrown: bool, effects: seq<Effect>)
      modifies this`tabs, this`selected, entries`group
      ensures forall e :: e in entries ==> e.group == this
      ensures thrown <==> |old(tabs)| + |entries| == 0
      ensures tabs == BlockAfter(old(tabs), relativeTo, entries)
      ensures selected == old(selected) + old(ActiveOnes(entries))
      ensures effects == [BeginBatchMove] + GroupIdWrites(entries, uuid) +
                      (if thrown then [] else [MoveTabs(Ids(tabs), tabs[0].index), EndBatchMove, Resync])
      ensures active == old(active) && name == old(name)
    {
      var relativeIndex := IndexOf(tabs, relativeTo);
      var writes := InsertTabs(entries, relativeIndex);
      assert |tabs| == |old(tabs)| + |entries|;
      thrown := |tabs| == 0;
      var closing := if thrown then [] else [MoveTabs(Ids(tabs), tabs[0].index), EndBatchMove, Resync];
      effects := [BeginBatchMove] + writes + closing;
    }

    /** The first branch of appendTabs: load each entry at the end. */
    method LoadTabs(entries: seq<TabEntry>) returns (effects: seq<Effect>)
      modifies this`tabs, this`selected, entries`group
      ensures forall e :: e in entries ==> e.group == this
      ensures tabs == old(tabs) + entries
      ensures selected == old(selected) && active == old(active) && name == old(name)
      ensures effects == GroupIdWrites(entries, uuid)
    {
      effects := [];
      var i := 0;
      while i < |entries|
        invariant 0 <= i <= |entries|
        invariant tabs == old(tabs) + entries[..i]
        invariant selected == old(selected) && active == old(active) && name == old(name)
        invariant forall j :: 0 <= j < i ==> entries[j].group == this
        invariant effects == GroupIdWrites(entries[..i], uuid)
      {
        assert entries[..i + 1][..i] == entries[..i];
        LoadTab(entries[i]);
        effects := effects + [SetGroupId(entries[i].id, uuid)];
        i := i + 1;
      }
      assert entries[..|entries|] == entries;
    }

    /** The loop of appendTabs' second branch: splice the entries in, one by
        one, right after position `relativeIndex`, and select the active ones. */
    method InsertTabs(entries: seq<TabEntry>, relativeIndex: int) returns (effects: seq<Effect>)
      requires -1 <= relativeIndex < |tabs|
      modifies this`tabs, this`selected, entries`group
      ensures forall e :: e in entries ==> e.group == this
      ensures tabs == old(tabs)[..relativeIndex + 1] + entries + old(tabs)[relativeIndex + 1..]
      ensures selected == old(selected) + old(ActiveOnes(entries))
      ensures active == old(active) && name == old(name)
      ensures effects == GroupIdWrites(entries, uuid)
    {
      ghost var before := tabs[..relativeIndex + 1];
      ghost var after := tabs[relativeIndex + 1..];
      effects := [];
      var i := 0;
      while i < |entries|
        invariant 0 <= i <= |entries|
        invariant tabs == before + entries[..i] + after
        invariant selected == old(selected) + old(ActiveOnes(entries[..i]))
        invariant active == old(active) && name == old(name)
        invariant forall j :: 0 <= j < |entries| ==> entries[j].active == old(entries[j].active)
        invariant forall j :: 0 <= j < i ==> entries[j].group == this
        invariant effects == GroupIdWrites(entries[..i], uuid)
      {
        var entry := entries[i];
        ghost var done := entries[..i];
        assert entries[..i + 1] == done + [entry];
        assert old(ActiveOnes(done + [entry])) == old(ActiveOnes(done)) + (if entry.active then [entry] else []);
        GroupIdWritesSnoc(done, entry, uuid);
        InsertNext(entry, relativeIndex + i + 1, before, done, after);
        effects, i := effects + [SetGroupId(entry.id, uuid)], i + 1;
      }
      assert entries[..|entries|] == entries;
    }

    /** One step of that loop: the entry joins the group right after the
        entries `done` already spliced in after `before`. */
    method InsertNext(entry: TabEntry, at: nat, ghost before: seq<TabEntry>, ghost done: seq<TabEntry>, ghost after: seq<TabEntry>)
      requires tabs == before + done + after && at == |before| + |done|
      modifies this`tabs, this`selected, entry`group
      ensures entry.group == this && tabs == before + (done + [entry]) + after
      ensures selected == old(selected) + (if entry.active then [entry] else [])
      ensures active == old(active) && name == old(name) && entry.active == old(entry.active)
    {
      InsertAfterBlock(before, done, after, entry);
      InsertOne(entry, at);
    }

    /** One step of appendTabs' loop: the entry joins the group at position
        `at` and is selected when it is the active tab. */
    method InsertOne(entry: TabEntry, at: nat)
      requires at <= |tabs|
      modifies this`tabs, this`selected, entry`group
      ensures entry.group == this && tabs == InsertAt(old(tabs), at, entry)
      ensures selected == old(selected) + (if entry.active then [entry] else [])
      ensures active == old(active) && name == old(name) && entry.active == old(entry.active)
    {
      entry.group := this;
      tabs := InsertAt(tabs, at, entry);
      if entry.active {
        AddSelected(entry);
      }
    }

    /** _getCanonicalOrder: number the members up to `relativeTo`, then the new
        entries, then the remaining members, consecutively from 0. */
    method CanonicalOrder(entries: seq<TabEntry>, relativeTo: TabEntry?) returns (order: map<int, int>)
      ensures var k := if relativeTo == null then 0 else IndexOf(tabs, relativeTo) + 1;
        order == Ranks(tabs[..k] + entries + tabs[k..])
    {
      var members := tabs;
      var relativeIndex := if relativeTo == null then -1 else IndexOf(members, relativeTo);
      var count;
      order, count := RankRun(map[], 0, [], members[..relativeIndex + 1]);
      assert [] + members[..relativeIndex + 1] == members[..relativeIndex + 1];
      order, count := RankRun(order, count, members[..relativeIndex + 1], entries);
      order, count := RankRun(order, count, members[..relativeIndex + 1] + entries, members[relativeIndex + 1..]);
    }

    /** attachTab: sort the members by position and insert the entry before
        the first member whose index is at least `newPosition`. */
    method AttachTab(entry: TabEntry, newPosition: int) returns (e: Effect)
      modifies this`tabs, entry`group
      ensures entry.group == this && e == SetGroupId(entry.id, uuid)
      ensures tabs == old(var sorted := SortBy(tabs, Position);
        InsertAt(sorted, FirstAtOrAbove(sorted, newPosition), entry))
      ensures selected == old(selected) && active == old(active)
      ensures old(Valid()) && entry !in old(tabs) ==> Valid()
    {
      var sorted := SortBy(tabs, Position);
      ghost var slot := FirstAtOrAbove(sorted, newPosition);
      SortKeepsDistinct(tabs, entry);
      var i := FirstSlot(sorted, newPosition);
      assert i == slot;
      if Distinct(sorted) && entry !in sorted {
        InsertFreshKeepsDistinct(sorted, i, entry);
      }
      entry.group := this;
      tabs := InsertAt(sorted, i, entry);
      e := SetGroupId(entry.id, uuid);
    }

    /** repositionTab: sort by position, then move the member with id `tabId`
        to the slot of the first member whose index is at least `newPosition`
        (the splice runs on the list without the member). The member multiset is
        kept; without such a member only the sort happens; an empty group makes
        the source fail reading the last member. */
    method RepositionTab(tabId: int, newPosition: int) returns (thrown: bool)
      modifies this`tabs
      ensures thrown <==> |old(tabs)| == 0
      ensures multiset(tabs) == multiset(old(tabs))
      ensures tabs == old(MoveMember(SortBy(tabs, Position), tabId,
                                     FirstAtOrAbove(SortBy(tabs, Position), newPosition)))
      ensures selected == old(selected) && active == old(active)
      ensures old(Valid()) ==> Valid()
    {
      var sorted := SortBy(tabs, Position);
      ghost var slot := FirstAtOrAbove(sorted, newPosition);
      SortByPermutes(tabs, Position);
      var moved;
      moved, thrown := Reposition(sorted, tabId, newPosition);
      assert moved == MoveMember(sorted, tabId, slot);
      SubmultisetKeepsDistinct(tabs, moved);
      tabs := moved;
    }

    /** sortByPosition: order the members by cached index. */
    method SortByPosition()
      modifies this`tabs
      ensures tabs == old(SortBy(tabs, Position))
      ensures selected == old(selected) && active == old(active)
      ensures old(Valid()) ==> Valid()
    {
      SortByPermutes(tabs, Position);
      SubmultisetKeepsDistinct(tabs, SortBy(tabs, Position));
      tabs := SortBy(tabs, Position);
    }

    /** sortByKey: sort the members by `key`, then give the member at each
        position the index the member at that position had before, moving each
        in the browser inside a batch move, then resynchronise. The group keeps
        the set of window slots it occupied. */
    method SortByKey(key: SortKey) returns (effects: seq<Effect>)
      requires Valid()
      modifies this`tabs, tabs`index
      ensures tabs == old(SortBy(tabs, key)) && Valid()
      ensures Positions(tabs) == old(Positions(tabs))
      ensures effects == [BeginBatchMove] + Moves(Ids(tabs), old(Positions(tabs))) + [EndBatchMove, Resync]
    {
      var positions := Positions(tabs);
      ghost var sorted := SortBy(tabs, key);
      SortMembers(key);
      assert tabs == sorted && Distinct(tabs);
      var moves := AssignPositions(tabs, positions);
      assert tabs == sorted && Distinct(tabs);
      effects := [BeginBatchMove] + moves + [EndBatchMove, Resync];
    }

    /** The first step of sortByKey: Array.prototype.sort with the key's comparator. */
    method SortMembers(key: SortKey)
      requires Valid()
      modifies this`tabs
      ensures tabs == old(SortBy(tabs, key)) && Valid()
      ensures multiset(tabs) == multiset(old(tabs))
      ensures forall i :: 0 <= i < |tabs| ==> tabs[i] in old(tabs)
    {
      var sorted := SortBy(tabs, key);
      SortByPermutes(tabs, key);
      SubmultisetKeepsDistinct(tabs, sorted);
      tabs := sorted;
    }

    /** toggleActive: record whether the active tab is in this group and keep
        that tab selected while it is active. */
    method ToggleActive(tab: TabEntry, value: bool)
      modifies this`active, this`selected
      ensures active == value && tabs == old(tabs)
      ensures value ==> selected == old(selected) + [tab]
      ensures !value ==> selected == Without(old(selected), tab)
    {
      active := value;
      if value {
        AddSelected(tab);
      } else {
        RemoveSelected(tab);
      }
    }

    /** closeExcept: close every member but the one at `index`, in order. */
    method CloseExcept(index: int) returns (effects: seq<Effect>)
      modifies tabs`aboutToClose
      ensures effects == Closing(SkipAt(tabs, index))
      ensures forall j :: 0 <= j < |tabs| && j != index ==> tabs[j].aboutToClose
      ensures forall t :: t in tabs && t !in SkipAt(tabs, index) ==> t.aboutToClose == old(t.aboutToClose)
    {
      effects := CloseAll(SkipAt(tabs, index));
    }

    /** closeAbove: close the members before position `index`, in order. */
    method CloseAbove(index: int) returns (effects: seq<Effect>)
      requires index <= |tabs|
      modifies tabs`aboutToClose
      ensures effects == Closing(tabs[..if index > 0 then index else 0])
      ensures forall j :: 0 <= j < index ==> tabs[j].aboutToClose
      ensures forall t :: t in tabs && t !in tabs[..if index > 0 then index else 0]
                ==> t.aboutToClose == old(t.aboutToClose)
    {
      var run := tabs[..if index > 0 then index else 0];
      effects := CloseAll(run);
      assert forall j :: 0 <= j < index ==> tabs[j] == run[j];
    }

    /** closeBelow: close the members after position `index` (all for -1), in order. */
    method CloseBelow(index: int) returns (effects: seq<Effect>)
      requires index >= -1
      modifies tabs`aboutToClose
      ensures effects == if index + 1 <= |tabs| then Closing(tabs[index + 1..]) else []
      ensures forall j :: index < j < |tabs| ==> tabs[j].aboutToClose
      ensures forall t :: t in tabs && (index + 1 > |tabs| || t !in tabs[index + 1..])
                ==> t.aboutToClose == old(t.aboutToClose)
    {
      var run := if index + 1 <= |tabs| then tabs[index + 1..] else [];
      effects := CloseAll(run);
      assert forall j :: index < j < |tabs| ==> tabs[j] == run[j - index - 1];
    }

    /** removeTab: drop the entry's first occurrence, if any; the entry keeps
        its group field. */
    method RemoveTab(entry: TabEntry)
      modifies this`tabs
      ensures tabs == Without(old(tabs), entry)
      ensures selected == old(selected) && active == old(active) && name == old(name)
      ensures old(Valid()) ==> Valid()
    {
      ghost var rest := Without(tabs, entry);
      WithoutKeepsDistinct(tabs, entry);
      var index := IndexOf(tabs, entry);
      if index > -1 {
        tabs := RemoveAt(tabs, index);
      }
      assert tabs == rest;
    }

    /** updateName: an empty name is ignored; a group in a list asks it to save. */
    method UpdateName(newName: string) returns (effects: seq<Effect>)
      modifies this`name
      ensures name == (if newName != "" then newName else old(name))
      ensures effects == (if newName != "" && hasParent then [SaveStorage] else [])
    {
      effects := [];
      if newName != "" {
        name := newName;
        if hasParent {
          effects := [SaveStorage];
        }
      }
    }
  }

  /** The anchor of a shift-click on a group with members `s` and selection
      `sel`: the first selected entry's position, or the active member's
      (0 without one) when nothing is selected. */
  function ShiftAnchor(s: seq<TabEntry>, sel: seq<TabEntry>): (a: int)
    reads s`active
    ensures -1 <= a < |s| || (|s| == 0 && a == 0)
    ensures a == -1 <==> |sel| > 0 && sel[0] !in s
    ensures |sel| > 0 && a >= 0 ==> s[a] == sel[0]
  {
    if |sel| == 0 then (var a := ActiveIndex(s); if a > 0 then a else 0)
    else IndexOf(s, sel[0])
  }

  /** The ends of the closed range a shift-click on position `tabIndex` selects. */
  function ShiftLow(s: seq<TabEntry>, sel: seq<TabEntry>, tabIndex: int): int
    reads s`active
  {
    var a := ShiftAnchor(s, sel);
    if a < tabIndex then a else tabIndex
  }

  function ShiftHigh(s: seq<TabEntry>, sel: seq<TabEntry>, tabIndex: int): int
    reads s`active
  {
    var a := ShiftAnchor(s, sel);
    if a < tabIndex then tabIndex else a
  }

  function ActiveIndex(s: seq<TabEntry>): (i: int)
    reads s`active
    ensures -1 <= i < |s|
    ensures i == -1 <==> forall j :: 0 <= j < |s| ==> !s[j].active
    ensures 0 <= i ==> s[i].active && forall j :: 0 <= j < i ==> !s[j].active
  {
    if |s| == 0 then -1
    else if s[0].active then 0
    else
      var j := ActiveIndex(s[1..]);
      if j == -1 then -1 else j + 1
  }

  /** Map.set(id, rank) for each entry in turn: later duplicates win. */
  function Ranks(s: seq<TabEntry>): (m: map<int, int>)
  {
    if |s| == 0 then map[] else Ranks(s[..|s| - 1])[s[|s| - 1].id := |s| - 1]
  }

  lemma RanksAppend(s: seq<TabEntry>, x: TabEntry)
    ensures Ranks(s + [x]) == Ranks(s)[x.id := |s|]
  {
    assert (s + [x])[..|s|] == s;
  }

  /** One loop of _getCanonicalOrder: number the entries of `run` on from
      `count`, where `order` already numbers `listed`. */
  method RankRun(order: map<int, int>, count: nat, ghost listed: seq<TabEntry>, run: seq<TabEntry>)
    returns (next: map<int, int>, nextCount: nat)
    requires order == Ranks(listed) && count == |listed|
    ensures next == Ranks(listed + run) && nextCount == count + |run|
  {
    next := order;
    nextCount := count;
    var i := 0;
    assert listed + run[..0] == listed;
    while i < |run|
      invariant 0 <= i <= |run|
      invariant next == Ranks(listed + run[..i]) && nextCount == count + i
    {
      RanksAppend(listed + run[..i], run[i]);
      assert listed + run[..i + 1] == listed + run[..i] + [run[i]];
      next := next[run[i].id := nextCount];
      nextCount := nextCount + 1;
      i := i + 1;
    }
    assert run[..|run|] == run;
  }

  /** For entries with distinct ids the canonical order is each entry's position. */
  lemma {:induction false} RanksArePositions(s: seq<TabEntry>)
    requires forall i, j :: 0 <= i < j < |s| ==> s[i].id != s[j].id
    ensures forall k :: 0 <= k < |s| ==> s[k].id in Ranks(s) && Ranks(s)[s[k].id] == k
  {
    if |s| > 0 {
      RanksArePositions(s[..|s| - 1]);
    }
  }
}
