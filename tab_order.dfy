/** The index bookkeeping of the sidebar (sidebar/main.js): each cached tab
    entry remembers its 0-based position in the window, and the handlers of
    the browser's Moved, Created, Removed and Detached events adjust those
    cached positions with +1/-1 shifts instead of asking the browser again.

    Here the cache is the map from tab id to cached index, and the browser's
    authoritative tab order of the window is a sequence of tab ids. The
    functions state the shift arithmetic of the handlers; the lemmas show
    that it keeps the cache a permutation of 0..n-1 and that it agrees with
    the browser's own renumbering. */
module TabOrder {
  import opened Common

  // ----- the invariant -----

  /** The cached indices are exactly the positions of the host order:
      what the debugging helper verifyCache checks tab by tab. */
  ghost predicate Matches(idx: map<int, int>, order: seq<int>) {
    && (forall id :: id in idx ==> 0 <= idx[id] < |order| && order[idx[id]] == id)
    && (forall j :: 0 <= j < |order| ==> order[j] in idx && idx[order[j]] == j)
  }

  /** The cached indices are a permutation of 0..n-1, n the number of cached tabs. */
  ghost predicate IsPermutation(idx: map<int, int>) {
    && (forall id :: id in idx ==> 0 <= idx[id] < |idx|)
    && (forall a, b :: a in idx && b in idx && a != b ==> idx[a] != idx[b])
  }

  /** A host order whose positions match the cache lists every cached tab once,
      so the cache is a permutation of 0..n-1. */
  lemma {:induction false} MatchesIsPermutation(idx: map<int, int>, order: seq<int>)
    requires Matches(idx, order)
    ensures |idx| == |order|
    ensures IsPermutation(idx)
  {
    MatchesSize(idx, order);
  }

  lemma {:induction false} MatchesSize(idx: map<int, int>, order: seq<int>)
    requires Matches(idx, order)
    ensures |idx| == |order|
  {
    if |order| == 0 {
      assert forall id :: id !in idx.Keys;
      assert idx.Keys == {};
    } else {
      var n := |order|;
      var x := order[n - 1];
      var rest := idx - {x};
      var prefix := order[..n - 1];
      forall id | id in rest
        ensures 0 <= rest[id] < |prefix| && prefix[rest[id]] == id
      {
        assert idx[id] != n - 1;
      }
      forall j | 0 <= j < |prefix|
        ensures prefix[j] in rest && rest[prefix[j]] == j
      {
        assert prefix[j] != x;
      }
      MatchesSize(rest, prefix);
      assert rest.Keys == idx.Keys - {x};
    }
  }

  // ----- the browser's renumbering -----

  /** browser.tabs.move of the tab at `from` to `to`: the final position is `to`. */
  function HostMove(order: seq<int>, from: nat, to: nat): (r: seq<int>)
    requires from < |order| && to < |order|
    ensures |r| == |order|
  {
    InsertAt(RemoveAt(order, from), to, order[from])
  }

  /** A new tab appears at position `at`. */
  function HostInsert(order: seq<int>, at: nat, id: int): (r: seq<int>)
    requires at <= |order|
  {
    InsertAt(order, at, id)
  }

  /** The tab at position `at` is closed or leaves the window. */
  function HostRemove(order: seq<int>, at: nat): (r: seq<int>)
    requires at < |order|
  {
    RemoveAt(order, at)
  }

  // ----- the handlers' arithmetic -----

  /** onMoved's loop: every cached index in [min, max) moves by `increment`,
      with (min, max, increment) = (from, to + 1, -1) for a move to the right
      and (to, from, +1) otherwise. */
  function MoveShift(idx: map<int, int>, from: int, to: int): (r: map<int, int>)
    ensures r.Keys == idx.Keys
  {
    var lo := if to > from then from else to;
    var hi := if to > from then to + 1 else from;
    var inc := if to > from then -1 else 1;
    map id | id in idx :: if lo <= idx[id] < hi then idx[id] + inc else idx[id]
  }

  /** All of onMoved's index work: the shift, then the moved tab gets `to`. */
  function Moved(idx: map<int, int>, tabId: int, from: int, to: int): (r: map<int, int>)
  {
    MoveShift(idx, from, to)[tabId := to]
  }

  /** onCreated's loop: every cached index at or above `at` moves up by one. */
  function CreateShift(idx: map<int, int>, at: int): (r: map<int, int>)
    ensures r.Keys == idx.Keys
  {
    map id | id in idx :: if idx[id] >= at then idx[id] + 1 else idx[id]
  }

  /** All of onCreated's index work: the shift, then the new entry is cached. */
  function Created(idx: map<int, int>, tabId: int, at: int): (r: map<int, int>)
  {
    CreateShift(idx, at)[tabId := at]
  }

  /** _removeTab: the entry is deleted, then every remaining index at or above
      the removed tab's index moves down by one. */
  function Removed(idx: map<int, int>, tabId: int, at: int): (r: map<int, int>)
    ensures r.Keys == idx.Keys - {tabId}
  {
    map id | id in idx && id != tabId :: if idx[id] >= at then idx[id] - 1 else idx[id]
  }

  /** The shape all three loops share: every cached index in [lo, hi) moves
      by `inc`; `hi` is None for "at or above lo". */
  function Shift(idx: map<int, int>, lo: int, hi: Option<int>, inc: int): (r: map<int, int>)
    ensures r.Keys == idx.Keys
    ensures forall id :: id in idx && idx[id] < lo ==> r[id] == idx[id]
  {
    map id | id in idx :: ShiftOne(idx[id], lo, hi, inc)
  }

  /** One entry's step of the shared loop. */
  function ShiftOne(i: int, lo: int, hi: Option<int>, inc: int): int
  {
    if lo <= i && (hi.None? || i < hi.value) then i + inc else i
  }

  /** onMoved's loop is the shared shift with its (min, max, increment). */
  lemma MoveShiftIsShift(idx: map<int, int>, from: int, to: int)
    ensures MoveShift(idx, from, to) ==
      if to > from then Shift(idx, from, Some(to + 1), -1) else Shift(idx, to, Some(from), 1)
  {
    var m := MoveShift(idx, from, to);
    var s := if to > from then Shift(idx, from, Some(to + 1), -1) else Shift(idx, to, Some(from), 1);
    assert forall id :: id in idx ==> m[id] == s[id];
  }

  /** _removeTab shifts what is left after the deletion. */
  lemma RemovedIsShift(idx: map<int, int>, tabId: int, at: int)
    ensures Removed(idx, tabId, at) == Shift(idx - {tabId}, at, None, -1)
  {
  }

  /** onCreated's loop is the shared shift upwards from `at`. */
  lemma CreateShiftIsShift(idx: map<int, int>, at: int)
    ensures CreateShift(idx, at) == Shift(idx, at, None, 1)
  {
    var c := CreateShift(idx, at);
    var s := Shift(idx, at, None, 1);
    assert forall id :: id in idx ==> c[id] == s[id];
  }

  /** onMoved's index work: the moved tab is cached at `to`; every other
      tab below both positions or above both keeps its index, a move to the
      right takes one off each index in [from, to] and a move to the left
      adds one to each in [to, from). */
  lemma MovedSpec(idx: map<int, int>, tabId: int, from: int, to: int)
    ensures var r := Moved(idx, tabId, from, to);
      && r.Keys == idx.Keys + {tabId} && r[tabId] == to
      && (forall id :: id in idx && id != tabId && ((idx[id] < from && idx[id] < to) || (idx[id] > from && idx[id] > to)) ==>
            r[id] == idx[id])
      && (forall id :: id in idx && id != tabId && from < to && from <= idx[id] <= to ==> r[id] == idx[id] - 1)
      && (forall id :: id in idx && id != tabId && to <= idx[id] < from ==> r[id] == idx[id] + 1)
  {
  }

  /** onCreated's index work: the new tab is cached at `at`, every other tab
      below it keeps its index and every one at or above it moves up by one. */
  lemma CreatedSpec(idx: map<int, int>, tabId: int, at: int)
    ensures var r := Created(idx, tabId, at);
      && r.Keys == idx.Keys + {tabId} && r[tabId] == at
      && (forall id :: id in idx && id != tabId && idx[id] < at ==> r[id] == idx[id])
      && (forall id :: id in idx && id != tabId && idx[id] >= at ==> r[id] == idx[id] + 1)
  {
  }

  /** All of onCreated's index work is the shared shift, then the new entry. */
  lemma CreatedIsShift(idx: map<int, int>, tabId: int, at: int)
    ensures Created(idx, tabId, at) == Shift(idx, at, None, 1)[tabId := at]
  {
    CreateShiftIsShift(idx, at);
  }

  /** onAttached as written: the attached tab is cached at the position the
      browser reports, and no other cached index moves. */
  function Attached(idx: map<int, int>, tabId: int, at: int): (r: map<int, int>)
    ensures r.Keys == idx.Keys + {tabId} && r[tabId] == at
    ensures forall id :: id in idx && id != tabId ==> r[id] == idx[id]
  {
    idx[tabId := at]
  }

  /** A tab attached in front of the window's only tab: the browser moves
      that tab to position 1, the cache as written keeps it at 0, so two
      cached tabs share index 0 and the cache no longer matches the window. */
  lemma AttachedLosesMatch()
    ensures Matches(map[1 := 0], [1])
    ensures !Matches(Attached(map[1 := 0], 2, 0), HostInsert([1], 0, 2))
    ensures !IsPermutation(Attached(map[1 := 0], 2, 0))
  {
    var r := Attached(map[1 := 0], 2, 0);
    assert r[1] == 0 && r[2] == 0;
    assert HostInsert([1], 0, 2) == [2, 1];
  }

  // ----- the arithmetic keeps a permutation a permutation -----

  /** Moving a cached tab from its index `from` to a valid `to` leaves a
      permutation of 0..n-1: the tabs strictly between shift one step towards
      `from`, the moved tab gets `to`, all others keep their index. */
  lemma MovedKeepsPermutation(idx: map<int, int>, tabId: int, from: int, to: int)
    requires IsPermutation(idx)
    requires tabId in idx && idx[tabId] == from && 0 <= to < |idx|
    ensures Moved(idx, tabId, from, to).Keys == idx.Keys
    ensures IsPermutation(Moved(idx, tabId, from, to))
    ensures forall id :: id in idx && id != tabId ==>
      Moved(idx, tabId, from, to)[id] ==
        if from < idx[id] <= to then idx[id] - 1
        else if to <= idx[id] < from then idx[id] + 1
        else idx[id]
  {
    var r := Moved(idx, tabId, from, to);
    assert r.Keys == idx.Keys;
    forall id | id in idx && id != tabId
      ensures r[id] == if from < idx[id] <= to then idx[id] - 1
                       else if to <= idx[id] < from then idx[id] + 1
                       else idx[id]
    {
      assert idx[id] != from;
    }
    forall a, b | a in r && b in r && a != b
      ensures r[a] != r[b]
    {
      if a != tabId && b != tabId {
        assert idx[a] != from && idx[b] != from && idx[a] != idx[b];
      } else if a == tabId {
        assert idx[b] != from;
      } else {
        assert idx[a] != from;
      }
    }
    forall id | id in r
      ensures 0 <= r[id] < |r|
    {
      if id != tabId {
        assert idx[id] != from;
      }
    }
  }

  /** A creation at an index 0 <= at <= n of a tab not yet cached turns a
      permutation of 0..n-1 into one of 0..n. */
  lemma CreatedKeepsPermutation(idx: map<int, int>, tabId: int, at: int)
    requires IsPermutation(idx)
    requires tabId !in idx && 0 <= at <= |idx|
    ensures Created(idx, tabId, at).Keys == idx.Keys + {tabId}
    ensures |Created(idx, tabId, at)| == |idx| + 1
    ensures IsPermutation(Created(idx, tabId, at))
  {
    var r := Created(idx, tabId, at);
    assert r.Keys == idx.Keys + {tabId};
    assert |r| == |idx| + 1;
    forall a, b | a in r && b in r && a != b
      ensures r[a] != r[b]
    {
    }
  }

  /** Removing a cached tab turns a permutation of 0..n-1 into one of 0..n-2. */
  lemma RemovedKeepsPermutation(idx: map<int, int>, tabId: int)
    requires IsPermutation(idx) && tabId in idx
    ensures |Removed(idx, tabId, idx[tabId])| == |idx| - 1
    ensures IsPermutation(Removed(idx, tabId, idx[tabId]))
  {
    var at := idx[tabId];
    var r := Removed(idx, tabId, at);
    assert r.Keys == idx.Keys - {tabId};
    assert |r| == |idx| - 1;
    forall id | id in r
      ensures 0 <= r[id] < |r|
    {
      assert idx[id] != at;
    }
    forall a, b | a in r && b in r && a != b
      ensures r[a] != r[b]
    {
      assert idx[a] != at && idx[b] != at;
    }
  }

  // ----- the arithmetic is the browser's renumbering -----

  /** When the cache matches the host order, onMoved's arithmetic for a move
      the browser reports as (from, to) matches the order after the move. */
  lemma MovedMatchesHost(idx: map<int, int>, order: seq<int>, from: nat, to: nat)
    requires Matches(idx, order)
    requires from < |order| && to < |order|
    ensures Matches(Moved(idx, order[from], from, to), HostMove(order, from, to))
  {
    var x := order[from];
    var r := Moved(idx, x, from, to);
    var o := HostMove(order, from, to);
    forall j | 0 <= j < |o|
      ensures o[j] in r && r[o[j]] == j
    {
      HostMoveAt(order, from, to, j);
    }
    forall id | id in r
      ensures 0 <= r[id] < |o| && o[r[id]] == id
    {
      HostMoveAt(order, from, to, r[id]);
    }
  }

  /** Where the tab at each position of the moved order came from. */
  lemma HostMoveAt(order: seq<int>, from: nat, to: nat, j: nat)
    requires from < |order| && to < |order| && j < |order|
    ensures HostMove(order, from, to)[j] ==
      if j == to then order[from]
      else if from <= j < to then order[j + 1]
      else if to < j <= from then order[j - 1]
      else order[j]
  {
    var rest := RemoveAt(order, from);
    var o := HostMove(order, from, to);
    if j < to {
      assert o[j] == rest[j];
      if j >= from {
        assert rest[j] == order[j + 1];
      }
    } else if j > to {
      assert o[j] == rest[j - 1];
      if j - 1 >= from {
        assert rest[j - 1] == order[j];
      }
    }
  }

  /** When the cache matches the host order and a new tab appears at `at`,
      onCreated's arithmetic matches the order after the insertion. */
  lemma CreatedMatchesHost(idx: map<int, int>, order: seq<int>, tabId: int, at: nat)
    requires Matches(idx, order)
    requires tabId !in idx && at <= |order|
    ensures Matches(Created(idx, tabId, at), HostInsert(order, at, tabId))
  {
    var r := Created(idx, tabId, at);
    var o := HostInsert(order, at, tabId);
    forall j | 0 <= j < |o|
      ensures o[j] in r && r[o[j]] == j
    {
      if j < at {
        assert o[j] == order[j];
      } else if j > at {
        assert o[j] == order[j - 1];
      }
    }
    forall id | id in r
      ensures 0 <= r[id] < |o| && o[r[id]] == id
    {
      if id != tabId {
        var k := idx[id];
        if k >= at {
          assert o[k + 1] == order[k];
        } else {
          assert o[k] == order[k];
        }
      }
    }
  }

  /** When the cache matches the host order and the tab at `at` goes away,
      _removeTab's arithmetic matches the order after the removal. */
  lemma RemovedMatchesHost(idx: map<int, int>, order: seq<int>, at: nat)
    requires Matches(idx, order)
    requires at < |order|
    ensures Matches(Removed(idx, order[at], at), HostRemove(order, at))
  {
    var x := order[at];
    var r := Removed(idx, x, at);
    var o := HostRemove(order, at);
    forall j | 0 <= j < |o|
      ensures o[j] in r && r[o[j]] == j
    {
      if j < at {
        assert o[j] == order[j];
      } else {
        assert o[j] == order[j + 1];
      }
    }
    forall id | id in r
      ensures 0 <= r[id] < |o| && o[r[id]] == id
    {
      var k := idx[id];
      assert k != at;
      if k > at {
        assert o[k - 1] == order[k];
      } else {
        assert o[k] == order[k];
      }
    }
  }
}
