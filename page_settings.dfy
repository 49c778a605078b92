/** The per-domain group assignments the add-on keeps in browser.storage.local:
    under the key "page:" + host name, a record naming the group the domain
    opens in and whether the confirmation page should never ask again. The
    background script reads and edits them, the popup writes them. */
module PageSettings {

  /** The stored record; a record written without `neverAsk` reads it as false. */
  datatype PageSetting = PageSetting(group: string, neverAsk: bool)

  /** The storage key of a domain. */
  function PageKey(hostname: string): (key: string)
    ensures |key| == |hostname| + 5 && key[5..] == hostname
  {
    "page:" + hostname
  }

  /** Different domains never share a key. */
  lemma PageKeyInjective(a: string, b: string)
    requires PageKey(a) == PageKey(b)
    ensures a == b
  {
    assert a == PageKey(a)[5..];
  }

  /** browser.storage.local.set of one record, or remove of one key. */
  datatype StorageEdit = StorageSet(key: string, value: PageSetting) | StorageRemove(key: string)

  /** The storage after the edits, in order: a key no edit names keeps its
      record (or its absence), and a named key ends as its last edit left it. */
  function Apply(storage: map<string, PageSetting>, edits: seq<StorageEdit>): (r: map<string, PageSetting>)
    ensures |edits| == 0 ==> r == storage
    ensures forall k :: (forall i :: 0 <= i < |edits| ==> edits[i].key != k) ==>
      (k in r <==> k in storage) && (k in storage ==> r[k] == storage[k])
    ensures forall i :: 0 <= i < |edits| && (forall j :: i < j < |edits| ==> edits[j].key != edits[i].key) ==>
      (edits[i].StorageSet? ==> edits[i].key in r && r[edits[i].key] == edits[i].value) &&
      (edits[i].StorageRemove? ==> edits[i].key !in r)
    decreases |edits|
  {
    if |edits| == 0 then storage
    else
      var next := match edits[0]
        case StorageSet(k, v) => storage[k := v]
        case StorageRemove(k) => storage - {k};
      Apply(next, edits[1..])
  }
}
