/** `loadItems` and `getUnknownBucket` of services/storageService.ts. The
    browser's storage and `JSON.parse` are outside the model: the loader is
    given what parsing the stored text produced. */
module StorageService {
  import opened Types
  import opened App

  /** What reading the storage key and parsing it yields. */
  datatype StoredValue =
    | NoValue                        // the key is unset or holds the empty string
    | Unparsable                     // `JSON.parse` throws
    | NotAList                       // parsed, but `parsed.find` is not a function
    | ItemList(items: seq<TrackItem>)

  const UnknownName: string := "Unknown / Idle"
  const UnknownDescription: string :=
    "Any activity that does not match specific projects. General browsing, desktop, or unrecognized apps."

  /** The reserved catch-all project. */
  function GetUnknownBucket(): (t: TrackItem)
    ensures t.id == UnknownId && t.isUnknown
    ensures t.name == UnknownName && t.description == UnknownDescription
    ensures t.totalTime == 0 && t.detectCount == 0 && t.lastActive == 0
    ensures t.history == [] && t.todos == Some([])
    ensures ConsistentItem(t) && PositiveItem(t)
  {
    TrackItem(UnknownId, UnknownName, UnknownDescription, None, None, None, None, None, None, None,
              None, None, Some([]), 0, 0, 0, [], true)
  }

  /** The collection `loadItems` returns, as a value. */
  function LoadedItems(stored: StoredValue): (r: seq<TrackItem>)
    ensures HasId(r, UnknownId)
    ensures stored.ItemList? ==> |stored.items| <= |r| <= |stored.items| + 1
    ensures stored.ItemList? ==> r[|r| - |stored.items|..] == stored.items
  {
    var bucket := [GetUnknownBucket()];
    assert bucket[0].id == UnknownId;
    match stored
    case ItemList(list) =>
      if HasId(list, UnknownId) then list
      else
        assert (bucket + list)[0].id == UnknownId;
        bucket + list
    case _ => bucket
  }

  /** `loadItems`: the parsed list gets the bucket put in front of it
      (`unshift`) when it lacks one; anything else falls back to a collection
      holding only the bucket. */
  method LoadItems(stored: StoredValue) returns (items: seq<TrackItem>)
    ensures items == LoadedItems(stored)
    ensures HasId(items, UnknownId)
    ensures stored.ItemList? && HasId(stored.items, UnknownId) ==> items == stored.items
    ensures stored.ItemList? && !HasId(stored.items, UnknownId) ==>
      |items| == |stored.items| + 1 && items[0] == GetUnknownBucket() && items[1..] == stored.items
    ensures !stored.ItemList? ==> items == [GetUnknownBucket()]
  {
    items := [GetUnknownBucket()];
    if stored.ItemList? {
      var parsed := stored.items;
      if FindById(parsed, UnknownId).None? {
        parsed := [GetUnknownBucket()] + parsed;
      }
      items := parsed;
      assert items[0].id == UnknownId || HasId(stored.items, UnknownId);
    } else {
      assert items[0].id == UnknownId;
    }
  }

  /** Loading keeps what the collection operations rely on: a consistent list
      loads as a consistent one, positive durations stay positive, and a list
      with unique ids loads as one holding exactly one Unknown bucket. */
  lemma {:induction false} LoadKeepsInvariants(stored: StoredValue)
    requires stored.ItemList? ==> Consistent(stored.items)
    ensures var r := LoadedItems(stored);
      && Consistent(r)
      && ((stored.ItemList? ==> PositiveDurations(stored.items)) ==> PositiveDurations(r))
    ensures var r := LoadedItems(stored);
      (stored.ItemList? ==> UniqueIds(stored.items)) ==>
        && UniqueIds(r)
        && (exists k :: 0 <= k < |r| && r[k].id == UnknownId
              && forall j :: 0 <= j < |r| && r[j].id == UnknownId ==> j == k)
  {
    var r := LoadedItems(stored);
    var b := GetUnknownBucket();
    if stored.ItemList? && !HasId(stored.items, UnknownId) {
      var list := stored.items;
      assert forall k :: 1 <= k < |r| ==> r[k] == list[k - 1];
      assert forall j :: 0 <= j < |r| && r[j].id == UnknownId ==> j == 0 by {
        forall j | 1 <= j < |r| ensures r[j].id != UnknownId {
          assert r[j] == list[j - 1];
        }
      }
      assert r[0].id == UnknownId;
    } else if stored.ItemList? {
      var k :| 0 <= k < |r| && r[k].id == UnknownId;
      if UniqueIds(stored.items) {
        assert forall j :: 0 <= j < |r| && r[j].id == UnknownId ==> j == k;
      }
    } else {
      assert r == [b];
      assert r[0].id == UnknownId;
    }
  }
}
