/** Specification of `setStatusForFilesWithUrl`: how a record's items follow
    the record's new status. The in-place method lives on the document class
    (FilePermissionDoc.FilePermission.SetStatusForFilesWithUrl). */
module StatusSync {
  import opened Types

  /** The item with its status set to `target`, when it has a file URL. */
  function Touch(it: Item, target: Status): Item
  {
    if it.fileUrl != "" then it.(childStatus := target) else it
  }

  /** Position of the first item already at `target`, or |items| if none is. */
  function FirstAtStatus(items: seq<Item>, target: Status): (k: nat)
    ensures k <= |items|
    ensures forall j :: 0 <= j < k ==> items[j].childStatus != target
    ensures k < |items| ==> items[k].childStatus == target
  {
    if items == [] then 0
    else if items[0].childStatus == target then 0
    else 1 + FirstAtStatus(items[1..], target)
  }

  /** The items after the loop of `setStatusForFilesWithUrl`: walk in table
      order, leave the rest alone as soon as an item is already at `target`,
      and otherwise set every item that has a file URL. */
  function SyncItems(items: seq<Item>, target: Status): (r: seq<Item>)
    ensures |r| == |items|
  {
    if items == [] then []
    else if items[0].childStatus == target then items
    else [Touch(items[0], target)] + SyncItems(items[1..], target)
  }

  /** A walk that touched every item before position `stop`, found none of
      them at the target, left the rest alone, and stopped at the end or at
      an item already at the target, has produced the sync. */
  lemma SyncItemsFromStop(items: seq<Item>, target: Status, walked: seq<Item>, stop: int)
    requires 0 <= stop <= |items| == |walked|
    requires forall k :: 0 <= k < stop ==> items[k].childStatus != target
    requires stop == |items| || items[stop].childStatus == target
    requires forall k :: 0 <= k < stop ==> walked[k] == Touch(items[k], target)
    requires forall k :: stop <= k < |items| ==> walked[k] == items[k]
    ensures walked == SyncItems(items, target)
  {
    var first := FirstAtStatus(items, target);
    assert first == stop;
    forall k | 0 <= k < |items|
      ensures walked[k] == SyncItems(items, target)[k]
    {
      SyncItemsAt(items, target, k);
    }
  }

  /** Pointwise meaning of the sync: items before the first one already at
      the target are touched, that item and everything after it is not. */
  lemma {:induction false} SyncItemsAt(items: seq<Item>, target: Status, k: int)
    requires 0 <= k < |items|
    ensures |SyncItems(items, target)| == |items|
    ensures SyncItems(items, target)[k] ==
              if k < FirstAtStatus(items, target) then Touch(items[k], target) else items[k]
  {
    if items[0].childStatus != target {
      if k > 0 {
        SyncItemsAt(items[1..], target, k - 1);
      } else if |items| > 1 {
        SyncItemsAt(items[1..], target, 0);
      } else {
        assert SyncItems(items[1..], target) == [];
      }
    }
  }

  /** The sync changes nothing but `childStatus`, and only to the target:
      after it, an item either equals its old self or is its old self at the
      target status with a non-empty file URL. */
  lemma SyncItemsOnlySetsTarget(items: seq<Item>, target: Status, k: int)
    requires 0 <= k < |items|
    ensures |SyncItems(items, target)| == |items|
    ensures var r := SyncItems(items, target)[k];
            r == items[k] ||
            (r == items[k].(childStatus := target) && items[k].fileUrl != "")
  {
    SyncItemsAt(items, target, k);
  }

  /** Running the sync a second time with the same target changes nothing. */
  lemma {:induction false} SyncItemsIdempotent(items: seq<Item>, target: Status)
    ensures SyncItems(SyncItems(items, target), target) == SyncItems(items, target)
  {
    if items != [] && items[0].childStatus != target {
      var rest := SyncItems(items[1..], target);
      var once := [Touch(items[0], target)] + rest;
      assert once[1..] == rest;
      if items[0].fileUrl == "" {
        SyncItemsIdempotent(items[1..], target);
      }
    }
  }
}
