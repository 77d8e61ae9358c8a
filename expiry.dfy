/** Specification of the scheduled sweeper `auto_expire_drawings_by_date`:
    a bulk update that expires the date-bound items past their date, then a
    cascade that expires every submitted Shared record whose items are all
    Expired. The in-place method is PermissionStore.Store.AutoExpireDrawingsByDate. */
module Expiry {
  import opened Types

  /** The item filter of the sweeper's first query: date-based, Shared,
      submitted, and an expiration date strictly before `today` (an unset
      date never compares as earlier). */
  predicate Qualifies(it: Item, today: int)
  {
    it.dateBasedSharing == 1 && it.childStatus == Shared && it.docstatus == 1 &&
    it.setExpirationDate.Some? && it.setExpirationDate.value < today
  }

  /** Some item of some record qualifies. */
  predicate AnyQualifies(recs: seq<Record>, today: int)
  {
    exists i, j :: 0 <= i < |recs| && 0 <= j < |recs[i].files| && Qualifies(recs[i].files[j], today)
  }

  function ExpireItem(it: Item, today: int): Item
  {
    if Qualifies(it, today) then it.(childStatus := Expired) else it
  }

  /** The bulk `set_value` on the qualifying items of one record. */
  function ExpireItemsOf(rec: Record, today: int): Record
  {
    rec.(files := seq(|rec.files|, j requires 0 <= j < |rec.files| => ExpireItem(rec.files[j], today)))
  }

  /** The bulk `set_value` over the whole item table. */
  function ExpireItems(recs: seq<Record>, today: int): seq<Record>
  {
    seq(|recs|, i requires 0 <= i < |recs| => ExpireItemsOf(recs[i], today))
  }

  /** Every item of the table is Expired (true of an empty table, as
      Python's `all([])`). */
  predicate AllExpired(files: seq<Item>)
  {
    forall j :: 0 <= j < |files| ==> files[j].childStatus == Expired
  }

  /** The cascade applied to one record. */
  function CascadeRecord(rec: Record): Record
  {
    if rec.status == Shared && rec.docstatus == 1 && AllExpired(rec.files)
    then rec.(status := Expired) else rec
  }

  /** The whole sweep: nothing at all when no item qualifies, otherwise the
      item update followed by the cascade over every record. */
  function Sweep(recs: seq<Record>, today: int): (r: seq<Record>)
    ensures |r| == |recs|
    ensures forall i :: 0 <= i < |recs| ==>
              r[i].name == recs[i].name && r[i].docstatus == recs[i].docstatus &&
              |r[i].files| == |recs[i].files|
  {
    if !AnyQualifies(recs, today) then recs
    else
      var expired := ExpireItems(recs, today);
      seq(|expired|, i requires 0 <= i < |expired| => CascadeRecord(expired[i]))
  }

  /** Item step: when some item qualifies, exactly the qualifying items
      become Expired and no other item changes; when none does, nothing in
      the store changes, records included. */
  lemma SweepItems(recs: seq<Record>, today: int, i: int, j: int)
    requires 0 <= i < |recs| && 0 <= j < |recs[i].files|
    ensures |Sweep(recs, today)[i].files| == |recs[i].files|
    ensures Sweep(recs, today)[i].files[j] ==
              if Qualifies(recs[i].files[j], today) then recs[i].files[j].(childStatus := Expired)
              else recs[i].files[j]
  {
    if AnyQualifies(recs, today) {
      var e := ExpireItems(recs, today);
      assert e[i].files[j] == ExpireItem(recs[i].files[j], today);
    } else {
      assert !Qualifies(recs[i].files[j], today);
    }
  }

  /** Cascade step: after a sweep that found something to expire, a record
      is Expired exactly when it already was, or it was submitted and Shared
      and all its items are Expired after the item step. Every field other
      than the status and the items' statuses is kept. */
  lemma SweepRecords(recs: seq<Record>, today: int, i: int)
    requires 0 <= i < |recs|
    requires AnyQualifies(recs, today)
    ensures var r := Sweep(recs, today)[i];
            r.files == ExpireItemsOf(recs[i], today).files &&
            r.(status := recs[i].status, files := recs[i].files) == recs[i]
    ensures var r := Sweep(recs, today)[i];
            r.status == if recs[i].status == Shared && recs[i].docstatus == 1 && AllExpired(r.files)
                        then Expired else recs[i].status
  {
  }

  /** When nothing qualifies the sweep is the identity. */
  lemma SweepNothingToExpire(recs: seq<Record>, today: int)
    requires forall i, j :: 0 <= i < |recs| && 0 <= j < |recs[i].files| ==>
               !Qualifies(recs[i].files[j], today)
    ensures Sweep(recs, today) == recs
  {
  }

  /** After a sweep no item qualifies any more. */
  lemma SweepLeavesNothingToExpire(recs: seq<Record>, today: int)
    ensures !AnyQualifies(Sweep(recs, today), today)
  {
    if AnyQualifies(recs, today) {
      var s := Sweep(recs, today);
      forall i, j | 0 <= i < |s| && 0 <= j < |s[i].files|
        ensures !Qualifies(s[i].files[j], today)
      {
        SweepItems(recs, today, i, j);
      }
    }
  }

  /** A second sweep with the same date changes nothing. */
  lemma SweepIdempotent(recs: seq<Record>, today: int)
    ensures Sweep(Sweep(recs, today), today) == Sweep(recs, today)
  {
    SweepLeavesNothingToExpire(recs, today);
  }

  /** A submitted Shared record with one item past its date and one that
      does not qualify and is not Expired (a later or unset date, or no
      date-based sharing) is still Shared after the sweep, with only the
      first item Expired. */
  lemma PartlyExpiredRecordStaysShared(past: Item, future: Item, rec: Record, today: int)
    requires Qualifies(past, today)
    requires !Qualifies(future, today) && future.childStatus != Expired
    requires rec.status == Shared && rec.docstatus == 1 && rec.files == [past, future]
    ensures Sweep([rec], today)[0].status == Shared
    ensures Sweep([rec], today)[0].files == [past.(childStatus := Expired), future]
  {
    assert Qualifies([rec][0].files[0], today);
    var e := ExpireItems([rec], today);
    assert e[0].files[1] == future;
  }
}
