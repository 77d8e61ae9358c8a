/** The stored File Permission records with their items, and the File View
    Log table, with the two module-level operations that write to them: the
    scheduled sweeper `auto_expire_drawings_by_date` and the web view gate
    `log_view_if_not_expired`. */
module PermissionStore {
  import opened Types
  import opened Expiry
  import opened ViewGate

  class Store {
    var permissions: seq<Record>
    var viewLog: seq<ViewLogEntry>

    constructor (permissions: seq<Record>)
      ensures this.permissions == permissions && viewLog == []
    {
      this.permissions := permissions;
      this.viewLog := [];
    }

    /** `auto_expire_drawings_by_date`: with `today` the current day, expire
        the qualifying items in one update, then expire every submitted
        Shared record whose items are all Expired. Nothing is written when no
        item qualifies; the view log is never touched. */
    method AutoExpireDrawingsByDate(today: int)
      modifies this`permissions
      ensures permissions == Sweep(old(permissions), today)
    {
      if !AnyQualifies(permissions, today) {
        return;
      }
      permissions := ExpireItems(permissions, today);
      var i := 0;
      while i < |permissions|
        invariant 0 <= i <= |permissions| == |old(permissions)|
        invariant forall k :: 0 <= k < i ==>
                    permissions[k] == CascadeRecord(ExpireItemsOf(old(permissions)[k], today))
        invariant forall k :: i <= k < |permissions| ==>
                    permissions[k] == ExpireItemsOf(old(permissions)[k], today)
      {
        var rec := permissions[i];
        if rec.status == Shared && rec.docstatus == 1 && AllExpired(rec.files) {
          permissions := permissions[i := rec.(status := Expired)];
        }
        i := i + 1;
      }
    }

    /** `log_view_if_not_expired`: append one log entry for `viewer` unless
        the item named `referenceName` is Expired. An unknown name fails (the
        Python code's unpacking of a missing row raises). Records are never
        changed: no view counter exists. */
    method LogViewIfNotExpired(referenceName: string, viewer: string) returns (r: Outcome<Error>)
      modifies this`viewLog
      ensures viewLog == LogAfterView(permissions, old(viewLog), referenceName, viewer)
      ensures r == if FindItem(permissions, referenceName).None?
                   then Fail(ItemNotFound(referenceName)) else Pass
    {
      match FindItem(permissions, referenceName)
      case None =>
        r := Fail(ItemNotFound(referenceName));
      case Some((parent, it)) =>
        r := Pass;
        if it.childStatus != Expired {
          viewLog := viewLog + [LogEntry(viewer, parent, referenceName)];
        }
    }
  }
}
