/** The item lookup of `log_view_if_not_expired`: the status and the parent
    record of a File Permission Item found by its row name. */
module ViewGate {
  import opened Types

  /** The item named `name` sits in record `i` at row `j`. */
  predicate ItemAt(recs: seq<Record>, name: string, i: int, j: int)
  {
    0 <= i < |recs| && 0 <= j < |recs[i].files| && recs[i].files[j].name == name
  }

  /** Row of the first item of `files` named `name`. */
  function RowOf(files: seq<Item>, name: string): (r: Option<nat>)
    ensures r.None? <==> forall j :: 0 <= j < |files| ==> files[j].name != name
    ensures r.Some? ==> r.value < |files| && files[r.value].name == name
  {
    if files == [] then None
    else if files[0].name == name then Some(0)
    else match RowOf(files[1..], name)
      case None => None
      case Some(k) => Some(k + 1)
  }

  /** `frappe.db.get_value('File Permission Item', name, ['child_status',
      'parent'])`: the parent record's name and the item, or None when no
      item has that name. */
  function FindItem(recs: seq<Record>, name: string): (r: Option<(string, Item)>)
    ensures r.None? <==> forall i, j :: 0 <= i < |recs| && 0 <= j < |recs[i].files| ==>
                           recs[i].files[j].name != name
    ensures r.Some? ==> exists i, j :: ItemAt(recs, name, i, j) &&
                          r.value == (recs[i].name, recs[i].files[j])
  {
    if recs == [] then None
    else match RowOf(recs[0].files, name)
      case Some(j) =>
        assert ItemAt(recs, name, 0, j);
        Some((recs[0].name, recs[0].files[j]))
      case None =>
        var r := FindItem(recs[1..], name);
        assert forall i, j :: 1 <= i < |recs| && 0 <= j < |recs[i].files| ==>
                 recs[i].files[j] == recs[1..][i - 1].files[j];
        if r.Some? then
          var i, j :| ItemAt(recs[1..], name, i, j) && r.value == (recs[1..][i].name, recs[1..][i].files[j]);
          assert ItemAt(recs, name, i + 1, j);
          r
        else r
  }

  /** The log row the gate writes for a view of item `name` of `parent`. */
  function LogEntry(viewer: string, parent: string, name: string): ViewLogEntry
  {
    ViewLogEntry(viewer, "File Permission", parent, name)
  }

  /** The log after the gate: one entry more exactly when the item exists
      and is not Expired (Draft and Cancelled items are logged too). */
  function LogAfterView(recs: seq<Record>, log: seq<ViewLogEntry>, name: string, viewer: string)
    : (r: seq<ViewLogEntry>)
    ensures |r| == |log| || |r| == |log| + 1
    ensures r[..|log|] == log
    ensures |r| == |log| + 1 <==>
              exists i, j :: ItemAt(recs, name, i, j) && recs[i].files[j].childStatus != Expired &&
                FindItem(recs, name) == Some((recs[i].name, recs[i].files[j]))
    ensures |r| == |log| + 1 ==>
              exists i, j :: ItemAt(recs, name, i, j) &&
                r[|log|] == LogEntry(viewer, recs[i].name, name)
  {
    match FindItem(recs, name)
    case Some((parent, it)) =>
      if it.childStatus != Expired then log + [LogEntry(viewer, parent, name)] else log
    case None => log
  }

  /** Row names are primary keys: no two items share one. */
  ghost predicate UniqueNames(recs: seq<Record>)
  {
    forall i, j, i', j' ::
      (0 <= i < |recs| && 0 <= j < |recs[i].files| && ItemAt(recs, recs[i].files[j].name, i', j'))
        ==> i == i' && j == j'
  }

  /** With unique row names, a view of an existing item is logged exactly
      when that item is not Expired, and the entry names the item's parent;
      a view of an unknown name is never logged. */
  lemma ViewLoggedUnlessExpired(recs: seq<Record>, log: seq<ViewLogEntry>, viewer: string,
                                i: int, j: int)
    requires UniqueNames(recs)
    requires 0 <= i < |recs| && 0 <= j < |recs[i].files|
    ensures var name := recs[i].files[j].name;
            var r := LogAfterView(recs, log, name, viewer);
            (r == log + [LogEntry(viewer, recs[i].name, name)] <==> recs[i].files[j].childStatus != Expired) &&
            (r == log <==> recs[i].files[j].childStatus == Expired)
  {
    var name := recs[i].files[j].name;
    var f := FindItem(recs, name);
    var i', j' :| ItemAt(recs, name, i', j') && f.value == (recs[i'].name, recs[i'].files[j']);
    assert i == i' && j == j';
  }
}
