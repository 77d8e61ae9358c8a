/** The two read-only checks of the workflow: the duplicate-share check run
    by `before_save` (`isFileAlreadyShared`) and the submit validation
    (`validate_files_before_sharing`). Each reads the document and the
    stored records and either passes or throws. */
module SharingChecks {
  import opened Types

  /** A submitted, Shared record for the same user and file reference: the
      first query of the duplicate check. */
  predicate IsActiveShare(rec: Record, userReference: string, fileReference: string)
  {
    rec.userReference == userReference && rec.fileReference == fileReference &&
    rec.status == Shared && rec.docstatus == 1
  }

  /** A Shared, submitted item: the second query's item filter. */
  predicate IsSharedItem(it: Item)
  {
    it.childStatus == Shared && it.docstatus == 1
  }

  /** The first query: the names of the active shares in `db`. */
  function ActiveShareNames(db: seq<Record>, userReference: string, fileReference: string): set<string>
  {
    set i | 0 <= i < |db| && IsActiveShare(db[i], userReference, fileReference) :: db[i].name
  }

  /** The second query: the URLs of the Shared, submitted items whose parent
      record is named in `parents`. */
  function ItemUrlsOf(db: seq<Record>, parents: set<string>): set<string>
  {
    set i, j | 0 <= i < |db| && 0 <= j < |db[i].files| &&
               db[i].name in parents && IsSharedItem(db[i].files[j]) :: db[i].files[j].fileUrl
  }

  /** The URLs the duplicate check compares against: nothing when the first
      query finds no active share, otherwise the second query over the
      names it found. Every Shared, submitted item of an active share has
      its URL collected, and nothing is collected without an active share. */
  function SharedFileUrls(db: seq<Record>, userReference: string, fileReference: string): (urls: set<string>)
    ensures forall i, j ::
              0 <= i < |db| && 0 <= j < |db[i].files| &&
              IsActiveShare(db[i], userReference, fileReference) && IsSharedItem(db[i].files[j])
              ==> db[i].files[j].fileUrl in urls
    ensures (forall i :: 0 <= i < |db| ==> !IsActiveShare(db[i], userReference, fileReference)) ==>
              urls == {}
  {
    var names := ActiveShareNames(db, userReference, fileReference);
    assert forall i :: 0 <= i < |db| && IsActiveShare(db[i], userReference, fileReference) ==>
             db[i].name in names;
    if names == {} then {} else ItemUrlsOf(db, names)
  }

  /** With record names unique, as primary keys are, the two queries
      collect exactly the URLs of the Shared, submitted items of the active
      shares. */
  lemma SharedFileUrlsByPrimaryKey(db: seq<Record>, userReference: string, fileReference: string)
    requires forall i, k :: 0 <= i < |db| && 0 <= k < |db| && db[i].name == db[k].name ==> i == k
    ensures forall u :: u in SharedFileUrls(db, userReference, fileReference) <==>
              exists i, j :: 0 <= i < |db| && 0 <= j < |db[i].files| &&
                IsActiveShare(db[i], userReference, fileReference) &&
                IsSharedItem(db[i].files[j]) && db[i].files[j].fileUrl == u
  {
    var names := ActiveShareNames(db, userReference, fileReference);
    forall i | 0 <= i < |db| && db[i].name in names
      ensures IsActiveShare(db[i], userReference, fileReference)
    {
      var k :| 0 <= k < |db| && IsActiveShare(db[k], userReference, fileReference) && db[k].name == db[i].name;
    }
  }

  /** The first item, in table order, whose URL is in `urls`. */
  function FirstSharedFile(files: seq<Item>, urls: set<string>): (r: Option<nat>)
    ensures r.None? <==> forall j :: 0 <= j < |files| ==> files[j].fileUrl !in urls
    ensures r.Some? ==> r.value < |files| && files[r.value].fileUrl in urls &&
                        forall j :: 0 <= j < r.value ==> files[j].fileUrl !in urls
  {
    if files == [] then None
    else if files[0].fileUrl in urls then Some(0)
    else match FirstSharedFile(files[1..], urls)
      case None => None
      case Some(k) => Some(k + 1)
  }

  /** `isFileAlreadyShared`: fails exactly when some item is already shared
      with the same user for the same file reference, and then names the
      first such item in table order. */
  function DuplicateCheck(db: seq<Record>, userReference: string, fileReference: string,
                          files: seq<Item>): (r: Outcome<Error>)
    ensures var urls := SharedFileUrls(db, userReference, fileReference);
            r.Pass? <==> forall j :: 0 <= j < |files| ==> files[j].fileUrl !in urls
    ensures var urls := SharedFileUrls(db, userReference, fileReference);
            r.Fail? ==>
              exists k :: 0 <= k < |files| && files[k].fileUrl in urls &&
                r == Fail(DuplicateEntry(files[k].fileUrl)) &&
                forall j :: 0 <= j < k ==> files[j].fileUrl !in urls
  {
    match FirstSharedFile(files, SharedFileUrls(db, userReference, fileReference))
    case None => Pass
    case Some(k) => Fail(DuplicateEntry(files[k].fileUrl))
  }

  /** With no submitted Shared record for this user and file reference the
      check always passes (the early return at line 44 of `file_permission.py`). */
  lemma NoActiveShareNoDuplicate(db: seq<Record>, userReference: string, fileReference: string,
                                 files: seq<Item>)
    requires forall i :: 0 <= i < |db| ==> !IsActiveShare(db[i], userReference, fileReference)
    ensures DuplicateCheck(db, userReference, fileReference, files) == Pass
  {
    assert SharedFileUrls(db, userReference, fileReference) == {};
  }

  /** An item whose row check fails: no views allowed for a view-based
      share, or no expiration date for a date-based share. */
  predicate BadRow(it: Item)
  {
    (it.viewBasedSharing == 1 && it.viewsAllowed == 0) ||
    (it.dateBasedSharing == 1 && it.setExpirationDate.None?)
  }

  /** The error of a failing row; the views check comes first (`if`/`elif`). */
  function RowError(it: Item): Error
  {
    if it.viewBasedSharing == 1 && it.viewsAllowed == 0 then MissingViewsAllowed(it.idx)
    else MissingExpirationDate(it.idx)
  }

  /** The per-row loop: the error of the first failing row, in table order. */
  function CheckRows(files: seq<Item>): (r: Outcome<Error>)
    ensures r.Pass? <==> forall j :: 0 <= j < |files| ==> !BadRow(files[j])
    ensures r.Fail? ==> exists k :: 0 <= k < |files| && BadRow(files[k]) &&
                          r.error == RowError(files[k]) &&
                          forall j :: 0 <= j < k ==> !BadRow(files[j])
  {
    if files == [] then Pass
    else if BadRow(files[0]) then Fail(RowError(files[0]))
    else
      var r := CheckRows(files[1..]);
      assert forall j :: 1 <= j < |files| ==> files[j] == files[1..][j - 1];
      r
  }

  /** A Portal User row whose parent is the user reference, of the user's
      doctype, with a non-empty `user`. `portalUsers` maps (parent,
      parenttype) to the `user` field of that Portal User row. */
  predicate IsPortalUser(portalUsers: map<(string, string), string>,
                         userReference: string, userDoctype: string)
  {
    (userReference, userDoctype) in portalUsers && portalUsers[(userReference, userDoctype)] != ""
  }

  /** `validate_files_before_sharing`: the checks in the order `file_permission.py` makes them. */
  function ValidateBeforeSharing(userDoctype: string, userReference: string, files: seq<Item>,
                                 portalUsers: map<(string, string), string>): (r: Outcome<Error>)
    ensures r.Pass? <==>
              userReference != "" && IsPortalUser(portalUsers, userReference, userDoctype) &&
              |files| > 0 && forall j :: 0 <= j < |files| ==> !BadRow(files[j])
    ensures userReference == "" ==> r == Fail(MissingUserReference(userDoctype))
    ensures userReference != "" && !IsPortalUser(portalUsers, userReference, userDoctype) ==>
              r == Fail(NotPortalUser(userDoctype))
    ensures (userReference != "" && IsPortalUser(portalUsers, userReference, userDoctype) &&
             files == []) ==> r == Fail(NoFiles)
    ensures (userReference != "" && IsPortalUser(portalUsers, userReference, userDoctype) &&
             files != []) ==> r == CheckRows(files)
    ensures r.Fail? && r.error.MissingViewsAllowed? ==>
              exists k :: 0 <= k < |files| && files[k].idx == r.error.row &&
                files[k].viewBasedSharing == 1 && files[k].viewsAllowed == 0 &&
                forall j :: 0 <= j < k ==> !BadRow(files[j])
    ensures r.Fail? && r.error.MissingExpirationDate? ==>
              exists k :: 0 <= k < |files| && files[k].idx == r.error.row &&
                files[k].dateBasedSharing == 1 && files[k].setExpirationDate.None? &&
                !(files[k].viewBasedSharing == 1 && files[k].viewsAllowed == 0) &&
                forall j :: 0 <= j < k ==> !BadRow(files[j])
  {
    if userReference == "" then Fail(MissingUserReference(userDoctype))
    else if !IsPortalUser(portalUsers, userReference, userDoctype) then Fail(NotPortalUser(userDoctype))
    else if files == [] then Fail(NoFiles)
    else CheckRows(files)
  }
}
