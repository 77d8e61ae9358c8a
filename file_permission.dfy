/** The File Permission document and its lifecycle hooks: `before_save`,
    `before_submit` and `before_cancel`. The framework runs a hook before it
    writes the document; a hook that throws stops the write. Database reads
    are parameters: the stored records (`db`), the `item_name` of file
    references, the `email_id` of users and the Portal User table. */
module FilePermissionDoc {
  import opened Types
  import opened StatusSync
  import opened SharingChecks
  import opened Notification

  /** `frappe.db.get_value(...) or None`: a missing or empty value is "". */
  function LookupOrNone(table: map<(string, string), string>, key: (string, string)): string
  {
    if key in table then table[key] else ""
  }

  /** The items after a status sync that started with the record at `from`. */
  function SyncedFiles(files: seq<Item>, from: Status, target: Status): seq<Item>
  {
    if from == target then files else SyncItems(files, target)
  }

  /** The loop of `setStatusForFilesWithUrl` over the items: in table order,
      stop at the first item already at `target`, and otherwise set each item
      that has a file URL. */
  method WalkItems(files: seq<Item>, target: Status) returns (items: seq<Item>)
    ensures items == SyncItems(files, target)
  {
    items := files;
    var i := 0;
    while i < |items| && items[i].childStatus != target
      invariant 0 <= i <= |items| == |files|
      invariant forall k :: 0 <= k < i ==> files[k].childStatus != target
      invariant forall k :: 0 <= k < i ==> items[k] == Touch(files[k], target)
      invariant forall k :: i <= k < |items| ==> items[k] == files[k]
    {
      if items[i].fileUrl != "" {
        items := items[i := items[i].(childStatus := target)];
      }
      i := i + 1;
    }
    SyncItemsFromStop(files, target, items, i);
  }

  class FilePermission {
    var name: string
    var fileDoctype: string
    var fileReference: string
    var fileReferenceName: string
    var userDoctype: string
    var userReference: string
    var emailId: string
    var sendEmail: int
    var status: Status
    var docstatus: int
    var files: seq<Item>

    /** A new, unsaved document in Draft. */
    constructor (name: string, fileDoctype: string, fileReference: string,
                 userDoctype: string, userReference: string, sendEmail: int, files: seq<Item>)
      ensures this.name == name && this.fileDoctype == fileDoctype
      ensures this.fileReference == fileReference && this.fileReferenceName == ""
      ensures this.userDoctype == userDoctype && this.userReference == userReference
      ensures this.emailId == "" && this.sendEmail == sendEmail
      ensures this.status == Draft && this.docstatus == 0 && this.files == files
    {
      this.name := name;
      this.fileDoctype := fileDoctype;
      this.fileReference := fileReference;
      this.fileReferenceName := "";
      this.userDoctype := userDoctype;
      this.userReference := userReference;
      this.emailId := "";
      this.sendEmail := sendEmail;
      this.status := Draft;
      this.docstatus := 0;
      this.files := files;
    }

    /** `setStatusForFilesWithUrl`: nothing changes when the record already
        has `target`; otherwise the record takes `target` and the items
        follow in table order until one is found already at `target`. */
    method SetStatusForFilesWithUrl(target: Status)
      modifies this`status, this`files
      ensures status == target
      ensures files == SyncedFiles(old(files), old(status), target)
    {
      if status == target {
        return;
      }
      status := target;
      files := WalkItems(files, target);
    }

    /** `getFileRefName`. */
    method GetFileRefName(itemNames: map<(string, string), string>)
      modifies this`fileReferenceName
      ensures fileReferenceName ==
                if fileDoctype != "" && fileReference != ""
                then LookupOrNone(itemNames, (fileDoctype, fileReference))
                else old(fileReferenceName)
    {
      if fileDoctype != "" && fileReference != "" {
        fileReferenceName := LookupOrNone(itemNames, (fileDoctype, fileReference));
      }
    }

    /** `fetchEmailToSend`. */
    method FetchEmailToSend(emails: map<(string, string), string>)
      modifies this`emailId
      ensures emailId ==
                if userDoctype == "" || userReference == "" then old(emailId)
                else LookupOrNone(emails, (userDoctype, userReference))
    {
      if userDoctype == "" || userReference == "" {
        return;
      }
      emailId := LookupOrNone(emails, (userDoctype, userReference));
    }

    /** `before_save`: resolve the file reference's name, refuse a file
        already shared with the same user for the same reference, sync to
        Draft, then resolve the user's address. A refused save leaves status,
        items and address as they were. */
    method BeforeSave(db: seq<Record>, itemNames: map<(string, string), string>,
                      emails: map<(string, string), string>) returns (r: Outcome<Error>)
      modifies this`fileReferenceName, this`status, this`files, this`emailId
      ensures fileReferenceName ==
                if fileDoctype != "" && fileReference != ""
                then LookupOrNone(itemNames, (fileDoctype, fileReference))
                else old(fileReferenceName)
      ensures r == DuplicateCheck(db, userReference, fileReference, old(files))
      ensures r.Fail? ==> status == old(status) && files == old(files) && emailId == old(emailId)
      ensures r.Pass? ==> status == Draft && files == SyncedFiles(old(files), old(status), Draft)
      ensures r.Pass? ==>
                emailId == if userDoctype == "" || userReference == "" then old(emailId)
                           else LookupOrNone(emails, (userDoctype, userReference))
    {
      GetFileRefName(itemNames);
      r := DuplicateCheck(db, userReference, fileReference, files);
      if r.Fail? {
        return;
      }
      SetStatusForFilesWithUrl(Draft);
      FetchEmailToSend(emails);
    }

    /** `before_submit` with the date formatter supplied (see
        SubmitMailFailsAsWritten for `file_permission.py` as it stands): validate,
        sync to Shared, and compose the mail when an address is known and
        `send_email` is 1. A refused submit changes nothing and sends nothing. */
    method BeforeSubmit(portalUsers: map<(string, string), string>,
                        formatDate: Option<int> -> string, siteUrl: string)
      returns (r: Outcome<Error>, mail: Option<Mail>)
      modifies this`status, this`files
      ensures r == ValidateBeforeSharing(userDoctype, userReference, old(files), portalUsers)
      ensures r.Fail? ==> status == old(status) && files == old(files) && mail.None?
      ensures r.Pass? ==> status == Shared && files == SyncedFiles(old(files), old(status), Shared)
      ensures r.Pass? ==> (mail.Some? <==> emailId != "" && sendEmail == 1)
      ensures mail.Some? ==> mail.value == ComposeMail(emailId, fileReference, files, formatDate, siteUrl)
    {
      mail := None;
      r := ValidateBeforeSharing(userDoctype, userReference, files, portalUsers);
      if r.Fail? {
        return;
      }
      SetStatusForFilesWithUrl(Shared);
      if emailId != "" && sendEmail == 1 {
        mail := Some(ComposeMail(emailId, fileReference, files, formatDate, siteUrl));
      }
    }

    /** `before_cancel`: sync to Cancelled. */
    method BeforeCancel()
      modifies this`status, this`files
      ensures status == Cancelled
      ensures files == SyncedFiles(old(files), old(status), Cancelled)
    {
      SetStatusForFilesWithUrl(Cancelled);
    }
  }

  /** After a sync every item before the first one already at the target
      that has a file URL is at the target, and the sync keeps the number of
      items and leaves each item's other fields alone. */
  lemma SyncedFilesReachTarget(files: seq<Item>, from: Status, target: Status, k: int)
    requires 0 <= k < |files|
    requires from != target
    ensures |SyncedFiles(files, from, target)| == |files|
    ensures k < FirstAtStatus(files, target) && files[k].fileUrl != "" ==>
              SyncedFiles(files, from, target)[k].childStatus == target
    ensures k >= FirstAtStatus(files, target) || files[k].fileUrl == "" ==>
              SyncedFiles(files, from, target)[k] == files[k]
    ensures SyncedFiles(files, from, target)[k].(childStatus := files[k].childStatus) == files[k]
  {
    SyncItemsAt(files, target, k);
  }

  /** As `file_permission.py` stands, a submit that passes validation and has mail
      enabled always stops: the mail build reaches the missing `formatdate`
      because validation guarantees at least one item. */
  lemma SubmitMailFailsAsWritten(userDoctype: string, userReference: string, files: seq<Item>,
                                 portalUsers: map<(string, string), string>,
                                 emailId: string, sendEmail: int, fileReference: string,
                                 from: Status, siteUrl: string)
    requires ValidateBeforeSharing(userDoctype, userReference, files, portalUsers).Pass?
    requires emailId != "" && sendEmail == 1
    ensures ComposeMailAsWritten(emailId, fileReference, SyncedFiles(files, from, Shared), siteUrl)
              == Err(NameNotDefined("formatdate"))
  {
    if from != Shared {
      SyncItemsAt(files, Shared, 0);
    }
  }
}
