/** The records of the File Permission doctype and its child table
    (File Permission Item), the File View Log row, and the errors the
    workflow raises with `frappe.throw`.

    Conventions used throughout the model:
    - a Python `None` or empty string is the empty Dafny string "";
    - dates are integer day numbers, and a date field that may be unset
      is an `Option<int>`;
    - check-box fields stay integers, because `file_permission.py` compares them
      with `== 1`. */
module Types {

  datatype Option<T> = None | Some(value: T)

  /** A value, or the error that stopped its computation. */
  datatype Result<T, E> = Ok(value: T) | Err(error: E)

  /** Pass or fail with an error, for operations that only check or throw. */
  datatype Outcome<E> = Pass | Fail(error: E)

  /** The status strings of a record and of its items. `Unset` is an item
      whose `child_status` was never written. */
  datatype Status = Unset | Draft | Shared | Expired | Cancelled

  /** One row of the files table (File Permission Item). */
  datatype Item = Item(
    name: string,                  // row id, used by the view gate
    idx: int,                      // row number shown in error messages
    fileUrl: string,
    dateBasedSharing: int,
    setExpirationDate: Option<int>,
    viewBasedSharing: int,
    viewsAllowed: int,
    childStatus: Status,
    docstatus: int)

  /** A stored File Permission document with its items. */
  datatype Record = Record(
    name: string,
    status: Status,
    docstatus: int,
    userReference: string,
    fileReference: string,
    sendEmail: int,
    emailId: string,
    files: seq<Item>)

  /** One row of File View Log; `referenceDocument` is always "File Permission". */
  datatype ViewLogEntry = ViewLogEntry(
    viewedBy: string,
    referenceDocument: string,
    referenceName: string,
    childReferenceName: string)

  /** What `frappe.throw` reports, and the lookup failures of the view gate. */
  datatype Error =
    | DuplicateEntry(fileUrl: string)
    | MissingUserReference(userDoctype: string)
    | NotPortalUser(userDoctype: string)
    | NoFiles
    | MissingViewsAllowed(row: int)
    | MissingExpirationDate(row: int)
    | ItemNotFound(referenceName: string)
    | NameNotDefined(identifier: string)
}
