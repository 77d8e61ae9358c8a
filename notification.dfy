/** The text of the mail `send_email_with_file_details` builds on submit.
    Date formatting and the site URL come from the framework and are
    parameters here; sending the mail is a value handed back to the caller. */
module Notification {
  import opened Types

  /** The mail as it would be passed to `frappe.sendmail`. */
  datatype Mail = Mail(recipients: seq<string>, subject: string, message: string)

  /** Decimal text of a non-negative number. */
  function NatToText(n: nat): (s: string)
    ensures |s| > 0
    ensures forall k :: 0 <= k < |s| ==> '0' <= s[k] <= '9'
    ensures |s| == 1 || s[0] != '0'
    decreases n
  {
    var d := ['0' + (n % 10) as char];
    if n < 10 then d else NatToText(n / 10) + d
  }

  /** The number a text of decimal digits spells. */
  function DigitsValue(s: string): nat
    requires forall k :: 0 <= k < |s| ==> '0' <= s[k] <= '9'
  {
    if s == [] then 0 else DigitsValue(s[..|s| - 1]) * 10 + (s[|s| - 1] - '0') as int
  }

  /** Reading the text back gives the number: the text is Python's `str(n)`
      and not some other string of digits. */
  lemma {:induction false} NatToTextRoundTrip(n: nat)
    ensures DigitsValue(NatToText(n)) == n
  {
    var s := NatToText(n);
    if n >= 10 {
      NatToTextRoundTrip(n / 10);
      assert s[..|s| - 1] == NatToText(n / 10);
    }
  }

  /** Python's `str` of an integer. */
  function IntToText(n: int): string
  {
    if n < 0 then "-" + NatToText(-n) else NatToText(n)
  }

  /** The four-way phrasing of one item's terms; `validTo` is the formatted
      expiration date. */
  function Terms(it: Item, validTo: string): (t: string)
    ensures |t| > 2 && t[..2] == ", "
    ensures t == ", available unlimited times" <==> it.dateBasedSharing != 1 && it.viewBasedSharing != 1
  {
    var count := IntToText(it.viewsAllowed);
    assert count[0] == '-' || '0' <= count[0] <= '9';
    var t :=
      if it.dateBasedSharing == 1 && it.viewBasedSharing == 1 then
        ", " + count + " views valid till " + validTo
      else if it.dateBasedSharing == 1 then ", valid till " + validTo
      else if it.viewBasedSharing == 1 then ", valid for " + count + " views"
      else ", available unlimited times";
    assert t[2] == 'a' <==> it.dateBasedSharing != 1 && it.viewBasedSharing != 1;
    t
  }

  /** One line of the mail: the file URL followed by its terms. */
  function ItemDetail(it: Item, formatDate: Option<int> -> string): string
  {
    "File: " + it.fileUrl + Terms(it, formatDate(it.setExpirationDate))
  }

  /** The phrasing mentions the date exactly for date-based items and the
      number of views exactly for view-based ones; an item with neither flag
      is unlimited. */
  lemma TermsCases(it: Item, validTo: string)
    ensures it.dateBasedSharing == 1 ==>
              Terms(it, validTo)[|Terms(it, validTo)| - |validTo|..] == validTo
    ensures it.dateBasedSharing != 1 && it.viewBasedSharing == 1 ==>
              Terms(it, validTo) == ", valid for " + IntToText(it.viewsAllowed) + " views"
    ensures it.dateBasedSharing != 1 && it.viewBasedSharing != 1 ==>
              Terms(it, validTo) == ", available unlimited times"
  {
    var t := Terms(it, validTo);
    if it.dateBasedSharing == 1 {
      var head := if it.viewBasedSharing == 1
                  then ", " + IntToText(it.viewsAllowed) + " views valid till "
                  else ", valid till ";
      assert t == head + validTo;
    }
  }

  /** `sep.join(parts)`. */
  function Join(parts: seq<string>, sep: string): string
  {
    if parts == [] then ""
    else if |parts| == 1 then parts[0]
    else parts[0] + sep + Join(parts[1..], sep)
  }

  /** The detail lines, one per item in table order. */
  function ItemDetails(files: seq<Item>, formatDate: Option<int> -> string): seq<string>
  {
    seq(|files|, k requires 0 <= k < |files| => ItemDetail(files[k], formatDate))
  }

  const Greeting: string := "Dear Supplier,<br><br>The following files have been shared with you:<br><br>"

  function Closing(siteUrl: string): string
  {
    "<br><br>To view these shared files, please <a href='https://" + siteUrl +
    "'>visit the supplier portal</a>.<br><br>Regards,<br>ERP Team"
  }

  /** The mail of `send_email_with_file_details`, with the date formatter
      `formatdate` supplied. Its message is the greeting, the detail lines
      joined by "<br>", and the closing; it goes to the record's address
      only, with the file reference in the subject. */
  function ComposeMail(emailId: string, fileReference: string, files: seq<Item>,
                       formatDate: Option<int> -> string, siteUrl: string): (m: Mail)
    ensures m.recipients == [emailId] && m.subject == "Files Shared for " + fileReference
    ensures |m.message| >= |Greeting| + |Closing(siteUrl)|
    ensures m.message[..|Greeting|] == Greeting
    ensures m.message[|m.message| - |Closing(siteUrl)|..] == Closing(siteUrl)
    ensures files == [] ==> m.message == Greeting + Closing(siteUrl)
  {
    var details := Join(ItemDetails(files, formatDate), "<br>");
    var message := Greeting + details + Closing(siteUrl);
    assert message == Greeting + (details + Closing(siteUrl));
    assert files == [] ==> details == [];
    Mail([emailId], "Files Shared for " + fileReference, message)
  }

  /** Where part `k` starts inside `Join(parts, sep)`. */
  function PartOffset(parts: seq<string>, sep: string, k: nat): nat
    requires k < |parts|
  {
    if k == 0 then 0 else |parts[0]| + |sep| + PartOffset(parts[1..], sep, k - 1)
  }

  /** Every part appears in the joined text at its offset. */
  lemma {:induction false} JoinContainsPart(parts: seq<string>, sep: string, k: nat)
    requires k < |parts|
    ensures PartOffset(parts, sep, k) + |parts[k]| <= |Join(parts, sep)|
    ensures Join(parts, sep)[PartOffset(parts, sep, k)..PartOffset(parts, sep, k) + |parts[k]|] == parts[k]
  {
    var j := Join(parts, sep);
    if |parts| == 1 {
      assert j == parts[0];
    } else {
      var rest := Join(parts[1..], sep);
      assert j == parts[0] + sep + rest;
      if k == 0 {
        assert j[..|parts[0]|] == parts[0];
      } else {
        JoinContainsPart(parts[1..], sep, k - 1);
        var off := PartOffset(parts[1..], sep, k - 1);
        var d := |parts[0]| + |sep|;
        assert j[d..] == rest;
        assert j[d + off..d + off + |parts[k]|] == rest[off..off + |parts[k]|];
      }
    }
  }

  /** `part` occurs in `text` starting at position `off`. */
  predicate OccursAt(text: string, part: string, off: int)
  {
    0 <= off && off + |part| <= |text| && text[off..off + |part|] == part
  }

  /** `part in text`, Python's substring test. */
  predicate Contains(text: string, part: string)
  {
    exists off :: 0 <= off <= |text| && OccursAt(text, part, off)
  }

  /** A text keeps what it contains when something is put around it. */
  lemma ContainsInContext(pre: string, body: string, post: string, part: string, off: int)
    requires OccursAt(body, part, off)
    ensures OccursAt(pre + body + post, part, |pre| + off)
  {
    var t := pre + body + post;
    assert t[|pre|..|pre| + |body|] == body;
    assert t[|pre| + off..|pre| + off + |part|] == body[off..off + |part|];
  }

  /** Each item's detail line, with its URL and its terms, appears in the
      message of the mail; the mail goes to the record's address only and
      names the file reference in its subject. */
  lemma ComposeMailMentionsEveryItem(emailId: string, fileReference: string, files: seq<Item>,
                                     formatDate: Option<int> -> string, siteUrl: string, k: nat)
    requires k < |files|
    ensures var m := ComposeMail(emailId, fileReference, files, formatDate, siteUrl);
            m.recipients == [emailId] && m.subject == "Files Shared for " + fileReference &&
            Contains(m.message, "File: " + files[k].fileUrl +
                                Terms(files[k], formatDate(files[k].setExpirationDate)))
  {
    var ds := ItemDetails(files, formatDate);
    JoinContainsPart(ds, "<br>", k);
    var off := PartOffset(ds, "<br>", k);
    ContainsInContext(Greeting, Join(ds, "<br>"), Closing(siteUrl), ds[k], off);
  }

  /** The mail as `file_permission.py` builds it: line 123 calls
      `formatdate`, a name the module never imports, once per item before
      any branch, so with at least one item the build stops with a
      NameError. With no items the loop body never runs and the mail is
      built; it is then the mail of the corrected build whatever date
      formatter that build is given. */
  function ComposeMailAsWritten(emailId: string, fileReference: string, files: seq<Item>,
                                siteUrl: string): (r: Result<Mail, Error>)
    ensures r.Ok? ==> forall fd :: r.value == ComposeMail(emailId, fileReference, files, fd, siteUrl)
    ensures r.Err? ==> r.error == NameNotDefined("formatdate") && |files| > 0
    ensures |files| > 0 ==> r == Err(NameNotDefined("formatdate"))
  {
    if |files| > 0 then Err(NameNotDefined("formatdate"))
    else Ok(Mail([emailId], "Files Shared for " + fileReference, Greeting + Closing(siteUrl)))
  }
}
