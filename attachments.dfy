/** `get_unique_file_urls_for_document`: the PDF and GLB files attached to a
    document, one per file name, preferring a private copy over a public
    one. The File table and the `allow_public_files` setting are parameters. */
module Attachments {
  import opened Types

  /** A row of the File table, with the columns the query reads and filters on. */
  datatype FileRow = FileRow(
    fileUrl: string,
    isPrivate: bool,
    attachedToDoctype: string,
    attachedToName: string,
    fileType: string)

  /** `url.split('/')[-1]`: the text after the last '/', or all of `url`
      when it has none. */
  function FileName(url: string): (r: string)
    ensures |r| <= |url|
    ensures forall k :: 0 <= k < |r| ==> r[k] != '/'
  {
    if url == [] then []
    else if url[|url| - 1] == '/' then []
    else FileName(url[..|url| - 1]) + [url[|url| - 1]]
  }

  /** The name is a suffix of the URL without '/', preceded by '/' unless it
      is the whole URL. */
  lemma {:induction false} FileNameSpec(url: string)
    ensures var r := FileName(url);
            |r| <= |url| && r == url[|url| - |r|..] &&
            (forall k :: 0 <= k < |r| ==> r[k] != '/') &&
            (|r| < |url| ==> url[|url| - |r| - 1] == '/')
  {
    if url != [] && url[|url| - 1] != '/' {
      var init, c := url[..|url| - 1], url[|url| - 1];
      FileNameSpec(init);
      var r0 := FileName(init);
      assert url == init + [c];
      assert FileName(url) == r0 + [c];
      assert url[|init| - |r0|..] == init[|init| - |r0|..] + [c];
      if |r0| < |init| {
        assert url[|init| - |r0| - 1] == init[|init| - |r0| - 1];
      }
    }
  }

  /** The filters of the query: private only unless public files are
      allowed, attached to the given document, and of type PDF or GLB. */
  predicate Wanted(f: FileRow, allowPublic: bool, fileDoctype: string, fileReference: string)
  {
    (allowPublic || f.isPrivate) &&
    f.attachedToDoctype == fileDoctype && f.attachedToName == fileReference &&
    (f.fileType == "PDF" || f.fileType == "GLB")
  }

  /** `frappe.db.get_all('File', filters, ...)`: the wanted rows, in the order
      of `table`, which stands for the File rows in the order the query
      returns them (the framework's sort order). */
  function Query(table: seq<FileRow>, allowPublic: bool, fileDoctype: string, fileReference: string)
    : (r: seq<FileRow>)
    ensures forall f :: f in r <==> f in table && Wanted(f, allowPublic, fileDoctype, fileReference)
  {
    if table == [] then []
    else
      var rest := Query(table[1..], allowPublic, fileDoctype, fileReference);
      assert forall f :: f in table <==> f == table[0] || f in table[1..];
      if Wanted(table[0], allowPublic, fileDoctype, fileReference) then [table[0]] + rest else rest
  }

  /** `r` is `t` with some rows left out, the rest in their order. */
  predicate SubsequenceOf(r: seq<FileRow>, t: seq<FileRow>)
  {
    if r == [] then true
    else if t == [] then false
    else (r[0] == t[0] && SubsequenceOf(r[1..], t[1..])) || SubsequenceOf(r, t[1..])
  }

  /** The query keeps the table's order: its rows are a subsequence of the
      table. */
  lemma {:induction false} QueryInOrder(table: seq<FileRow>, allowPublic: bool, fileDoctype: string,
                                        fileReference: string)
    ensures SubsequenceOf(Query(table, allowPublic, fileDoctype, fileReference), table)
  {
    if table != [] {
      var rr := Query(table[1..], allowPublic, fileDoctype, fileReference);
      QueryInOrder(table[1..], allowPublic, fileDoctype, fileReference);
      if Wanted(table[0], allowPublic, fileDoctype, fileReference) {
        var r := [table[0]] + rr;
        assert r[1..] == rr;
      } else if rr != [] {
        assert SubsequenceOf(rr, table[1..]);
      }
    }
  }

  function NameOf(f: FileRow): string
  {
    FileName(f.fileUrl)
  }

  /** The first file of `data` with name `n`. */
  function FirstNamed(data: seq<FileRow>, n: string): Option<FileRow>
  {
    if data == [] then None
    else
      var p := FirstNamed(data[..|data| - 1], n);
      if p.Some? then p
      else if NameOf(data[|data| - 1]) == n then Some(data[|data| - 1])
      else None
  }

  /** The last private file of `data` with name `n`. */
  function LastPrivateNamed(data: seq<FileRow>, n: string): (r: Option<FileRow>)
    ensures r.Some? ==> r.value in data && NameOf(r.value) == n && r.value.isPrivate
  {
    if data == [] then None
    else if NameOf(data[|data| - 1]) == n && data[|data| - 1].isPrivate then Some(data[|data| - 1])
    else LastPrivateNamed(data[..|data| - 1], n)
  }

  /** The copy kept for name `n`: the last private one if there is one,
      otherwise the first one. */
  function Preferred(data: seq<FileRow>, n: string): (p: Option<FileRow>)
    ensures p.Some? && !p.value.isPrivate ==> p == FirstNamed(data, n)
  {
    if LastPrivateNamed(data, n).Some? then LastPrivateNamed(data, n) else FirstNamed(data, n)
  }

  /** The distinct names of `data`, in order of first appearance. */
  function NamesInOrder(data: seq<FileRow>): (ns: seq<string>)
    ensures |ns| <= |data|
  {
    if data == [] then []
    else
      var ns := NamesInOrder(data[..|data| - 1]);
      if NameOf(data[|data| - 1]) in ns then ns else ns + [NameOf(data[|data| - 1])]
  }

  /** A name is listed exactly when some file carries it, and never twice. */
  lemma {:induction false} NamesInOrderSpec(data: seq<FileRow>)
    ensures forall n :: n in NamesInOrder(data) <==> FirstNamed(data, n).Some?
    ensures forall a, b :: 0 <= a < b < |NamesInOrder(data)| ==>
              NamesInOrder(data)[a] != NamesInOrder(data)[b]
  {
    if data != [] {
      NamesInOrderSpec(data[..|data| - 1]);
    }
  }

  /** The kept copy is one of the input files, carries the name, and is
      private exactly when some copy with that name is private. */
  lemma {:induction false} PreferredSpec(data: seq<FileRow>, n: string)
    ensures Preferred(data, n).Some? <==> FirstNamed(data, n).Some?
    ensures Preferred(data, n).Some? ==>
              Preferred(data, n).value in data && NameOf(Preferred(data, n).value) == n &&
              (Preferred(data, n).value.isPrivate <==>
                 exists f :: f in data && NameOf(f) == n && f.isPrivate)
  {
    if data != [] {
      var init := data[..|data| - 1];
      var last := data[|data| - 1];
      PreferredSpec(init, n);
      assert data == init + [last];
      assert forall f :: f in data <==> f in init || f == last;
      if LastPrivateNamed(data, n).None? {
        assert !(NameOf(last) == n && last.isPrivate);
        assert LastPrivateNamed(init, n).None?;
        LastPrivateNoneSpec(init, n);
        if FirstNamed(data, n).Some? {
          assert FirstNamed(data, n).value in data && NameOf(FirstNamed(data, n).value) == n;
          assert !FirstNamed(data, n).value.isPrivate by {
            if FirstNamed(data, n).value == last {
            } else {
              assert FirstNamed(data, n).value in init;
            }
          }
        }
      }
    }
  }

  /** How one more file changes the search for a name: it becomes the kept
      copy when it carries the name and is private or the first with that
      name; otherwise the kept copy stays. */
  lemma AppendStep(prev: seq<FileRow>, f: FileRow, n: string)
    ensures NamesInOrder(prev + [f]) ==
              if NameOf(f) in NamesInOrder(prev) then NamesInOrder(prev) else NamesInOrder(prev) + [NameOf(f)]
    ensures FirstNamed(prev + [f], n).Some? <==> FirstNamed(prev, n).Some? || NameOf(f) == n
    ensures Preferred(prev + [f], n) ==
              if NameOf(f) == n && (f.isPrivate || FirstNamed(prev, n).None?) then Some(f)
              else Preferred(prev, n)
  {
    var next := prev + [f];
    assert next[..|next| - 1] == prev && next[|next| - 1] == f;
    if FirstNamed(prev, n).None? {
      UnnamedHasNoPrivate(prev, n);
    }
  }

  /** The search for a name finds something whenever some file carries it. */
  lemma {:induction false} FirstNamedFinds(data: seq<FileRow>, f: FileRow)
    requires f in data
    ensures FirstNamed(data, NameOf(f)).Some?
  {
    var init := data[..|data| - 1];
    assert data == init + [data[|data| - 1]];
    if f != data[|data| - 1] {
      FirstNamedFinds(init, f);
    }
  }

  /** Every file's name is listed, so every distinct name gets an entry. */
  lemma EveryNameListed(data: seq<FileRow>, f: FileRow)
    requires f in data
    ensures NameOf(f) in NamesInOrder(data)
  {
    FirstNamedFinds(data, f);
    NamesInOrderSpec(data);
  }

  /** When no file carries name `n`, no private one does. */
  lemma {:induction false} UnnamedHasNoPrivate(data: seq<FileRow>, n: string)
    requires FirstNamed(data, n).None?
    ensures LastPrivateNamed(data, n).None?
  {
    if data != [] {
      UnnamedHasNoPrivate(data[..|data| - 1], n);
    }
  }

  /** No private copy is named `n` when the search for one finds nothing. */
  lemma {:induction false} LastPrivateNoneSpec(data: seq<FileRow>, n: string)
    requires LastPrivateNamed(data, n).None?
    ensures forall f :: f in data && NameOf(f) == n ==> !f.isPrivate
  {
    if data != [] {
      var init := data[..|data| - 1];
      LastPrivateNoneSpec(init, n);
      assert data == init + [data[|data| - 1]];
    }
  }

  /** The loop state of `get_unique_file_urls_for_document` after the files
      `seen`: the names in insertion order and, for each, the kept copy. */
  ghost predicate Tracks(seen: seq<FileRow>, names: seq<string>, unique: map<string, FileRow>)
  {
    names == NamesInOrder(seen) &&
    (forall n :: n in unique <==> n in names) &&
    (forall n :: n in unique <==> FirstNamed(seen, n).Some?) &&
    (forall n :: n in unique ==> Some(unique[n]) == Preferred(seen, n))
  }

  /** One pass of the loop keeps the loop state in step with the files seen. */
  lemma TracksStep(seen: seq<FileRow>, names: seq<string>, unique: map<string, FileRow>, f: FileRow)
    requires Tracks(seen, names, unique)
    ensures var name := NameOf(f);
            Tracks(seen + [f],
                   if name in unique then names else names + [name],
                   if name !in unique || f.isPrivate then unique[name := f] else unique)
  {
    forall n {
      AppendStep(seen, f, n);
    }
  }

  /** `get_unique_file_urls_for_document`: None when no file passes the
      filters; otherwise one file per distinct name, in order of each name's
      first appearance, the kept copy being the last private one with that
      name or, when there is none, the first one. */
  method GetUniqueFileUrlsForDocument(table: seq<FileRow>, allowPublic: bool,
                                      fileDoctype: string, fileReference: string)
    returns (r: Option<seq<FileRow>>)
    ensures var data := Query(table, allowPublic, fileDoctype, fileReference);
            r.None? <==> data == []
    ensures var data := Query(table, allowPublic, fileDoctype, fileReference);
            r.Some? ==>
              |r.value| == |NamesInOrder(data)| &&
              forall k :: 0 <= k < |r.value| ==> Some(r.value[k]) == Preferred(data, NamesInOrder(data)[k])
  {
    var data := Query(table, allowPublic, fileDoctype, fileReference);
    if data == [] {
      return None;
    }
    var names: seq<string> := [];
    var unique: map<string, FileRow> := map[];
    ghost var seen: seq<FileRow> := [];
    var i := 0;
    while i < |data|
      invariant 0 <= i <= |data|
      invariant seen == data[..i]
      invariant Tracks(seen, names, unique)
    {
      var file := data[i];
      var name := NameOf(file);
      TracksStep(seen, names, unique, file);
      if name !in unique || file.isPrivate {
        if name !in unique {
          names := names + [name];
        }
        unique := unique[name := file];
      }
      seen := seen + [file];
      i := i + 1;
    }
    assert data[..i] == data;
    r := Some(seq(|names|, k requires 0 <= k < |names| => unique[names[k]]));
  }

  /** Without public files allowed every returned file is private; every
      returned file is one of the File table's rows, and no two share a name. */
  lemma ResultIsPrivateDrawnAndUnique(table: seq<FileRow>, allowPublic: bool, fileDoctype: string,
                                      fileReference: string, result: seq<FileRow>)
    requires var data := Query(table, allowPublic, fileDoctype, fileReference);
             |result| == |NamesInOrder(data)| &&
             forall k :: 0 <= k < |result| ==> Some(result[k]) == Preferred(data, NamesInOrder(data)[k])
    ensures forall k :: 0 <= k < |result| ==> result[k] in table
    ensures !allowPublic ==> forall k :: 0 <= k < |result| ==> result[k].isPrivate
    ensures forall a, b :: 0 <= a < b < |result| ==> NameOf(result[a]) != NameOf(result[b])
  {
    var data := Query(table, allowPublic, fileDoctype, fileReference);
    var ns := NamesInOrder(data);
    NamesInOrderSpec(data);
    forall k | 0 <= k < |result|
      ensures result[k] in data && NameOf(result[k]) == ns[k]
    {
      PreferredSpec(data, ns[k]);
    }
  }
}
