/**
 * The `/api/resources` routes: the upload file filter and size limit, the list
 * query, upload (blob, then row, with the blob removed again when the row cannot
 * be saved), the download link, and delete (row lookup, blob removal whose error
 * is ignored, row deletion).
 */
module Resources {
  import opened Wrappers
  import opened Text
  import opened Lists
  import opened Schema
  import opened Database

  /** The extensions the upload filter lets through, compared after lower-casing. */
  const AllowedExtensions: seq<string> := [".pdf", ".docx", ".doc", ".pptx", ".ppt", ".xlsx", ".xls", ".txt", ".zip"]

  /** The upload size limit: 50 MB. */
  const MaxFileSize: nat := 50 * 1024 * 1024

  const Unavailable: string := "Database service unavailable"

  // ----- path.extname -----

  /** The path without its trailing `/` characters. */
  function TrimTrailingSlashes(p: string): (r: string)
    ensures r <= p
    ensures forall i :: |r| <= i < |p| ==> p[i] == '/'
    ensures r == [] || r[|r| - 1] != '/'
    decreases |p|
  {
    if p != [] && p[|p| - 1] == '/' then TrimTrailingSlashes(p[..|p| - 1]) else p
  }

  /**
   * POSIX `path.extname`: in the last path segment, the text from the last `.` on,
   * unless that dot opens the segment or the segment is `..`.
   */
  function ExtName(p: string): (e: string)
    ensures e == [] || (e[0] == '.' && '.' !in e[1..] && '/' !in e)
  {
    var base := AfterLast(TrimTrailingSlashes(p), '/');
    var tail := AfterLast(base, '.');
    if |tail| + 1 >= |base| || base == ".." then "" else "." + tail
  }

  /** A name `stem.ext` whose stem does not end the path segment has extension `.ext`. */
  lemma ExtNameOfFileName(stem: string, ext: string)
    requires stem != [] && stem[|stem| - 1] != '/'
    requires ext != [] && '.' !in ext && '/' !in ext
    ensures ExtName(stem + "." + ext) == "." + ext
  {
    var head := LastSegmentOfFileName(stem, ext);
    DotTail(head, ext);
    var base := head + "." + ext;
    assert |base| == |head| + 1 + |ext|;
    assert base != "..";
  }

  /** The last segment of `stem.ext` is the stem's last segment, which is not empty, followed by `.ext`. */
  lemma LastSegmentOfFileName(stem: string, ext: string) returns (head: string)
    requires stem != [] && stem[|stem| - 1] != '/'
    requires ext != [] && '/' !in ext
    ensures head != []
    ensures AfterLast(TrimTrailingSlashes(stem + "." + ext), '/') == head + "." + ext
  {
    var dotted := "." + ext;
    var name := stem + dotted;
    assert stem + "." + ext == name;
    assert name[|name| - 1] != '/' by {
      assert name[|name| - 1] == ext[|ext| - 1];
    }
    assert TrimTrailingSlashes(name) == name;
    head := AfterLast(stem, '/');
    assert '/' !in dotted;
    AfterLastAppend(stem, '/', dotted);
    assert head + "." + ext == head + dotted;
  }

  /** After a non-empty head, the text after the last dot of `head.ext` is `ext`. */
  lemma DotTail(head: string, ext: string)
    requires head != [] && ext != [] && '.' !in ext
    ensures AfterLast(head + "." + ext, '.') == ext
  {
    AfterLastIs(head + ".", '.', []);
    AfterLastAppend(head + ".", '.', ext);
  }

  /** A name without any dot has no extension. */
  lemma ExtNameWithoutDot(name: string)
    requires '.' !in name
    ensures ExtName(name) == ""
  {
    var base := AfterLast(TrimTrailingSlashes(name), '/');
    assert forall i :: 0 <= i < |base| ==> base[i] in name by {
      var t := TrimTrailingSlashes(name);
      forall i | 0 <= i < |base| ensures base[i] in name {
        assert base[i] == t[|t| - |base| + i] == name[|t| - |base| + i];
      }
    }
    AfterLastIs(base, '.', base);
  }

  // ----- fileFilter -----

  datatype Verdict = Accept | Reject(message: string)

  /** The verdict on a lower-cased extension. */
  function ExtensionVerdict(ext: string): Verdict {
    if ext in AllowedExtensions then Accept else Reject("File type " + ext + " is not allowed")
  }

  /** The upload filter: the lower-cased extension must be one of the allowed ones. */
  function FileFilter(originalName: string): Verdict {
    ExtensionVerdict(Lower(ExtName(originalName)))
  }

  /** For a name `stem.ext`, the filter accepts exactly the allowed extensions and otherwise names `.ext` in its error. */
  lemma FileFilterOfExtension(stem: string, ext: string)
    requires stem != [] && stem[|stem| - 1] != '/'
    requires ext != [] && '.' !in ext && '/' !in ext
    ensures FileFilter(stem + "." + ext) ==
      if Lower("." + ext) in AllowedExtensions then Accept
      else Reject("File type " + Lower("." + ext) + " is not allowed")
  {
    ExtNameOfFileName(stem, ext);
  }

  /** A name without a dot is refused, with an empty extension in the message. */
  lemma FileFilterRejectsDotless(name: string)
    requires '.' !in name
    ensures FileFilter(name) == Reject("File type  is not allowed")
  {
    ExtNameWithoutDot(name);
    assert Lower(ExtName(name)) == "";
    EmptyExtensionRejected();
  }

  lemma EmptyExtensionRejected()
    ensures ExtensionVerdict("") == Reject("File type  is not allowed")
  {
    assert "File type " + "" + " is not allowed" == "File type  is not allowed";
  }

  // ----- the storage key -----

  /** `semester-{n}/{timestamp}-{originalname}`. */
  function StoragePath(semester: nat, timestamp: nat, originalName: string): string {
    StoragePrefix + NatToString(semester) + "/" + NatToString(timestamp) + "-" + originalName
  }

  datatype StorageKey = StorageKey(semester: nat, timestamp: nat, originalName: string)

  /** A run of decimal digits, then `sep`: the number they spell and the text after `sep`. */
  function NumberThen(s: string, sep: char): Option<(nat, string)> {
    var digits := DigitRun(s, false);
    if digits == [] || |digits| == |s| || s[|digits|] != sep then None
    else Some((DigitsValue(digits, false), s[|digits| + 1..]))
  }

  /** A rendered number followed by a separator that is not a digit reads back as that number. */
  lemma NumberThenOfRendered(n: nat, sep: char, rest: string)
    requires !IsDigit(sep, false)
    ensures NumberThen(NatToString(n) + [sep] + rest, sep) == Some((n, rest))
  {
    var d := NatToString(n);
    var s := d + [sep] + rest;
    assert s == d + ([sep] + rest);
    DigitRunOfDigits(d, [sep] + rest, false);
    assert s[|d|] == sep;
    assert s[|d| + 1..] == rest;
    ValueOfNatToString(n);
  }

  const StoragePrefix: string := "semester-"

  /** Reads a storage key back: the prefix, the semester digits, `/`, the timestamp digits, `-`, and the name. */
  function ParseStoragePath(p: string): Option<StorageKey> {
    if |p| < |StoragePrefix| || p[..|StoragePrefix|] != StoragePrefix then None
    else
      match NumberThen(p[|StoragePrefix|..], '/')
      case None => None
      case Some((semester, rest)) =>
        match NumberThen(rest, '-')
        case None => None
        case Some((timestamp, name)) => Some(StorageKey(semester, timestamp, name))
  }

  /** The storage key keeps the semester, the timestamp and the original name, each recoverable. */
  lemma StoragePathRoundTrip(semester: nat, timestamp: nat, originalName: string)
    ensures ParseStoragePath(StoragePath(semester, timestamp, originalName)) == Some(StorageKey(semester, timestamp, originalName))
  {
    var p := StoragePath(semester, timestamp, originalName);
    var rest := NatToString(timestamp) + "-" + originalName;
    var afterPrefix := NatToString(semester) + "/" + rest;
    assert p == StoragePrefix + afterPrefix;
    assert p[..|StoragePrefix|] == StoragePrefix;
    assert p[|StoragePrefix|..] == afterPrefix;
    NumberThenOfRendered(semester, '/', rest);
    NumberThenOfRendered(timestamp, '-', originalName);
  }

  /** Two uploads get the same key only with the same semester, timestamp and name. */
  lemma StoragePathInjective(s1: nat, t1: nat, n1: string, s2: nat, t2: nat, n2: string)
    requires StoragePath(s1, t1, n1) == StoragePath(s2, t2, n2)
    ensures s1 == s2 && t1 == t2 && n1 == n2
  {
    StoragePathRoundTrip(s1, t1, n1);
    StoragePathRoundTrip(s2, t2, n2);
  }

  // ----- GET / -----

  /** The conditions the list route adds, one per truthy query parameter, in the order it adds them. */
  function ListQuery(semester: Option<string>, category: Option<string>, search: Option<string>): seq<ResourceCondition> {
    (if Truthy(semester) then [SemesterIs(ParseInt(semester.value))] else [])
    + (if Truthy(category) then [CategoryIs(category.value)] else [])
    + (if Truthy(search) then [TitleLike(search.value)] else [])
  }

  /** The rows a list query keeps. */
  ghost predicate Listed(r: ResourceRow, semester: Option<string>, category: Option<string>, search: Option<string>) {
    && (Truthy(semester) ==> ParseInt(semester.value) == Some(r.semester))
    && (Truthy(category) ==> r.category == category.value)
    && (Truthy(search) ==> TitleMatches(r.title, search.value))
  }

  /**
   * A list query returns exactly the rows meeting every supplied filter, each as
   * often as stored, newest first.
   */
  lemma ListSelects(rows: seq<ResourceRow>, semester: Option<string>, category: Option<string>, search: Option<string>)
    ensures var r := SelectResources(rows, ListQuery(semester, category, search));
      && (forall x :: x in r <==> x in rows && Listed(x, semester, category, search))
      && multiset(r) == multiset(Filter(rows, (x: ResourceRow) => Listed(x, semester, category, search)))
      && (forall i, j :: 0 <= i < j < |r| ==> r[i].createdAt >= r[j].createdAt)
  {
    var conds := ListQuery(semester, category, search);
    var keep := (x: ResourceRow) => forall c :: c in conds ==> ResourceSatisfies(x, c);
    var listed := (x: ResourceRow) => Listed(x, semester, category, search);
    forall x: ResourceRow ensures keep(x) == listed(x) {
      assert Truthy(semester) ==> SemesterIs(ParseInt(semester.value)) in conds;
      assert Truthy(category) ==> CategoryIs(category.value) in conds;
      assert Truthy(search) ==> TitleLike(search.value) in conds;
    }
    FilterCongruent(rows, keep, listed);
  }

  /** A row newer than every stored row comes first in an unfiltered list. */
  lemma NewestRowListedFirst(rows: seq<ResourceRow>, row: ResourceRow)
    requires forall r :: r in rows ==> r.createdAt < row.createdAt
    ensures |SelectResources(rows + [row], [])| > 0
    ensures SelectResources(rows + [row], [])[0] == row
  {
    NewestIsFirst(rows + [row], (r: ResourceRow) => forall c :: c in [] ==> ResourceSatisfies(r, c), (r: ResourceRow) => r.createdAt, row);
  }

  /** The query holds a `NaN` semester exactly when a semester text was given that does not read as a number. */
  lemma ListQueryNaN(semester: Option<string>, category: Option<string>, search: Option<string>)
    ensures ResourceQueryHasNaN(ListQuery(semester, category, search)) <==> Truthy(semester) && ParseInt(semester.value).None?
  {
    var conds := ListQuery(semester, category, search);
    if ResourceQueryHasNaN(conds) {
      var i :| 0 <= i < |conds| && conds[i] == SemesterIs(None);
      assert conds[i] in conds;
    }
    if Truthy(semester) && ParseInt(semester.value).None? {
      assert conds[0] == SemesterIs(None);
    }
  }

  /** `GET /api/resources`. */
  method List(store: Store?, semester: Option<string>, category: Option<string>, search: Option<string>, fault: Fault)
    returns (reply: Reply<seq<ResourceRow>>)
    ensures store == null ==> reply == Failure(503, Unavailable, None)
    ensures store != null && fault.Some? ==> reply == Failure(400, fault.value, None)
    ensures store != null && fault.None? && Truthy(semester) && ParseInt(semester.value).None? ==>
      reply == Failure(400, NaNQueryMessage, None)
    ensures store != null && fault.None? && !(Truthy(semester) && ParseInt(semester.value).None?) ==>
      reply == Success(200, SelectResources(store.resources, ListQuery(semester, category, search)))
  {
    if store == null {
      return Failure(503, Unavailable, None);
    }
    var conds := ListQuery(semester, category, search);
    ListQueryNaN(semester, category, search);
    var res := store.QueryResources(conds, fault);
    match res
    case Error(m) =>
      reply := Failure(400, m, None);
    case Ok(rows) =>
      reply := Success(200, rows);
  }

  // ----- POST /upload -----

  /** The file part of a multipart upload. */
  datatype UploadedFile = UploadedFile(originalName: string, mimeType: string, content: Bytes)

  /** A multipart upload: the optional file and the optional text fields. */
  datatype UploadForm = UploadForm(file: Option<UploadedFile>, title: Option<string>, semester: Option<string>, category: Option<string>)

  /** What the checks before any store call decide: go ahead with these values, or answer now. */
  datatype Admission = Admitted(title: string, semester: nat, file: UploadedFile, category: string) | Refused(status: nat, error: string)

  /**
   * The checks before any store call, in the order they run: the multipart filter
   * and size limit, the client check, then the handler's field checks.
   */
  function Admit(configured: bool, form: UploadForm): Admission
  {
    if form.file.Some? && FileFilter(form.file.value.originalName).Reject? then
      Refused(500, FileFilter(form.file.value.originalName).message)
    else if form.file.Some? && |form.file.value.content| > MaxFileSize then
      Refused(500, "File too large")
    else if !configured then
      Refused(503, Unavailable)
    else if form.file.None? then
      Refused(400, "No file provided")
    else if !Truthy(form.title) || !Truthy(form.semester) then
      Refused(400, "Title and semester are required")
    else
      match ParseInt(form.semester.value)
      case None => Refused(400, "Semester must be between 1 and 8")
      case Some(n) =>
        if n < 1 || n > 8 then Refused(400, "Semester must be between 1 and 8")
        else Admitted(form.title.value, n as nat, form.file.value, OrElse(form.category, "General"))
  }

  /** An admitted upload carries an accepted file within the size limit, the title, a semester from 1 to 8 read from its text, and the category or `General`. */
  lemma AdmittedForm(configured: bool, form: UploadForm)
    requires Admit(configured, form).Admitted?
    ensures var a := Admit(configured, form);
      && configured && form.file == Some(a.file)
      && FileFilter(a.file.originalName) == Accept && |a.file.content| <= MaxFileSize
      && Truthy(form.title) && a.title == form.title.value
      && Truthy(form.semester) && ParseInt(form.semester.value) == Some(a.semester as int)
      && 1 <= a.semester <= 8
      && a.category == OrElse(form.category, "General")
  {
    assert form.file.Some? && FileFilter(form.file.value.originalName) == Accept;
    assert |form.file.value.content| <= MaxFileSize && configured;
    assert Truthy(form.title) && Truthy(form.semester);
    var n := ParseInt(form.semester.value);
    assert n.Some? && 1 <= n.value <= 8;
    assert Admit(configured, form) == Admitted(form.title.value, n.value as nat, form.file.value, OrElse(form.category, "General"));
  }

  /** An acceptable file with a title and a semester text reading as 1 to 8 is admitted. */
  lemma AdmitAcceptsValidForm(form: UploadForm)
    requires form.file.Some? && FileFilter(form.file.value.originalName) == Accept
    requires |form.file.value.content| <= MaxFileSize
    requires Truthy(form.title) && Truthy(form.semester)
    requires ParseInt(form.semester.value).Some? && 1 <= ParseInt(form.semester.value).value <= 8
    ensures Admit(true, form).Admitted?
  {
    AdmitRefusesOnlyFor(true, form);
  }

  /** The checks refuse exactly for a missing or refused file, an oversized one, no store, or a missing or bad field. */
  lemma AdmitRefusesOnlyFor(configured: bool, form: UploadForm)
    ensures Admit(configured, form).Refused? <==>
      || form.file.None? || FileFilter(form.file.value.originalName).Reject? || |form.file.value.content| > MaxFileSize
      || !configured || !Truthy(form.title) || !Truthy(form.semester)
      || ParseInt(form.semester.value).None? || ParseInt(form.semester.value).value < 1 || ParseInt(form.semester.value).value > 8
  {
  }

  /** With an acceptable file, a missing title or semester, or a semester outside 1 to 8, is refused with 400. */
  lemma AdmitRefusesBadFields(form: UploadForm)
    requires form.file.Some? && FileFilter(form.file.value.originalName) == Accept
    requires |form.file.value.content| <= MaxFileSize
    requires !Truthy(form.title) || !Truthy(form.semester) || ParseInt(form.semester.value).None?
             || ParseInt(form.semester.value).value < 1 || ParseInt(form.semester.value).value > 8
    ensures Admit(true, form).Refused? && Admit(true, form).status == 400
  {
  }

  /** The semester the admin form offers, sent as its digit, passes the semester check. */
  lemma AdmitReadsFormSemester(n: nat, form: UploadForm)
    requires 1 <= n <= 8
    requires form.file.Some? && FileFilter(form.file.value.originalName) == Accept
    requires |form.file.value.content| <= MaxFileSize
    requires Truthy(form.title) && form.semester == Some(NatToString(n))
    ensures Admit(true, form).Admitted? && Admit(true, form).semester == n
  {
    ParseIntRoundTrip(n);
    assert ParseInt(form.semester.value) == Some(n);
    AdmitAcceptsValidForm(form);
    AdmittedForm(true, form);
  }

  /** The row an admitted upload inserts. */
  function UploadDraft(a: Admission, path: string): (d: ResourceDraft)
    requires a.Admitted?
    ensures d.fileUrl == path && d.fileName == a.file.originalName && d.fileSize == |a.file.content|
    ensures d.semester == a.semester && d.title == a.title && d.category == a.category && d.uploadedBy == None
  {
    ResourceDraft(a.title, path, a.file.originalName, |a.file.content|, a.semester, a.category, None)
  }

  /** The error `storage.upload` reports for `path`, given the blobs before the call. */
  function UploadError(blobs: map<string, Bytes>, path: string, fault: Fault): Option<string> {
    if fault.Some? then fault else if path in blobs then Some(DuplicateMessage) else None
  }

  /**
   * `POST /api/resources/upload` at time `now`. The faults say how the blob write,
   * the row insert and the compensating blob removal end.
   */
  method Upload(store: Store?, form: UploadForm, now: nat, blobFault: Fault, insertFault: Fault, rollbackFault: Fault)
    returns (reply: Reply<ResourceRow>)
    requires store != null ==> store.Valid() && store.EveryRowUploaded()
    modifies store
    ensures store != null ==> store.Valid() && store.EveryRowUploaded() && store.videos == old(store.videos)
    ensures Admit(store != null, form).Refused? ==>
      && reply == Failure(Admit(store != null, form).status, Admit(store != null, form).error, None)
      && (store != null ==> unchanged(store))
    ensures Admit(store != null, form).Admitted? ==> store != null && Stored(store, Admit(store != null, form), now, blobFault, insertFault, rollbackFault, reply)
  {
    var a := Admit(store != null, form);
    if a.Refused? {
      return Failure(a.status, a.error, None);
    }
    reply := Save(store, a, now, blobFault, insertFault, rollbackFault);
  }

  /**
   * What an admitted upload leaves behind: the blob write fails and nothing changes;
   * or the blob is written, the row insert fails, and the blob is removed again
   * unless that removal fails too; or the blob is written and its row appended.
   */
  twostate predicate Stored(store: Store, a: Admission, now: nat, blobFault: Fault, insertFault: Fault, rollbackFault: Fault, new reply: Reply<ResourceRow>)
    requires a.Admitted?
    reads store
  {
    var path := StoragePath(a.semester, now, a.file.originalName);
    var blobError := UploadError(old(store.blobs), path, blobFault);
    && store.videos == old(store.videos)
    && (blobError.Some? ==>
          && reply == Failure(500, "Failed to upload file to storage", blobError)
          && store.blobs == old(store.blobs) && store.resources == old(store.resources))
    && (blobError.None? && insertFault.Some? ==>
          && reply == Failure(500, "Failed to save resource metadata", insertFault)
          && store.resources == old(store.resources)
          && store.blobs == (if rollbackFault.None? then old(store.blobs) else old(store.blobs)[path := a.file.content]))
    && (blobError.None? && insertFault.None? ==>
          && reply == Success(201, UploadDraft(a, path).Stamp(old(store.nextId), old(store.clock)))
          && store.resources == old(store.resources) + [reply.body]
          && store.blobs == old(store.blobs)[path := a.file.content])
  }

  /** The store calls of an admitted upload: the blob, then the row, removing the blob again if the row fails. */
  method Save(store: Store, a: Admission, now: nat, blobFault: Fault, insertFault: Fault, rollbackFault: Fault)
    returns (reply: Reply<ResourceRow>)
    requires a.Admitted?
    requires store.Valid() && store.EveryRowUploaded()
    modifies store
    ensures store.Valid() && store.EveryRowUploaded()
    ensures Stored(store, a, now, blobFault, insertFault, rollbackFault, reply)
  {
    var path := StoragePath(a.semester, now, a.file.originalName);
    var uploadError := store.UploadBlob(path, a.file.content, blobFault);
    if uploadError.Some? {
      return Failure(500, "Failed to upload file to storage", uploadError);
    }
    var inserted := store.InsertResource(UploadDraft(a, path), insertFault);
    match inserted
    case Error(m) =>
      var _ := store.RemoveBlob(path, rollbackFault);
      assert old(store.blobs)[path := a.file.content] - {path} == old(store.blobs);
      reply := Failure(500, "Failed to save resource metadata", Some(m));
    case Ok(row) =>
      reply := Success(201, row);
  }

  // ----- GET /download/:id -----

  /** The answer of a download: a signed link and the name to save under. */
  datatype Link = Link(url: string, fileName: string)

  /**
   * `GET /api/resources/download/:id`. `signed` is the link the storage service
   * would mint for an existing blob, or `None` when minting fails.
   */
  method Download(store: Store?, id: RowId, fetchFault: Fault, signed: Option<string>) returns (reply: Reply<Link>)
    ensures store == null ==> reply == Failure(503, Unavailable, None)
    ensures store != null && (fetchFault.Some? || |ResourcesWithId(store.resources, id)| != 1) ==>
      reply == Failure(404, "Resource not found", None)
    ensures store != null && fetchFault.None? && |ResourcesWithId(store.resources, id)| == 1 ==>
      var row := ResourcesWithId(store.resources, id)[0];
      reply == if row.fileUrl in store.blobs && signed.Some? then Success(200, Link(signed.value, row.fileName))
               else Failure(500, "Failed to generate download URL", None)
  {
    if store == null {
      return Failure(503, Unavailable, None);
    }
    var found := store.FindResource(id, fetchFault);
    if found.Error? {
      return Failure(404, "Resource not found", None);
    }
    var row := found.value;
    if row.fileUrl in store.blobs && signed.Some? {
      reply := Success(200, Link(signed.value, row.fileName));
    } else {
      reply := Failure(500, "Failed to generate download URL", None);
    }
  }

  // ----- DELETE /:id -----

  /**
   * `DELETE /api/resources/:id`. The faults say how the row lookup, the blob
   * removal (whose error is only logged) and the row deletion end.
   */
  method Delete(store: Store?, id: RowId, fetchFault: Fault, removeFault: Fault, deleteFault: Fault) returns (reply: Reply<string>)
    requires store != null ==> store.Valid() && store.EveryRowUploaded()
    modifies store
    ensures store != null ==> store.Valid() && store.EveryRowUploaded() && store.videos == old(store.videos)
    ensures store == null ==> reply == Failure(503, Unavailable, None)
    ensures store != null && (fetchFault.Some? || |ResourcesWithId(old(store.resources), id)| != 1) ==>
      reply == Failure(404, "Resource not found", None) && unchanged(store)
    ensures store != null && fetchFault.None? && |ResourcesWithId(old(store.resources), id)| == 1 ==>
      var path := ResourcesWithId(old(store.resources), id)[0].fileUrl;
      && store.blobs == (if removeFault.None? then old(store.blobs) - {path} else old(store.blobs))
      && store.resources == (if deleteFault.None? then ResourcesWithoutId(old(store.resources), id) else old(store.resources))
      && reply == (if deleteFault.None? then Success(200, "Resource deleted successfully")
                   else Failure(500, "Failed to delete resource", None))
  {
    if store == null {
      return Failure(503, Unavailable, None);
    }
    var found := store.FindResource(id, fetchFault);
    if found.Error? {
      return Failure(404, "Resource not found", None);
    }
    var _ := store.RemoveBlob(found.value.fileUrl, removeFault);
    var deleteError := store.DeleteResources(id, deleteFault);
    if deleteError.Some? {
      reply := Failure(500, "Failed to delete resource", None);
    } else {
      reply := Success(200, "Resource deleted successfully");
    }
  }
}
