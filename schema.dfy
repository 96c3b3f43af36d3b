/**
 * The rows of the two catalogue tables, the conditions a list query can put on
 * them, the answer a route sends, and the selection the store performs for a list
 * query: the rows meeting every condition, newest first.
 */
module Schema {
  import opened Wrappers
  import opened Text
  import opened Lists

  type RowId = nat
  type Bytes = seq<bv8>

  /** A row of the `resources` table; `id` and `createdAt` are assigned by the store. */
  datatype ResourceRow = ResourceRow(
    id: RowId,
    title: string,
    fileUrl: string,
    fileName: string,
    fileSize: nat,
    semester: int,
    category: string,
    createdAt: nat,
    uploadedBy: Option<string>)

  /** The column values an upload inserts, before the store assigns `id` and `created_at`. */
  datatype ResourceDraft = ResourceDraft(
    title: string,
    fileUrl: string,
    fileName: string,
    fileSize: nat,
    semester: int,
    category: string,
    uploadedBy: Option<string>)
  {
    function Stamp(id: RowId, createdAt: nat): ResourceRow {
      ResourceRow(id, title, fileUrl, fileName, fileSize, semester, category, createdAt, uploadedBy)
    }
  }

  /**
   * A row of the `videos` table. `semester` is `None` when the inserted value was
   * `NaN`, which JSON sends as `null`.
   */
  datatype VideoRow = VideoRow(id: RowId, title: string, url: string, subject: string, semester: Option<int>, createdAt: nat)

  datatype VideoDraft = VideoDraft(title: string, url: string, subject: string, semester: Option<int>)
  {
    function Stamp(id: RowId, createdAt: nat): VideoRow {
      VideoRow(id, title, url, subject, semester, createdAt)
    }
  }

  /**
   * One `.eq`/`.ilike` condition of a resource list query. The semester value is
   * `parseInt` of the query text, so it may be `NaN` (`None`).
   */
  datatype ResourceCondition = SemesterIs(semester: Option<int>) | CategoryIs(category: string) | TitleLike(search: string)

  /** One condition of a video list query. */
  datatype VideoCondition = VideoSemesterIs(semester: Option<int>) | SubjectIs(subject: string) | VideoTitleLike(search: string)

  /** `ilike('title', '%search%')`, read as a case-insensitive substring test. */
  predicate TitleMatches(title: string, search: string) {
    IncludesIgnoringCase(title, search)
  }

  predicate ResourceSatisfies(r: ResourceRow, c: ResourceCondition) {
    match c
    case SemesterIs(n) => n == Some(r.semester)
    case CategoryIs(k) => r.category == k
    case TitleLike(q) => TitleMatches(r.title, q)
  }

  predicate VideoSatisfies(v: VideoRow, c: VideoCondition) {
    match c
    case VideoSemesterIs(n) => n.Some? && v.semester == n
    case SubjectIs(s) => v.subject == s
    case VideoTitleLike(q) => TitleMatches(v.title, q)
  }

  /** An integer column compared with `NaN`: the store rejects the query. */
  predicate ResourceQueryHasNaN(conds: seq<ResourceCondition>) {
    exists i :: 0 <= i < |conds| && conds[i] == SemesterIs(None)
  }

  predicate VideoQueryHasNaN(conds: seq<VideoCondition>) {
    exists i :: 0 <= i < |conds| && conds[i] == VideoSemesterIs(None)
  }

  /** The error text of an integer column compared with `NaN`. */
  const NaNQueryMessage: string := "invalid input syntax for type integer: \"NaN\""

  /** The rows of a resource query: those meeting every condition, newest first. */
  function SelectResources(rows: seq<ResourceRow>, conds: seq<ResourceCondition>): seq<ResourceRow> {
    NewestFirst(rows, (r: ResourceRow) => forall c :: c in conds ==> ResourceSatisfies(r, c), (r: ResourceRow) => r.createdAt)
  }

  function SelectVideos(rows: seq<VideoRow>, conds: seq<VideoCondition>): seq<VideoRow> {
    NewestFirst(rows, (v: VideoRow) => forall c :: c in conds ==> VideoSatisfies(v, c), (v: VideoRow) => v.createdAt)
  }

  /** The rows `.eq('id', id)` selects. */
  function ResourcesWithId(rows: seq<ResourceRow>, id: RowId): seq<ResourceRow> {
    Filter(rows, (r: ResourceRow) => r.id == id)
  }

  /** What `.delete().eq('id', id)` leaves behind. */
  function ResourcesWithoutId(rows: seq<ResourceRow>, id: RowId): seq<ResourceRow> {
    Filter(rows, (r: ResourceRow) => r.id != id)
  }

  function VideosWithoutId(rows: seq<VideoRow>, id: RowId): seq<VideoRow> {
    Filter(rows, (v: VideoRow) => v.id != id)
  }

  /** A route's answer: a status with a JSON body, or a status with `{ error, details }`. */
  datatype Reply<T> = Success(status: nat, body: T) | Failure(status: nat, error: string, details: Option<string>)
}
