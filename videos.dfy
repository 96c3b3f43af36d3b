/**
 * The `/api/videos` routes: the list query, registering a video's metadata after
 * checking that every field is present, and delete by id without looking the row
 * up first. The routes do not check that the store client exists: without one the
 * first store call throws and the route answers 500.
 */
module Videos {
  import opened Wrappers
  import opened Text
  import opened Lists
  import opened Schema
  import opened Database

  /** The message of the error thrown by a store call on a missing client. */
  const NullClientMessage: string := "Cannot read properties of null (reading 'from')"

  // ----- GET / -----

  /** The conditions the list route adds, one per truthy query parameter. */
  function VideoListQuery(semester: Option<string>, subject: Option<string>, search: Option<string>): seq<VideoCondition> {
    (if Truthy(semester) then [VideoSemesterIs(ParseInt(semester.value))] else [])
    + (if Truthy(subject) then [SubjectIs(subject.value)] else [])
    + (if Truthy(search) then [VideoTitleLike(search.value)] else [])
  }

  /** The rows a video list query keeps. */
  ghost predicate VideoListed(v: VideoRow, semester: Option<string>, subject: Option<string>, search: Option<string>) {
    && (Truthy(semester) ==> ParseInt(semester.value).Some? && v.semester == ParseInt(semester.value))
    && (Truthy(subject) ==> v.subject == subject.value)
    && (Truthy(search) ==> TitleMatches(v.title, search.value))
  }

  /**
   * A list query returns exactly the videos meeting every supplied filter, each as
   * often as stored, newest first.
   */
  lemma VideoListSelects(rows: seq<VideoRow>, semester: Option<string>, subject: Option<string>, search: Option<string>)
    ensures var r := SelectVideos(rows, VideoListQuery(semester, subject, search));
      && (forall x :: x in r <==> x in rows && VideoListed(x, semester, subject, search))
      && multiset(r) == multiset(Filter(rows, (x: VideoRow) => VideoListed(x, semester, subject, search)))
      && (forall i, j :: 0 <= i < j < |r| ==> r[i].createdAt >= r[j].createdAt)
  {
    var conds := VideoListQuery(semester, subject, search);
    var keep := (x: VideoRow) => forall c :: c in conds ==> VideoSatisfies(x, c);
    var listed := (x: VideoRow) => VideoListed(x, semester, subject, search);
    forall x: VideoRow ensures keep(x) == listed(x) {
      assert Truthy(semester) ==> VideoSemesterIs(ParseInt(semester.value)) in conds;
      assert Truthy(subject) ==> SubjectIs(subject.value) in conds;
      assert Truthy(search) ==> VideoTitleLike(search.value) in conds;
    }
    FilterCongruent(rows, keep, listed);
  }

  /** The query holds a `NaN` semester exactly when a semester text was given that does not read as a number. */
  lemma VideoListQueryNaN(semester: Option<string>, subject: Option<string>, search: Option<string>)
    ensures VideoQueryHasNaN(VideoListQuery(semester, subject, search)) <==> Truthy(semester) && ParseInt(semester.value).None?
  {
    var conds := VideoListQuery(semester, subject, search);
    if VideoQueryHasNaN(conds) {
      var i :| 0 <= i < |conds| && conds[i] == VideoSemesterIs(None);
      assert conds[i] in conds;
    }
    if Truthy(semester) && ParseInt(semester.value).None? {
      assert conds[0] == VideoSemesterIs(None);
    }
  }

  /** `GET /api/videos`; an empty store message falls back to a fixed text. */
  method List(store: Store?, semester: Option<string>, subject: Option<string>, search: Option<string>, fault: Fault)
    returns (reply: Reply<seq<VideoRow>>)
    ensures store == null ==> reply == Failure(500, NullClientMessage, None)
    ensures store != null && fault.Some? ==> reply == Failure(400, OrElse(fault, "Database query failed"), None)
    ensures store != null && fault.None? && Truthy(semester) && ParseInt(semester.value).None? ==>
      reply == Failure(400, NaNQueryMessage, None)
    ensures store != null && fault.None? && !(Truthy(semester) && ParseInt(semester.value).None?) ==>
      reply == Success(200, SelectVideos(store.videos, VideoListQuery(semester, subject, search)))
  {
    if store == null {
      return Failure(500, NullClientMessage, None);
    }
    var conds := VideoListQuery(semester, subject, search);
    VideoListQueryNaN(semester, subject, search);
    var res := store.QueryVideos(conds, fault);
    match res
    case Error(m) =>
      reply := Failure(400, OrElse(Some(m), "Database query failed"), None);
    case Ok(rows) =>
      reply := Success(200, rows);
  }

  // ----- POST / -----

  /** The JSON body of a registration. */
  datatype VideoForm = VideoForm(title: Option<string>, url: Option<string>, subject: Option<string>, semester: Option<string>)

  /** The row a registration inserts, when every field is present and not empty. */
  function VideoDraftOf(form: VideoForm): (d: Option<VideoDraft>)
    ensures d.Some? <==> Truthy(form.title) && Truthy(form.url) && Truthy(form.subject) && Truthy(form.semester)
    ensures d.Some? ==> && d.value.title == form.title.value && d.value.url == form.url.value
                        && d.value.subject == form.subject.value && d.value.semester == ParseInt(form.semester.value)
  {
    if !Truthy(form.title) || !Truthy(form.url) || !Truthy(form.subject) || !Truthy(form.semester) then None
    else Some(VideoDraft(form.title.value, form.url.value, form.subject.value, ParseInt(form.semester.value)))
  }

  /** Any number is stored as the semester: there is no range check. */
  lemma VideoSemesterUnchecked(form: VideoForm, n: nat)
    requires Truthy(form.title) && Truthy(form.url) && Truthy(form.subject)
    requires form.semester == Some(NatToString(n))
    ensures VideoDraftOf(form).Some? && VideoDraftOf(form).value.semester == Some(n)
  {
    ParseIntRoundTrip(n);
  }

  /** `POST /api/videos`. */
  method Create(store: Store?, form: VideoForm, fault: Fault) returns (reply: Reply<VideoRow>)
    requires store != null ==> store.Valid()
    modifies store
    ensures store != null ==> store.Valid() && store.resources == old(store.resources) && store.blobs == old(store.blobs)
    ensures store != null ==> store.written == old(store.written)
    ensures store != null && old(store.EveryRowUploaded()) ==> store.EveryRowUploaded()
    ensures VideoDraftOf(form).None? ==>
      reply == Failure(400, "All fields are required (title, url, subject, semester)", None) && (store != null ==> unchanged(store))
    ensures VideoDraftOf(form).Some? && store == null ==> reply == Failure(500, "Failed to register video", None)
    ensures VideoDraftOf(form).Some? && store != null && fault.Some? ==>
      reply == Failure(400, fault.value, None) && unchanged(store)
    ensures VideoDraftOf(form).Some? && store != null && fault.None? ==>
      && reply == Success(201, VideoDraftOf(form).value.Stamp(old(store.nextId), old(store.clock)))
      && store.videos == old(store.videos) + [reply.body]
  {
    var draft := VideoDraftOf(form);
    if draft.None? {
      return Failure(400, "All fields are required (title, url, subject, semester)", None);
    }
    if store == null {
      return Failure(500, "Failed to register video", None);
    }
    var inserted := store.InsertVideo(draft.value, fault);
    match inserted
    case Error(m) =>
      reply := Failure(400, m, None);
    case Ok(row) =>
      reply := Success(201, row);
  }

  // ----- DELETE /:id -----

  /** Deleting by id keeps exactly the other rows, in their order. */
  lemma DeleteKeepsOthers(rows: seq<VideoRow>, id: RowId)
    ensures forall v :: v in VideosWithoutId(rows, id) <==> v in rows && v.id != id
    ensures (forall v :: v in rows ==> v.id != id) ==> VideosWithoutId(rows, id) == rows
  {
    if forall v :: v in rows ==> v.id != id {
      FilterKeepsAll(rows, (v: VideoRow) => v.id != id);
    }
  }

  /** `DELETE /api/videos/:id`: there is no lookup first, so an unknown id also answers 200. */
  method Delete(store: Store?, id: RowId, fault: Fault) returns (reply: Reply<string>)
    requires store != null ==> store.Valid()
    modifies store
    ensures store != null ==> store.Valid() && store.resources == old(store.resources) && store.blobs == old(store.blobs)
    ensures store != null ==> store.written == old(store.written)
    ensures store != null && old(store.EveryRowUploaded()) ==> store.EveryRowUploaded()
    ensures store == null ==> reply == Failure(500, "Failed to delete video", None)
    ensures store != null && fault.Some? ==> reply == Failure(400, fault.value, None) && unchanged(store)
    ensures store != null && fault.None? ==>
      reply == Success(200, "Video removed from library") && store.videos == VideosWithoutId(old(store.videos), id)
  {
    if store == null {
      return Failure(500, "Failed to delete video", None);
    }
    var err := store.DeleteVideos(id, fault);
    if err.Some? {
      reply := Failure(400, err.value, None);
    } else {
      reply := Success(200, "Video removed from library");
    }
  }
}
