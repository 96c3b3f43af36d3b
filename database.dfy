/**
 * The hosted store the routes talk to: a bucket of blobs keyed by path and the
 * `resources` and `videos` tables. Every call takes a `fault`: `None` when the call
 * goes through, `Some(message)` when the store reports an error instead, in which
 * case nothing changes. The store assigns row ids and creation times itself.
 */
module Database {
  import opened Wrappers
  import opened Lists
  import opened Schema

  /** How a store call ends: `None` when it goes through, `Some(message)` when the store reports an error. */
  type Fault = Option<string>

  /** The error of an upload to a path that already holds a blob, with `upsert: false`. */
  const DuplicateMessage: string := "The resource already exists"

  /** The error of `.single()` when the query does not select exactly one row. */
  const NotSingleMessage: string := "JSON object requested, multiple (or no) rows returned"

  class Store {
    var blobs: map<string, Bytes>
    var resources: seq<ResourceRow>
    var videos: seq<VideoRow>
    var nextId: RowId
    var clock: nat
    /** Every path a blob write has ever succeeded at. */
    ghost var written: set<string>

    /** Ids and creation times already handed out lie below the counters; every blob was written. */
    ghost predicate Valid()
      reads this
    {
      && blobs.Keys <= written
      && (forall r :: r in resources ==> r.id < nextId && r.createdAt < clock)
      && (forall v :: v in videos ==> v.id < nextId && v.createdAt < clock)
    }

    /** No resource row without a successful blob write at its `file_url`. */
    ghost predicate EveryRowUploaded()
      reads this
    {
      forall r :: r in resources ==> r.fileUrl in written
    }

    constructor ()
      ensures Valid() && EveryRowUploaded()
      ensures blobs == map[] && resources == [] && videos == [] && written == {}
    {
      blobs := map[];
      resources := [];
      videos := [];
      nextId := 0;
      clock := 0;
      written := {};
    }

    /** `storage.upload(path, content, { upsert: false })`. */
    method UploadBlob(path: string, content: Bytes, fault: Fault) returns (err: Option<string>)
      requires Valid()
      modifies this`blobs, this`written
      ensures Valid()
      ensures err == if fault.Some? then fault else if path in old(blobs) then Some(DuplicateMessage) else None
      ensures blobs == if err.None? then old(blobs)[path := content] else old(blobs)
      ensures written == if err.None? then old(written) + {path} else old(written)
    {
      if fault.Some? {
        err := fault;
      } else if path in blobs {
        err := Some(DuplicateMessage);
      } else {
        blobs := blobs[path := content];
        written := written + {path};
        err := None;
      }
    }

    /** `storage.remove([path])`; a path with no blob is not an error. */
    method RemoveBlob(path: string, fault: Fault) returns (err: Option<string>)
      requires Valid()
      modifies this`blobs
      ensures Valid()
      ensures err == fault
      ensures blobs == if fault.None? then old(blobs) - {path} else old(blobs)
    {
      err := fault;
      if fault.None? {
        blobs := blobs - {path};
      }
    }

    /** `from('resources').insert(draft).select().single()`: the stored row, with a fresh id and the newest time. */
    method InsertResource(draft: ResourceDraft, fault: Fault) returns (res: Result<ResourceRow>)
      requires Valid()
      modifies this`resources, this`nextId, this`clock
      ensures Valid()
      ensures fault.Some? ==> res == Error(fault.value) && unchanged(this)
      ensures fault.None? ==> && res == Ok(draft.Stamp(old(nextId), old(clock)))
                              && resources == old(resources) + [res.value]
                              && nextId == old(nextId) + 1 && clock == old(clock) + 1
    {
      if fault.Some? {
        res := Error(fault.value);
      } else {
        var row := draft.Stamp(nextId, clock);
        resources := resources + [row];
        nextId := nextId + 1;
        clock := clock + 1;
        res := Ok(row);
      }
    }

    /** `from('resources').select(…).eq('id', id).single()`: the one row with that id, else an error. */
    method FindResource(id: RowId, fault: Fault) returns (res: Result<ResourceRow>)
      ensures fault.Some? ==> res == Error(fault.value)
      ensures fault.None? && |ResourcesWithId(resources, id)| == 1 ==> res == Ok(ResourcesWithId(resources, id)[0])
      ensures fault.None? && |ResourcesWithId(resources, id)| != 1 ==> res == Error(NotSingleMessage)
      ensures res.Ok? ==> res.value in resources && res.value.id == id
    {
      var found := ResourcesWithId(resources, id);
      if fault.Some? {
        res := Error(fault.value);
      } else if |found| == 1 {
        assert found[0] in found;
        res := Ok(found[0]);
      } else {
        res := Error(NotSingleMessage);
      }
    }

    /** `from('resources').delete().eq('id', id)`: every row with that id goes, the others stay in order. */
    method DeleteResources(id: RowId, fault: Fault) returns (err: Option<string>)
      requires Valid() && EveryRowUploaded()
      modifies this`resources
      ensures Valid() && EveryRowUploaded()
      ensures err == fault
      ensures resources == if fault.None? then ResourcesWithoutId(old(resources), id) else old(resources)
    {
      err := fault;
      if fault.None? {
        resources := ResourcesWithoutId(resources, id);
      }
    }

    /** A resource list query: the store rejects a `NaN` semester, otherwise it selects. */
    method QueryResources(conds: seq<ResourceCondition>, fault: Fault) returns (res: Result<seq<ResourceRow>>)
      ensures res == if fault.Some? then Error(fault.value)
                     else if ResourceQueryHasNaN(conds) then Error(NaNQueryMessage)
                     else Ok(SelectResources(resources, conds))
    {
      if fault.Some? {
        res := Error(fault.value);
      } else if ResourceQueryHasNaN(conds) {
        res := Error(NaNQueryMessage);
      } else {
        res := Ok(SelectResources(resources, conds));
      }
    }

    /** `from('videos').insert(draft).select().single()`. */
    method InsertVideo(draft: VideoDraft, fault: Fault) returns (res: Result<VideoRow>)
      requires Valid()
      modifies this`videos, this`nextId, this`clock
      ensures Valid()
      ensures fault.Some? ==> res == Error(fault.value) && unchanged(this)
      ensures fault.None? ==> && res == Ok(draft.Stamp(old(nextId), old(clock)))
                              && videos == old(videos) + [res.value]
                              && nextId == old(nextId) + 1 && clock == old(clock) + 1
    {
      if fault.Some? {
        res := Error(fault.value);
      } else {
        var row := draft.Stamp(nextId, clock);
        videos := videos + [row];
        nextId := nextId + 1;
        clock := clock + 1;
        res := Ok(row);
      }
    }

    /** `from('videos').delete().eq('id', id)`. */
    method DeleteVideos(id: RowId, fault: Fault) returns (err: Option<string>)
      requires Valid()
      modifies this`videos
      ensures Valid()
      ensures err == fault
      ensures videos == if fault.None? then VideosWithoutId(old(videos), id) else old(videos)
    {
      err := fault;
      if fault.None? {
        videos := VideosWithoutId(videos, id);
      }
    }

    /** A video list query. */
    method QueryVideos(conds: seq<VideoCondition>, fault: Fault) returns (res: Result<seq<VideoRow>>)
      ensures res == if fault.Some? then Error(fault.value)
                     else if VideoQueryHasNaN(conds) then Error(NaNQueryMessage)
                     else Ok(SelectVideos(videos, conds))
    {
      if fault.Some? {
        res := Error(fault.value);
      } else if VideoQueryHasNaN(conds) {
        res := Error(NaNQueryMessage);
      } else {
        res := Ok(SelectVideos(videos, conds));
      }
    }
  }
}
