/**
 * The video library page: the search and semester filter over the fetched videos,
 * their grouping by semester and then by subject, the order in which semesters and
 * subjects are listed, the embed and thumbnail addresses derived from a video's URL,
 * and the player's state (the list, the active video, the loading flag).
 */
module VideoLibrary {
  import opened Wrappers
  import opened Text
  import opened Lists
  import opened Grouping

  /** A video as the page receives it; its semester is `null` when it was stored without one. */
  datatype Video = Video(id: nat, title: string, url: string, subject: string, semester: Option<int>)

  function SemesterKey(v: Video): Option<int> { v.semester }

  function SubjectKey(v: Video): string { v.subject }

  // ----- the filter -----

  /** The search is a case-insensitive substring of the title or the subject. */
  predicate MatchesSearch(v: Video, search: string) {
    IncludesIgnoringCase(v.title, search) || IncludesIgnoringCase(v.subject, search)
  }

  /**
   * Without a chosen semester every video passes; with one, only a video whose semester
   * equals its `parseInt`, so a choice that parses to `NaN` passes nothing.
   */
  predicate InChosenSemester(v: Video, filterSemester: Option<string>) {
    !Truthy(filterSemester) || (ParseInt(filterSemester.value).Some? && v.semester == ParseInt(filterSemester.value))
  }

  predicate Shown(v: Video, search: string, filterSemester: Option<string>) {
    MatchesSearch(v, search) && InChosenSemester(v, filterSemester)
  }

  function Filtered(vs: seq<Video>, search: string, filterSemester: Option<string>): seq<Video> {
    Filter(vs, v => Shown(v, search, filterSemester))
  }

  /** Choosing semester `n` shows exactly the matching videos of semester `n`. */
  lemma ChosenSemesterSelects(vs: seq<Video>, search: string, n: nat)
    ensures forall v :: v in Filtered(vs, search, Some(NatToString(n))) <==> v in vs && MatchesSearch(v, search) && v.semester == Some(n)
  {
    ParseIntRoundTrip(n);
  }

  /** "All Semesters" and an empty search show every video, in order. */
  lemma NoFilterShowsAll(vs: seq<Video>)
    ensures Filtered(vs, "", None) == vs
  {
    forall v | v in vs ensures Shown(v, "", None) {
      assert OccursAt(Lower(v.title), Lower(""), 0);
    }
    FilterKeepsAll(vs, v => Shown(v, "", None));
  }

  // ----- grouping by semester, then by subject -----

  /** The page's reduce: each video appended to the bucket of its subject inside the bucket of its semester. */
  function GroupBySemester(vs: seq<Video>): map<Option<int>, map<string, seq<Video>>>
    decreases |vs|
  {
    if vs == [] then map[]
    else
      var acc := GroupBySemester(vs[..|vs| - 1]);
      var v := vs[|vs| - 1];
      var inner := if v.semester in acc then acc[v.semester] else map[];
      acc[v.semester := inner[v.subject := (if v.subject in inner then inner[v.subject] else []) + [v]]]
  }

  /** The nested reduce is grouping by semester, then grouping each semester's videos by subject. */
  lemma {:induction false} GroupBySemesterIsNested(vs: seq<Video>)
    ensures GroupBySemester(vs).Keys == GroupBy(vs, SemesterKey).Keys
    ensures forall s :: s in GroupBySemester(vs) ==> GroupBySemester(vs)[s] == GroupBy(GroupBy(vs, SemesterKey)[s], SubjectKey)
    decreases |vs|
  {
    if vs != [] {
      var init := vs[..|vs| - 1];
      var v := vs[|vs| - 1];
      assert vs == init + [v];
      GroupBySemesterIsNested(init);
      GroupByAppend(init, v, SemesterKey);
      NestedStep(GroupBySemester(init), GroupBy(init, SemesterKey), v);
    }
  }

  /** One more video keeps the nested map equal to grouping each semester's videos by subject. */
  lemma NestedStep(acc: map<Option<int>, map<string, seq<Video>>>, outer: map<Option<int>, seq<Video>>, v: Video)
    requires acc.Keys == outer.Keys
    requires forall s :: s in acc ==> acc[s] == GroupBy(outer[s], SubjectKey)
    ensures var b := if v.semester in outer then outer[v.semester] else [];
      var inner := if v.semester in acc then acc[v.semester] else map[];
      var grouped := acc[v.semester := inner[v.subject := (if v.subject in inner then inner[v.subject] else []) + [v]]];
      && grouped.Keys == outer[v.semester := b + [v]].Keys
      && forall s :: s in grouped ==> grouped[s] == GroupBy(outer[v.semester := b + [v]][s], SubjectKey)
  {
    var b := if v.semester in outer then outer[v.semester] else [];
    GroupByAppend(b, v, SubjectKey);
  }

  /** A semester has a bucket exactly when a video of it is shown. */
  lemma SemesterBuckets(vs: seq<Video>)
    ensures forall s :: s in GroupBySemester(vs) <==> exists v :: v in vs && v.semester == s
  {
    GroupBySemesterIsNested(vs);
    GroupByPartition(vs, SemesterKey);
  }

  /** Inside a semester, a subject has a bucket exactly when a video of both is shown. */
  lemma SubjectBuckets(vs: seq<Video>, s: Option<int>)
    requires s in GroupBySemester(vs)
    ensures forall t :: t in GroupBySemester(vs)[s] <==> exists v :: v in vs && v.semester == s && v.subject == t
  {
    GroupBySemesterIsNested(vs);
    var bucket := GroupBy(vs, SemesterKey)[s];
    GroupByPartition(bucket, SubjectKey);
    forall v | v in vs && v.semester == s ensures v in bucket {
      GroupByExactlyOne(vs, SemesterKey, v);
    }
    forall v | v in bucket ensures v in vs && v.semester == s {
      GroupByPartition(vs, SemesterKey);
    }
  }

  /** The bucket of semester `s` and subject `t` holds exactly those videos, in the order they were fetched. */
  lemma SemesterSubjectBucket(vs: seq<Video>, s: Option<int>, t: string)
    requires s in GroupBySemester(vs) && t in GroupBySemester(vs)[s]
    ensures GroupBySemester(vs)[s][t] == Filter(vs, (v: Video) => v.semester == s && v.subject == t)
  {
    GroupBySemesterIsNested(vs);
    var inSemester := (v: Video) => v.semester == s;
    var onSubject := (v: Video) => v.subject == t;
    var both := (v: Video) => v.semester == s && v.subject == t;
    GroupByBucket(vs, SemesterKey, s, inSemester);
    GroupByBucket(GroupBy(vs, SemesterKey)[s], SubjectKey, t, onSubject);
    FilterFilter(vs, inSemester, onSubject, both);
    FilterCongruent(vs, both, (v: Video) => v.semester == s && v.subject == t);
  }

  // ----- the reduce as written, on plain objects -----

  /**
   * The reduce as written: semester keys are numbers or `"null"`, never inherited, but a
   * subject bucket is read from a fresh `{}`, so an inherited subject name throws.
   */
  function GroupBySemesterAsWritten(vs: seq<Video>): Option<map<Option<int>, map<string, seq<Video>>>>
    decreases |vs|
  {
    if vs == [] then Some(map[])
    else
      match GroupBySemesterAsWritten(vs[..|vs| - 1])
      case None => None
      case Some(acc) =>
        var v := vs[|vs| - 1];
        var inner := if v.semester in acc then acc[v.semester] else map[];
        if v.subject in InheritedNames then None
        else Some(acc[v.semester := inner[v.subject := (if v.subject in inner then inner[v.subject] else []) + [v]]])
  }

  /** The grouping as written throws exactly when a shown subject is an inherited name, and otherwise is `GroupBySemester`. */
  lemma {:induction false} GroupBySemesterAsWrittenAgrees(vs: seq<Video>)
    ensures GroupBySemesterAsWritten(vs).None? <==> exists v :: v in vs && v.subject in InheritedNames
    ensures GroupBySemesterAsWritten(vs).Some? ==> GroupBySemesterAsWritten(vs).value == GroupBySemester(vs)
    decreases |vs|
  {
    if vs != [] {
      var init := vs[..|vs| - 1];
      assert vs == init + [vs[|vs| - 1]];
      GroupBySemesterAsWrittenAgrees(init);
      if exists v :: v in init && v.subject in InheritedNames {
        var v :| v in init && v.subject in InheritedNames;
        assert v in vs;
      }
    }
  }

  /** A video filed under the subject `constructor` makes the library page throw. */
  lemma GroupBySemesterAsWrittenThrows()
    ensures GroupBySemesterAsWritten([Video(1, "Intro", "https://youtu.be/x", "constructor", Some(1))]) == None
  {
    var v := Video(1, "Intro", "https://youtu.be/x", "constructor", Some(1));
    assert [v][..0] == [];
  }

  // ----- listing order -----

  predicate Numbered(k: Option<int>) { k.Some? }

  predicate Unnumbered(k: Option<int>) { k.None? }

  function NumberOf(k: Option<int>): int { k.GetOr(0) }

  /**
   * `Object.keys(grouped).sort((a, b) => a - b)`: the numbered semesters in ascending
   * order, then the `"null"` bucket of videos without a semester, if any.
   */
  function SortedSemesters(vs: seq<Video>): seq<Option<int>> {
    var keys := KeysInOrder(vs, SemesterKey);
    AscendingNumbered(keys) + Filter(keys, Unnumbered)
  }

  /** Every semester bucket is listed, and nothing else. */
  lemma SortedSemestersMembers(vs: seq<Video>)
    ensures forall s :: s in SortedSemesters(vs) <==> s in GroupBySemester(vs)
  {
    var keys := KeysInOrder(vs, SemesterKey);
    KeysInOrderSpec(vs, SemesterKey);
    GroupBySemesterIsNested(vs);
    AscendingNumberedMembers(keys);
  }

  /** The numbered semester keys in ascending order. */
  function AscendingNumbered(keys: seq<Option<int>>): seq<Option<int>> {
    SortBy(Filter(keys, Numbered), NumberOf)
  }

  /** Only numbered keys are sorted, and each key is there exactly when it is in `keys` and numbered. */
  lemma AscendingNumberedMembers(keys: seq<Option<int>>)
    ensures forall k :: k in AscendingNumbered(keys) <==> k in keys && k.Some?
  {
    var numbered := Filter(keys, Numbered);
    var sorted := SortBy(numbered, NumberOf);
    assert sorted == AscendingNumbered(keys);
    forall k ensures k in sorted <==> k in keys && k.Some? {
      assert k in sorted <==> k in multiset(sorted);
      assert k in numbered <==> k in multiset(numbered);
      assert k in numbered <==> k in keys && Numbered(k);
    }
  }

  /** Distinct numbered keys come out strictly ascending. */
  lemma AscendingNumberedStrictly(keys: seq<Option<int>>)
    requires Distinct(keys)
    ensures Distinct(AscendingNumbered(keys))
    ensures forall i, j :: 0 <= i < j < |AscendingNumbered(keys)| ==>
      NumberOf(AscendingNumbered(keys)[i]) < NumberOf(AscendingNumbered(keys)[j])
  {
    var numbered := Filter(keys, Numbered);
    var sorted := AscendingNumbered(keys);
    AscendingNumberedMembers(keys);
    FilterDistinct(keys, Numbered);
    DistinctPermutation(numbered, sorted);
    forall i, j | 0 <= i < j < |sorted|
      ensures NumberOf(sorted[i]) < NumberOf(sorted[j])
    {
      assert sorted[i] in sorted && sorted[j] in sorted;
      assert NumberOf(sorted[i]) <= NumberOf(sorted[j]);
    }
  }

  /** Each semester is listed once; numbered ones strictly ascending and before the unnumbered one. */
  lemma SortedSemestersOrder(vs: seq<Video>)
    ensures Distinct(SortedSemesters(vs))
    ensures forall i, j :: 0 <= i < j < |SortedSemesters(vs)| && SortedSemesters(vs)[j].Some? ==>
      SortedSemesters(vs)[i].Some? && SortedSemesters(vs)[i].value < SortedSemesters(vs)[j].value
  {
    var keys := KeysInOrder(vs, SemesterKey);
    KeysInOrderSpec(vs, SemesterKey);
    AscendingNumberedMembers(keys);
    AscendingNumberedStrictly(keys);
    var sorted := AscendingNumbered(keys);
    var unnumbered := Filter(keys, Unnumbered);
    FilterDistinct(keys, Unnumbered);
    var r := sorted + unnumbered;
    forall i, j | 0 <= i < j < |r|
      ensures r[i] != r[j]
      ensures r[j].Some? ==> r[i].Some? && r[i].value < r[j].value
    {
      if j < |sorted| {
        assert r[i] == sorted[i] && r[j] == sorted[j];
      } else if i < |sorted| {
        assert r[i] == sorted[i] && r[j] == unnumbered[j - |sorted|];
        assert r[i] in sorted && r[j] in unnumbered;
      } else {
        assert r[i] == unnumbered[i - |sorted|] && r[j] == unnumbered[j - |sorted|];
        assert r[j] in unnumbered;
      }
    }
  }

  /** `Object.keys(grouped[s]).sort()`: the subjects of semester `s`. */
  function SortedSubjectsOf(vs: seq<Video>, s: Option<int>): seq<string> {
    SortStrings(KeysInOrder(Filter(vs, (v: Video) => v.semester == s), SubjectKey))
  }

  /** The subjects of a semester are its subject buckets, each once, strictly ascending. */
  lemma SortedSubjectsOfSpec(vs: seq<Video>, s: Option<int>)
    requires s in GroupBySemester(vs)
    ensures forall t :: t in SortedSubjectsOf(vs, s) <==> t in GroupBySemester(vs)[s]
    ensures forall i, j :: 0 <= i < j < |SortedSubjectsOf(vs, s)| ==>
      LexLe(SortedSubjectsOf(vs, s)[i], SortedSubjectsOf(vs, s)[j]) && SortedSubjectsOf(vs, s)[i] != SortedSubjectsOf(vs, s)[j]
  {
    GroupBySemesterIsNested(vs);
    var inSemester := Filter(vs, (v: Video) => v.semester == s);
    GroupByBucket(vs, SemesterKey, s, (v: Video) => v.semester == s);
    KeysInOrderSpec(inSemester, SubjectKey);
    SortDistinctStrings(KeysInOrder(inSemester, SubjectKey));
  }

  // ----- embed and thumbnail addresses -----

  const EmbedPrefix: string := "https://www.youtube.com/embed/"
  const EmbedSuffix: string := "?autoplay=1&rel=0"
  const ThumbnailPrefix: string := "https://img.youtube.com/vi/"
  const ThumbnailSuffix: string := "/mqdefault.jpg"

  predicate IsYouTube(url: string) {
    Includes(url, "youtube.com") || Includes(url, "youtu.be")
  }

  /**
   * The video id of a YouTube address: the text after the first `v=` up to the next `&`
   * (or the next `v=`), or, without a `v=`, the text after the last `/`.
   */
  function VideoId(url: string): (id: string)
    ensures Includes(url, "v=") ==> '&' !in id
    ensures !Includes(url, "v=") ==> '/' !in id && |id| <= |url| && url[|url| - |id|..] == id
  {
    if Includes(url, "v=") then
      var id := BeforeFirst(Split(url, "v=")[1], "&");
      CharOccurrence(id, '&');
      id
    else AfterLast(url, '/')
  }

  /** The first `v=` of `p + "v=" + q`, when `p` has none, is the one after `p`. */
  lemma FirstAssignment(p: string, q: string)
    requires !Contains(p, "v=")
    ensures Split(p + "v=" + q, "v=") == [p] + Split(q, "v=")
  {
    var s := p + "v=" + q;
    assert s[|p|..|p| + 2] == "v=";
    assert OccursAt(s, "v=", |p|);
    forall j | 0 <= j < |p|
      ensures !OccursAt(s, "v=", j)
    {
      if j + 2 <= |p| {
        assert s[j..j + 2] == p[j..j + 2];
        assert !OccursAt(p, "v=", j);
      } else {
        assert s[j + 1] == 'v';
      }
    }
    assert IndexOf(s, "v=") == Some(|p|);
    assert s[..|p|] == p;
    assert s[|p| + 2..] == q;
  }

  /** No `v=` starts inside `id` or at the `&` after it. */
  lemma NoAssignmentUpTo(id: string, rest: string)
    requires !Contains(id, "v=") && '&' !in id
    ensures forall j :: 0 <= j <= |id| ==> !OccursAt(id + "&" + rest, "v=", j)
  {
    var q := id + "&" + rest;
    forall j | 0 <= j <= |id|
      ensures !OccursAt(q, "v=", j)
    {
      if j + 2 <= |id| {
        assert q[j..j + 2] == id[j..j + 2];
        assert !OccursAt(id, "v=", j);
      } else {
        assert q[|id|] == '&';
      }
    }
  }

  /** The text after the first `v=` is cut at the first `&` when the id has neither `&` nor `v=`. */
  lemma IdBeforeAmpersand(id: string, rest: string)
    requires !Contains(id, "v=") && '&' !in id
    ensures BeforeFirst(BeforeFirst(id + "&" + rest, "v="), "&") == id
  {
    var q := id + "&" + rest;
    var r := BeforeFirst(q, "v=");
    NoAssignmentUpTo(id, rest);
    assert |r| > |id|;
    assert r[..|id|] == id && r[|id|] == '&';
    assert r == id + ['&'] + r[|id| + 1..];
    FirstCharAt(id, '&', r[|id| + 1..]);
  }

  /** A watch address with more parameters, `…v=<id>&…`, yields `<id>`. */
  lemma VideoIdWithMoreParams(p: string, id: string, rest: string)
    requires !Contains(p, "v=") && !Contains(id, "v=") && '&' !in id
    ensures VideoId(p + "v=" + id + "&" + rest) == id
  {
    var q := id + "&" + rest;
    assert p + "v=" + id + "&" + rest == p + "v=" + q;
    FirstAssignment(p, q);
    assert OccursAt(p + "v=" + q, "v=", |p|) by {
      assert (p + "v=" + q)[|p|..|p| + 2] == "v=";
    }
    IdBeforeAmpersand(id, rest);
  }

  /** A bare watch address, `…v=<id>` with nothing after the id, yields `<id>`. */
  lemma VideoIdOfBareWatchUrl(p: string, id: string)
    requires !Contains(p, "v=") && !Contains(id, "v=") && '&' !in id
    ensures VideoId(p + "v=" + id) == id
  {
    var url := p + "v=" + id;
    FirstAssignment(p, id);
    assert OccursAt(url, "v=", |p|) by {
      assert url[|p|..|p| + 2] == "v=";
    }
    assert Split(id, "v=") == [id];
    CharOccurrence(id, '&');
    assert Split(id, "&") == [id];
  }

  /**
   * A watch address `…v=<id>` followed by nothing or by `&…` yields `<id>`: the text
   * after the first `v=`, cut at the next `&`.
   */
  lemma VideoIdOfWatchUrl(p: string, id: string, tail: string)
    requires !Contains(p, "v=") && !Contains(id, "v=") && '&' !in id
    requires tail == [] || tail[0] == '&'
    ensures VideoId(p + "v=" + id + tail) == id
  {
    if tail == [] {
      assert p + "v=" + id + tail == p + "v=" + id;
      VideoIdOfBareWatchUrl(p, id);
    } else {
      assert p + "v=" + id + tail == p + "v=" + id + "&" + tail[1..];
      VideoIdWithMoreParams(p, id, tail[1..]);
    }
  }

  /** A short address `…/<id>` without any `v=` yields `<id>`. */
  lemma VideoIdOfShortUrl(p: string, id: string)
    requires '/' !in id && !Contains(p + "/" + id, "v=")
    ensures VideoId(p + "/" + id) == id
  {
    var url := p + "/" + id;
    assert url[|url| - |id|..] == id;
    AfterLastIs(url, '/', id);
  }

  /** `getEmbedUrl`: the embed address of a YouTube video, any other address unchanged. */
  function EmbedUrl(url: string): (e: string)
    ensures !IsYouTube(url) ==> e == url
  {
    if IsYouTube(url) then EmbedPrefix + VideoId(url) + EmbedSuffix else url
  }

  /** `getYouTubeThumbnail`: a thumbnail exactly for YouTube addresses. */
  function Thumbnail(url: string): (t: Option<string>)
    ensures t.Some? <==> IsYouTube(url)
  {
    if IsYouTube(url) then Some(ThumbnailPrefix + VideoId(url) + ThumbnailSuffix) else None
  }

  /**
   * For a YouTube watch address, bare or with more parameters after `&`, the player and
   * the card show the same id, the one after `v=`.
   */
  lemma WatchUrlAddresses(p: string, id: string, tail: string)
    requires IsYouTube(p + "v=" + id + tail)
    requires !Contains(p, "v=") && !Contains(id, "v=") && '&' !in id
    requires tail == [] || tail[0] == '&'
    ensures EmbedUrl(p + "v=" + id + tail) == EmbedPrefix + id + EmbedSuffix
    ensures Thumbnail(p + "v=" + id + tail) == Some(ThumbnailPrefix + id + ThumbnailSuffix)
  {
    VideoIdOfWatchUrl(p, id, tail);
  }

  /** For a short YouTube address the player and the card show the same id, the last path segment. */
  lemma ShortUrlAddresses(p: string, id: string)
    requires IsYouTube(p + "/" + id)
    requires '/' !in id && !Contains(p + "/" + id, "v=")
    ensures EmbedUrl(p + "/" + id) == EmbedPrefix + id + EmbedSuffix
    ensures Thumbnail(p + "/" + id) == Some(ThumbnailPrefix + id + ThumbnailSuffix)
  {
    VideoIdOfShortUrl(p, id);
  }

  // ----- the player -----

  /** The page's state: the fetched list, the video in the player, the loading flag and the fade between videos. */
  class Library {
    var videos: seq<Video>
    var active: Option<Video>
    var loading: bool
    var transitioning: bool

    /** The player has a video whenever the list is not empty. */
    predicate Playable()
      reads this
    {
      videos != [] ==> active.Some?
    }

    constructor()
      ensures videos == [] && active == None && loading && !transitioning
      ensures Playable()
    {
      videos := [];
      active := None;
      loading := true;
      transitioning := false;
    }

    /**
     * The result of `fetchVideos`: `Some(list)` for an ok response holding an array, `None`
     * otherwise. A list is kept and, when nothing plays yet, its first video starts; a
     * failure empties the list. Loading ends either way.
     */
    method FetchVideos(reply: Option<seq<Video>>)
      requires Playable()
      modifies this
      ensures reply.Some? ==> videos == reply.value
      ensures reply.Some? && reply.value != [] && old(active).None? ==> active == Some(reply.value[0])
      ensures reply.None? || reply.value == [] || old(active).Some? ==> active == old(active)
      ensures reply.None? ==> videos == []
      ensures !loading && transitioning == old(transitioning)
      ensures Playable()
    {
      loading := true;
      match reply {
        case Some(list) =>
          videos := list;
          if |list| > 0 && active.None? {
            active := Some(list[0]);
          }
        case None =>
          videos := [];
      }
      loading := false;
    }

    /** `handleVideoSwitch`: choosing the playing video does nothing; another one starts the fade. */
    method BeginSwitch(v: Video) returns (pending: Option<Video>)
      modifies this`transitioning
      ensures active.Some? && active.value.id == v.id ==> pending == None && transitioning == old(transitioning)
      ensures active.None? || active.value.id != v.id ==> pending == Some(v) && transitioning
    {
      if active.Some? && active.value.id == v.id {
        pending := None;
      } else {
        transitioning := true;
        pending := Some(v);
      }
    }

    /** The timer's callback: the chosen video plays and the fade ends. */
    method FinishSwitch(v: Video)
      requires Playable()
      modifies this`active, this`transitioning
      ensures active == Some(v) && !transitioning
      ensures Playable()
    {
      active := Some(v);
      transitioning := false;
    }
  }
}
