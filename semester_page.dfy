/**
 * The semester page's derivations over the resources it fetched: the subject read
 * from a file name, the search filter, the grouping by subject, the sorted subject
 * list, and the two file-type labels of a card.
 */
module SemesterPage {
  import opened Wrappers
  import opened Text
  import opened Lists
  import opened Grouping

  /** A resource as the page receives it; `category` and `file_name` may be absent. */
  datatype Resource = Resource(id: nat, title: string, category: Option<string>, fileName: Option<string>)

  // ----- getSubject -----

  /**
   * The subject of a file: the trimmed text before the first `_` of its name, or,
   * when the name is empty or has no `_`, the fallback category or `General`.
   */
  function GetSubject(fileName: Option<string>, fallback: Option<string>): (s: string)
    ensures !Truthy(fileName) ==> s == OrElse(fallback, "General")
    ensures Truthy(fileName) && '_' !in fileName.value ==> s == OrElse(fallback, "General")
  {
    if !Truthy(fileName) then OrElse(fallback, "General")
    else
      CharOccurrence(fileName.value, '_');
      if Includes(fileName.value, "_") then Trim(BeforeFirst(fileName.value, "_"))
      else OrElse(fallback, "General")
  }

  /** A name with a `_` yields the trimmed text before its first `_`, which may be empty. */
  lemma GetSubjectOfUnderscored(prefix: string, rest: string, fallback: Option<string>)
    requires '_' !in prefix
    ensures GetSubject(Some(prefix + "_" + rest), fallback) == Trim(prefix)
  {
    var name := prefix + "_" + rest;
    FirstCharAt(prefix, '_', rest);
    assert name[..|prefix|] == prefix;
    assert BeforeFirst(name, "_") == prefix;
  }

  /** The resource's subject, with its category as the fallback. */
  function Subject(r: Resource): string {
    GetSubject(r.fileName, r.category)
  }

  // ----- the search filter -----

  /** The search is a case-insensitive substring of the title, the category or the file name; absent fields never match. */
  predicate Matches(r: Resource, search: string) {
    || IncludesIgnoringCase(r.title, search)
    || (r.category.Some? && IncludesIgnoringCase(r.category.value, search))
    || (r.fileName.Some? && IncludesIgnoringCase(r.fileName.value, search))
  }

  function Filtered(rs: seq<Resource>, search: string): seq<Resource> {
    Filter(rs, r => Matches(r, search))
  }

  /** An empty search keeps every resource, in order. */
  lemma EmptySearchKeepsAll(rs: seq<Resource>)
    ensures Filtered(rs, "") == rs
  {
    forall r | r in rs ensures Matches(r, "") {
      assert OccursAt(Lower(r.title), Lower(""), 0);
    }
    FilterKeepsAll(rs, r => Matches(r, ""));
  }

  // ----- grouping and the subject list -----

  /** The resources shown, grouped by subject. */
  function Grouped(rs: seq<Resource>, search: string): map<string, seq<Resource>> {
    GroupBy(Filtered(rs, search), Subject)
  }

  /**
   * Every shown resource is in the group of its own subject and in no other; a
   * group holds exactly the shown resources of that subject, in their order.
   */
  lemma GroupedPartition(rs: seq<Resource>, search: string)
    ensures forall r :: r in Filtered(rs, search) ==> Subject(r) in Grouped(rs, search) && r in Grouped(rs, search)[Subject(r)]
    ensures forall k, r :: k in Grouped(rs, search) && r in Grouped(rs, search)[k] ==> r in Filtered(rs, search) && Subject(r) == k
  {
    forall r | r in Filtered(rs, search)
      ensures Subject(r) in Grouped(rs, search) && r in Grouped(rs, search)[Subject(r)]
    {
      GroupByExactlyOne(Filtered(rs, search), Subject, r);
    }
    GroupByPartition(Filtered(rs, search), Subject);
  }

  /** A group lists the shown resources of its subject in the order the server returned them. */
  lemma GroupKeepsOrder(rs: seq<Resource>, search: string, k: string)
    requires k in Grouped(rs, search)
    ensures Grouped(rs, search)[k] == Filter(Filtered(rs, search), r => Subject(r) == k)
  {
    GroupByBucket(Filtered(rs, search), Subject, k, r => Subject(r) == k);
  }

  /** `Object.keys(grouped).sort()`. */
  function SortedSubjects(rs: seq<Resource>, search: string): seq<string> {
    SortStrings(KeysInOrder(Filtered(rs, search), Subject))
  }

  /** The subject list names each group once, in strictly ascending string order. */
  lemma SortedSubjectsSpec(rs: seq<Resource>, search: string)
    ensures forall k :: k in SortedSubjects(rs, search) <==> k in Grouped(rs, search)
    ensures forall i, j :: 0 <= i < j < |SortedSubjects(rs, search)| ==>
      LexLe(SortedSubjects(rs, search)[i], SortedSubjects(rs, search)[j]) && SortedSubjects(rs, search)[i] != SortedSubjects(rs, search)[j]
  {
    var keys := KeysInOrder(Filtered(rs, search), Subject);
    KeysInOrderSpec(Filtered(rs, search), Subject);
    SortDistinctStrings(keys);
  }

  // ----- the grouping as written -----

  /** The reduce of the page as written, into a plain `{}`: `None` where it throws. */
  function GroupAsWritten(rs: seq<Resource>, search: string): Option<map<string, seq<Resource>>> {
    GroupIntoObject(Filtered(rs, search), Subject)
  }

  lemma ConstructorIntroName()
    ensures "constructor" + "_" + "intro.pdf" == "constructor_intro.pdf"
  {
    var name: string := "constructor_intro.pdf";
    assert name[..11] == "constructor";
    assert name[11..12] == "_";
    assert name[12..] == "intro.pdf";
    assert name == name[..11] + name[11..12] + name[12..];
  }

  /** A resource named `constructor_intro.pdf` makes the page's grouping throw. */
  lemma GroupAsWrittenThrows()
    ensures GroupAsWritten([Resource(1, "Intro", None, Some("constructor_intro.pdf"))], "") == None
  {
    var r := Resource(1, "Intro", None, Some("constructor_intro.pdf"));
    ConstructorIsSubject(r);
    EmptySearchKeepsAll([r]);
    GroupIntoObjectSpec([r], Subject);
    assert r in [r];
  }

  lemma ConstructorIsSubject(r: Resource)
    requires r.fileName == Some("constructor_intro.pdf")
    ensures Subject(r) == "constructor"
  {
    GetSubjectOfUnderscored("constructor", "intro.pdf", r.category);
    ConstructorIntroName();
    TrimmedConstructor();
  }

  lemma TrimmedConstructor()
    ensures Trim("constructor") == "constructor"
  {
    var w: string := "constructor";
    assert !IsSpace(w[0]) && !IsSpace(w[|w| - 1]);
    assert TrimStart(w) == w;
  }

  /**
   * The grouping as written agrees with the partition `Grouped` exactly when no shown
   * resource's subject is a name `{}` inherits, and throws otherwise.
   */
  lemma GroupAsWrittenAgrees(rs: seq<Resource>, search: string)
    ensures GroupAsWritten(rs, search).None? <==> exists r :: r in Filtered(rs, search) && Subject(r) in InheritedNames
    ensures GroupAsWritten(rs, search).Some? ==> GroupAsWritten(rs, search).value == Grouped(rs, search)
  {
    GroupIntoObjectSpec(Filtered(rs, search), Subject);
  }

  // ----- labels -----

  /** The badge: the last `.`-segment of the file name (`split('.').pop()`, see `AfterLastOfJoin`), or `File` when that is empty or there is no name. */
  function BadgeLabel(fileName: Option<string>): (tag: string)
    ensures tag == "File" || (fileName.Some? && '.' !in tag && tag != "" && |tag| <= |fileName.value| && fileName.value[|fileName.value| - |tag|..] == tag)
    ensures fileName.Some? && fileName.value != "" && '.' !in fileName.value ==> tag == fileName.value
    ensures fileName.Some? && AfterLast(fileName.value, '.') != "" ==> tag == AfterLast(fileName.value, '.')
    ensures fileName.None? || AfterLast(fileName.value, '.') == "" ==> tag == "File"
  {
    if fileName.Some? && '.' !in fileName.value then
      AfterLastIs(fileName.value, '.', fileName.value);
      if fileName.value != "" then fileName.value else "File"
    else if fileName.Some? && AfterLast(fileName.value, '.') != "" then AfterLast(fileName.value, '.')
    else "File"
  }

  /** The footer: the text after the last `.` when the name has one (possibly empty), else `Resource`. */
  function FooterLabel(fileName: Option<string>): (tag: string)
    ensures fileName.Some? && '.' in fileName.value ==>
      && '.' !in tag && |tag| < |fileName.value|
      && fileName.value[|fileName.value| - |tag| - 1..] == "." + tag
    ensures fileName.None? || '.' !in fileName.value ==> tag == "Resource"
  {
    if fileName.Some? && Includes(fileName.value, ".") then
      CharOccurrence(fileName.value, '.');
      var name := fileName.value;
      var tail := AfterLast(name, '.');
      if |tail| == |name| then
        assert false;
        tail
      else
        assert name[|name| - |tail| - 1..] == [name[|name| - |tail| - 1]] + tail;
        tail
    else if fileName.Some? then
      CharOccurrence(fileName.value, '.');
      "Resource"
    else "Resource"
  }
}
