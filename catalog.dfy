/** The read side of Data/LessonRepository.cs: the queries it answers from the loaded
    list of lesson records, and the list edits its write operations perform. */
module Catalog {
  import opened Optional
  import opened Text
  import opened Sorting
  import opened Models

  /** What the metadata file holds: no file, a file that cannot be read or parsed, or a
      parsed list of records. */
  datatype Document = Absent | Unreadable | Records(lessons: seq<Lesson>)

  /** LoadAllLessons: a missing or unreadable document reads as the empty catalog. */
  function LoadAll(doc: Document): (ls: seq<Lesson>)
    ensures doc.Records? ==> ls == doc.lessons
    ensures !doc.Records? ==> ls == []
  {
    if doc.Records? then doc.lessons else []
  }

  function SubjectOf(l: Lesson): string {
    l.subject
  }

  function SubSubjectOf(l: Lesson): string {
    l.subSubject
  }

  function TitleOf(l: Lesson): string {
    l.title
  }

  // ---------------------------------------------------------------------------
  // Queries

  /** GetLessonsBySubjectAndSubSubject: the lessons of one (subject, sub-subject) pair,
      ordered by title. */
  function LessonsBySubjectAndSubSubject(ls: seq<Lesson>, subject: string, subSubject: string)
    : (r: seq<Lesson>)
    ensures SortedBy(r, TitleOf)
    ensures forall l :: (multiset(r)[l]
      == if l.subject == subject && l.subSubject == subSubject then multiset(ls)[l] else 0)
  {
    var inSubject := WithKey(ls, SubjectOf, subject);
    var matching := WithKey(inSubject, SubSubjectOf, subSubject);
    SortBySorted(matching, TitleOf);
    assert forall l :: (multiset(matching)[l]
      == if l.subject == subject && l.subSubject == subSubject then multiset(ls)[l] else 0)
    by {
      forall l
        ensures multiset(matching)[l]
          == if l.subject == subject && l.subSubject == subSubject then multiset(ls)[l] else 0
      {
        WithKeyCount(ls, SubjectOf, subject, l);
        WithKeyCount(inSubject, SubSubjectOf, subSubject, l);
      }
    }
    SortBy(matching, TitleOf)
  }

  /** A lesson is listed exactly when its subject and sub-subject both match. */
  lemma LessonsBySubjectAndSubSubjectMembers(ls: seq<Lesson>, subject: string, subSubject: string, l: Lesson)
    ensures l in LessonsBySubjectAndSubSubject(ls, subject, subSubject)
      <==> l in ls && l.subject == subject && l.subSubject == subSubject
  {
    var r := LessonsBySubjectAndSubSubject(ls, subject, subSubject);
    assert l in r <==> l in multiset(r);
    assert l in ls <==> l in multiset(ls);
  }

  /** OrderBy is stable: lessons with equal titles keep the order they have in the
      document. */
  lemma LessonsBySubjectAndSubSubjectStable(ls: seq<Lesson>, subject: string, subSubject: string, title: string)
    ensures WithKey(LessonsBySubjectAndSubSubject(ls, subject, subSubject), TitleOf, title)
         == WithKey(WithKey(WithKey(ls, SubjectOf, subject), SubSubjectOf, subSubject), TitleOf, title)
  {
    SortByStable(WithKey(WithKey(ls, SubjectOf, subject), SubSubjectOf, subSubject), TitleOf, title);
  }

  /** GetAvailableSubjects: every subject once, ascending. */
  function AvailableSubjects(ls: seq<Lesson>): (r: seq<string>)
    ensures StrictlyAscending(r)
    ensures forall s :: s in r <==> exists l :: l in ls && l.subject == s
  {
    DistinctSorted(Keys(ls, SubjectOf))
  }

  /** GetAvailableSubSubjects(subject): every sub-subject used under that subject once,
      ascending. */
  function AvailableSubSubjects(ls: seq<Lesson>, subject: string): (r: seq<string>)
    ensures StrictlyAscending(r)
    ensures forall ss :: ss in r <==> exists l :: l in ls && l.subject == subject && l.subSubject == ss
  {
    var inSubject := WithKey(ls, SubjectOf, subject);
    forall l | l in ls && l.subject == subject
      ensures l in inSubject
    {
      WithKeyCount(ls, SubjectOf, subject, l);
      assert l in multiset(ls);
    }
    DistinctSorted(Keys(inSubject, SubSubjectOf))
  }

  /** The position of the first record with the given id, if any. */
  function FirstIndexOfId(ls: seq<Lesson>, id: string): (r: Option<nat>)
    ensures r.None? <==> forall l :: l in ls ==> l.id != id
    ensures r.Some? ==> (r.value < |ls| && ls[r.value].id == id
      && forall j :: 0 <= j < r.value ==> ls[j].id != id)
  {
    if ls == [] then None
    else if ls[0].id == id then Some(0)
    else
      match FirstIndexOfId(ls[1..], id)
      case None => None
      case Some(i) => Some(i + 1)
  }

  /** GetLessonById: FirstOrDefault on the id. */
  function LessonById(ls: seq<Lesson>, id: string): (r: Option<Lesson>)
    ensures r.None? <==> forall l :: l in ls ==> l.id != id
    ensures r.Some? ==> (r.value.id == id && r.value in ls
      && exists i :: 0 <= i < |ls| && ls[i] == r.value && forall j :: 0 <= j < i ==> ls[j].id != id)
  {
    match FirstIndexOfId(ls, id)
    case None => None
    case Some(i) => Some(ls[i])
  }

  /** GetLessonAudioPath: the stored audio path of the lesson, or "" for an unknown id. */
  function LessonAudioPath(ls: seq<Lesson>, id: string): (p: string)
    ensures (forall l :: l in ls ==> l.id != id) ==> p == ""
    ensures forall i :: (0 <= i < |ls| && ls[i].id == id && (forall j :: 0 <= j < i ==> ls[j].id != id)
      ==> p == ls[i].filePath)
  {
    match LessonById(ls, id)
    case None => ""
    case Some(l) => l.filePath
  }

  /** The list left by List.Remove of the record at position i. */
  function RemoveAt(ls: seq<Lesson>, i: nat): (r: seq<Lesson>)
    requires i < |ls|
    ensures |r| == |ls| - 1
    ensures forall j :: 0 <= j < i ==> r[j] == ls[j]
    ensures forall j :: i <= j < |r| ==> r[j] == ls[j + 1]
  {
    ls[..i] + ls[i + 1..]
  }

  /** Removing the first record with an id removes one occurrence of it and nothing else. */
  lemma RemoveAtCount(ls: seq<Lesson>, i: nat)
    requires i < |ls|
    ensures multiset(RemoveAt(ls, i)) == multiset(ls) - multiset{ls[i]}
  {
    assert ls == ls[..i] + [ls[i]] + ls[i + 1..];
  }

  // ---------------------------------------------------------------------------
  // The grouping of GetAllSubjects. GroupBy collects the records of each key in document
  // order and OrderBy then sorts the groups by their (distinct) keys, so the groups are
  // those of the ascending distinct keys, each holding the records with that key.

  function SubSubjectNodeFor(inSubject: seq<Lesson>, subSubject: string): SubSubjectNode {
    SubSubjectNode(subSubject, SortBy(WithKey(inSubject, SubSubjectOf, subSubject), TitleOf))
  }

  /** The image of each key under f, in order (the Select of the grouping loops). */
  function MapSeq<A, B>(xs: seq<A>, f: A -> B): (r: seq<B>)
    ensures |r| == |xs| && forall k :: 0 <= k < |xs| ==> r[k] == f(xs[k])
  {
    if xs == [] then [] else MapSeq(xs[..|xs| - 1], f) + [f(xs[|xs| - 1])]
  }

  /** The sub-subject nodes for the given keys, in order. */
  function SubSubjectNodes(inSubject: seq<Lesson>, keys: seq<string>): seq<SubSubjectNode> {
    MapSeq(keys, subSubject => SubSubjectNodeFor(inSubject, subSubject))
  }

  /** One more key, one more node. */
  lemma SubSubjectNodesStep(inSubject: seq<Lesson>, keys: seq<string>, j: nat)
    requires j < |keys|
    ensures SubSubjectNodes(inSubject, keys[..j + 1])
         == SubSubjectNodes(inSubject, keys[..j]) + [SubSubjectNodeFor(inSubject, keys[j])]
  {
    assert keys[..j + 1][..j] == keys[..j];
  }

  function SubjectNodeFor(ls: seq<Lesson>, subject: string): SubjectNode {
    SubjectNode(subject, SubSubjectNodes(WithKey(ls, SubjectOf, subject), AvailableSubSubjects(ls, subject)))
  }

  /** The subject nodes for the given keys, in order. */
  function SubjectNodes(ls: seq<Lesson>, keys: seq<string>): seq<SubjectNode> {
    MapSeq(keys, subject => SubjectNodeFor(ls, subject))
  }

  lemma SubjectNodesStep(ls: seq<Lesson>, keys: seq<string>, i: nat)
    requires i < |keys|
    ensures SubjectNodes(ls, keys[..i + 1]) == SubjectNodes(ls, keys[..i]) + [SubjectNodeFor(ls, keys[i])]
  {
    assert keys[..i + 1][..i] == keys[..i];
  }

  /** The tree GetAllSubjects returns. */
  function Grouped(ls: seq<Lesson>): seq<SubjectNode> {
    SubjectNodes(ls, AvailableSubjects(ls))
  }

  /** Subject names are distinct and ascending, one per subject used. */
  lemma GroupedNames(ls: seq<Lesson>)
    ensures Names(Grouped(ls)) == AvailableSubjects(ls) && NoRepeats(Names(Grouped(ls)))
    ensures StrictlyAscending(Names(Grouped(ls)))
    ensures forall s :: s in Names(Grouped(ls)) <==> exists l :: l in ls && l.subject == s
  {
    assert Names(Grouped(ls)) == AvailableSubjects(ls);
  }

  /** The sub-subject names of a subject node are the sub-subjects used under it. */
  lemma SubjectNodeNames(ls: seq<Lesson>, s: string)
    ensures SubNames(SubjectNodeFor(ls, s).subSubjects) == AvailableSubSubjects(ls, s)
  {
  }

  /** The node of a sub-subject used under s lists at least one lesson. */
  lemma SubSubjectNodeNonEmpty(ls: seq<Lesson>, s: string, ss: string)
    requires ss in AvailableSubSubjects(ls, s)
    ensures SubSubjectNodeFor(WithKey(ls, SubjectOf, s), ss).lessons != []
  {
    var x :| x in ls && x.subject == s && x.subSubject == ss;
    LessonsBySubjectAndSubSubjectMembers(ls, s, ss, x);
  }

  /** Inside each subject node the sub-subject names are distinct and ascending, one per
      sub-subject used under that subject, and no node of the tree is empty. */
  lemma GroupedSubjectNode(ls: seq<Lesson>, i: nat)
    requires i < |Grouped(ls)|
    ensures var n := Grouped(ls)[i];
      StrictlyAscending(SubNames(n.subSubjects))
      && (forall ss :: ss in SubNames(n.subSubjects)
            <==> exists l :: l in ls && l.subject == n.name && l.subSubject == ss)
      && n.subSubjects != []
      && forall m :: m in n.subSubjects ==> m.lessons != []
  {
    var keys := AvailableSubjects(ls);
    var n := Grouped(ls)[i];
    assert n == SubjectNodeFor(ls, keys[i]);
    var subKeys := AvailableSubSubjects(ls, n.name);
    SubjectNodeNames(ls, n.name);
    assert keys[i] in keys;
    var l :| l in ls && l.subject == n.name;
    assert l.subSubject in subKeys;
    forall j | 0 <= j < |n.subSubjects|
      ensures n.subSubjects[j].lessons != []
    {
      assert n.subSubjects[j] == SubSubjectNodeFor(WithKey(ls, SubjectOf, n.name), subKeys[j]);
      assert subKeys[j] in subKeys;
      SubSubjectNodeNonEmpty(ls, n.name, subKeys[j]);
    }
  }

  function Names(ns: seq<SubjectNode>): (r: seq<string>)
    ensures |r| == |ns| && forall i :: 0 <= i < |ns| ==> r[i] == ns[i].name
  {
    seq(|ns|, i requires 0 <= i < |ns| => ns[i].name)
  }

  function SubNames(ns: seq<SubSubjectNode>): (r: seq<string>)
    ensures |r| == |ns| && forall i :: 0 <= i < |ns| ==> r[i] == ns[i].name
  {
    seq(|ns|, i requires 0 <= i < |ns| => ns[i].name)
  }

  /** Every node lists exactly what GetLessonsBySubjectAndSubSubject returns for its two
      names, so its lessons are sorted by title and all carry the node's names. */
  lemma GroupedNodeLessons(ls: seq<Lesson>, i: nat, j: nat)
    requires i < |Grouped(ls)| && j < |Grouped(ls)[i].subSubjects|
    ensures var n := Grouped(ls)[i]; var m := n.subSubjects[j];
      m.lessons == LessonsBySubjectAndSubSubject(ls, n.name, m.name)
  {
  }

  /** Each lesson of the document sits in the node named by its subject and sub-subject. */
  lemma GroupedHoldsLesson(ls: seq<Lesson>, l: Lesson)
    requires l in ls
    ensures exists i, j :: (0 <= i < |Grouped(ls)| && 0 <= j < |Grouped(ls)[i].subSubjects|
      && Grouped(ls)[i].name == l.subject
      && Grouped(ls)[i].subSubjects[j].name == l.subSubject
      && l in Grouped(ls)[i].subSubjects[j].lessons)
  {
    var g := Grouped(ls);
    var keys := AvailableSubjects(ls);
    assert l.subject in keys;
    var i :| 0 <= i < |keys| && keys[i] == l.subject;
    var n := SubjectNodeFor(ls, l.subject);
    assert g[i] == n;
    var subKeys := AvailableSubSubjects(ls, l.subject);
    assert l.subSubject in subKeys;
    var j :| 0 <= j < |subKeys| && subKeys[j] == l.subSubject;
    var m := SubSubjectNodeFor(WithKey(ls, SubjectOf, l.subject), l.subSubject);
    assert n.subSubjects[j] == m;
    LessonsBySubjectAndSubSubjectMembers(ls, l.subject, l.subSubject, l);
    assert l in m.lessons;
  }

  // ---------------------------------------------------------------------------
  // The grouping is a partition.

  /** All lessons of some sub-subject nodes, node after node. */
  function SubLessons(ns: seq<SubSubjectNode>): seq<Lesson> {
    if ns == [] then [] else SubLessons(ns[..|ns| - 1]) + ns[|ns| - 1].lessons
  }

  /** All lessons of a grouped tree, node after node. */
  function AllLessons(ns: seq<SubjectNode>): seq<Lesson> {
    if ns == [] then [] else AllLessons(ns[..|ns| - 1]) + SubLessons(ns[|ns| - 1].subSubjects)
  }

  predicate NoRepeats(keys: seq<string>) {
    forall i, j :: 0 <= i < j < |keys| ==> keys[i] != keys[j]
  }

  lemma {:induction false} SubNodesCount(inSubject: seq<Lesson>, keys: seq<string>, l: Lesson)
    requires NoRepeats(keys)
    ensures multiset(SubLessons(SubSubjectNodes(inSubject, keys)))[l]
      == if l.subSubject in keys then multiset(inSubject)[l] else 0
  {
    if keys != [] {
      var init, k := keys[..|keys| - 1], keys[|keys| - 1];
      SubNodesCount(inSubject, init, l);
      var ns := SubSubjectNodes(inSubject, keys);
      assert ns[..|ns| - 1] == SubSubjectNodes(inSubject, init);
      WithKeyCount(inSubject, SubSubjectOf, k, l);
      assert keys == init + [k];
      assert l.subSubject in keys <==> l.subSubject in init || l.subSubject == k;
      assert l.subSubject == k ==> l.subSubject !in init;
    }
  }

  lemma {:induction false} SubjectNodesCount(ls: seq<Lesson>, keys: seq<string>, l: Lesson)
    requires NoRepeats(keys)
    ensures multiset(AllLessons(SubjectNodes(ls, keys)))[l]
      == if l.subject in keys then multiset(ls)[l] else 0
  {
    if keys != [] {
      var init, k := keys[..|keys| - 1], keys[|keys| - 1];
      SubjectNodesCount(ls, init, l);
      var ns := SubjectNodes(ls, keys);
      assert ns[..|ns| - 1] == SubjectNodes(ls, init);
      var inSubject := WithKey(ls, SubjectOf, k);
      var subKeys := AvailableSubSubjects(ls, k);
      SubNodesCount(inSubject, subKeys, l);
      WithKeyCount(ls, SubjectOf, k, l);
      if l.subject == k && l in ls {
        assert l.subSubject in subKeys;
      }
      if l.subject == k && l !in ls {
        assert multiset(ls)[l] == 0;
      }
      assert keys == init + [k];
      assert l.subject in keys <==> l.subject in init || l.subject == k;
      assert l.subject == k ==> l.subject !in init;
    }
  }

  /** GetAllSubjects places every record of the document exactly once: the lessons of the
      tree are the document's lessons, counted with multiplicity. */
  lemma GroupedPartition(ls: seq<Lesson>)
    ensures multiset(AllLessons(Grouped(ls))) == multiset(ls)
    ensures |AllLessons(Grouped(ls))| == |ls|
  {
    var keys := AvailableSubjects(ls);
    forall l
      ensures multiset(AllLessons(Grouped(ls)))[l] == multiset(ls)[l]
    {
      SubjectNodesCount(ls, keys, l);
      if l in ls {
        assert l.subject in keys;
      }
    }
    assert multiset(AllLessons(Grouped(ls))) == multiset(ls);
    assert |multiset(AllLessons(Grouped(ls)))| == |multiset(ls)|;
  }
}
