/** The flattening of the grouped catalog into tree items, done identically by
    AdminWindow.LoadExistingLessons and StudentWindow.LoadAvailableLessons: each subject,
    then each of its sub-subjects followed by that sub-subject's lessons, in pre-order. */
module LessonTree {
  import opened Optional
  import opened Text
  import opened Sorting
  import opened Models
  import opened Catalog
  import opened TreeItems
  import opened TreeNavigation
  import opened FolderTree

  /** The item of a subject: a top-level folder at path S with id "subject_S". */
  function SubjectItem(s: string): ItemView {
    ItemView(s, s, "subject_" + s, true, 0, None)
  }

  /** The item of a sub-subject: a level-1 folder at path S/SS with id "subsubject_SS". */
  function SubSubjectItem(s: string, ss: string): ItemView {
    ItemView(ss, s + "/" + ss, "subsubject_" + ss, true, 1, None)
  }

  /** The item of a lesson: a level-2 leaf at path S/SS/Title, named "Title (Year)", with
      the lesson's id and the lesson attached. */
  function LessonItem(s: string, ss: string, l: Lesson): ItemView {
    ItemView(l.title + " (" + l.year + ")", s + "/" + ss + "/" + l.title, l.id, false, 2, Some(l))
  }

  function LessonItems(s: string, ss: string, lessons: seq<Lesson>): seq<ItemView> {
    if lessons == [] then []
    else LessonItems(s, ss, lessons[..|lessons| - 1]) + [LessonItem(s, ss, lessons[|lessons| - 1])]
  }

  /** A sub-subject item followed by its lessons, for each sub-subject in turn. */
  function SubSubjectItems(s: string, subs: seq<SubSubjectNode>): seq<ItemView> {
    if subs == [] then []
    else
      var m := subs[|subs| - 1];
      SubSubjectItems(s, subs[..|subs| - 1]) + [SubSubjectItem(s, m.name)] + LessonItems(s, m.name, m.lessons)
  }

  /** The whole flattened list: for each subject, its item and then its sub-subjects. */
  function Flattened(subjects: seq<SubjectNode>): seq<ItemView> {
    if subjects == [] then []
    else
      var n := subjects[|subjects| - 1];
      Flattened(subjects[..|subjects| - 1]) + [SubjectItem(n.name)] + SubSubjectItems(n.name, n.subSubjects)
  }

  /** The loops of LoadExistingLessons / LoadAvailableLessons: one new item per node, in
      pre-order. */
  method BuildTreeItems(subjects: seq<SubjectNode>) returns (items: seq<TreeItem>)
    ensures Views(items) == Flattened(subjects)
    ensures fresh(set x | x in items)
  {
    items := [];
    var i := 0;
    while i < |subjects|
      invariant 0 <= i <= |subjects|
      invariant Views(items) == Flattened(subjects[..i])
      invariant fresh(set x | x in items)
    {
      var subjectItems := BuildSubjectItems(subjects[i]);
      ViewsAppend(items, subjectItems);
      FlattenedStep(subjects, i);
      FreshConcat(items, subjectItems);
      items := items + subjectItems;
      i := i + 1;
    }
    assert subjects[..i] == subjects;
  }

  /** The second half of LoadExistingLessons / LoadAvailableLessons: flatten the nodes into
      new items and hand them to the tree. Everything the tree then displays is new, so
      the list box holds no selection any more. */
  method ShowSubjects(tree: FolderTreeView, subjects: seq<SubjectNode>)
    modifies tree`treeItems, tree`itemsSource, tree`selectedItem
    ensures Views(tree.treeItems) == Flattened(subjects)
    ensures fresh(set x | x in tree.treeItems)
    ensures tree.Shows() && tree.ChildFlagsCurrent()
    ensures tree.selectedItem == null
  {
    var items := BuildTreeItems(subjects);
    tree.SetTreeItems(items);
    if old(tree.selectedItem) != null {
      assert old(tree.selectedItem) !in tree.itemsSource;
    }
  }

  /** Items new since the old state, concatenated, are still new. */
  twostate lemma FreshConcat(new a: seq<TreeItem>, new b: seq<TreeItem>)
    requires fresh(set x | x in a) && fresh(set x | x in b)
    ensures fresh(set x | x in a + b)
  {
    assert (set x | x in a + b) == (set x | x in a) + (set x | x in b);
  }

  /** The body of the outer loop: the subject's folder, then its sub-subjects. */
  method BuildSubjectItems(subject: SubjectNode) returns (items: seq<TreeItem>)
    ensures Views(items) == [SubjectItem(subject.name)] + SubSubjectItems(subject.name, subject.subSubjects)
    ensures fresh(set x | x in items)
  {
    var subjectItem := new TreeItem(subject.name, subject.name, "subject_" + subject.name, true, 0, None);
    var subItems := BuildSubSubjectItems(subject.name, subject.subSubjects);
    ViewsAppend([subjectItem], subItems);
    items := [subjectItem] + subItems;
  }

  /** The middle loop, for one subject. */
  method BuildSubSubjectItems(s: string, subs: seq<SubSubjectNode>) returns (items: seq<TreeItem>)
    ensures Views(items) == SubSubjectItems(s, subs)
    ensures fresh(set x | x in items)
  {
    items := [];
    var j := 0;
    while j < |subs|
      invariant 0 <= j <= |subs|
      invariant Views(items) == SubSubjectItems(s, subs[..j])
      invariant fresh(set x | x in items)
    {
      var subSubjectItems := BuildSubSubjectItem(s, subs[j]);
      ViewsAppend(items, subSubjectItems);
      SubSubjectItemsStep(s, subs, j);
      FreshConcat(items, subSubjectItems);
      items := items + subSubjectItems;
      j := j + 1;
    }
    assert subs[..j] == subs;
  }

  /** The body of the middle loop: the sub-subject's folder, then its lessons. */
  method BuildSubSubjectItem(s: string, subSubject: SubSubjectNode) returns (items: seq<TreeItem>)
    ensures Views(items) == [SubSubjectItem(s, subSubject.name)] + LessonItems(s, subSubject.name, subSubject.lessons)
    ensures fresh(set x | x in items)
  {
    var subSubjectPath := s + "/" + subSubject.name;
    var subSubjectItem := new TreeItem(subSubject.name, subSubjectPath, "subsubject_" + subSubject.name, true, 1, None);
    var lessonItems := BuildLessonItems(s, subSubject.name, subSubject.lessons);
    ViewsAppend([subSubjectItem], lessonItems);
    items := [subSubjectItem] + lessonItems;
  }

  /** The innermost loop, for one sub-subject. */
  method BuildLessonItems(s: string, ss: string, lessons: seq<Lesson>) returns (items: seq<TreeItem>)
    ensures Views(items) == LessonItems(s, ss, lessons)
    ensures fresh(set x | x in items)
  {
    var subSubjectPath := s + "/" + ss;
    items := [];
    var k := 0;
    while k < |lessons|
      invariant 0 <= k <= |lessons|
      invariant Views(items) == LessonItems(s, ss, lessons[..k])
      invariant fresh(set x | x in items)
    {
      var lesson := lessons[k];
      var lessonItem := new TreeItem(lesson.title + " (" + lesson.year + ")", subSubjectPath + "/" + lesson.title,
                                     lesson.id, false, 2, Some(lesson));
      ViewsAppend(items, [lessonItem]);
      FreshConcat(items, [lessonItem]);
      items := items + [lessonItem];
      assert lessons[..k + 1][..k] == lessons[..k];
      k := k + 1;
    }
    assert lessons[..k] == lessons;
  }

  lemma FlattenedStep(subjects: seq<SubjectNode>, i: nat)
    requires i < |subjects|
    ensures Flattened(subjects[..i + 1])
         == Flattened(subjects[..i]) + ([SubjectItem(subjects[i].name)] + SubSubjectItems(subjects[i].name, subjects[i].subSubjects))
  {
    assert subjects[..i + 1][..i] == subjects[..i];
    AppendAssoc(Flattened(subjects[..i]), [SubjectItem(subjects[i].name)], SubSubjectItems(subjects[i].name, subjects[i].subSubjects));
  }

  lemma SubSubjectItemsStep(s: string, subs: seq<SubSubjectNode>, j: nat)
    requires j < |subs|
    ensures SubSubjectItems(s, subs[..j + 1])
         == SubSubjectItems(s, subs[..j]) + ([SubSubjectItem(s, subs[j].name)] + LessonItems(s, subs[j].name, subs[j].lessons))
  {
    assert subs[..j + 1][..j] == subs[..j];
    AppendAssoc(SubSubjectItems(s, subs[..j]), [SubSubjectItem(s, subs[j].name)], LessonItems(s, subs[j].name, subs[j].lessons));
  }

  // ---------------------------------------------------------------------------
  // Shape of the flattened list.

  /** The number of sub-subject nodes of a grouped tree. */
  function SubSubjectCount(subjects: seq<SubjectNode>): nat {
    if subjects == [] then 0
    else SubSubjectCount(subjects[..|subjects| - 1]) + |subjects[|subjects| - 1].subSubjects|
  }

  lemma {:induction false} LessonItemsCount(s: string, ss: string, lessons: seq<Lesson>)
    ensures |LessonItems(s, ss, lessons)| == |lessons|
  {
    if lessons != [] {
      LessonItemsCount(s, ss, lessons[..|lessons| - 1]);
    }
  }

  lemma {:induction false} SubSubjectItemsCount(s: string, subs: seq<SubSubjectNode>)
    ensures |SubSubjectItems(s, subs)| == |subs| + |SubLessons(subs)|
  {
    if subs != [] {
      SubSubjectItemsCount(s, subs[..|subs| - 1]);
      LessonItemsCount(s, subs[|subs| - 1].name, subs[|subs| - 1].lessons);
    }
  }

  /** One item per subject, per sub-subject and per lesson. */
  lemma {:induction false} FlattenedCount(subjects: seq<SubjectNode>)
    ensures |Flattened(subjects)| == |subjects| + SubSubjectCount(subjects) + |AllLessons(subjects)|
  {
    if subjects != [] {
      FlattenedCount(subjects[..|subjects| - 1]);
      SubSubjectItemsCount(subjects[|subjects| - 1].name, subjects[|subjects| - 1].subSubjects);
    }
  }

  /** Names and titles without '/', so that every path has one segment per level. */
  predicate SlashFree(subjects: seq<SubjectNode>) {
    forall n :: n in subjects ==>
      '/' !in n.name
      && forall m :: m in n.subSubjects ==>
           '/' !in m.name && forall l :: l in m.lessons ==> '/' !in l.title
  }

  /** The items of the given subject names, in order. */
  function SubjectItems(names: seq<string>): (r: seq<ItemView>)
    ensures |r| == |names| && forall i :: 0 <= i < |names| ==> r[i] == SubjectItem(names[i])
  {
    if names == [] then [] else SubjectItems(names[..|names| - 1]) + [SubjectItem(names[|names| - 1])]
  }

  /** The items of the given sub-subject names under subject s, in order. */
  function SubSubjectItemsOf(s: string, names: seq<string>): (r: seq<ItemView>)
    ensures |r| == |names| && forall i :: 0 <= i < |names| ==> r[i] == SubSubjectItem(s, names[i])
  {
    if names == [] then [] else SubSubjectItemsOf(s, names[..|names| - 1]) + [SubSubjectItem(s, names[|names| - 1])]
  }

  lemma {:induction false} LessonItemsNotListed(s: string, ss: string, lessons: seq<Lesson>, c: Listing)
    requires '/' !in s && '/' !in ss && forall l :: l in lessons ==> '/' !in l.title
    requires c.Inside? ==> '/' !in c.path
    ensures WhereView(LessonItems(s, ss, lessons), c) == []
  {
    if lessons != [] {
      var init, l := lessons[..|lessons| - 1], lessons[|lessons| - 1];
      LessonItemsNotListed(s, ss, init, c);
      WhereViewAppend(LessonItems(s, ss, init), [LessonItem(s, ss, l)], c);
      WhereViewSingle(LessonItem(s, ss, l), c);
      if c.Inside? {
        GrandchildNotChild(c.path, s, ss, l.title);
      }
    }
  }

  /** At the root, the sub-subject items and lesson items of a subject are not listed. */
  lemma {:induction false} SubSubjectItemsNotAtRoot(s: string, subs: seq<SubSubjectNode>)
    ensures WhereView(SubSubjectItems(s, subs), AtRoot) == []
  {
    if subs != [] {
      var init, m := subs[..|subs| - 1], subs[|subs| - 1];
      SubSubjectItemsNotAtRoot(s, init);
      LessonItemsAtRoot(s, m.name, m.lessons);
      WhereViewAround(SubSubjectItems(s, init), SubSubjectItem(s, m.name), LessonItems(s, m.name, m.lessons), AtRoot);
    }
  }

  lemma {:induction false} LessonItemsAtRoot(s: string, ss: string, lessons: seq<Lesson>)
    ensures WhereView(LessonItems(s, ss, lessons), AtRoot) == []
  {
    if lessons != [] {
      LessonItemsAtRoot(s, ss, lessons[..|lessons| - 1]);
      WhereViewAppend(LessonItems(s, ss, lessons[..|lessons| - 1]), [LessonItem(s, ss, lessons[|lessons| - 1])], AtRoot);
      WhereViewSingle(LessonItem(s, ss, lessons[|lessons| - 1]), AtRoot);
    }
  }

  /** The root lists exactly the subject items, in the order of the subjects. */
  lemma {:induction false} FlattenedRoot(subjects: seq<SubjectNode>)
    ensures WhereView(Flattened(subjects), AtRoot) == SubjectItems(Names(subjects))
  {
    if subjects != [] {
      var init, n := subjects[..|subjects| - 1], subjects[|subjects| - 1];
      FlattenedRoot(init);
      SubSubjectItemsNotAtRoot(n.name, n.subSubjects);
      WhereViewAround(Flattened(init), SubjectItem(n.name), SubSubjectItems(n.name, n.subSubjects), AtRoot);
      assert Names(subjects)[..|subjects| - 1] == Names(init);
    }
  }

  /** Inside subject s, the items of subject s2's part of the list that are listed: its
      sub-subject items when s2 == s, nothing otherwise. */
  lemma {:induction false} SubSubjectItemsInside(s2: string, subs: seq<SubSubjectNode>, s: string)
    requires '/' !in s && '/' !in s2
    requires forall m :: m in subs ==> '/' !in m.name && forall l :: l in m.lessons ==> '/' !in l.title
    ensures WhereView(SubSubjectItems(s2, subs), Inside(s))
         == if s2 == s then SubSubjectItemsOf(s, SubNames(subs)) else []
  {
    if subs != [] {
      var init, m := subs[..|subs| - 1], subs[|subs| - 1];
      assert m in subs;
      SubSubjectItemsInside(s2, init, s);
      LessonItemsNotListed(s2, m.name, m.lessons, Inside(s));
      ChildOfTopLevel(s, s2, m.name);
      WhereViewAround(SubSubjectItems(s2, init), SubSubjectItem(s2, m.name), LessonItems(s2, m.name, m.lessons), Inside(s));
      assert SubNames(subs)[..|subs| - 1] == SubNames(init);
    }
  }

  /** Inside subject s, the listed items of a flattened list: the sub-subject items of the
      subjects named s. */
  function ChildrenOf(subjects: seq<SubjectNode>, s: string): seq<ItemView> {
    if subjects == [] then []
    else
      var n := subjects[|subjects| - 1];
      ChildrenOf(subjects[..|subjects| - 1], s)
        + (if n.name == s then SubSubjectItemsOf(s, SubNames(n.subSubjects)) else [])
  }

  lemma {:induction false} FlattenedInside(subjects: seq<SubjectNode>, s: string)
    requires '/' !in s && SlashFree(subjects)
    ensures WhereView(Flattened(subjects), Inside(s)) == ChildrenOf(subjects, s)
  {
    if subjects != [] {
      var init, n := subjects[..|subjects| - 1], subjects[|subjects| - 1];
      SlashFreeSplit(subjects);
      FlattenedInside(init, s);
      var a, b := Flattened(init), SubSubjectItems(n.name, n.subSubjects);
      assert Flattened(subjects) == a + [SubjectItem(n.name)] + b;
      TopLevelNotChild(s, n.name);
      SubSubjectItemsInside(n.name, n.subSubjects, s);
      WhereViewSkip(a, SubjectItem(n.name), b, Inside(s));
    }
  }

  /** Filtering around an item the listing does not show. */
  lemma WhereViewSkip(a: seq<ItemView>, x: ItemView, b: seq<ItemView>, c: Listing)
    requires !Listed(c, x)
    ensures WhereView(a + [x] + b, c) == WhereView(a, c) + WhereView(b, c)
  {
    WhereViewAround(a, x, b, c);
  }

  /** Filtering a list around one of its items. */
  lemma WhereViewAround(a: seq<ItemView>, x: ItemView, b: seq<ItemView>, c: Listing)
    ensures WhereView(a + [x] + b, c) == WhereView(a, c) + (if Listed(c, x) then [x] else []) + WhereView(b, c)
  {
    WhereViewAppend(a, [x], c);
    WhereViewSingle(x, c);
    WhereViewAppend(a + [x], b, c);
  }

  /** A '/'-free list without its last node, and that node, are '/'-free. */
  lemma SlashFreeSplit(subjects: seq<SubjectNode>)
    requires SlashFree(subjects) && subjects != []
    ensures SlashFree(subjects[..|subjects| - 1])
    ensures var n := subjects[|subjects| - 1];
      '/' !in n.name
      && forall m :: m in n.subSubjects ==> '/' !in m.name && forall l :: l in m.lessons ==> '/' !in l.title
  {
    assert subjects[|subjects| - 1] in subjects;
    forall x | x in subjects[..|subjects| - 1] ensures x in subjects {
    }
  }

  // ---------------------------------------------------------------------------
  // The grouped catalog, flattened.

  /** Every lesson's subject, sub-subject and title is free of '/'. */
  predicate LessonsSlashFree(ls: seq<Lesson>) {
    forall l :: l in ls ==> '/' !in l.subject && '/' !in l.subSubject && '/' !in l.title
  }

  lemma GroupedSlashFree(ls: seq<Lesson>)
    requires LessonsSlashFree(ls)
    ensures SlashFree(Grouped(ls))
  {
    var g := Grouped(ls);
    GroupedNames(ls);
    forall n | n in g
      ensures '/' !in n.name
      ensures forall m :: m in n.subSubjects ==>
        '/' !in m.name && forall l :: l in m.lessons ==> '/' !in l.title
    {
      var i :| 0 <= i < |g| && g[i] == n;
      assert n.name in Names(g);
      GroupedNodeSlashFree(ls, i);
    }
  }

  lemma GroupedNodeSlashFree(ls: seq<Lesson>, i: nat)
    requires LessonsSlashFree(ls) && i < |Grouped(ls)|
    ensures var n := Grouped(ls)[i];
      forall m :: m in n.subSubjects ==> '/' !in m.name && forall l :: l in m.lessons ==> '/' !in l.title
  {
    var n := Grouped(ls)[i];
    GroupedSubjectNode(ls, i);
    forall m | m in n.subSubjects
      ensures '/' !in m.name && forall l :: l in m.lessons ==> '/' !in l.title
    {
      var j :| 0 <= j < |n.subSubjects| && n.subSubjects[j] == m;
      assert m.name in SubNames(n.subSubjects);
      GroupedNodeLessons(ls, i, j);
      forall l | l in m.lessons
        ensures '/' !in l.title
      {
        LessonsBySubjectAndSubSubjectMembers(ls, n.name, m.name, l);
      }
    }
  }

  /** With no node named s, the listing inside s is empty. */
  lemma {:induction false} ChildrenOfAbsent(ns: seq<SubjectNode>, s: string)
    requires s !in Names(ns)
    ensures ChildrenOf(ns, s) == []
  {
    if ns != [] {
      var init := ns[..|ns| - 1];
      forall k | 0 <= k < |init|
        ensures Names(init)[k] != s
      {
        assert Names(init)[k] == Names(ns)[k];
      }
      assert Names(ns)[|ns| - 1] != s;
      ChildrenOfAbsent(init, s);
    }
  }

  /** Among subject nodes with distinct names, the listing inside s holds the sub-subject
      items of the one node named s. */
  lemma {:induction false} ChildrenOfDistinct(ns: seq<SubjectNode>, s: string, i: int)
    requires NoRepeats(Names(ns))
    requires 0 <= i < |ns| && ns[i].name == s
    ensures ChildrenOf(ns, s) == SubSubjectItemsOf(s, SubNames(ns[i].subSubjects))
  {
    var init, n := ns[..|ns| - 1], ns[|ns| - 1];
    if i == |ns| - 1 {
      forall k | 0 <= k < |init|
        ensures Names(init)[k] != s
      {
        assert Names(init)[k] == Names(ns)[k];
      }
      ChildrenOfAbsent(init, s);
    } else {
      assert Names(ns)[i] == s && Names(ns)[|ns| - 1] == n.name;
      assert Names(init) == Names(ns)[..|ns| - 1];
      ChildrenOfDistinct(init, s, i);
    }
  }


  /** A non-empty sequence has its first element as a member. */
  lemma EmptyOrFirstMember(xs: seq<string>)
    ensures xs == [] || xs[0] in xs
  {
  }

  /** A name that is no subject has no sub-subjects. */
  lemma UnusedSubject(ls: seq<Lesson>, s: string)
    requires s !in AvailableSubjects(ls)
    ensures AvailableSubSubjects(ls, s) == []
  {
    var subs := AvailableSubSubjects(ls, s);
    assert forall l :: l in ls ==> l.subject != s;
    EmptyOrFirstMember(subs);
  }

  /** Opening the folder of subject s in the flattened catalog lists exactly the items of
      the sub-subjects used under s, in ascending order; for a name that is not a subject,
      nothing. */
  lemma OpenSubject(ls: seq<Lesson>, s: string)
    requires LessonsSlashFree(ls) && '/' !in s
    ensures WhereView(Flattened(Grouped(ls)), Inside(s)) == SubSubjectItemsOf(s, AvailableSubSubjects(ls, s))
  {
    GroupedSlashFree(ls);
    FlattenedInside(Grouped(ls), s);
    if s in AvailableSubjects(ls) {
      ChildrenOfSubject(ls, s);
    } else {
      ChildrenOfNonSubject(ls, s);
      UnusedSubject(ls, s);
    }
  }

  /** The children of a subject's folder are its node's sub-subject items. */
  lemma ChildrenOfSubject(ls: seq<Lesson>, s: string)
    requires s in AvailableSubjects(ls)
    ensures ChildrenOf(Grouped(ls), s) == SubSubjectItemsOf(s, AvailableSubSubjects(ls, s))
  {
    var g, keys := Grouped(ls), AvailableSubjects(ls);
    GroupedNames(ls);
    var i :| 0 <= i < |keys| && keys[i] == s;
    assert Names(g)[i] == s;
    ChildrenOfDistinct(g, s, i);
    assert g[i] == SubjectNodeFor(ls, s);
    SubjectNodeNames(ls, s);
  }

  /** A name that is no subject has no children. */
  lemma ChildrenOfNonSubject(ls: seq<Lesson>, s: string)
    requires s !in AvailableSubjects(ls)
    ensures ChildrenOf(Grouped(ls), s) == []
  {
    GroupedNames(ls);
    ChildrenOfAbsent(Grouped(ls), s);
  }

  /** The root of the flattened catalog lists exactly the subject items, one per subject,
      in ascending order. */
  lemma OpenRoot(ls: seq<Lesson>)
    ensures WhereView(Flattened(Grouped(ls)), AtRoot) == SubjectItems(AvailableSubjects(ls))
  {
    FlattenedRoot(Grouped(ls));
    assert Names(Grouped(ls)) == AvailableSubjects(ls);
  }

  // ---------------------------------------------------------------------------
  // Stepping back from a sub-subject.

  lemma {:induction false} LessonItemsBelow(s: string, ss: string, lessons: seq<Lesson>)
    ensures forall v :: v in LessonItems(s, ss, lessons) ==> '/' in v.fullPath
  {
    if lessons != [] {
      LessonItemsBelow(s, ss, lessons[..|lessons| - 1]);
      var l := lessons[|lessons| - 1];
      assert (s + "/" + ss + "/" + l.title)[|s|] == '/';
    }
  }

  lemma {:induction false} SubSubjectItemsBelow(s: string, subs: seq<SubSubjectNode>)
    ensures forall v :: v in SubSubjectItems(s, subs) ==> '/' in v.fullPath
  {
    if subs != [] {
      var m := subs[|subs| - 1];
      SubSubjectItemsBelow(s, subs[..|subs| - 1]);
      LessonItemsBelow(s, m.name, m.lessons);
      assert (s + "/" + m.name)[|s|] == '/';
    }
  }

  /** The only items whose path is a single name are the subject items of that name. */
  lemma {:induction false} SingleNamePaths(subjects: seq<SubjectNode>, p: string)
    requires '/' !in p
    ensures forall v :: v in Flattened(subjects) && v.fullPath == p ==> v == SubjectItem(p)
  {
    if subjects != [] {
      var n := subjects[|subjects| - 1];
      SingleNamePaths(subjects[..|subjects| - 1], p);
      SubSubjectItemsBelow(n.name, n.subSubjects);
    }
  }

  /** NavigateBack (or the ".." entry) from the folder of sub-subject ss of subject s
      leads to the item of subject s. */
  lemma BackFromSubSubject(items: seq<TreeItem>, ls: seq<Lesson>, s: string, ss: string)
    requires Views(items) == Flattened(Grouped(ls))
    requires s in AvailableSubjects(ls) && '/' !in s && '/' !in ss
    ensures ParentPath(s + "/" + ss) == s
    ensures FirstWithPath(items, s) != null && FirstWithPath(items, s).View() == SubjectItem(s)
  {
    ParentOfChild(s, ss);
    OpenRoot(ls);
    WhereViewMembers(Flattened(Grouped(ls)), AtRoot);
    var keys := AvailableSubjects(ls);
    var k :| 0 <= k < |keys| && keys[k] == s;
    assert SubjectItems(keys)[k] == SubjectItem(s);
    assert SubjectItem(s) in Flattened(Grouped(ls));
    var i :| 0 <= i < |items| && Views(items)[i] == SubjectItem(s);
    assert items[i].fullPath == s;
    SingleNamePaths(Grouped(ls), s);
    var first := FirstWithPath(items, s);
    assert first.View() in Views(items);
  }

  // ---------------------------------------------------------------------------
  // Every lesson of the catalog is shown somewhere in the tree.

  lemma {:induction false} LessonItemsHold(s: string, ss: string, lessons: seq<Lesson>, l: Lesson)
    requires l in lessons
    ensures LessonItem(s, ss, l) in LessonItems(s, ss, lessons)
  {
    var init := lessons[..|lessons| - 1];
    if l != lessons[|lessons| - 1] {
      assert lessons == init + [lessons[|lessons| - 1]];
      LessonItemsHold(s, ss, init, l);
    }
  }

  lemma {:induction false} SubSubjectItemsHold(s: string, subs: seq<SubSubjectNode>, j: nat, l: Lesson)
    requires j < |subs| && l in subs[j].lessons
    ensures LessonItem(s, subs[j].name, l) in SubSubjectItems(s, subs)
  {
    var init, m := subs[..|subs| - 1], subs[|subs| - 1];
    if j == |subs| - 1 {
      LessonItemsHold(s, m.name, m.lessons, l);
    } else {
      assert init[j] == subs[j];
      SubSubjectItemsHold(s, init, j, l);
    }
  }

  lemma {:induction false} FlattenedHolds(subjects: seq<SubjectNode>, i: nat, j: nat, l: Lesson)
    requires i < |subjects| && j < |subjects[i].subSubjects| && l in subjects[i].subSubjects[j].lessons
    ensures LessonItem(subjects[i].name, subjects[i].subSubjects[j].name, l) in Flattened(subjects)
  {
    var init, n := subjects[..|subjects| - 1], subjects[|subjects| - 1];
    if i == |subjects| - 1 {
      SubSubjectItemsHold(n.name, n.subSubjects, j, l);
    } else {
      assert init[i] == subjects[i];
      FlattenedHolds(init, i, j, l);
    }
  }

  /** Each lesson of the document is shown as the leaf at Subject/SubSubject/Title,
      named "Title (Year)" and carrying the lesson. */
  lemma FlattenedHoldsLesson(ls: seq<Lesson>, l: Lesson)
    requires l in ls
    ensures LessonItem(l.subject, l.subSubject, l) in Flattened(Grouped(ls))
  {
    GroupedHoldsLesson(ls, l);
    var g := Grouped(ls);
    var i, j :| 0 <= i < |g| && 0 <= j < |g[i].subSubjects| && g[i].name == l.subject
      && g[i].subSubjects[j].name == l.subSubject && l in g[i].subSubjects[j].lessons;
    FlattenedHolds(g, i, j, l);
  }
}
