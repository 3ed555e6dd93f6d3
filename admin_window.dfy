/** AdminWindow.xaml.cs: the administrator's window. It reloads the lesson tree from the
    repository, uploads a lesson from the form, deletes the selected lesson, and copies a
    dropped subject folder onto a removable drive. Message boxes become returned outcomes;
    the confirmation answer and the drive list are inputs. */
module Admin {
  import opened Optional
  import opened Text
  import opened FilePaths
  import opened Models
  import opened Catalog
  import opened Repository
  import opened TreeItems
  import opened TreeNavigation
  import opened FolderTree
  import opened LessonTree
  import opened Devices

  /** The year used when no year entry is selected. */
  const DefaultYear := "2024"

  /** The upload form as the click handler reads it: the three combo/text fields, the
      selected year entry's content (if any) and the chosen file path. */
  datatype UploadForm = UploadForm(
    subject: string,
    subSubject: string,
    title: string,
    year: Option<string>,
    filePath: string)

  /** The status line under the upload form. */
  datatype UploadStatus = NoStatus | FieldsMissing | NoValidFile | Uploaded(title: string)

  /** The two refusals of an upload, or the accepted, trimmed values. */
  datatype UploadCheck =
    | MissingFields
    | MissingFile
    | Accepted(subject: string, subSubject: string, title: string, year: string, filePath: string)

  /** The checks of UploadButton_Click, in order: a subject, sub-subject or title that is
      empty after trimming refuses the upload; then an empty path or a path that names no
      file refuses it. */
  function CheckUpload(form: UploadForm, files: map<string, nat>): (r: UploadCheck)
    ensures r.MissingFields? <==> IsBlank(form.subject) || IsBlank(form.subSubject) || IsBlank(form.title)
    ensures r.MissingFile? <==> !r.MissingFields? && (form.filePath == [] || form.filePath !in files)
    ensures r.Accepted? ==>
      r.subject == Trim(form.subject) && r.subSubject == Trim(form.subSubject) && r.title == Trim(form.title)
      && r.subject != [] && r.subSubject != [] && r.title != []
      && r.year == (if form.year.Some? then form.year.value else DefaultYear)
      && r.filePath == form.filePath && r.filePath in files
  {
    BlankIffTrimEmpty(form.subject);
    BlankIffTrimEmpty(form.subSubject);
    BlankIffTrimEmpty(form.title);
    var subject, subSubject, title := Trim(form.subject), Trim(form.subSubject), Trim(form.title);
    var year := if form.year.Some? then form.year.value else DefaultYear;
    if subject == [] || subSubject == [] || title == [] then MissingFields
    else if form.filePath == [] || form.filePath !in files then MissingFile
    else Accepted(subject, subSubject, title, year, form.filePath)
  }

  /** The lesson an accepted upload hands to the repository: a new lesson with the
      trimmed subject, sub-subject and title and the year. */
  function UploadedLesson(c: UploadCheck, freshId: string, now: Timestamp): (l: Lesson)
    requires c.Accepted? && freshId != []
    ensures l.id == freshId && l.createdAt == now
    ensures l.subject == c.subject && l.subSubject == c.subSubject && l.title == c.title && l.year == c.year
    ensures l.filePath == [] && l.pdfPath == [] && l.fileSize == 0 && l.pdfSize == 0 && !l.hasPdf
  {
    NewLesson(freshId, now).(title := c.title, subject := c.subject, subSubject := c.subSubject, year := c.year)
  }

  /** What AddLesson records for an accepted upload: the new lesson with the stored audio
      path under the audio folder and the length of the chosen file. */
  function StoredUpload(c: UploadCheck, freshId: string, now: Timestamp, audioPath: string,
                        files: map<string, nat>): Lesson
    requires c.Accepted? && freshId != [] && c.filePath in files
  {
    UploadedLesson(c, freshId, now).(filePath := AudioDestination(audioPath, freshId, c.filePath),
                                     fileSize := files[c.filePath])
  }

  /** A lesson appended to the stored ones is offered as a subject choice and shown as a
      leaf of the tree. */
  lemma UploadShown(before: seq<Lesson>, stored: Lesson)
    ensures stored.subject in AvailableSubjects(before + [stored])
    ensures LessonItem(stored.subject, stored.subSubject, stored) in Flattened(Grouped(before + [stored]))
  {
    var ls := before + [stored];
    assert ls[|before|] == stored;
    FlattenedHoldsLesson(ls, stored);
  }

  /** The outcome of the delete button, one per message box. */
  datatype DeleteOutcome = NothingSelected | OnlyLessons | Cancelled | Deleted | NotFound

  /** The name a lesson's copy gets on the drive: "<Title>_<Year>.mp3". */
  function CopyName(l: Lesson): string {
    l.title + "_" + l.year + ".mp3"
  }

  /** One planned File.Copy: from a source path to a target path, overwriting. */
  datatype Copy = Copy(source: string, target: string)

  /** The copies for the lessons of one sub-subject node, into the folder dir. The source is
      the audio path the repository reports for the lesson's id. */
  function LessonCopies(ls: seq<Lesson>, dir: string, lessons: seq<Lesson>): (r: seq<Copy>)
    ensures |r| == |lessons|
    ensures forall k :: 0 <= k < |lessons| ==>
      r[k] == Copy(LessonAudioPath(ls, lessons[k].id), Combine(dir, CopyName(lessons[k])))
  {
    MapSeq(lessons, (l: Lesson) => Copy(LessonAudioPath(ls, l.id), Combine(dir, CopyName(l))))
  }

  /** The copies for the sub-subject nodes of a subject, each into its own folder below
      dest. */
  function SubSubjectCopies(ls: seq<Lesson>, dest: string, subs: seq<SubSubjectNode>): seq<Copy> {
    if subs == [] then []
    else
      var m := subs[|subs| - 1];
      SubSubjectCopies(ls, dest, subs[..|subs| - 1]) + LessonCopies(ls, Combine(dest, m.name), m.lessons)
  }

  /** The copies CopyFolderContents plans: only subject nodes named like the dropped
      folder contribute. */
  function FolderCopies(ls: seq<Lesson>, subjects: seq<SubjectNode>, name: string, dest: string): seq<Copy> {
    if subjects == [] then []
    else
      FolderCopies(ls, subjects[..|subjects| - 1], name, dest) + SubjectCopies(ls, subjects[|subjects| - 1], name, dest)
  }

  /** The copies one subject node contributes: its sub-subjects' when it has the folder's
      name, none otherwise. */
  function SubjectCopies(ls: seq<Lesson>, n: SubjectNode, name: string, dest: string): seq<Copy> {
    if n.name == name then SubSubjectCopies(ls, dest, n.subSubjects) else []
  }

  /** Carrying out copies in order: each one whose source exists at that point (File.Exists)
      writes the source's length at its target; the others are skipped. */
  function Apply(files: map<string, nat>, copies: seq<Copy>): map<string, nat> {
    if copies == [] then files
    else
      var before := Apply(files, copies[..|copies| - 1]);
      var c := copies[|copies| - 1];
      if c.source in before then before[c.target := before[c.source]] else before
  }

  /** One more copy: it writes its target when its source exists at that point. */
  lemma ApplySnoc(files: map<string, nat>, a: seq<Copy>, c: Copy)
    ensures Apply(files, a + [c])
         == var before := Apply(files, a);
            if c.source in before then before[c.target := before[c.source]] else before
  {
    assert (a + [c])[..|a|] == a;
  }

  lemma LessonCopiesStep(ls: seq<Lesson>, dir: string, lessons: seq<Lesson>, k: nat)
    requires k < |lessons|
    ensures LessonCopies(ls, dir, lessons[..k + 1])
         == LessonCopies(ls, dir, lessons[..k]) + [Copy(LessonAudioPath(ls, lessons[k].id), Combine(dir, CopyName(lessons[k])))]
  {
    assert lessons[..k + 1][..k] == lessons[..k];
  }

  lemma SubSubjectCopiesStep(ls: seq<Lesson>, dest: string, subs: seq<SubSubjectNode>, j: nat)
    requires j < |subs|
    ensures SubSubjectCopies(ls, dest, subs[..j + 1])
         == SubSubjectCopies(ls, dest, subs[..j]) + LessonCopies(ls, Combine(dest, subs[j].name), subs[j].lessons)
  {
    assert subs[..j + 1][..j] == subs[..j];
  }

  lemma FolderCopiesStep(ls: seq<Lesson>, subjects: seq<SubjectNode>, name: string, dest: string, i: nat)
    requires i < |subjects|
    ensures FolderCopies(ls, subjects[..i + 1], name, dest)
         == FolderCopies(ls, subjects[..i], name, dest)
            + SubjectCopies(ls, subjects[i], name, dest)
  {
    assert subjects[..i + 1][..i] == subjects[..i];
  }

  lemma {:induction false} ApplyAppend(files: map<string, nat>, a: seq<Copy>, b: seq<Copy>)
    ensures Apply(files, a + b) == Apply(Apply(files, a), b)
  {
    if b != [] {
      assert (a + b)[..|a + b| - 1] == a + b[..|b| - 1];
      ApplyAppend(files, a, b[..|b| - 1]);
    } else {
      assert a + b == a;
    }
  }

  /** Copying only ever writes targets: every other path keeps its presence and its
      length. */
  lemma {:induction false} ApplyOnlyTargets(files: map<string, nat>, copies: seq<Copy>, p: string)
    requires forall c :: c in copies ==> c.target != p
    ensures (p in Apply(files, copies) <==> p in files)
    ensures p in files ==> Apply(files, copies)[p] == files[p]
  {
    if copies != [] {
      ApplyOnlyTargets(files, copies[..|copies| - 1], p);
    }
  }

  /** A copy whose source exists when the copying starts and is not the target of any
      copy is carried out: its target ends up present. */
  lemma {:induction false} ApplyWritesTarget(files: map<string, nat>, copies: seq<Copy>, k: nat)
    requires k < |copies| && copies[k].source in files
    requires forall c :: c in copies ==> c.target != copies[k].source
    ensures copies[k].target in Apply(files, copies)
  {
    var init := copies[..|copies| - 1];
    ApplyOnlyTargets(files, init, copies[k].source);
    if k < |copies| - 1 {
      assert copies[k] == init[k];
      ApplyWritesTarget(files, init, k);
    }
  }

  // ---------------------------------------------------------------------------
  // Which lessons the copy plan covers.

  lemma {:induction false} SubSubjectCopiesFrom(ls: seq<Lesson>, dest: string, subs: seq<SubSubjectNode>, c: Copy)
    requires c in SubSubjectCopies(ls, dest, subs)
    ensures exists j, l :: (0 <= j < |subs| && l in subs[j].lessons
      && c == Copy(LessonAudioPath(ls, l.id), Combine(Combine(dest, subs[j].name), CopyName(l))))
  {
    var init, m := subs[..|subs| - 1], subs[|subs| - 1];
    var tail := LessonCopies(ls, Combine(dest, m.name), m.lessons);
    if c in tail {
      var k :| 0 <= k < |tail| && tail[k] == c;
      assert m.lessons[k] in subs[|subs| - 1].lessons;
    } else {
      SubSubjectCopiesFrom(ls, dest, init, c);
      var j, l :| 0 <= j < |init| && l in init[j].lessons
        && c == Copy(LessonAudioPath(ls, l.id), Combine(Combine(dest, init[j].name), CopyName(l)));
      assert init[j] == subs[j];
    }
  }

  /** Every copy of the plan belongs to a lesson of a subject node named like the folder,
      and goes to "<dest>/<SubSubject>/<Title>_<Year>.mp3". */
  lemma {:induction false} FolderCopiesFrom(ls: seq<Lesson>, subjects: seq<SubjectNode>, name: string, dest: string, c: Copy)
    requires c in FolderCopies(ls, subjects, name, dest)
    ensures exists i, j, l :: (0 <= i < |subjects| && subjects[i].name == name
      && 0 <= j < |subjects[i].subSubjects| && l in subjects[i].subSubjects[j].lessons
      && c == Copy(LessonAudioPath(ls, l.id), Combine(Combine(dest, subjects[i].subSubjects[j].name), CopyName(l))))
  {
    var init, n := subjects[..|subjects| - 1], subjects[|subjects| - 1];
    if n.name == name && c in SubSubjectCopies(ls, dest, n.subSubjects) {
      SubSubjectCopiesFrom(ls, dest, n.subSubjects, c);
      var j, l :| 0 <= j < |n.subSubjects| && l in n.subSubjects[j].lessons
        && c == Copy(LessonAudioPath(ls, l.id), Combine(Combine(dest, n.subSubjects[j].name), CopyName(l)));
      assert subjects[|subjects| - 1] == n;
    } else {
      FolderCopiesFrom(ls, init, name, dest, c);
      var i, j, l :| 0 <= i < |init| && init[i].name == name
        && 0 <= j < |init[i].subSubjects| && l in init[i].subSubjects[j].lessons
        && c == Copy(LessonAudioPath(ls, l.id), Combine(Combine(dest, init[i].subSubjects[j].name), CopyName(l)));
      assert init[i] == subjects[i];
    }
  }

  lemma {:induction false} LessonCopiesHold(ls: seq<Lesson>, dir: string, lessons: seq<Lesson>, l: Lesson)
    requires l in lessons
    ensures Copy(LessonAudioPath(ls, l.id), Combine(dir, CopyName(l))) in LessonCopies(ls, dir, lessons)
  {
    var k :| 0 <= k < |lessons| && lessons[k] == l;
  }

  lemma {:induction false} SubSubjectCopiesHold(ls: seq<Lesson>, dest: string, subs: seq<SubSubjectNode>, j: nat, l: Lesson)
    requires j < |subs| && l in subs[j].lessons
    ensures Copy(LessonAudioPath(ls, l.id), Combine(Combine(dest, subs[j].name), CopyName(l)))
      in SubSubjectCopies(ls, dest, subs)
  {
    var init, m := subs[..|subs| - 1], subs[|subs| - 1];
    if j == |subs| - 1 {
      LessonCopiesHold(ls, Combine(dest, m.name), m.lessons, l);
    } else {
      assert init[j] == subs[j];
      SubSubjectCopiesHold(ls, dest, init, j, l);
    }
  }

  lemma {:induction false} FolderCopiesHold(ls: seq<Lesson>, subjects: seq<SubjectNode>, name: string, dest: string,
                                            i: nat, j: nat, l: Lesson)
    requires i < |subjects| && subjects[i].name == name
    requires j < |subjects[i].subSubjects| && l in subjects[i].subSubjects[j].lessons
    ensures Copy(LessonAudioPath(ls, l.id), Combine(Combine(dest, subjects[i].subSubjects[j].name), CopyName(l)))
      in FolderCopies(ls, subjects, name, dest)
  {
    var init, n := subjects[..|subjects| - 1], subjects[|subjects| - 1];
    if i == |subjects| - 1 {
      SubSubjectCopiesHold(ls, dest, n.subSubjects, j, l);
    } else {
      assert init[i] == subjects[i];
      FolderCopiesHold(ls, init, name, dest, i, j, l);
    }
  }

  /** Dropping the folder of subject s plans one copy per lesson of subject s, to
      "<dest>/<SubSubject>/<Title>_<Year>.mp3", and nothing for any other lesson. */
  lemma FolderCopiesExactly(ls: seq<Lesson>, s: string, dest: string, l: Lesson)
    requires l in ls && l.subject == s
    ensures Copy(LessonAudioPath(ls, l.id), Combine(Combine(dest, l.subSubject), CopyName(l)))
      in FolderCopies(ls, Grouped(ls), s, dest)
  {
    GroupedHoldsLesson(ls, l);
    var g := Grouped(ls);
    var i, j :| 0 <= i < |g| && 0 <= j < |g[i].subSubjects| && g[i].name == l.subject
      && g[i].subSubjects[j].name == l.subSubject && l in g[i].subSubjects[j].lessons;
    FolderCopiesHold(ls, g, s, dest, i, j, l);
  }

  /** Conversely, every planned copy belongs to a lesson of the document whose subject is
      the folder's name. */
  lemma FolderCopiesOnlySubject(ls: seq<Lesson>, s: string, dest: string, c: Copy)
    requires c in FolderCopies(ls, Grouped(ls), s, dest)
    ensures exists l :: (l in ls && l.subject == s
      && c == Copy(LessonAudioPath(ls, l.id), Combine(Combine(dest, l.subSubject), CopyName(l))))
  {
    var g := Grouped(ls);
    FolderCopiesFrom(ls, g, s, dest, c);
    var i, j, l :| 0 <= i < |g| && g[i].name == s
      && 0 <= j < |g[i].subSubjects| && l in g[i].subSubjects[j].lessons
      && c == Copy(LessonAudioPath(ls, l.id), Combine(Combine(dest, g[i].subSubjects[j].name), CopyName(l)));
    GroupedNodeLessons(ls, i, j);
    LessonsBySubjectAndSubSubjectMembers(ls, s, g[i].subSubjects[j].name, l);
  }

  /** The upload form after an accepted upload: cleared, with the first year entry
      selected, and then holding the first of the reloaded subjects when there is one. */
  function ResetForm(firstYear: Option<string>, subjects: seq<string>): UploadForm {
    var cleared := UploadForm("", "", "", firstYear, "");
    if subjects == [] then cleared else cleared.(subject := subjects[0])
  }

  class AdminWindow {
    const repository: LessonRepository
    /** LessonsTreeView. */
    const tree: FolderTreeView
    /** The content of YearComboBox's first entry, selected when the form is cleared. */
    const firstYear: Option<string>
    var form: UploadForm
    var status: UploadStatus
    /** SubjectComboBox's items. */
    var subjectChoices: seq<string>

    constructor(repository: LessonRepository, tree: FolderTreeView, firstYear: Option<string>)
      ensures this.repository == repository && this.tree == tree && this.firstYear == firstYear
      ensures form == UploadForm("", "", "", firstYear, "") && status == NoStatus && subjectChoices == []
    {
      this.repository := repository;
      this.tree := tree;
      this.firstYear := firstYear;
      form := UploadForm("", "", "", firstYear, "");
      status := NoStatus;
      subjectChoices := [];
    }

    /** The check the upload button would make now. */
    function PendingUpload(): UploadCheck
      reads this, repository.disk
    {
      CheckUpload(form, repository.disk.files)
    }

    /** LoadExistingLessons: the tree shows the flattened grouping of the stored lessons,
        as new items, and so no longer holds a selection. */
    method LoadExistingLessons()
      modifies tree`treeItems, tree`itemsSource, tree`selectedItem
      ensures Views(tree.treeItems) == Flattened(Grouped(LoadAll(repository.disk.document)))
      ensures fresh(set x | x in tree.treeItems)
      ensures tree.Shows() && tree.ChildFlagsCurrent()
      ensures tree.selectedItem == null
    {
      var subjects := repository.GetAllSubjects();
      ShowSubjects(tree, subjects);
    }

    /** LoadSubjects: the subject choices are the stored subjects, and selecting the first
        one (SelectedIndex = 0) puts it into the subject box. */
    method LoadSubjects()
      modifies this`subjectChoices, this`form
      ensures subjectChoices == AvailableSubjects(LoadAll(repository.disk.document))
      ensures form == if subjectChoices == [] then old(form) else old(form).(subject := subjectChoices[0])
    {
      var subjects := AvailableSubjects(LoadAll(repository.disk.document));
      subjectChoices := subjects;
      if |subjects| > 0 {
        form := form.(subject := subjects[0]);
      }
    }

    /** ClearUploadForm. */
    method ClearUploadForm()
      modifies this`form
      ensures form == UploadForm("", "", "", firstYear, "")
    {
      form := UploadForm("", "", "", firstYear, "");
    }

    /** UploadButton_Click. A refused upload only sets the status. An accepted one adds the
        lesson through the repository (the new lesson's id and creation time are the
        inputs freshId and now), then clears the form and reloads the subjects and the
        tree; when the save went through, the new lesson is shown in the tree under its
        subject and sub-subject. */
    method UploadButtonClick(freshId: string, now: Timestamp, saveSucceeds: bool)
      requires freshId != []
      modifies this`form, this`status, this`subjectChoices, repository.disk, tree`treeItems, tree`itemsSource,
        tree`selectedItem
      ensures !old(PendingUpload()).Accepted? ==>
        unchanged(repository.disk) && form == old(form) && subjectChoices == old(subjectChoices)
        && tree.treeItems == old(tree.treeItems) && tree.itemsSource == old(tree.itemsSource)
        && tree.selectedItem == old(tree.selectedItem)
      ensures old(PendingUpload()).MissingFields? ==> status == FieldsMissing
      ensures old(PendingUpload()).MissingFile? ==> status == NoValidFile
      ensures old(PendingUpload()).Accepted? ==>
        UploadDone(old(PendingUpload()), StoredUpload(old(PendingUpload()), freshId, now, repository.audioPath,
                                                      old(repository.disk.files)),
                   old(repository.disk.files), old(repository.disk.document), saveSucceeds)
    {
      var c := CheckUpload(form, repository.disk.files);
      if c.MissingFields? {
        status := FieldsMissing;
        return;
      }
      if c.MissingFile? {
        status := NoValidFile;
        return;
      }
      UploadAccepted(c, freshId, now, saveSucceeds);
    }

    /** The state after an accepted upload of c that stored the lesson stored, given the
        files and the document before it. */
    ghost predicate UploadDone(c: UploadCheck, stored: Lesson, files: map<string, nat>, document: Document,
                               saveSucceeds: bool)
      requires c.Accepted?
      reads this, repository.disk, tree
    {
      status == Uploaded(c.title)
      && form == ResetForm(firstYear, subjectChoices)
      && repository.disk.files == files[stored.filePath := stored.fileSize]
      && repository.disk.document == (if saveSucceeds then Records(LoadAll(document) + [stored]) else document)
      && subjectChoices == AvailableSubjects(LoadAll(repository.disk.document))
      && Views(tree.treeItems) == Flattened(Grouped(LoadAll(repository.disk.document)))
      && tree.selectedItem == null
      && (saveSucceeds ==>
            c.subject in subjectChoices && LessonItem(c.subject, c.subSubject, stored) in Views(tree.treeItems))
    }

    /** The accepted branch of UploadButton_Click. */
    method UploadAccepted(c: UploadCheck, freshId: string, now: Timestamp, saveSucceeds: bool)
      requires c.Accepted? && c.filePath in repository.disk.files && freshId != []
      modifies this`form, this`status, this`subjectChoices, repository.disk, tree`treeItems, tree`itemsSource,
        tree`selectedItem
      ensures UploadDone(c, StoredUpload(c, freshId, now, repository.audioPath, old(repository.disk.files)),
                         old(repository.disk.files), old(repository.disk.document), saveSucceeds)
    {
      var before := LoadAll(repository.disk.document);
      var lesson := UploadedLesson(c, freshId, now);
      var ok, stored := repository.AddLesson(lesson, c.filePath, saveSucceeds);
      FinishUpload(c.title, before, stored, saveSucceeds);
    }

    /** What follows a successful AddLesson: the success status, the cleared form and the
        two reloads; the reload of the subjects preselects the first one. */
    method FinishUpload(title: string, before: seq<Lesson>, stored: Lesson, appended: bool)
      requires appended ==> repository.disk.document == Records(before + [stored])
      modifies this`status, this`form, this`subjectChoices, tree`treeItems, tree`itemsSource, tree`selectedItem
      ensures status == Uploaded(title) && form == ResetForm(firstYear, subjectChoices)
      ensures subjectChoices == AvailableSubjects(LoadAll(repository.disk.document))
      ensures Views(tree.treeItems) == Flattened(Grouped(LoadAll(repository.disk.document)))
      ensures tree.selectedItem == null
      ensures appended ==>
        stored.subject in subjectChoices && LessonItem(stored.subject, stored.subSubject, stored) in Views(tree.treeItems)
    {
      status := Uploaded(title);
      ClearUploadForm();
      ReloadLessons(before, stored, appended);
    }

    /** The two reloads after an upload: the subject choices and the tree. When the stored
        lesson was appended to the document, its subject is offered and it is shown. */
    method ReloadLessons(before: seq<Lesson>, stored: Lesson, appended: bool)
      requires appended ==> repository.disk.document == Records(before + [stored])
      modifies this`subjectChoices, this`form, tree`treeItems, tree`itemsSource, tree`selectedItem
      ensures subjectChoices == AvailableSubjects(LoadAll(repository.disk.document))
      ensures form == if subjectChoices == [] then old(form) else old(form).(subject := subjectChoices[0])
      ensures Views(tree.treeItems) == Flattened(Grouped(LoadAll(repository.disk.document)))
      ensures tree.selectedItem == null
      ensures appended ==>
        stored.subject in subjectChoices && LessonItem(stored.subject, stored.subSubject, stored) in Views(tree.treeItems)
    {
      LoadSubjects();
      LoadExistingLessons();
      if appended {
        UploadShown(before, stored);
      }
    }

    /** DeleteButton_Click, given the answer to the confirmation box. Only a selected leaf
        is deleted, after confirmation; a successful delete reloads the tree. */
    method DeleteButtonClick(confirmed: bool, saveSucceeds: bool) returns (outcome: DeleteOutcome)
      modifies repository.disk, tree`treeItems, tree`itemsSource, tree`selectedItem
      ensures var sel := old(tree.selectedItem);
        (sel == null <==> outcome == NothingSelected)
        && (sel != null && sel.isFolder <==> outcome == OnlyLessons)
        && (sel != null && !sel.isFolder && !confirmed <==> outcome == Cancelled)
        && (outcome == Deleted <==>
              sel != null && !sel.isFolder && confirmed && FirstIndexOfId(LoadAll(old(repository.disk.document)), sel.id).Some?)
      ensures outcome != Deleted ==>
        unchanged(repository.disk) && tree.treeItems == old(tree.treeItems) && tree.itemsSource == old(tree.itemsSource)
        && tree.selectedItem == old(tree.selectedItem)
      ensures outcome == Deleted ==>
        var ls := LoadAll(old(repository.disk.document));
        var i := FirstIndexOfId(ls, old(tree.selectedItem.id)).value;
        repository.disk.files == old(repository.disk.files) - {ls[i].filePath}
        && repository.disk.document == (if saveSucceeds then Records(RemoveAt(ls, i)) else old(repository.disk.document))
        && Views(tree.treeItems) == Flattened(Grouped(LoadAll(repository.disk.document)))
        && tree.selectedItem == null
    {
      var sel := tree.selectedItem;
      if sel == null {
        return NothingSelected;
      }
      if sel.isFolder {
        return OnlyLessons;
      }
      if !confirmed {
        return Cancelled;
      }
      outcome := DeleteConfirmed(sel.id, saveSucceeds);
    }

    /** The confirmed branch of DeleteButton_Click: delete the lesson with the id and, when
        it was found, reload the tree. */
    method DeleteConfirmed(id: string, saveSucceeds: bool) returns (outcome: DeleteOutcome)
      modifies repository.disk, tree`treeItems, tree`itemsSource, tree`selectedItem
      ensures var ls := LoadAll(old(repository.disk.document));
        var found := FirstIndexOfId(ls, id);
        (outcome == Deleted <==> found.Some?)
        && (outcome != Deleted ==> outcome == NotFound)
        && (found.None? ==>
              unchanged(repository.disk) && tree.treeItems == old(tree.treeItems)
              && tree.itemsSource == old(tree.itemsSource) && tree.selectedItem == old(tree.selectedItem))
        && (found.Some? ==>
              repository.disk.files == old(repository.disk.files) - {ls[found.value].filePath}
              && repository.disk.document
                 == (if saveSucceeds then Records(RemoveAt(ls, found.value)) else old(repository.disk.document))
              && Views(tree.treeItems) == Flattened(Grouped(LoadAll(repository.disk.document)))
              && tree.selectedItem == null)
    {
      var ok := repository.DeleteLesson(id, saveSucceeds);
      if ok {
        LoadExistingLessons();
        outcome := Deleted;
      } else {
        outcome := NotFound;
      }
    }

    /** CopyFolderContents: for the subject nodes named like the folder, copies each
        lesson's audio, when it exists, to "<dest>/<SubSubject>/<Title>_<Year>.mp3",
        overwriting. Creating the folders is not modelled. */
    method CopyFolderContents(folder: TreeItem, dest: string)
      modifies repository.disk`files
      ensures repository.disk.files
        == Apply(old(repository.disk.files), FolderCopies(LoadAll(repository.disk.document),
                                                          Grouped(LoadAll(repository.disk.document)), folder.name, dest))
    {
      var ls := LoadAll(repository.disk.document);
      var subjects := repository.GetAllSubjects();
      var i := 0;
      while i < |subjects|
        invariant 0 <= i <= |subjects|
        invariant repository.disk.files == Apply(old(repository.disk.files), FolderCopies(ls, subjects[..i], folder.name, dest))
      {
        FolderCopiesStep(ls, subjects, folder.name, dest, i);
        ApplyAppend(old(repository.disk.files), FolderCopies(ls, subjects[..i], folder.name, dest),
                    SubjectCopies(ls, subjects[i], folder.name, dest));
        CopySubject(ls, subjects[i], folder.name, dest);
        i := i + 1;
      }
      assert subjects[..i] == subjects;
    }

    /** The body of the outer loop: a subject named like the folder has its sub-subjects
        copied; any other subject copies nothing. */
    method CopySubject(ls: seq<Lesson>, subject: SubjectNode, name: string, dest: string)
      requires ls == LoadAll(repository.disk.document)
      modifies repository.disk`files
      ensures repository.disk.files == Apply(old(repository.disk.files), SubjectCopies(ls, subject, name, dest))
    {
      if subject.name == name {
        CopySubSubjects(ls, subject.subSubjects, dest);
      }
    }

    /** The loop over the sub-subject nodes of one subject. */
    method CopySubSubjects(ls: seq<Lesson>, subs: seq<SubSubjectNode>, dest: string)
      requires ls == LoadAll(repository.disk.document)
      modifies repository.disk`files
      ensures repository.disk.files == Apply(old(repository.disk.files), SubSubjectCopies(ls, dest, subs))
    {
      var j := 0;
      while j < |subs|
        invariant 0 <= j <= |subs|
        invariant repository.disk.files == Apply(old(repository.disk.files), SubSubjectCopies(ls, dest, subs[..j]))
      {
        var subFolder := Combine(dest, subs[j].name);
        SubSubjectCopiesStep(ls, dest, subs, j);
        CopyLessons(ls, subs[j].lessons, subFolder);
        ApplyAppend(old(repository.disk.files), SubSubjectCopies(ls, dest, subs[..j]),
                    LessonCopies(ls, subFolder, subs[j].lessons));
        j := j + 1;
      }
      assert subs[..j] == subs;
    }

    /** The loop over the lessons of one sub-subject node. */
    method CopyLessons(ls: seq<Lesson>, lessons: seq<Lesson>, subFolder: string)
      requires ls == LoadAll(repository.disk.document)
      modifies repository.disk`files
      ensures repository.disk.files == Apply(old(repository.disk.files), LessonCopies(ls, subFolder, lessons))
    {
      var k := 0;
      while k < |lessons|
        invariant 0 <= k <= |lessons|
        invariant repository.disk.files == Apply(old(repository.disk.files), LessonCopies(ls, subFolder, lessons[..k]))
      {
        var lesson := lessons[k];
        var source := LessonAudioPath(ls, lesson.id);
        LessonCopiesStep(ls, subFolder, lessons, k);
        ApplySnoc(old(repository.disk.files), LessonCopies(ls, subFolder, lessons[..k]),
                  Copy(source, Combine(subFolder, CopyName(lesson))));
        if source in repository.disk.files {
          var target := Combine(subFolder, CopyName(lesson));
          repository.disk.files := repository.disk.files[target := repository.disk.files[source]];
        }
        k := k + 1;
      }
      assert lessons[..k] == lessons;
    }

    /** LessonsTreeView_Drop with a dragged item. A folder is copied into a folder of its
        own name at the root of the first removable, ready drive; without such a drive
        (or when its root name is empty) nothing is copied. Dropping a leaf does nothing. */
    method Drop(dragged: TreeItem, drives: seq<Drive>) returns (copied: bool)
      modifies repository.disk`files
      ensures var first := FirstUsable(drives);
        copied <==> dragged.isFolder && first.Some? && drives[first.value].root != ""
      ensures !copied ==> repository.disk.files == old(repository.disk.files)
      ensures copied ==>
        var usb := drives[FirstUsable(drives).value].root;
        var ls := LoadAll(repository.disk.document);
        repository.disk.files == Apply(old(repository.disk.files),
                                       FolderCopies(ls, Grouped(ls), dragged.name, Combine(usb, dragged.name)))
    {
      if !dragged.isFolder {
        return false;
      }
      var usb := GetUsbDrivePath(drives);
      if usb == "" {
        return false;
      }
      CopyFolderContents(dragged, Combine(usb, dragged.name));
      copied := true;
    }
  }
}
