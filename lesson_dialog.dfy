/** AddEditLessonDialog.xaml.cs: the dialog that fills in a lesson, either a new one (add
    mode) or an existing one (edit mode). The combo boxes and text boxes are the fields of
    LessonForm; the chosen audio and PDF paths are nullable strings; error boxes become
    the last reported FieldCheck. The current year, the new id and the creation time are
    inputs. */
module LessonDialog {
  import opened Optional
  import opened Text
  import opened Models
  import opened Catalog
  import opened Repository

  /** The form as the dialog reads it: the title text, the selected subject, the selected
      sub-subject and the typed sub-subject text of its editable combo box, and the
      selected year. */
  datatype LessonForm = LessonForm(
    title: string,
    subject: Option<string>,
    subSubject: Option<string>,
    subSubjectText: string,
    year: Option<string>)

  const EmptyForm := LessonForm("", None, None, "", None)

  /** string.IsNullOrEmpty on a nullable string. */
  predicate NullOrEmpty(p: Option<string>) {
    p.None? || p.value == []
  }

  /** SelectedItem = v on a combo box over choices: the item is selected when the list has
      it, and nothing is selected otherwise. */
  function SelectIn(choices: seq<string>, v: string): (r: Option<string>)
    ensures r.Some? <==> v in choices
    ensures r.Some? ==> r.value == v
  {
    if v in choices then Some(v) else None
  }

  /** A combo box whose ItemsSource is replaced by choices keeps its selection only when
      the new list has it; otherwise nothing is selected. */
  function Reselect(selected: Option<string>, choices: seq<string>): (r: Option<string>)
    ensures r.Some? <==> selected.Some? && selected.value in choices
    ensures r.Some? ==> r == selected
  {
    if selected.Some? then SelectIn(choices, selected.value) else None
  }

  // ---------------------------------------------------------------------------
  // The year list.

  /** count values rendered by render, counting down from the value from. */
  function Countdown(render: int -> string, from: int, count: nat): (r: seq<string>)
    ensures |r| == count
    decreases count
  {
    if count == 0 then [] else [render(from)] + Countdown(render, from - 1, count - 1)
  }

  /** The years offered, as text: from next year down to five years ago. */
  function YearList(currentYear: int): seq<string> {
    Countdown(IntToString, currentYear + 1, 7)
  }

  /** Entry k of a countdown renders from - k. */
  lemma {:induction false} CountdownAt(render: int -> string, from: int, count: nat, k: int)
    requires 0 <= k < count
    ensures Countdown(render, from, count)[k] == render(from - k)
    decreases count
  {
    var rest := Countdown(render, from - 1, count - 1);
    assert Countdown(render, from, count) == [render(from)] + rest;
    if k > 0 {
      CountdownAt(render, from - 1, count - 1, k - 1);
      assert Countdown(render, from, count)[k] == rest[k - 1];
    }
  }

  /** Counting down one value further appends the next value down. */
  lemma {:induction false} CountdownSnoc(render: int -> string, from: int, count: nat)
    ensures Countdown(render, from, count + 1) == Countdown(render, from, count) + [render(from - count)]
    decreases count
  {
    var last := [render(from - count)];
    if count > 0 {
      var rest := Countdown(render, from - 1, count - 1);
      assert Countdown(render, from, count) == [render(from)] + rest;
      assert Countdown(render, from, count + 1) == [render(from)] + Countdown(render, from - 1, count);
      CountdownSnoc(render, from - 1, count - 1);
      assert Countdown(render, from - 1, count) == rest + last;
      assert [render(from)] + (rest + last) == ([render(from)] + rest) + last;
    } else {
      assert Countdown(render, from, 1) == [render(from)] + Countdown(render, from - 1, 0);
    }
  }

  /** No two values render to the same text. */
  ghost predicate Injective(render: int -> string) {
    forall a, b :: render(a) == render(b) ==> a == b
  }

  /** No text occurs at two positions. */
  ghost predicate AllDifferent(ys: seq<string>) {
    forall j, k :: 0 <= j < |ys| && 0 <= k < |ys| && ys[j] == ys[k] ==> j == k
  }

  /** A countdown under a rendering that never gives two values the same text holds no
      text twice. */
  lemma CountdownDistinct(render: int -> string, from: int, count: nat)
    requires Injective(render)
    ensures AllDifferent(Countdown(render, from, count))
  {
    var ys := Countdown(render, from, count);
    forall j, k | 0 <= j < count && 0 <= k < count && ys[j] == ys[k]
      ensures j == k
    {
      CountdownAt(render, from, count, j);
      CountdownAt(render, from, count, k);
    }
  }

  /** The year list has seven entries, from next year down to five years back. */
  lemma YearListEntries(currentYear: int)
    ensures |YearList(currentYear)| == 7
    ensures forall k :: 0 <= k < 7 ==> YearList(currentYear)[k] == IntToString(currentYear + 1 - k)
  {
    forall k | 0 <= k < 7 ensures YearList(currentYear)[k] == IntToString(currentYear + 1 - k) {
      CountdownAt(IntToString, currentYear + 1, 7, k);
    }
  }

  /** The year list holds the current year, which add mode preselects. */
  lemma YearListHasCurrentYear(currentYear: int)
    ensures IntToString(currentYear) in YearList(currentYear)
  {
    CountdownAt(IntToString, currentYear + 1, 7, 1);
  }

  /** Rendering years as text never gives two years the same text. */
  lemma YearTextInjective()
    ensures Injective(IntToString)
  {
    forall a, b | IntToString(a) == IntToString(b)
      ensures a == b
    {
      IntToStringInjective(a, b);
    }
  }

  /** No year is offered twice. */
  lemma YearListDistinct(currentYear: int)
    ensures AllDifferent(YearList(currentYear))
  {
    YearTextInjective();
    CountdownDistinct(IntToString, currentYear + 1, 7);
  }

  /** The counting loop of InitializeDialog. */
  method BuildYears(currentYear: int) returns (years: seq<string>)
    ensures years == YearList(currentYear)
  {
    years := [];
    var i := currentYear + 1;
    while i >= currentYear - 5
      invariant currentYear - 6 <= i <= currentYear + 1
      invariant years == Countdown(IntToString, currentYear + 1, currentYear + 1 - i)
      decreases i - (currentYear - 6)
    {
      CountdownSnoc(IntToString, currentYear + 1, currentYear + 1 - i);
      years := years + [IntToString(i)];
      i := i - 1;
    }
  }

  // ---------------------------------------------------------------------------
  // The subject list.

  /** The subjects offered when the catalog has none. */
  const DefaultSubjects := ["גמרא", "הלכה", "מוסר", "קבלה"]

  /** LoadSubjects: the stored subjects, or the default list when there are none. The
      repository reads a missing or unreadable document as the empty catalog, so its
      failures land in the fallback too. */
  function SubjectChoices(ls: seq<Lesson>): (r: seq<string>)
    ensures ls == [] ==> r == DefaultSubjects
    ensures ls != [] ==> r == AvailableSubjects(ls)
    ensures r != []
  {
    var available := AvailableSubjects(ls);
    assert ls != [] ==> ls[0].subject in available;
    if available == [] then DefaultSubjects else available
  }

  // ---------------------------------------------------------------------------
  // Validation.

  /** The outcome of ValidateFields: success, or the first rule broken. */
  datatype FieldCheck =
    | FieldsValid
    | TitleMissing
    | TitleTooShort
    | SubjectMissing
    | SubSubjectMissing
    | YearMissing
    | AudioMissing
    | AudioNotFound
    | PdfNotFound

  /** ValidateFields. The rules, checked in order: a title, of at least three UTF-16 code
      units once trimmed; a subject; a selected or typed sub-subject; a year; in add mode an
      audio file; a chosen audio file that exists; a chosen PDF file that exists. */
  function ValidateFields(f: LessonForm, isEditMode: bool, audio: Option<string>, pdf: Option<string>,
                          files: map<string, nat>): FieldCheck
  {
    if IsBlank(f.title) then TitleMissing
    else if Utf16Length(Trim(f.title)) < 3 then TitleTooShort
    else if f.subject.None? then SubjectMissing
    else if f.subSubject.None? && IsBlank(f.subSubjectText) then SubSubjectMissing
    else if f.year.None? then YearMissing
    else if !isEditMode && NullOrEmpty(audio) then AudioMissing
    else if !NullOrEmpty(audio) && audio.value !in files then AudioNotFound
    else if !NullOrEmpty(pdf) && pdf.value !in files then PdfNotFound
    else FieldsValid
  }

  /** A form passes validation exactly when it meets every rule. */
  lemma ValidateFieldsAccepts(f: LessonForm, isEditMode: bool, audio: Option<string>, pdf: Option<string>,
                              files: map<string, nat>)
    ensures ValidateFields(f, isEditMode, audio, pdf, files) == FieldsValid <==>
      !IsBlank(f.title) && Utf16Length(Trim(f.title)) >= 3 && f.subject.Some?
      && (f.subSubject.Some? || !IsBlank(f.subSubjectText)) && f.year.Some?
      && (!isEditMode ==> !NullOrEmpty(audio))
      && (!NullOrEmpty(audio) ==> audio.value in files)
      && (!NullOrEmpty(pdf) ==> pdf.value in files)
  {
  }

  /** The error reported is the first rule broken: every earlier rule holds. */
  lemma ValidateFieldsFirstError(f: LessonForm, isEditMode: bool, audio: Option<string>, pdf: Option<string>,
                                 files: map<string, nat>)
    ensures var r := ValidateFields(f, isEditMode, audio, pdf, files);
      (r == TitleMissing <==> IsBlank(f.title))
      && (r == TitleTooShort ==> !IsBlank(f.title) && Utf16Length(Trim(f.title)) < 3)
      && (r == SubjectMissing ==> Utf16Length(Trim(f.title)) >= 3 && f.subject.None?)
      && (r == SubSubjectMissing ==>
            Utf16Length(Trim(f.title)) >= 3 && f.subject.Some? && f.subSubject.None? && IsBlank(f.subSubjectText))
      && (r == YearMissing ==>
            Utf16Length(Trim(f.title)) >= 3 && f.subject.Some? && (f.subSubject.Some? || !IsBlank(f.subSubjectText))
            && f.year.None?)
      && (r == AudioMissing ==> f.year.Some? && !isEditMode && NullOrEmpty(audio))
      && (r == AudioNotFound ==>
            f.year.Some? && (!isEditMode ==> !NullOrEmpty(audio)) && !NullOrEmpty(audio) && audio.value !in files)
      && (r == PdfNotFound ==>
            f.year.Some? && (!NullOrEmpty(audio) ==> audio.value in files)
            && !NullOrEmpty(pdf) && pdf.value !in files)
  {
  }

  /** A valid form has what a save reads: a subject, a year, and in add mode an audio
      path. */
  lemma ValidFormShape(f: LessonForm, isEditMode: bool, audio: Option<string>, pdf: Option<string>,
                       files: map<string, nat>)
    requires ValidateFields(f, isEditMode, audio, pdf, files) == FieldsValid
    ensures f.subject.Some? && f.year.Some? && (!isEditMode ==> audio.Some?)
  {
  }

  // ---------------------------------------------------------------------------
  // Saving.

  /** The sub-subject a save records: the selected one, or else the typed text trimmed. */
  function SubSubjectValue(f: LessonForm): string {
    if f.subSubject.Some? then f.subSubject.value else Trim(f.subSubjectText)
  }

  /** The edit-mode PDF rule: a chosen PDF replaces the lesson's and marks it as having
      one; no PDF chosen (null) on a lesson that has one removes it; otherwise the PDF
      state is kept. Only the two PDF fields can change. */
  function MergePdf(l: Lesson, pdf: Option<string>): (r: Lesson)
    ensures !NullOrEmpty(pdf) ==> r.pdfPath == pdf.value && r.hasPdf
    ensures pdf.None? && l.hasPdf ==> r.pdfPath == [] && !r.hasPdf
    ensures pdf == Some([]) || (pdf.None? && !l.hasPdf) ==> r == l
    ensures r.(pdfPath := l.pdfPath, hasPdf := l.hasPdf) == l
  {
    if !NullOrEmpty(pdf) then l.(pdfPath := pdf.value, hasPdf := true)
    else if pdf.None? && l.hasPdf then l.(pdfPath := "", hasPdf := false)
    else l
  }

  /** A lesson has a PDF exactly when it records a PDF path. */
  predicate PdfConsistent(l: Lesson) {
    l.hasPdf <==> l.pdfPath != []
  }

  /** The PDF rule keeps a consistent lesson consistent. */
  lemma MergePdfConsistent(l: Lesson, pdf: Option<string>)
    requires PdfConsistent(l)
    ensures PdfConsistent(MergePdf(l, pdf))
  {
  }

  /** SaveButton_Click in edit mode: the lesson's fields are overwritten from the form
      (title trimmed, sub-subject selected or typed), the audio path is replaced only by
      a non-empty, different choice, and the PDF follows MergePdf. The id, creation time
      and recorded sizes are kept. */
  function EditedLesson(l: Lesson, f: LessonForm, audio: Option<string>, pdf: Option<string>): (r: Lesson)
    requires f.subject.Some? && f.year.Some?
    ensures r.id == l.id && r.createdAt == l.createdAt && r.fileSize == l.fileSize && r.pdfSize == l.pdfSize
    ensures r.title == Trim(f.title) && r.subject == f.subject.value && r.year == f.year.value
    ensures r.subSubject == SubSubjectValue(f)
    ensures r.filePath == (if !NullOrEmpty(audio) then audio.value else l.filePath)
    ensures r.pdfPath == MergePdf(l, pdf).pdfPath && r.hasPdf == MergePdf(l, pdf).hasPdf
  {
    var merged := l.(title := Trim(f.title), subject := f.subject.value, subSubject := SubSubjectValue(f),
                     year := f.year.value)
                   .(filePath := if !NullOrEmpty(audio) && audio.value != l.filePath then audio.value else l.filePath);
    MergePdf(merged, pdf)
  }

  /** SaveButton_Click in add mode: a new lesson (fresh id, creation time now) with the
      form's values, the chosen audio path, and the chosen PDF path or "". */
  function NewLessonFrom(f: LessonForm, audio: Option<string>, pdf: Option<string>, freshId: string,
                         now: Timestamp): (r: Lesson)
    requires f.subject.Some? && f.year.Some? && audio.Some? && freshId != []
    ensures r.id == freshId && r.createdAt == now && r.fileSize == 0 && r.pdfSize == 0
    ensures r.title == Trim(f.title) && r.subject == f.subject.value && r.subSubject == SubSubjectValue(f)
    ensures r.year == f.year.value && r.filePath == audio.value
    ensures r.pdfPath == (if pdf.Some? then pdf.value else "") && (r.hasPdf <==> !NullOrEmpty(pdf))
    ensures PdfConsistent(r)
  {
    NewLesson(freshId, now).(title := Trim(f.title), subject := f.subject.value, subSubject := SubSubjectValue(f),
                             year := f.year.value, filePath := audio.value,
                             pdfPath := if pdf.Some? then pdf.value else "", hasPdf := !NullOrEmpty(pdf))
  }

  /** What a validated add-mode form saves: a title of at least three UTF-16 code units, a
      sub-subject that is selected or typed, an audio file that exists, and a PDF that
      exists whenever the lesson has one. */
  lemma ValidAddSaves(f: LessonForm, audio: Option<string>, pdf: Option<string>, files: map<string, nat>,
                      freshId: string, now: Timestamp)
    requires ValidateFields(f, false, audio, pdf, files) == FieldsValid && freshId != []
    ensures f.subject.Some? && f.year.Some? && audio.Some?
    ensures var l := NewLessonFrom(f, audio, pdf, freshId, now);
      Utf16Length(l.title) >= 3 && l.filePath in files && (l.hasPdf ==> l.pdfPath in files)
      && (f.subSubject.None? ==> l.subSubject != [])
  {
    ValidateFieldsAccepts(f, false, audio, pdf, files);
    if f.subSubject.None? {
      BlankIffTrimEmpty(f.subSubjectText);
    }
  }

  /** What a validated edit-mode form saves: the title has at least three UTF-16 code units,
      and a replaced audio file or a newly attached PDF exists. */
  lemma ValidEditSaves(l: Lesson, f: LessonForm, audio: Option<string>, pdf: Option<string>,
                       files: map<string, nat>)
    requires ValidateFields(f, true, audio, pdf, files) == FieldsValid
    ensures f.subject.Some? && f.year.Some?
    ensures var r := EditedLesson(l, f, audio, pdf);
      Utf16Length(r.title) >= 3 && (r.filePath != l.filePath ==> r.filePath in files)
      && (r.hasPdf && !l.hasPdf ==> r.pdfPath in files)
  {
    ValidateFieldsAccepts(f, true, audio, pdf, files);
  }

  // ---------------------------------------------------------------------------
  // Unsaved changes.

  /** HasUnsavedChanges. In edit mode with a lesson, any difference between the form and
      the lesson, a new audio file, or a new PDF file; removing the PDF is not among the
      checks. Otherwise, any filled field. */
  predicate Unsaved(f: LessonForm, isEditMode: bool, lesson: Option<Lesson>, audio: Option<string>,
                    pdf: Option<string>) {
    if isEditMode && lesson.Some? then
      var l := lesson.value;
      Trim(f.title) != l.title || f.subject != Some(l.subject) || SubSubjectValue(f) != l.subSubject
      || f.year != Some(l.year)
      || (!NullOrEmpty(audio) && audio.value != l.filePath)
      || (!NullOrEmpty(pdf) && pdf.value != l.pdfPath)
    else
      !IsBlank(f.title) || f.subject.Some? || f.subSubject.Some? || !IsBlank(f.subSubjectText)
      || !NullOrEmpty(audio) || !NullOrEmpty(pdf)
  }

  /** In edit mode, no unsaved changes means saving rewrites the lesson unchanged, except
      when the PDF was removed: that removal is saved but not reported as a change. */
  lemma UnchangedFormSavesSameLesson(l: Lesson, f: LessonForm, audio: Option<string>, pdf: Option<string>)
    requires !Unsaved(f, true, Some(l), audio, pdf)
    requires !NullOrEmpty(pdf) ==> l.hasPdf
    ensures f.subject.Some? && f.year.Some?
    ensures EditedLesson(l, f, audio, pdf) == l <==> !(pdf.None? && l.hasPdf)
  {
    var r := EditedLesson(l, f, audio, pdf);
    if !(pdf.None? && l.hasPdf) {
      assert r.title == l.title && r.subSubject == l.subSubject && r.filePath == l.filePath;
      assert r.pdfPath == l.pdfPath && r.hasPdf == l.hasPdf;
    } else {
      assert r.hasPdf != l.hasPdf;
    }
  }

  /** The form edit mode starts from: the lesson's title; its subject, sub-subject and
      year when non-empty and offered by the combo boxes (setting SelectedItem to an item
      the list lacks selects nothing); a selected sub-subject also fills the typed text. */
  function LoadedForm(f0: LessonForm, l: Lesson, subjects: seq<string>, subSubjects: seq<string>,
                      years: seq<string>): (f: LessonForm)
    ensures f.title == l.title
    ensures f.subject == (if l.subject != [] && l.subject in subjects then Some(l.subject) else f0.subject)
    ensures f.subSubject == (if l.subSubject != [] && l.subSubject in subSubjects then Some(l.subSubject)
                             else if l.subject != [] && l.subject in subjects then Reselect(f0.subSubject, subSubjects)
                             else f0.subSubject)
    ensures f.year == (if l.year != [] && l.year in years then Some(l.year) else f0.year)
  {
    WithYear(WithSubSubject(WithSubject(f0.(title := l.title), l, subjects, subSubjects), l, subSubjects), l, years)
  }

  /** Selecting the lesson's subject replaces the sub-subject list, which keeps the
      sub-subject selection only when the new list has it. */
  function WithSubject(f: LessonForm, l: Lesson, subjects: seq<string>, subSubjects: seq<string>): LessonForm {
    if l.subject != [] && l.subject in subjects
    then f.(subject := Some(l.subject), subSubject := Reselect(f.subSubject, subSubjects))
    else f
  }

  function WithSubSubject(f: LessonForm, l: Lesson, subSubjects: seq<string>): LessonForm {
    if l.subSubject != [] && l.subSubject in subSubjects
    then f.(subSubject := Some(l.subSubject), subSubjectText := l.subSubject)
    else f
  }

  function WithYear(f: LessonForm, l: Lesson, years: seq<string>): LessonForm {
    if l.year != [] && l.year in years then f.(year := Some(l.year)) else f
  }

  /** The sub-subject choices after LoadLessonData: selecting an offered, non-empty
      subject loads that subject's sub-subjects; otherwise the choices stay as they were. */
  function LoadedSubSubjects(prior: seq<string>, l: Lesson, subjects: seq<string>, ls: seq<Lesson>): seq<string> {
    if l.subject != [] && l.subject in subjects then AvailableSubSubjects(ls, l.subject) else prior
  }

  /** The audio and PDF paths after LoadLessonData: the lesson's own when it records one,
      otherwise the prior choice. */
  function LoadedAudio(prior: Option<string>, l: Lesson): Option<string> {
    if l.filePath != [] then Some(l.filePath) else prior
  }

  function LoadedPdf(prior: Option<string>, l: Lesson): Option<string> {
    if l.pdfPath != [] && l.hasPdf then Some(l.pdfPath) else prior
  }

  /** Opening a lesson whose title is trimmed and whose subject, sub-subject and year are
      offered shows no unsaved changes, and saving it at once gives the same lesson back
      when its PDF flag agrees with its PDF path. */
  lemma LoadedLessonUnchanged(l: Lesson, subjects: seq<string>, subSubjects: seq<string>, years: seq<string>)
    requires Trim(l.title) == l.title
    requires l.subject != [] && l.subject in subjects
    requires l.subSubject != [] && l.subSubject in subSubjects
    requires l.year != [] && l.year in years
    ensures var f := LoadedForm(EmptyForm, l, subjects, subSubjects, years);
      !Unsaved(f, true, Some(l), LoadedAudio(None, l), LoadedPdf(None, l))
      && (PdfConsistent(l) ==> EditedLesson(l, f, LoadedAudio(None, l), LoadedPdf(None, l)) == l)
  {
    var f := LoadedForm(EmptyForm, l, subjects, subSubjects, years);
    assert SubSubjectValue(f) == l.subSubject;
    if PdfConsistent(l) {
      UnchangedFormSavesSameLesson(l, f, LoadedAudio(None, l), LoadedPdf(None, l));
    }
  }

  /** A fresh add-mode dialog, with only the current year preselected, has nothing to
      lose. */
  lemma FreshAddDialogUnchanged(currentYear: int)
    ensures !Unsaved(EmptyForm.(year := Some(IntToString(currentYear))), false, None, None, None)
  {
    assert IsBlank("");
  }

  class AddEditLessonDialog {
    const repository: LessonRepository
    const isEditMode: bool
    /** The Lesson property: the lesson being edited, or the one created by a save. */
    var lesson: Option<Lesson>
    var form: LessonForm
    var selectedAudioPath: Option<string>
    var selectedPdfPath: Option<string>
    /** The items of YearComboBox, SubjectComboBox and SubSubjectComboBox. */
    var years: seq<string>
    var subjectChoices: seq<string>
    var subSubjectChoices: seq<string>
    /** The last error box shown by a save. */
    var error: Option<FieldCheck>
    var dialogResult: Option<bool>

    /** The add-mode constructor: InitializeDialog on the fresh state, with the fields set at
        once to the values its contract gives: subjects and years loaded, the current year
        selected. */
    constructor Add(repository: LessonRepository, currentYear: int)
      ensures this.repository == repository && !isEditMode && lesson.None?
      ensures subjectChoices == SubjectChoices(LoadAll(this.repository.disk.document))
      ensures years == YearList(currentYear) && subSubjectChoices == []
      ensures form == EmptyForm.(year := Some(IntToString(currentYear)))
      ensures selectedAudioPath.None? && selectedPdfPath.None? && error.None? && dialogResult.None?
    {
      var ys := BuildYears(currentYear);
      YearListHasCurrentYear(currentYear);
      this.repository := repository;
      isEditMode := false;
      lesson := None;
      subjectChoices := SubjectChoices(LoadAll(repository.disk.document));
      years := ys;
      form := EmptyForm.(year := SelectIn(ys, IntToString(currentYear)));
      selectedAudioPath, selectedPdfPath := None, None;
      subSubjectChoices := [];
      error, dialogResult := None, None;
    }

    /** The edit-mode constructor: InitializeDialog and then LoadLessonData. The fields are
        set at once to the values the contracts of those two methods give from the fresh
        state (no PDF or audio chosen, an empty form). */
    constructor Edit(repository: LessonRepository, currentYear: int, lessonToEdit: Lesson)
      ensures this.repository == repository && isEditMode && lesson == Some(lessonToEdit)
      ensures subjectChoices == SubjectChoices(LoadAll(this.repository.disk.document))
      ensures years == YearList(currentYear)
      ensures subSubjectChoices == LoadedSubSubjects([], lessonToEdit, subjectChoices, LoadAll(this.repository.disk.document))
      ensures form == LoadedForm(EmptyForm, lessonToEdit, subjectChoices, subSubjectChoices, years)
      ensures selectedAudioPath == LoadedAudio(None, lessonToEdit) && selectedPdfPath == LoadedPdf(None, lessonToEdit)
      ensures error.None? && dialogResult.None?
    {
      this.repository := repository;
      isEditMode := true;
      lesson := Some(lessonToEdit);
      var stored := LoadAll(repository.disk.document);
      var subjects := SubjectChoices(stored);
      var ys := BuildYears(currentYear);
      var subs := LoadedSubSubjects([], lessonToEdit, subjects, stored);
      subjectChoices, years, subSubjectChoices := subjects, ys, subs;
      form := LoadedForm(EmptyForm, lessonToEdit, subjects, subs, ys);
      selectedAudioPath, selectedPdfPath := LoadedAudio(None, lessonToEdit), LoadedPdf(None, lessonToEdit);
      error, dialogResult := None, None;
    }

    /** InitializeDialog: the subject choices (LoadSubjects), the years from next year down
        to five years back, and in add mode the current year preselected. */
    method InitializeDialog(currentYear: int)
      modifies this`subjectChoices, this`years, this`form
      ensures subjectChoices == SubjectChoices(LoadAll(repository.disk.document))
      ensures years == YearList(currentYear)
      ensures form == if isEditMode then old(form) else old(form).(year := Some(IntToString(currentYear)))
    {
      subjectChoices := SubjectChoices(LoadAll(repository.disk.document));
      var ys := BuildYears(currentYear);
      years := ys;
      if !isEditMode {
        YearListHasCurrentYear(currentYear);
        form := form.(year := SelectIn(ys, IntToString(currentYear)));
      }
    }

    /** LoadLessonData: fill the form from the lesson; selecting its subject loads that
        subject's sub-subjects first. */
    method LoadLessonData()
      modifies this`form, this`subSubjectChoices, this`selectedAudioPath, this`selectedPdfPath
      ensures lesson.None? ==>
        form == old(form) && subSubjectChoices == old(subSubjectChoices)
        && selectedAudioPath == old(selectedAudioPath) && selectedPdfPath == old(selectedPdfPath)
      ensures lesson.Some? ==>
        subSubjectChoices == LoadedSubSubjects(old(subSubjectChoices), lesson.value, subjectChoices, LoadAll(repository.disk.document))
        && form == LoadedForm(old(form), lesson.value, subjectChoices, subSubjectChoices, years)
        && selectedAudioPath == LoadedAudio(old(selectedAudioPath), lesson.value)
        && selectedPdfPath == LoadedPdf(old(selectedPdfPath), lesson.value)
    {
      if lesson.None? {
        return;
      }
      LoadFields(lesson.value);
      LoadFiles(lesson.value);
    }

    /** The combo-box and text-box half of LoadLessonData. */
    method LoadFields(l: Lesson)
      modifies this`form, this`subSubjectChoices
      ensures subSubjectChoices
        == LoadedSubSubjects(old(subSubjectChoices), l, subjectChoices, LoadAll(repository.disk.document))
      ensures form == LoadedForm(old(form), l, subjectChoices, subSubjectChoices, years)
    {
      form := form.(title := l.title);
      ghost var f1 := form;
      if l.subject != [] {
        var s := SelectIn(subjectChoices, l.subject);
        if s.Some? {
          SelectSubject(s);
        }
      }
      assert form == WithSubject(f1, l, subjectChoices, subSubjectChoices);
      ghost var f2 := form;
      if l.subSubject != [] {
        var ss := SelectIn(subSubjectChoices, l.subSubject);
        if ss.Some? {
          form := form.(subSubject := ss, subSubjectText := l.subSubject);
        }
      }
      assert form == WithSubSubject(f2, l, subSubjectChoices);
      ghost var f3 := form;
      if l.year != [] {
        var y := SelectIn(years, l.year);
        if y.Some? {
          form := form.(year := y);
        }
      }
      assert form == WithYear(f3, l, years);
    }

    /** The file half of LoadLessonData: the stored audio path, and the PDF path when the
        lesson has a PDF. */
    method LoadFiles(l: Lesson)
      modifies this`selectedAudioPath, this`selectedPdfPath
      ensures selectedAudioPath == LoadedAudio(old(selectedAudioPath), l)
      ensures selectedPdfPath == LoadedPdf(old(selectedPdfPath), l)
    {
      if l.filePath != [] {
        selectedAudioPath := Some(l.filePath);
      }
      if l.pdfPath != [] && l.hasPdf {
        selectedPdfPath := Some(l.pdfPath);
      }
    }

    /** Selecting a subject (SubjectComboBox_SelectionChanged): a non-empty subject loads
        its sub-subjects as the choices, and the sub-subject box keeps its selection only
        when the new choices have it; none clears the choices and the sub-subject
        selection. */
    method SelectSubject(s: Option<string>)
      modifies this`form, this`subSubjectChoices
      ensures form == old(form).(subject := s,
                                 subSubject := if NullOrEmpty(s) then None else Reselect(old(form.subSubject), subSubjectChoices))
      ensures subSubjectChoices
        == if NullOrEmpty(s) then [] else AvailableSubSubjects(LoadAll(repository.disk.document), s.value)
    {
      form := form.(subject := s);
      if !NullOrEmpty(s) {
        subSubjectChoices := AvailableSubSubjects(LoadAll(repository.disk.document), s.value);
        form := form.(subSubject := Reselect(form.subSubject, subSubjectChoices));
      } else {
        subSubjectChoices := [];
        form := form.(subSubject := None);
      }
    }

    /** BrowseAudioButton_Click with the chosen file: reading its length fails for a file
        that is not there, and then the choice is cleared. */
    method BrowseAudio(path: string)
      modifies this`selectedAudioPath
      ensures selectedAudioPath == if path in repository.disk.files then Some(path) else None
    {
      selectedAudioPath := Some(path);
      if path !in repository.disk.files {
        selectedAudioPath := None;
      }
    }

    /** BrowsePdfButton_Click with the chosen file, likewise. */
    method BrowsePdf(path: string)
      modifies this`selectedPdfPath
      ensures selectedPdfPath == if path in repository.disk.files then Some(path) else None
    {
      selectedPdfPath := Some(path);
      if path !in repository.disk.files {
        selectedPdfPath := None;
      }
    }

    /** ClearPdfButton_Click. */
    method ClearPdf()
      modifies this`selectedPdfPath
      ensures selectedPdfPath.None?
    {
      selectedPdfPath := None;
    }

    /** SaveButton_Click: a form that fails validation reports the first broken rule and
        stays open; a valid one stores the edited or the new lesson and closes with
        DialogResult true. */
    method SaveClick(freshId: string, now: Timestamp)
      requires freshId != [] && (isEditMode ==> lesson.Some?)
      modifies this`lesson, this`error, this`dialogResult
      ensures var check := ValidateFields(form, isEditMode, selectedAudioPath, selectedPdfPath, repository.disk.files);
        (check != FieldsValid ==> error == Some(check) && lesson == old(lesson) && dialogResult == old(dialogResult))
        && (check == FieldsValid ==>
              error == old(error) && dialogResult == Some(true)
              && form.subject.Some? && form.year.Some? && (!isEditMode ==> selectedAudioPath.Some?)
              && lesson == Some(if isEditMode then EditedLesson(old(lesson).value, form, selectedAudioPath, selectedPdfPath)
                                else NewLessonFrom(form, selectedAudioPath, selectedPdfPath, freshId, now)))
    {
      var check := ValidateFields(form, isEditMode, selectedAudioPath, selectedPdfPath, repository.disk.files);
      if check != FieldsValid {
        error := Some(check);
        return;
      }
      ValidFormShape(form, isEditMode, selectedAudioPath, selectedPdfPath, repository.disk.files);
      StoreForm(freshId, now);
    }

    /** The valid-form half of SaveButton_Click: the Lesson property becomes the edited or
        the new lesson, and the dialog closes with DialogResult true. */
    method StoreForm(freshId: string, now: Timestamp)
      requires freshId != [] && (isEditMode ==> lesson.Some?)
      requires form.subject.Some? && form.year.Some? && (!isEditMode ==> selectedAudioPath.Some?)
      modifies this`lesson, this`dialogResult
      ensures dialogResult == Some(true)
      ensures isEditMode ==>
        lesson == Some(EditedLesson(old(lesson).value, old(form), old(selectedAudioPath), old(selectedPdfPath)))
      ensures !isEditMode ==>
        lesson == Some(NewLessonFrom(old(form), old(selectedAudioPath), old(selectedPdfPath), freshId, now))
    {
      if isEditMode {
        lesson := Some(EditedLesson(lesson.value, form, selectedAudioPath, selectedPdfPath));
      } else {
        lesson := Some(NewLessonFrom(form, selectedAudioPath, selectedPdfPath, freshId, now));
      }
      dialogResult := Some(true);
    }

    /** CancelButton_Click, given the answer to the "leave anyway?" box: with unsaved
        changes the dialog closes only when the answer is yes. */
    method CancelClick(leaveAnyway: bool) returns (closed: bool)
      modifies this`dialogResult
      ensures closed <==> !Unsaved(form, isEditMode, lesson, selectedAudioPath, selectedPdfPath) || leaveAnyway
      ensures closed ==> dialogResult == Some(false)
      ensures !closed ==> dialogResult == old(dialogResult)
    {
      if Unsaved(form, isEditMode, lesson, selectedAudioPath, selectedPdfPath) && !leaveAnyway {
        return false;
      }
      dialogResult := Some(false);
      closed := true;
    }
  }
}
