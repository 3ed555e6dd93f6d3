/** Nullable values: C#'s null becomes None. */
module Optional {
  datatype Option<+T> = None | Some(value: T)
}

/** The record shapes of Models/Lesson.cs. */
module Models {
  import opened Optional

  /** DateTime values are kept opaque: only equality is ever used. */
  type Timestamp = int

  /** A lesson record, as stored in the metadata document. FileSize and PdfSize are C#
      longs; they hold file lengths, which are never negative. */
  datatype Lesson = Lesson(
    id: string,
    title: string,
    subject: string,
    subSubject: string,
    year: string,
    filePath: string,
    pdfPath: string,
    createdAt: Timestamp,
    fileSize: nat,
    pdfSize: nat,
    hasPdf: bool)

  /** The derived subject grouping node (never stored). */
  datatype SubjectNode = SubjectNode(name: string, subSubjects: seq<SubSubjectNode>)

  /** The derived sub-subject grouping node (never stored). */
  datatype SubSubjectNode = SubSubjectNode(name: string, lessons: seq<Lesson>)

  /** `new Lesson()`: the id is a freshly generated GUID string and the creation time is
      the current time, both supplied by the caller; every other field has its default. */
  function NewLesson(freshId: string, now: Timestamp): (l: Lesson)
    requires freshId != []
    ensures l.id == freshId && l.createdAt == now
    ensures l.title == [] && l.subject == [] && l.subSubject == [] && l.year == []
    ensures l.filePath == [] && l.pdfPath == []
    ensures l.fileSize == 0 && l.pdfSize == 0 && !l.hasPdf
  {
    Lesson(freshId, "", "", "", "", "", "", now, 0, 0, false)
  }

  /** `new SubjectNode()`. */
  function NewSubjectNode(): (n: SubjectNode)
    ensures n.name == [] && n.subSubjects == []
  {
    SubjectNode("", [])
  }

  /** `new SubSubjectNode()`. */
  function NewSubSubjectNode(): (n: SubSubjectNode)
    ensures n.name == [] && n.lessons == []
  {
    SubSubjectNode("", [])
  }
}
