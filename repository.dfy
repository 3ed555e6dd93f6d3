/** Data/LessonRepository.cs: the stateful part. The disk is a metadata document plus a
    map from file path to file length; the repository reads and rewrites both. */
module Repository {
  import opened Optional
  import opened Text
  import opened FilePaths
  import opened Sorting
  import opened Models
  import opened Catalog

  const DataFolder := "LessonsData"
  const MetadataFile := "lessons_metadata.json"
  const AudioFolder := "AudioFiles"

  /** The files the repository touches: its metadata document and the files on disk,
      each path mapped to its length in bytes. */
  class Storage {
    var document: Document
    var files: map<string, nat>

    constructor(document: Document, files: map<string, nat>)
      ensures this.document == document && this.files == files
    {
      this.document := document;
      this.files := files;
    }
  }

  /** The stored name of an added lesson's audio: its id followed by the source's
      extension, inside the audio folder. */
  function AudioDestination(audioPath: string, id: string, source: string): string {
    Combine(audioPath, id + Extension(source))
  }

  /** An id without separators, drive prefix or leading path lands directly inside the
      audio folder, as `<audio folder>\<id><extension>`. */
  lemma AudioDestinationInFolder(audioPath: string, id: string, source: string)
    requires audioPath != [] && !IsSeparator(audioPath[|audioPath| - 1])
    requires id != [] && !IsSeparator(id[0]) && !IsRooted(id)
    ensures AudioDestination(audioPath, id, source) == audioPath + "\\" + id + Extension(source)
  {
    var name := id + Extension(source);
    assert name[0] == id[0];
    assert |name| >= 2 ==> name[1] == (if |id| >= 2 then id[1] else Extension(source)[0]);
    if |id| == 1 && |name| >= 2 {
      assert Extension(source)[0] == '.';
    }
    assert !IsRooted(name);
    assert audioPath + "\\" + name == audioPath + "\\" + id + Extension(source);
  }

  class LessonRepository {
    const disk: Storage
    const dataPath: string
    const metadataPath: string
    const audioPath: string

    /** The three paths, below the current directory. Creating the two folders is not
        modelled: directories are not part of the disk model. */
    constructor(disk: Storage, currentDirectory: string)
      ensures this.disk == disk
      ensures dataPath == Combine(currentDirectory, DataFolder)
      ensures metadataPath == Combine(dataPath, MetadataFile)
      ensures audioPath == Combine(dataPath, AudioFolder)
    {
      this.disk := disk;
      dataPath := Combine(currentDirectory, DataFolder);
      metadataPath := Combine(Combine(currentDirectory, DataFolder), MetadataFile);
      audioPath := Combine(Combine(currentDirectory, DataFolder), AudioFolder);
    }

    /** GetAllSubjects: one subject node per subject group in key order, each holding one
        sub-subject node per sub-subject group in key order, each holding its lessons
        ordered by title. */
    method GetAllSubjects() returns (subjects: seq<SubjectNode>)
      ensures subjects == Grouped(LoadAll(disk.document))
    {
      var lessons := LoadAll(disk.document);
      var keys := AvailableSubjects(lessons);
      subjects := [];
      var i := 0;
      while i < |keys|
        invariant 0 <= i <= |keys|
        invariant subjects == SubjectNodes(lessons, keys[..i])
      {
        var subjectNode := BuildSubjectNode(lessons, keys[i]);
        SubjectNodesStep(lessons, keys, i);
        subjects := subjects + [subjectNode];
        i := i + 1;
      }
      assert keys[..i] == keys;
    }

    /** The body of GetAllSubjects' outer loop, for one subject group. */
    static method BuildSubjectNode(lessons: seq<Lesson>, subject: string) returns (subjectNode: SubjectNode)
      ensures subjectNode == SubjectNodeFor(lessons, subject)
    {
      var subjectGroup := WithKey(lessons, SubjectOf, subject);
      var subSubjects := BuildSubSubjectNodes(subjectGroup, AvailableSubSubjects(lessons, subject));
      subjectNode := SubjectNode(subject, subSubjects);
    }

    /** The inner loop of GetAllSubjects: one node per sub-subject key of the group. */
    static method BuildSubSubjectNodes(subjectGroup: seq<Lesson>, subKeys: seq<string>)
      returns (subSubjects: seq<SubSubjectNode>)
      ensures subSubjects == SubSubjectNodes(subjectGroup, subKeys)
    {
      subSubjects := [];
      var j := 0;
      while j < |subKeys|
        invariant 0 <= j <= |subKeys|
        invariant subSubjects == SubSubjectNodes(subjectGroup, subKeys[..j])
      {
        // the group's key, and its records ordered by title
        var subSubjectNode := SubSubjectNodeFor(subjectGroup, subKeys[j]);
        SubSubjectNodesStep(subjectGroup, subKeys, j);
        subSubjects := subSubjects + [subSubjectNode];
        j := j + 1;
      }
      assert subKeys[..j] == subKeys;
    }

    /** AddLesson: copies the source audio to `<audio folder>/<id><extension>`, records
        that path and the copied length on the lesson, and appends it to the document.
        A missing source makes the copy throw, and the operation reports false with nothing
        changed. A failed save is swallowed: the operation still reports true and the
        document keeps its old content, while the copied file stays. */
    method AddLesson(lesson: Lesson, source: string, saveSucceeds: bool) returns (ok: bool, stored: Lesson)
      modifies disk
      ensures ok <==> source in old(disk.files)
      ensures !ok ==> stored == lesson && unchanged(disk)
      ensures ok ==> stored == lesson.(filePath := AudioDestination(audioPath, lesson.id, source),
                                       fileSize := old(disk.files)[source])
      ensures ok ==> disk.files == old(disk.files)[stored.filePath := old(disk.files)[source]]
      ensures ok ==> (disk.document
        == if saveSucceeds then Records(LoadAll(old(disk.document)) + [stored]) else old(disk.document))
    {
      if source !in disk.files {
        return false, lesson;
      }
      var destination := AudioDestination(audioPath, lesson.id, source);
      disk.files := disk.files[destination := disk.files[source]];
      stored := lesson.(filePath := destination, fileSize := disk.files[destination]);
      var lessons := LoadAll(disk.document);
      lessons := lessons + [stored];
      if saveSucceeds {
        disk.document := Records(lessons);
      }
      ok := true;
    }

    /** DeleteLesson: finds the first record with the id; an unknown id reports false and
        changes nothing. Otherwise the record's audio file is deleted when it exists, the
        record is removed from the list and the list is saved (a failed save is swallowed
        and still reports true). */
    method DeleteLesson(id: string, saveSucceeds: bool) returns (ok: bool)
      modifies disk
      ensures var found := FirstIndexOfId(LoadAll(old(disk.document)), id);
        (ok <==> found.Some?)
        && (found.None? ==> unchanged(disk))
        && (found.Some? ==>
              var ls := LoadAll(old(disk.document));
              disk.files == old(disk.files) - {ls[found.value].filePath}
              && disk.document == if saveSucceeds then Records(RemoveAt(ls, found.value)) else old(disk.document))
    {
      var lessons := LoadAll(disk.document);
      var found := FirstIndexOfId(lessons, id);
      if found.None? {
        return false;
      }
      var lessonToDelete := lessons[found.value];
      if lessonToDelete.filePath in disk.files {
        disk.files := disk.files - {lessonToDelete.filePath};
      }
      lessons := RemoveAt(lessons, found.value);
      if saveSucceeds {
        disk.document := Records(lessons);
      }
      ok := true;
    }
  }

  // ---------------------------------------------------------------------------
  // Add and delete, seen through the queries.

  /** After an append, every id already present is found where it was, the appended
      lesson is found at the end when its id was new, and other ids stay absent. */
  lemma {:induction false} LookupAfterAppend(ls: seq<Lesson>, l: Lesson, id: string)
    ensures FirstIndexOfId(ls + [l], id)
         == if FirstIndexOfId(ls, id).Some? then FirstIndexOfId(ls, id)
            else if l.id == id then Some(|ls|) else None
  {
    if ls == [] {
      assert ls + [l] == [l] && [l][1..] == [];
    } else {
      assert (ls + [l])[0] == ls[0];
      assert (ls + [l])[1..] == ls[1..] + [l];
      if ls[0].id != id {
        LookupAfterAppend(ls[1..], l, id);
      }
    }
  }

  /** Deleting a lesson that was just added with a fresh id gives back the list before the
      add. */
  lemma DeleteUndoesAdd(ls: seq<Lesson>, l: Lesson)
    requires forall x :: x in ls ==> x.id != l.id
    ensures FirstIndexOfId(ls + [l], l.id) == Some(|ls|)
    ensures RemoveAt(ls + [l], |ls|) == ls
  {
    LookupAfterAppend(ls, l, l.id);
  }

  /** Deleting removes exactly one record with the id, the first one, and no other. */
  lemma DeleteRemovesFirst(ls: seq<Lesson>, id: string)
    requires FirstIndexOfId(ls, id).Some?
    ensures var i := FirstIndexOfId(ls, id).value;
      multiset(RemoveAt(ls, i)) == multiset(ls) - multiset{ls[i]}
      && ls[i].id == id
      && RemoveAt(ls, i) == ls[..i] + ls[i + 1..]
  {
    RemoveAtCount(ls, FirstIndexOfId(ls, id).value);
  }
}
