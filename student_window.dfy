/** StudentWindow.xaml.cs: the student's kiosk window. It connects to the first removable
    drive, shows the lesson tree once a drive is connected, and downloads the selected
    lesson's audio onto the drive. Message boxes and the device status line become
    returned outcomes and a status field; the drive list is an input. */
module Student {
  import opened Optional
  import opened FilePaths
  import opened Models
  import opened Catalog
  import opened Repository
  import opened TreeItems
  import opened TreeNavigation
  import opened FolderTree
  import opened LessonTree
  import opened Devices

  /** The device status line. */
  datatype DeviceStatus = NotConnected | ConnectedTo(path: string) | NoDeviceFound

  /** The outcome of the download button, one per message box. */
  datatype DownloadOutcome =
    | NothingSelected
    | OnlyLessons
    | NoDevice
    | Downloaded(title: string)
    | FileMissing
    | DownloadFailed

  /** The name a downloaded lesson gets on the drive: "<Subject>_<SubSubject>_<Title>.mp3". */
  function DownloadName(l: Lesson): string {
    l.subject + "_" + l.subSubject + "_" + l.title + ".mp3"
  }

  /** The download name always carries the ".mp3" extension, whatever the lesson's fields. */
  lemma DownloadNameExtension(l: Lesson)
    ensures Extension(DownloadName(l)) == ".mp3"
  {
    var p := DownloadName(l);
    var n := |p|;
    assert p[n - 4..] == ".mp3";
    assert p[n - 1] == '3' && p[n - 2] == 'p' && p[n - 3] == 'm' && p[n - 4] == '.';
    assert ExtensionFrom(p, n - 3) == p[n - 4..];
  }

  /** In a + [sep] + r with a free of sep, the first sep is at position |a|. */
  lemma FirstSeparatorAt(a: string, r: string, sep: char)
    requires sep !in a
    ensures (a + [sep] + r)[|a|] == sep
    ensures forall k :: 0 <= k < |a| ==> (a + [sep] + r)[k] != sep
  {
    forall k | 0 <= k < |a| ensures (a + [sep] + r)[k] != sep {
      assert (a + [sep] + r)[k] == a[k];
    }
  }

  /** Two prefixes free of sep and followed by sep split a string the same way. */
  lemma SplitAtSeparator(a: string, r: string, b: string, s: string, sep: char)
    requires sep !in a && sep !in b
    requires a + [sep] + r == b + [sep] + s
    ensures a == b && r == s
  {
    var x := a + [sep] + r;
    FirstSeparatorAt(a, r, sep);
    FirstSeparatorAt(b, s, sep);
    assert |a| == |b|;
    assert a == x[..|a|] == b;
    assert r == x[|a| + 1..] == s;
  }

  /** With '_'-free subjects and sub-subjects, the download name determines the subject,
      sub-subject and title: distinct lessons of this kind never overwrite each other's
      download. */
  lemma DownloadNameInjective(a: Lesson, b: Lesson)
    requires '_' !in a.subject && '_' !in a.subSubject && '_' !in b.subject && '_' !in b.subSubject
    requires DownloadName(a) == DownloadName(b)
    ensures a.subject == b.subject && a.subSubject == b.subSubject && a.title == b.title
  {
    var ra := a.subSubject + "_" + a.title + ".mp3";
    var rb := b.subSubject + "_" + b.title + ".mp3";
    assert DownloadName(a) == a.subject + ['_'] + ra;
    assert DownloadName(b) == b.subject + ['_'] + rb;
    SplitAtSeparator(a.subject, ra, b.subject, rb, '_');
    var ta, tb := a.title + ".mp3", b.title + ".mp3";
    assert ra == a.subSubject + ['_'] + ta;
    assert rb == b.subSubject + ['_'] + tb;
    SplitAtSeparator(a.subSubject, ta, b.subSubject, tb, '_');
    assert a.title == ta[..|ta| - 4] == tb[..|tb| - 4] == b.title;
  }

  /** Without that restriction two lessons with different subjects can share a download
      name, and the later download overwrites the earlier one. */
  lemma DownloadNamesCanCollide(id: string, now: Timestamp)
    requires id != []
    ensures exists a: Lesson, b: Lesson :: DownloadName(a) == DownloadName(b) && a.subject != b.subject
  {
    var a := NewLesson(id, now).(subject := "x_y", subSubject := "z", title := "t");
    var b := NewLesson(id, now).(subject := "x", subSubject := "y_z", title := "t");
    assert DownloadName(a) == "x_y_z_t.mp3" == DownloadName(b);
  }

  /** With unique ids, the audio a shown lesson downloads is the lesson's own file. */
  lemma DownloadSourceOfShownLesson(ls: seq<Lesson>, l: Lesson)
    requires l in ls
    requires forall i, j :: 0 <= i < j < |ls| ==> ls[i].id != ls[j].id
    ensures LessonAudioPath(ls, l.id) == l.filePath
  {
    var i :| 0 <= i < |ls| && ls[i] == l;
    assert forall j :: 0 <= j < i ==> ls[j].id != l.id;
  }

  class StudentWindow {
    const repository: LessonRepository
    /** LessonsTreeView. */
    const tree: FolderTreeView
    var isDeviceConnected: bool
    var devicePath: string
    var deviceStatus: DeviceStatus

    /** The kiosk set-up and the FolderChanged subscription are not modelled; the window
        starts disconnected. */
    constructor(repository: LessonRepository, tree: FolderTreeView)
      ensures this.repository == repository && this.tree == tree
      ensures !isDeviceConnected && devicePath == "" && deviceStatus == NotConnected
    {
      this.repository := repository;
      this.tree := tree;
      isDeviceConnected := false;
      devicePath := "";
      deviceStatus := NotConnected;
    }

    /** ConnectDeviceButton_Click, given DriveInfo.GetDrives(). Disconnected: the first
        removable, ready drive is connected and the lessons are loaded; with no such drive
        only the status line changes. Connected: the device is dropped. */
    method ConnectDeviceClick(drives: seq<Drive>)
      modifies this`isDeviceConnected, this`devicePath, this`deviceStatus,
        tree`treeItems, tree`itemsSource, tree`selectedItem
      ensures old(isDeviceConnected) ==>
        !isDeviceConnected && devicePath == "" && deviceStatus == NotConnected
        && tree.treeItems == old(tree.treeItems) && tree.itemsSource == old(tree.itemsSource)
        && tree.selectedItem == old(tree.selectedItem)
      ensures !old(isDeviceConnected) && FirstUsable(drives).None? ==>
        !isDeviceConnected && devicePath == old(devicePath) && deviceStatus == NoDeviceFound
        && tree.treeItems == old(tree.treeItems) && tree.itemsSource == old(tree.itemsSource)
        && tree.selectedItem == old(tree.selectedItem)
      ensures !old(isDeviceConnected) && FirstUsable(drives).Some? ==>
        isDeviceConnected && devicePath == drives[FirstUsable(drives).value].root
        && deviceStatus == ConnectedTo(devicePath) && ShowsStoredLessons() && tree.selectedItem == null
    {
      if !isDeviceConnected {
        var i := 0;
        while i < |drives| && !Usable(drives[i])
          invariant 0 <= i <= |drives|
          invariant forall j :: 0 <= j < i ==> !Usable(drives[j])
        {
          i := i + 1;
        }
        if i == |drives| {
          deviceStatus := NoDeviceFound;
          return;
        }
        assert FirstUsable(drives) == Some(i);
        Connect(drives[i].root);
      } else {
        isDeviceConnected := false;
        devicePath := "";
        deviceStatus := NotConnected;
      }
    }

    /** The tree shows the flattened grouping of the stored lessons. */
    predicate ShowsStoredLessons()
      reads tree, repository.disk
    {
      Views(tree.treeItems) == Flattened(Grouped(LoadAll(repository.disk.document)))
    }

    /** The body of the loop for the first usable drive: connect to its root and load the
        lessons. */
    method Connect(root: string)
      modifies this`isDeviceConnected, this`devicePath, this`deviceStatus,
        tree`treeItems, tree`itemsSource, tree`selectedItem
      ensures isDeviceConnected && devicePath == root && deviceStatus == ConnectedTo(root)
      ensures ShowsStoredLessons() && tree.selectedItem == null
    {
      isDeviceConnected, devicePath, deviceStatus := true, root, ConnectedTo(root);
      LoadAvailableLessons();
    }

    /** LoadAvailableLessons: the tree shows the flattened grouping of the stored lessons,
        through the tree's TreeItems property. */
    method LoadAvailableLessons()
      modifies tree`treeItems, tree`itemsSource, tree`selectedItem
      ensures ShowsStoredLessons()
      ensures tree.selectedItem == null
    {
      var subjects := repository.GetAllSubjects();
      ShowSubjects(tree, subjects);
    }

    /** DownloadButton_Click. Only a selected leaf is downloaded, and only with a connected
        device. The source is the audio path the repository reports for the item's id; when
        that file exists it is copied, overwriting, to "<device>/<DownloadName>". An item
        without a lesson makes the copy throw, which the handler reports as a failure. */
    method DownloadClick() returns (outcome: DownloadOutcome)
      modifies repository.disk`files
      ensures var sel := tree.selectedItem;
        (outcome == NothingSelected <==> sel == null)
        && (outcome == OnlyLessons <==> sel != null && sel.isFolder)
        && (outcome == NoDevice <==> sel != null && !sel.isFolder && (!isDeviceConnected || devicePath == ""))
      ensures !outcome.Downloaded? ==> repository.disk.files == old(repository.disk.files)
      ensures outcome.Downloaded? || outcome == FileMissing || outcome == DownloadFailed ==>
        var sel := tree.selectedItem;
        var source := LessonAudioPath(LoadAll(repository.disk.document), sel.id);
        sel != null && !sel.isFolder && isDeviceConnected && devicePath != ""
        && (outcome == FileMissing <==> source !in old(repository.disk.files))
        && (outcome == DownloadFailed <==> source in old(repository.disk.files) && sel.lesson.None?)
        && (outcome.Downloaded? ==>
              sel.lesson.Some? && outcome.title == sel.lesson.value.title
              && repository.disk.files
                 == old(repository.disk.files)[Combine(devicePath, DownloadName(sel.lesson.value))
                                               := old(repository.disk.files)[source]])
    {
      var sel := tree.selectedItem;
      if sel == null {
        return NothingSelected;
      }
      if sel.isFolder {
        return OnlyLessons;
      }
      if !isDeviceConnected || devicePath == "" {
        return NoDevice;
      }
      var source := LessonAudioPath(LoadAll(repository.disk.document), sel.id);
      if source !in repository.disk.files {
        return FileMissing;
      }
      if sel.lesson.None? {
        return DownloadFailed;
      }
      var destination := Combine(devicePath, DownloadName(sel.lesson.value));
      repository.disk.files := repository.disk.files[destination := repository.disk.files[source]];
      outcome := Downloaded(sel.lesson.value.title);
    }
  }
}
