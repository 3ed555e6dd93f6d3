# LessonsManager core, modelled in Dafny

LessonsManager is a Windows desktop application for a library of recorded Torah
lessons. An administrator uploads audio lessons and files each one under a subject and
a sub-subject. A student kiosk browses the same catalog and copies lessons onto a USB
drive. This project models the logic behind those screens and proves properties of it:

- **The lesson repository** (`repository.dfy`, `catalog.dfy`, `models.dfy`). The disk is a
  `Storage` object: a metadata document (`Absent`, `Unreadable` or `Records(lessons)`)
  and a map from file path to file length. `LessonRepository` reads and rewrites both.
  The read side is a set of functions over the loaded list:
  - the three-level grouping Subject → SubSubject → Lesson, sorted at every level;
  - the (subject, sub-subject) filter;
  - the distinct sorted subject and sub-subject lists;
  - lookup by id.

  `AddLesson` and `DeleteLesson` are methods that change the disk.
- **.NET helpers the code relies on** (`text.dfy`, `sorting.dfy`, `paths.dfy`):
  - `Trim` and `IsNullOrWhiteSpace`;
  - `Split` and `Join` on `'/'`;
  - `int.ToString`;
  - LINQ `OrderBy` (a stable sort) and `Distinct`;
  - `Path.Combine` and `Path.GetExtension`.
- **The flat, path-addressed lesson tree** (`tree_item.dfy`, `tree_paths.dfy`,
  `folder_tree_view.dfy`, `simple_tree_view.dfy`). `TreeItem` is a class:
  - its identity fields (name, path, id, folder flag, level, lesson) are fixed at construction;
  - its expansion flag, child flag, parent and children change in place.

  The two list controls are classes. Their state is the items and the current folder
  (`null` for the root). Their displayed list is derived from that state by
  `RefreshDisplay`:
  - at the root, the level-0 folders;
  - inside a folder, an optional `..` entry, then the items one `/`-segment below it, in list order.
- **Flattening the grouped catalog into tree items** (`lesson_tree.dfy`). Both windows
  do this the same way: subjects at level 0 (path `S`), sub-subjects at level 1 (path
  `S/SS`), lessons at level 2 (path `S/SS/Title`), in pre-order.
- **The windows** (`admin_window.dfy`, `student_window.dfy`, `devices.dfy`,
  `lesson_dialog.dfy`, `combo_validation.dfy`, `admin_login.dfy`). Each window is a class
  whose fields are the window's state:
  - the admin upload checks and the delete guard;
  - copying a dropped subject folder onto a removable drive;
  - the student device toggle and the download guards and file naming;
  - the add/edit dialog's year list, ordered field validation, PDF merge and unsaved-changes check;
  - the combo-box validation rule;
  - the administrator login decision.

  Message boxes and status lines become returned outcomes or status fields.

Inputs from outside the program are parameters:
- the user's answer to a confirmation box;
- the list of drives;
- the current year;
- a new lesson's GUID and creation time;
- whether the metadata save succeeded.

Some behaviour of the code that a reader might not expect, and that the model keeps:
- The tree controls list items in list order and do not sort.
- A `..` entry appears only inside a folder below the root, and only when an item has the
  parent path.
- In edit mode, a PDF path of `""` keeps the lesson's PDF state; only a null path removes
  the PDF.
- Deleting a lesson deletes only its audio file.
- The tree controls are list boxes: replacing the displayed list keeps the selected item only when the new list holds it. Reloading the lessons gives the tree new items, so it drops the selection; so does going to the root with a lesson selected.
- The repository has no update operation and stores no PDF files.

## Model

| member | source | states |
|---|---|---|
| Models.NewLesson | Models/Lesson.cs:5-15 | a new lesson carries the given id and creation time, empty title, subject, sub-subject, year and paths, zero sizes and no PDF |
| Models.NewSubjectNode | Models/Lesson.cs:18-22 | a new subject node has the empty name and no sub-subjects |
| Models.NewSubSubjectNode | Models/Lesson.cs:24-28 | a new sub-subject node has the empty name and no lessons |
| Text.TrimStart | AdminWindow.xaml.cs:123-125 | the result is a suffix of the input, everything cut is whitespace, and it does not start with whitespace |
| Text.TrimEnd | AdminWindow.xaml.cs:123-125 | the result is a prefix of the input, everything cut is whitespace, and it does not end with whitespace |
| Text.TrimIsCore | AdminWindow.xaml.cs:123-125 | Trim keeps a contiguous slice of the input whose ends are not whitespace, and everything cut on either side is whitespace |
| Text.BlankIffTrimEmpty | AddEditLessonDialog.xaml.cs:339-347 | IsNullOrWhiteSpace(s) holds exactly when s.Trim() is empty |
| Text.TrimPadded | AdminLoginWindow.xaml.cs:46 | trimming whitespace-padded text gives back the unpadded core, whatever whitespace surrounds it |
| Text.TrimStartBlankPrefix | AdminLoginWindow.xaml.cs:46 | leading whitespace makes no difference to TrimStart |
| Text.TrimEndBlankSuffix | AdminLoginWindow.xaml.cs:46 | trailing whitespace makes no difference to TrimEnd |
| Text.Split | Controls/FolderTreeView.cs:192 | String.Split always yields at least one piece |
| Text.SplitLength | Controls/FolderTreeView.cs:192 | splitting yields one piece more than there are separators |
| Text.SplitPiecesFree | Controls/FolderTreeView.cs:192 | no piece of a split contains the separator |
| Text.JoinSplit | Controls/FolderTreeView.cs:130 | joining the pieces of a split with the same separator gives back the string |
| Text.SplitConcat | Controls/FolderTreeView.cs:130 | splitting a + sep + b is splitting a and b separately |
| Text.SplitFree | Controls/FolderTreeView.cs:130 | a string without the separator splits into itself alone |
| Text.ParentOfChild | Controls/FolderTreeView.cs:130 | dropping the last segment of a/b gives a when b is one segment |
| Text.ParentOfTop | Controls/FolderTreeView.cs:168 | a one-segment path has the empty parent path |
| Text.CountZero | Controls/FolderTreeView.cs:143 | a string has no occurrence of c exactly when c is not in it |
| Text.CountAppend | Controls/FolderTreeView.cs:143 | occurrences in a concatenation add up |
| Text.StrLeRefl | Data/LessonRepository.cs:42 | the string order used by OrderBy is reflexive |
| Text.StrLeAntisym | Data/LessonRepository.cs:42 | the string order is antisymmetric |
| Text.StrLeTrans | Data/LessonRepository.cs:42 | the string order is transitive |
| Text.StrLeTotal | Data/LessonRepository.cs:42 | any two strings are comparable |
| Text.Utf16Length | AddEditLessonDialog.xaml.cs:347 | string.Length counts between one and two UTF-16 code units per character |
| Text.Utf16LengthBmp | AddEditLessonDialog.xaml.cs:347 | without characters beyond the Basic Multilingual Plane, string.Length is the number of characters |
| Text.Utf16LengthSupplementary | AddEditLessonDialog.xaml.cs:347 | a character beyond the Basic Multilingual Plane makes string.Length exceed the number of characters |
| Text.DigitChar | AddEditLessonDialog.xaml.cs:65 | a digit renders as the character with that digit value |
| Text.NatToString | AddEditLessonDialog.xaml.cs:65 | a natural number renders as a non-empty string of decimal digits |
| Text.NatToStringRoundTrip | AddEditLessonDialog.xaml.cs:65 | reading back the decimal digits of a rendered number gives the number |
| Text.NatToStringInjective | AddEditLessonDialog.xaml.cs:65 | different natural numbers render differently |
| Text.SignChar | AddEditLessonDialog.xaml.cs:65 | int.ToString starts with '-' exactly for negative numbers |
| Text.IntToStringInjective | AddEditLessonDialog.xaml.cs:65 | different integers render differently |
| Sorting.InsertBy | Data/LessonRepository.cs:57 | one insertion step of the stable sort adds exactly the element to the multiset |
| Sorting.SortBy | Data/LessonRepository.cs:57 | OrderBy returns a permutation of its input |
| Sorting.SortBySorted | Data/LessonRepository.cs:57 | OrderBy returns a sequence sorted by the key |
| Sorting.SortByStable | Data/LessonRepository.cs:57 | OrderBy is stable: elements with equal keys keep their input order |
| Sorting.Distinct | Data/LessonRepository.cs:188 | Distinct keeps every value of the input exactly once |
| Sorting.SortDistinctAscending | Data/LessonRepository.cs:188 | sorting repetition-free strings gives a strictly ascending sequence with the same members |
| Sorting.DistinctSorted | Data/LessonRepository.cs:188 | Distinct().OrderBy(s => s) is strictly ascending and has exactly the input's values |
| Sorting.Keys | Data/LessonRepository.cs:188 | Select(key) maps position by position, and its members are exactly the keys of the input |
| Sorting.WithKey | Data/LessonRepository.cs:73 | the Where filter on a key keeps only input elements with that key |
| Sorting.WithKeyAppend | Data/LessonRepository.cs:73 | filtering a concatenation filters each part, keeping order |
| Sorting.WithKeyCount | Data/LessonRepository.cs:73 | the filter keeps every element with the key as often as the input has it, and no other element |
| Catalog.LoadAll | Data/LessonRepository.cs:149-164 | a stored list of records is read as is; a missing or unreadable document reads as the empty catalog |
| Catalog.LessonsBySubjectAndSubSubject | Data/LessonRepository.cs:69-76 | the result is sorted by title and holds each lesson whose subject and sub-subject both match, exactly as often as the document does, and no other |
| Catalog.LessonsBySubjectAndSubSubjectMembers | Data/LessonRepository.cs:72-73 | a lesson is listed exactly when it is stored and its subject and sub-subject both match |
| Catalog.LessonsBySubjectAndSubSubjectStable | Data/LessonRepository.cs:74 | lessons with equal titles keep their document order |
| Catalog.AvailableSubjects | Data/LessonRepository.cs:185-189 | the subjects are strictly ascending and are exactly the subjects of stored lessons |
| Catalog.AvailableSubSubjects | Data/LessonRepository.cs:191-200 | the sub-subjects of s are strictly ascending and are exactly those of stored lessons whose subject is s |
| Catalog.FirstIndexOfId | Data/LessonRepository.cs:113 | FirstOrDefault on the id: none exactly when no record has the id, otherwise the first position holding it |
| Catalog.LessonById | Data/LessonRepository.cs:137-141 | GetLessonById is null exactly when no record has the id, otherwise the first record with it |
| Catalog.LessonAudioPath | Data/LessonRepository.cs:143-147 | the audio path is "" for an unknown id and the first matching record's FilePath otherwise |
| Catalog.RemoveAt | Data/LessonRepository.cs:125 | List.Remove of the record at position i keeps every other record, in order |
| Catalog.RemoveAtCount | Data/LessonRepository.cs:125 | removing the record at i removes one occurrence of it and nothing else |
| Catalog.GroupedNames | Data/LessonRepository.cs:40-46 | the subject nodes are named by the distinct subjects, strictly ascending, with no name twice |
| Catalog.SubjectNodeNames | Data/LessonRepository.cs:48-60 | a subject node's sub-subject nodes are named by the distinct sub-subjects used under it, in order |
| Catalog.SubSubjectNodeNonEmpty | Data/LessonRepository.cs:52-58 | the node of a sub-subject used under a subject holds at least one lesson |
| Catalog.GroupedSubjectNode | Data/LessonRepository.cs:44-63 | every subject node has a non-empty, strictly ascending list of sub-subject nodes, named exactly by that subject's sub-subjects, and none of them is empty |
| Catalog.GroupedNodeLessons | Data/LessonRepository.cs:54-57 | a sub-subject node's lessons are that (subject, sub-subject) pair's lessons ordered by title |
| Catalog.GroupedHoldsLesson | Data/LessonRepository.cs:40-63 | every stored lesson sits in the node named by its subject and sub-subject |
| Catalog.GroupedPartition | Data/LessonRepository.cs:40-63 | the grouping is a partition: its lessons are exactly the stored lessons, each as often as stored, so the counts are equal |
| Repository.LessonRepository.constructor | Data/LessonRepository.cs:17-21 | the data, metadata and audio paths are the fixed folder and file names combined below the current directory |
| Repository.AudioDestinationInFolder | Data/LessonRepository.cs:83-85 | an added lesson's audio goes to `<audio folder>\<id><extension of the source>` |
| FilePaths.CombineInside | Data/LessonRepository.cs:85 | Path.Combine of a directory and a relative name without a leading separator inserts exactly one '\' |
| FilePaths.Extension | Data/LessonRepository.cs:83 | GetExtension is empty or a suffix of the path of length at least 2 that starts with '.' and has no further '.' or separator; it is empty only when every '.' before the last character is followed later by another '.' or a separator |
| FilePaths.ExtensionFrom | Data/LessonRepository.cs:83 | the right-to-left scan of GetExtension meets the same description for the part already scanned |
| Repository.LessonRepository.GetAllSubjects | Data/LessonRepository.cs:35-67 | the nested loops build exactly the grouping of the loaded lessons |
| Repository.LessonRepository.AddLesson | Data/LessonRepository.cs:78-106 | succeeds exactly when the source file exists. On success the audio is copied to its destination and the record gets that path and the copied length. The record is appended after the loaded records, or the document is left as it was when the save fails. On failure nothing changes |
| Repository.LessonRepository.DeleteLesson | Data/LessonRepository.cs:108-135 | an unknown id returns false and changes nothing. Otherwise the first record with the id loses its audio file and is removed, and every other record is kept in order, unless the save fails |
| Repository.LookupAfterAppend | Data/LessonRepository.cs:95-97 | after an append every existing id is found where it was, and the appended lesson is found at the end when its id was new |
| Repository.DeleteUndoesAdd | Data/LessonRepository.cs:78-135 | deleting a lesson just added with a fresh id gives back the records before the add |
| Repository.DeleteRemovesFirst | Data/LessonRepository.cs:113-126 | delete removes the first record with the id and nothing else: the records before it and after it stay |
| TreeItems.TreeItem.Empty | Models/TreeItem.cs:9-27 | the parameterless constructor gives empty name, path and id, level 0, no lesson, not expanded, no children flag, no parent and an empty child collection |
| TreeItems.TreeItem.constructor | Models/TreeItem.cs:30-39 | the positional constructor stores name, path, id, folder flag, level and lesson as given, and starts collapsed, without parent and with an empty child collection |
| TreeItems.TreeItem.View | Models/TreeItem.cs:9-15 | the item's identity fields, as a value |
| TreeItems.TreeItem.SetParent | Models/TreeItem.cs:42-49 | the parent becomes p. Only p's child collection changes, and only by Attach; no other child collection changes, including a previous parent's |
| TreeItems.Attach | Models/TreeItem.cs:45-48 | after the guarded Add the node is among the children and nothing else was added |
| TreeItems.AttachIdempotent | Models/TreeItem.cs:45-48 | setting the same parent twice is the same as once |
| TreeItems.AttachCount | Models/TreeItem.cs:45-48 | the existing children stay in place, and the node occurs once if it was absent and as often as before otherwise |
| TreeNavigation.Views | Controls/FolderTreeView.cs:141-143 | the identity fields of every item, position by position |
| TreeNavigation.ViewsAppend | Controls/FolderTreeView.cs:141-143 | viewing a concatenation views each part |
| TreeNavigation.WhereCount | Controls/FolderTreeView.cs:141-143 | the filter of a listing keeps every listed item as often as the list has it, and nothing else |
| TreeNavigation.WhereSubset | Controls/FolderTreeView.cs:140-142 | the filtered listing holds only items of the tree |
| TreeNavigation.WhereAppend | Controls/FolderTreeView.cs:141-153 | filtering a concatenation filters each part, so list order is kept |
| TreeNavigation.ViewsWhere | Controls/FolderTreeView.cs:141-143 | filtering items and then viewing them is filtering their views |
| TreeNavigation.WhereViewMembers | Controls/FolderTreeView.cs:141-143 | the filter on views keeps exactly the listed views |
| TreeNavigation.WhereViewAppend | Controls/FolderTreeView.cs:141-143 | the filter on views distributes over concatenation |
| TreeNavigation.FirstIndexWithPath | Controls/FolderTreeView.cs:131 | none exactly when no item has the path, otherwise the first position with it |
| TreeNavigation.FirstWithPath | Controls/FolderTreeView.cs:131 | FirstOrDefault on the path: null exactly when no item has it, otherwise the item at the first position whose path matches, no earlier item having that path |
| TreeNavigation.ChildOfJoin | Controls/FolderTreeView.cs:141-143 | p + "/" + a '/'-free name lies directly inside p |
| TreeNavigation.ChildIsJoin | Controls/FolderTreeView.cs:141-143 | a path directly inside p is p + "/" + a '/'-free name |
| TreeNavigation.ChildParent | Controls/FolderTreeView.cs:130 | the parent path of a path directly inside p is p |
| TreeNavigation.FirstSegment | Controls/FolderTreeView.cs:192 | the first breadcrumb of a/... is a when a has no '/' |
| TreeNavigation.ChildOfTopLevel | Controls/FolderTreeView.cs:141-143 | for '/'-free names, s2/ss lies directly inside s exactly when s2 is s |
| TreeNavigation.TopLevelNotChild | Controls/FolderTreeView.cs:141-143 | a one-segment path lies inside no folder |
| TreeNavigation.GrandchildNotChild | Controls/FolderTreeView.cs:141-143 | a three-segment path does not lie directly inside a subject |
| FolderTree.FolderTreeView.constructor | Controls/FolderTreeView.cs:53-59 | a new control has no items, no current folder, no selection, an empty display and no FolderChanged raised |
| FolderTree.FolderTreeView.RefreshDisplay | Controls/FolderTreeView.cs:110-157 | the display matches the state: the root folders at the root; inside a folder its direct children in list order, preceded by a new ".." entry when the folder is below the root and its parent path names an item. Every displayed folder's HasChildren says whether some item lies below it, and no other flag changes. The display holds only the items and the new ".." entry. The list box keeps the selected item only when the new display holds it, and otherwise selects nothing |
| FolderTree.FolderTreeView.BackEntry | Controls/FolderTreeView.cs:128-138 | the ".." entry exists exactly inside a folder of level above 0 whose parent path names an item. It is a new folder item with that item's path and id, one level above it, with HasChildren set |
| FolderTree.FolderTreeView.ListCurrent | Controls/FolderTreeView.cs:114-153 | the loops list exactly the items the current folder shows, in list order. They recompute HasChildren of the listed folders and leave every other item's flag alone |
| FolderTree.FolderTreeView.Recompute | Controls/FolderTreeView.cs:147-151 | a displayed folder gets HasChildren from whether anything lies below it; other items are untouched |
| FolderTree.FolderTreeView.SetTreeItems | Controls/FolderTreeView.cs:36-42 | assigning the items refreshes the display for them, showing only those items and a new ".." entry, recomputing the displayed folders' child flags and leaving every other flag. The list box keeps the selected item only when the new display holds it, and otherwise selects nothing |
| FolderTree.FolderTreeView.SetCurrentFolder | Controls/FolderTreeView.cs:44-51 | a different folder refreshes the display, recomputes the displayed folders' child flags, leaves every other flag, raises FolderChanged once, and keeps the selection only when the new display holds it; the same folder changes nothing, the selection included |
| FolderTree.FolderTreeView.NavigateToRoot | Controls/FolderTreeView.cs:159-162 | the current folder becomes the root. Leaving a folder refreshes the display, recomputes the child flags of the displayed folders, leaves every other flag, raises FolderChanged once and keeps the selection only when the root display holds it, so a selected leaf is dropped; at the root the display, the flags, the selection and the event count are untouched |
| FolderTree.FolderTreeView.NavigateBack | Controls/FolderTreeView.cs:164-176 | from a folder below the root, go to the first item with the parent path, or to the root when there is none; from the root or a top-level folder, go to the root. A change of folder refreshes the display, recomputes the child flags of the displayed folders, leaves every other flag, raises FolderChanged once and keeps the selection only when the new display holds it; otherwise the display, the flags, the selection and the event count are untouched |
| FolderTree.FolderTreeView.NavigateToFolder | Controls/FolderTreeView.cs:178-184 | a folder becomes the current folder, and a change of folder refreshes the display, recomputes the child flags of the displayed folders, leaves every other flag, raises FolderChanged once and keeps the selection only when the new display holds it; a leaf or the current folder leaves the display, the flags, the selection and the event count untouched |
| FolderTree.FolderTreeView.Click | Controls/FolderTreeView.cs:61-80 | clicking a folder flips its expansion and refreshes the display, recomputing the displayed folders' child flags, leaving every other flag and keeping the selection only when the new display holds it; clicking a leaf only selects it |
| FolderTree.FolderTreeView.GetBreadcrumbPath | Controls/FolderTreeView.cs:186-196 | empty at the root; otherwise the '/'-pieces of the current path, one more than its '/' count, none containing '/', and joining back to the path |
| SimpleTree.SimpleTreeView.constructor | Controls/SimpleTreeView.cs:51-57 | a new control has no items, no current folder and an empty display |
| SimpleTree.SimpleTreeView.RefreshDisplay | Controls/SimpleTreeView.cs:98-136 | the display matches the state as in FolderTreeView, and no tree item is written |
| SimpleTree.SimpleTreeView.BackEntry | Controls/SimpleTreeView.cs:114-122 | the ".." entry exists exactly inside a folder of level above 0 whose parent path names an item. It is a new folder item with that item's path and id, one level above it, and HasChildren unset |
| SimpleTree.SimpleTreeView.ListCurrent | Controls/SimpleTreeView.cs:102-133 | the loops list exactly the items the current folder shows, in list order |
| SimpleTree.SimpleTreeView.SetTreeItems | Controls/SimpleTreeView.cs:35-41 | assigning the items refreshes the display for them |
| SimpleTree.SimpleTreeView.SetCurrentFolder | Controls/SimpleTreeView.cs:43-49 | a different folder refreshes the display; the same folder leaves it |
| SimpleTree.SimpleTreeView.Click | Controls/SimpleTreeView.cs:59-68 | clicking a folder makes it the current folder and refreshes the display when it was not already current; clicking a leaf or the current folder leaves the folder and the display |
| SimpleTree.SimpleTreeView.NavigateToRoot | Controls/SimpleTreeView.cs:138-141 | the current folder becomes the root; leaving a folder refreshes the display, and at the root the display stays |
| SimpleTree.SimpleTreeView.NavigateBack | Controls/SimpleTreeView.cs:143-155 | from a folder below the root, go to the first item with the parent path (or the root); otherwise go to the root. The display is refreshed when the folder changes and stays otherwise |
| LessonTree.BuildTreeItems | AdminWindow.xaml.cs:74-95 | the triple loop builds new items whose views are the pre-order flattening of the subject nodes |
| LessonTree.BuildSubjectItems | AdminWindow.xaml.cs:79-94 | one subject contributes its folder item (level 0, path S, id subject_S), then its sub-subjects' items |
| LessonTree.BuildSubSubjectItems | AdminWindow.xaml.cs:82-94 | the sub-subject loop emits each sub-subject's items in order |
| LessonTree.BuildSubSubjectItem | AdminWindow.xaml.cs:84-93 | one sub-subject contributes its folder item (level 1, path S/SS, id subsubject_SS), then its lessons |
| LessonTree.BuildLessonItems | AdminWindow.xaml.cs:88-93 | each lesson becomes a leaf at level 2, path S/SS/Title, named "Title (Year)", with its id and the lesson attached |
| LessonTree.ShowSubjects | AdminWindow.xaml.cs:72-98 | the tree control gets new items showing the flattening, and its display is refreshed for them; since everything displayed is new, the tree no longer has a selection |
| LessonTree.FlattenedCount | AdminWindow.xaml.cs:77-95 | the flattening has one item per subject, per sub-subject and per lesson |
| LessonTree.FlattenedRoot | Controls/FolderTreeView.cs:114-124 | at the root a flattened tree lists exactly the subject folders, in subject order |
| LessonTree.FlattenedInside | Controls/FolderTreeView.cs:141-153 | inside a subject folder a flattened tree lists exactly that subject's sub-subject folders |
| LessonTree.GroupedSlashFree | Data/LessonRepository.cs:40-63 | when no subject, sub-subject or title contains '/', neither does any name in the grouping |
| LessonTree.OpenRoot | Controls/FolderTreeView.cs:114-124 | at the root the lesson tree lists exactly one folder per stored subject, in ascending order |
| LessonTree.OpenSubject | Controls/FolderTreeView.cs:141-153 | opening subject s lists exactly the folders of s's sub-subjects, in ascending order |
| LessonTree.ChildrenOfSubject | Data/LessonRepository.cs:44-63 | the children of a stored subject's folder are its sub-subject folders in ascending order |
| LessonTree.ChildrenOfNonSubject | Data/LessonRepository.cs:44-63 | a name that is not a stored subject has no children |
| LessonTree.SingleNamePaths | AdminWindow.xaml.cs:79-91 | the only flattened items whose path is one name are that subject's folder items |
| LessonTree.BackFromSubSubject | Controls/FolderTreeView.cs:164-176 | going back from a sub-subject folder leads to its subject's folder item |
| LessonTree.FlattenedHoldsLesson | AdminWindow.xaml.cs:77-95 | every stored lesson appears in the tree as a leaf under its subject and sub-subject |
| Admin.CheckUpload | AdminWindow.xaml.cs:121-141 | an upload is refused for missing fields exactly when the subject, sub-subject or title is blank. Otherwise it is refused for the file exactly when the path is empty or names no file. When accepted it carries the trimmed, non-empty values and the year, "2024" when none is selected |
| Admin.UploadedLesson | AdminWindow.xaml.cs:145-151 | the lesson built for an upload has the fresh id, the accepted values and otherwise the defaults |
| Admin.UploadShown | AdminWindow.xaml.cs:153-161 | after an upload is stored, its subject is offered and the lesson appears in the reloaded tree |
| Admin.LessonCopies | AdminWindow.xaml.cs:272-281 | one copy per lesson, from its repository audio path to `<folder>\<Title>_<Year>.mp3` |
| Admin.ApplySnoc | AdminWindow.xaml.cs:275-279 | each File.Copy writes its target only when its source exists at that point |
| Admin.ApplyAppend | AdminWindow.xaml.cs:263-284 | running two lists of copies one after the other is running their concatenation |
| Admin.ApplyOnlyTargets | AdminWindow.xaml.cs:275-279 | a file no copy targets is left as it was |
| Admin.ApplyWritesTarget | AdminWindow.xaml.cs:275-279 | a copy whose source exists, and whose source no copy overwrites, produces its target |
| Admin.FolderCopiesExactly | AdminWindow.xaml.cs:259-285 | dropping subject s plans a copy of each of s's lessons to `<dest>\<SubSubject>\<Title>_<Year>.mp3` |
| Admin.FolderCopiesOnlySubject | AdminWindow.xaml.cs:259-285 | every planned copy is one of subject s's lessons to that target: other subjects are never copied |
| Admin.AdminWindow.constructor | AdminWindow.xaml.cs:24-32 | the window starts with an empty form, no status and no subject choices |
| Admin.AdminWindow.LoadExistingLessons | AdminWindow.xaml.cs:72-98 | the tree gets new items showing the flattened grouping of the stored lessons, its display is refreshed, and it no longer has a selection |
| Admin.AdminWindow.LoadSubjects | AdminWindow.xaml.cs:42-49 | the subject choices are the stored subjects, and when there is one the first is selected into the subject box; otherwise the form is untouched |
| Admin.AdminWindow.ClearUploadForm | AdminWindow.xaml.cs:292-299 | the text fields and the path are cleared and the first year entry is selected |
| Admin.AdminWindow.UploadButtonClick | AdminWindow.xaml.cs:121-173 | a refused upload sets only the matching status and leaves the form, subjects, disk, tree and selection. An accepted one stores the lesson through AddLesson, clears the form, reloads the subjects (preselecting the first) and the tree (dropping the selection), and, when the save went through, shows the new lesson |
| Admin.AdminWindow.UploadAccepted | AdminWindow.xaml.cs:143-161 | the accepted branch: the repository add, then the status, the cleared form with the first subject preselected, the subjects, and the tree without a selection |
| Admin.AdminWindow.FinishUpload | AdminWindow.xaml.cs:155-160 | success status, the cleared form holding the first stored subject when there is one, stored subjects and a reloaded tree without a selection, which hold the new lesson when it was appended |
| Admin.AdminWindow.ReloadLessons | AdminWindow.xaml.cs:159-160 | subjects and tree are reloaded from the document, the first subject is preselected and the tree selection is dropped, and both hold the new lesson when it was appended |
| Admin.AdminWindow.DeleteButtonClick | AdminWindow.xaml.cs:175-214 | with the selection before the click: no selection, a folder, or a refused confirmation deletes nothing and leaves the tree and the selection. A confirmed leaf is deleted exactly when its id is stored, and then the file, document and tree follow DeleteLesson and the selection is dropped |
| Admin.AdminWindow.DeleteConfirmed | AdminWindow.xaml.cs:192-207 | the confirmed branch: an unknown id is reported and changes nothing; a known one is deleted, the tree reloaded and the selection dropped |
| Admin.AdminWindow.CopyFolderContents | AdminWindow.xaml.cs:259-285 | the files after the copy are the planned copies of the dropped subject run in order over the files before |
| Admin.AdminWindow.CopySubject | AdminWindow.xaml.cs:263-283 | one subject node is copied only when it has the folder's name |
| Admin.AdminWindow.CopySubSubjects | AdminWindow.xaml.cs:267-282 | the sub-subject loop runs each node's copies in order |
| Admin.AdminWindow.CopyLessons | AdminWindow.xaml.cs:272-281 | the lesson loop runs each lesson's copy in order, skipping missing sources |
| Admin.AdminWindow.Drop | AdminWindow.xaml.cs:216-244 | a dropped folder is copied exactly when a usable drive with a non-empty root exists, into `<drive>\<folder name>`; anything else writes no file |
| Devices.FirstUsable | AdminWindow.xaml.cs:249-255 | none exactly when no drive is removable and ready, otherwise the first such drive |
| Devices.GetUsbDrivePath | AdminWindow.xaml.cs:246-257 | the loop returns the first removable, ready drive's root, or "" |
| Devices.PathDisplay | StudentWindow.xaml.cs:307-317 | the root label at the root, the current folder's path otherwise |
| Student.DownloadNameExtension | StudentWindow.xaml.cs:283 | a downloaded file always gets the ".mp3" extension |
| Student.FirstSeparatorAt | StudentWindow.xaml.cs:283 | in a + sep + r with a free of sep, the first separator follows a |
| Student.SplitAtSeparator | StudentWindow.xaml.cs:283 | two separator-free prefixes followed by the separator split a name the same way |
| Student.DownloadNameInjective | StudentWindow.xaml.cs:283 | when subjects and sub-subjects have no '_', two lessons with the same download name have the same subject, sub-subject and title |
| Student.DownloadNamesCanCollide | StudentWindow.xaml.cs:283-286 | without that condition two lessons of different subjects can get the same name, and the later download overwrites the earlier |
| Student.DownloadSourceOfShownLesson | StudentWindow.xaml.cs:280 | with unique ids, a shown lesson downloads its own audio file |
| Student.StudentWindow.constructor | StudentWindow.xaml.cs:49-59 | the window starts disconnected with an empty device path |
| Student.StudentWindow.ConnectDeviceClick | StudentWindow.xaml.cs:198-232 | when connected it disconnects and clears the path. When disconnected it connects to the first removable, ready drive, loads the lessons and drops the tree selection; with no such drive only the status changes |
| Student.StudentWindow.Connect | StudentWindow.xaml.cs:206-215 | the device is connected at the drive's root, the tree shows the stored lessons and has no selection |
| Student.StudentWindow.LoadAvailableLessons | StudentWindow.xaml.cs:234-260 | the tree shows the flattened grouping of the stored lessons and has no selection |
| Student.StudentWindow.DownloadClick | StudentWindow.xaml.cs:262-304 | nothing is copied with no selection, a folder, no device or a missing source. A leaf with a lesson and an existing source is copied, overwriting, to `<device>\<Subject>_<SubSubject>_<Title>.mp3`; a leaf without a lesson fails |
| LessonDialog.SelectIn | AddEditLessonDialog.xaml.cs:72 | setting SelectedItem selects the value exactly when the list offers it |
| LessonDialog.Reselect | AddEditLessonDialog.xaml.cs:163 | replacing a combo box's ItemsSource keeps its selection exactly when the new list offers it, and otherwise selects nothing |
| LessonDialog.Countdown | AddEditLessonDialog.xaml.cs:63-66 | counting down renders as many values as requested |
| LessonDialog.CountdownAt | AddEditLessonDialog.xaml.cs:63-66 | entry k of a countdown renders from - k |
| LessonDialog.CountdownSnoc | AddEditLessonDialog.xaml.cs:63-66 | one more loop iteration appends the next year down |
| LessonDialog.CountdownDistinct | AddEditLessonDialog.xaml.cs:63-66 | a countdown under an injective rendering holds no text twice |
| LessonDialog.BuildYears | AddEditLessonDialog.xaml.cs:61-66 | the counting loop builds exactly the year list |
| LessonDialog.YearListEntries | AddEditLessonDialog.xaml.cs:61-67 | the year list has seven entries, from next year down to five years back, descending |
| LessonDialog.YearListHasCurrentYear | AddEditLessonDialog.xaml.cs:69-73 | the current year, which add mode preselects, is offered |
| LessonDialog.YearTextInjective | AddEditLessonDialog.xaml.cs:65 | no two years render to the same text |
| LessonDialog.YearListDistinct | AddEditLessonDialog.xaml.cs:61-67 | no year is offered twice |
| LessonDialog.SubjectChoices | AddEditLessonDialog.xaml.cs:76-106 | the stored subjects when there are any, otherwise the fixed four default subjects; never empty |
| LessonDialog.ValidateFieldsAccepts | AddEditLessonDialog.xaml.cs:336-400 | a form passes exactly when every rule holds, the title length counted in UTF-16 code units as string.Length counts it |
| LessonDialog.ValidateFieldsFirstError | AddEditLessonDialog.xaml.cs:336-400 | the error reported is the first rule broken, in the order title, title length, subject, sub-subject, year, audio, audio exists, PDF exists |
| LessonDialog.ValidFormShape | AddEditLessonDialog.xaml.cs:355-383 | a valid form has a subject and a year, and an audio path in add mode |
| LessonDialog.MergePdf | AddEditLessonDialog.xaml.cs:297-308 | the three-way PDF rule: a chosen PDF sets path and flag; a null choice on a lesson with a PDF clears both; otherwise nothing changes; only the two PDF fields ever change |
| LessonDialog.MergePdfConsistent | AddEditLessonDialog.xaml.cs:297-308 | the PDF rule keeps "has a PDF exactly when a path is recorded" |
| LessonDialog.EditedLesson | AddEditLessonDialog.xaml.cs:283-308 | an edit keeps id, creation time and sizes, trims the title, takes the selected or typed sub-subject, replaces the audio only for a non-empty choice, and merges the PDF |
| LessonDialog.NewLessonFrom | AddEditLessonDialog.xaml.cs:310-324 | a new lesson gets the fresh id and time, the form's values, the audio path, the PDF path or "", and a PDF flag exactly for a non-empty PDF |
| LessonDialog.ValidAddSaves | AddEditLessonDialog.xaml.cs:275-324 | a valid add form saves a lesson with a title of at least 3 UTF-16 code units, an existing audio file and an existing PDF when it has one |
| LessonDialog.ValidEditSaves | AddEditLessonDialog.xaml.cs:275-309 | a valid edit saves a title of at least 3 UTF-16 code units, and any new audio or PDF it records exists |
| LessonDialog.UnchangedFormSavesSameLesson | AddEditLessonDialog.xaml.cs:452-497 | with no unsaved changes and no new PDF, saving gives back the lesson exactly when the PDF was not removed: clearing the PDF is not reported as a change |
| LessonDialog.LoadedForm | AddEditLessonDialog.xaml.cs:108-130 | loading a lesson fills the title, and selects its subject, sub-subject and year when they are non-empty and the lists offer them. Selecting the subject replaces the sub-subject list, which keeps an earlier sub-subject selection only when it offers it; otherwise the previous selection stays |
| LessonDialog.LoadedLessonUnchanged | AddEditLessonDialog.xaml.cs:108-148 | for a lesson with a trimmed title whose subject, sub-subject and year are offered, a freshly loaded edit dialog reports no unsaved changes, and saving it gives back the lesson when its PDF state is consistent |
| LessonDialog.FreshAddDialogUnchanged | AddEditLessonDialog.xaml.cs:477-496 | a fresh add dialog, with only the current year selected, reports no unsaved changes |
| LessonDialog.AddEditLessonDialog.Add | AddEditLessonDialog.xaml.cs:21-28 | add mode: subject choices and years loaded, the current year selected, everything else empty |
| LessonDialog.AddEditLessonDialog.Edit | AddEditLessonDialog.xaml.cs:30-39 | edit mode: choices and years loaded, then the lesson's data loaded into the form |
| LessonDialog.AddEditLessonDialog.InitializeDialog | AddEditLessonDialog.xaml.cs:41-74 | the subject choices and years are loaded; add mode selects the current year |
| LessonDialog.AddEditLessonDialog.LoadLessonData | AddEditLessonDialog.xaml.cs:108-148 | without a lesson nothing changes; with one the form, sub-subject choices and file paths are loaded from it |
| LessonDialog.AddEditLessonDialog.LoadFields | AddEditLessonDialog.xaml.cs:112-130 | the title, subject (with its sub-subjects), sub-subject and year are loaded |
| LessonDialog.AddEditLessonDialog.LoadFiles | AddEditLessonDialog.xaml.cs:132-147 | the lesson's audio path, and its PDF path when it has one, become the chosen files |
| LessonDialog.AddEditLessonDialog.SelectSubject | AddEditLessonDialog.xaml.cs:150-186 | a non-empty subject loads its sub-subjects, and the sub-subject selection survives only when the new list offers it; an empty one clears the list and the sub-subject selection |
| LessonDialog.AddEditLessonDialog.BrowseAudio | AddEditLessonDialog.xaml.cs:189-224 | a readable chosen file becomes the audio path; an unreadable one clears it |
| LessonDialog.AddEditLessonDialog.BrowsePdf | AddEditLessonDialog.xaml.cs:227-264 | a readable chosen file becomes the PDF path; an unreadable one clears it |
| LessonDialog.AddEditLessonDialog.ClearPdf | AddEditLessonDialog.xaml.cs:267-273 | the PDF choice becomes null |
| LessonDialog.AddEditLessonDialog.SaveClick | AddEditLessonDialog.xaml.cs:275-334 | an invalid form reports its first error and changes nothing else. A valid one stores the edited or new lesson and closes with a true result |
| LessonDialog.AddEditLessonDialog.StoreForm | AddEditLessonDialog.xaml.cs:283-327 | edit mode stores the edited lesson, add mode a new one, and the result is true |
| LessonDialog.AddEditLessonDialog.CancelClick | AddEditLessonDialog.xaml.cs:426-445 | the dialog closes with a false result exactly when nothing is unsaved or the user agrees to leave |
| ComboValidation.Validate | Validation/ComboBoxValidationRule.cs:8-18 | a value is valid exactly when it is non-null and its text has a non-whitespace character; an invalid one carries "Please select a value" |
| ComboValidation.NullRejected | Validation/ComboBoxValidationRule.cs:11-14 | a null value is rejected with the prompt |
| ComboValidation.ValidIffTrimmedNonEmpty | Validation/ComboBoxValidationRule.cs:11-17 | a text is valid exactly when it is non-empty after trimming |
| ComboValidation.CultureIgnored | Validation/ComboBoxValidationRule.cs:8-18 | the verdict does not depend on the culture |
| AdminLogin.Decide | AdminLoginWindow.xaml.cs:44-67 | login succeeds exactly when the trimmed username is "admin" and the password, untrimmed, is "admin123"; an empty trimmed username or empty password is the missing-credentials error |
| AdminLogin.PaddedUsernameAccepted | AdminLoginWindow.xaml.cs:46 | whitespace around the username does not stop the administrator logging in |
| AdminLogin.PaddedPasswordRefused | AdminLoginWindow.xaml.cs:47-63 | whitespace around the password makes the login fail with wrong credentials |
| AdminLogin.RetryAfterWrongPasswordIsMissing | AdminLoginWindow.xaml.cs:61-66 | after wrong credentials the cleared password makes a second attempt report missing credentials |
| AdminLogin.AdminLoginWindow.constructor | AdminLoginWindow.xaml.cs:19-23 | the window starts with empty boxes, no error and no window opened |
| AdminLogin.AdminLoginWindow.LoginClick | AdminLoginWindow.xaml.cs:44-67 | the decision is Decide on the boxes. Success opens the admin window; wrong credentials show the error and clear the password; missing ones show the error only |
| AdminLogin.AdminLoginWindow.BackClick | AdminLoginWindow.xaml.cs:37-42 | the main window is opened |
| AdminLogin.AdminLoginWindow.KeyDown | AdminLoginWindow.xaml.cs:25-35 | Enter logs in, Escape goes back, other keys change nothing |

## Left out

- JSON persistence: the metadata document is a list of records. Serialisation is not modelled, and a failed save is a `saveSucceeds` input: the source swallows the error and reports success.
- The filesystem is a map from path to length. These are not modelled:
  - directories and `Directory.CreateDirectory`;
  - file contents (a copy carries the length);
  - exceptions other than a missing source.
- Culture-sensitive string comparison in OrderBy is modelled as ordinal order. The proofs use only its total-order laws.
- `Guid.NewGuid`, `DateTime.Now`, the drive list and the answers to message boxes are inputs.
- Kiosk lockdown is not modelled: P/Invoke, registry edits, key blocking and the close-button removal.
- MainWindow.xaml.cs, CustomMessageBox.xaml.cs and NotificationHelper.cs are not part of this model. They hold presentation and no catalog or navigation logic.
- The `OnClosing` overrides cancel every close, so no window actually closes. The model records the windows opened, not the closing.
- WPF plumbing is not modelled:
  - dependency-property registration and hit testing (a click is the item under the mouse);
  - drag gestures (a drop is the dragged item);
  - focus, brushes, colours, icons and dialog text.
- The large-file warnings of the dialog are left out. They use floating-point megabyte arithmetic and only show a message.
- The dialog's combo-box values are modelled by their text. `SelectedItem as string` of a non-string item is not modelled.
- Admin.AdminWindow.LoadSubjects: the preselection of the first subject is modelled, but not the sub-subject reload and preselection in `SubjectComboBox_SelectionChanged` (AdminWindow.xaml.cs:51-61) that it may trigger. That handler is attached only in `InitializeControls`, which nothing in the code-behind calls, or else by the window markup, which is not part of this model. So the sub-subject box keeps the text it had.
- Admin.AdminWindow.ReloadLessons: the same: the sub-subject box keeps its text, and the reload of the sub-subject choices is not modelled.
- Admin.AdminWindow.FinishUpload: the same: after an accepted upload the model leaves the sub-subject box cleared, while the source shows the first sub-subject of the first subject whenever the selection handler is attached.
- Admin.AdminWindow.UploadAccepted: the same, through FinishUpload.
- Admin.AdminWindow.UploadButtonClick: the same, through UploadAccepted.
- LessonDialog.AddEditLessonDialog.SelectSubject: when the new sub-subject list drops the selection, the box's typed text (`subSubjectText`) is left as it was; what an editable WPF combo box then shows in its text box is not modelled.
- Student.StudentWindow.LoadAvailableLessons: does not state that the tree items are new or that the tree's display is refreshed. Both hold, as `ShowSubjects` proves, but carrying them to the connect handler was too costly. Admin.AdminWindow.LoadExistingLessons states both.
- Repository.LessonRepository.constructor: creating the data and audio folders is not modelled, because directories are not part of the disk model.
- The JSON round trip of saving and reloading the catalog is not modelled: the document holds the records themselves, so a reload reads back exactly what was saved.
- Text.StartsWith: the ordinal prefix test stands in for the culture-sensitive `string.StartsWith(string)` of the tree controls. A culture-sensitive comparison ignores characters such as U+00AD (soft hyphen) and U+200F (right-to-left mark), so the program can list a path like "A\u00AD/B" inside folder "A". The model does not. Modelling a culture's collation is out of reach here.
- FolderTree.FolderTreeView.RefreshDisplay: lists and flags by the ordinal prefix test, so it does not capture the extra items a culture-sensitive StartsWith lists when paths differ only by ignorable characters (see Text.StartsWith).
- FolderTree.FolderTreeView.ListCurrent: the same ordinal prefix test in place of the culture-sensitive one (see Text.StartsWith).
- FolderTree.FolderTreeView.Recompute: HasChildren uses the ordinal prefix test, so a descendant whose path differs only by ignorable characters is not counted (see Text.StartsWith).
- SimpleTree.SimpleTreeView.RefreshDisplay: the same ordinal prefix test in place of the culture-sensitive one (see Text.StartsWith).
- SimpleTree.SimpleTreeView.ListCurrent: the same ordinal prefix test in place of the culture-sensitive one (see Text.StartsWith).
- LessonTree.FlattenedInside: holds for the ordinal prefix test. Under a culture-sensitive StartsWith, subjects that differ only by ignorable characters (such as "A" and "A\u00AD") would also list each other's sub-subjects (see Text.StartsWith).
- LessonTree.OpenSubject: the same limit as FlattenedInside. It describes the ordinal listing, not a culture-sensitive one, for subjects that differ only by ignorable characters.
- File paths are compared case-sensitively as map keys. Windows paths are case-insensitive, so the model does not capture these collisions:
  - two lessons whose titles differ only in case and share a year are copied by a drop to the same file on the drive;
  - downloads whose names differ only in case collide in the same way.
- The disk map may hold the empty path, which `File.Exists("")` never reports. The model does not rule this out: a lookup of an unknown id yields the audio path "", which counts as existing exactly when the map holds "".
- LessonDialog.EditedLesson: the dialog edits the caller's `Lesson` object in place. The model returns the edited lesson as a new value, so it does not capture that the caller's object, and any list holding a reference to it, sees the edit at once.
