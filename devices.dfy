/** What AdminWindow.xaml.cs and StudentWindow.xaml.cs share outside the tree: the choice
    of a removable drive among DriveInfo.GetDrives(), and the path label above the tree.
    The drive list is an input: which drives are plugged in is not part of the model. */
module Devices {
  import opened Optional
  import opened TreeItems

  datatype DriveType = Unknown | NoRootDirectory | Removable | Fixed | Network | CDRom | Ram

  /** One entry of DriveInfo.GetDrives(): its type, whether it is ready, and the full name
      of its root directory. */
  datatype Drive = Drive(driveType: DriveType, isReady: bool, root: string)

  /** A drive the windows will write to: removable and ready. */
  predicate Usable(d: Drive) {
    d.driveType == Removable && d.isReady
  }

  /** The position of the first usable drive, if any. */
  function FirstUsable(drives: seq<Drive>): (r: Option<nat>)
    ensures r.None? <==> forall d :: d in drives ==> !Usable(d)
    ensures r.Some? ==> (r.value < |drives| && Usable(drives[r.value])
      && forall j :: 0 <= j < r.value ==> !Usable(drives[j]))
  {
    if drives == [] then None
    else if Usable(drives[0]) then Some(0)
    else
      match FirstUsable(drives[1..])
      case None => None
      case Some(i) => Some(i + 1)
  }

  /** AdminWindow.GetUsbDrivePath: the root of the first removable, ready drive, or "" when
      there is none. */
  method GetUsbDrivePath(drives: seq<Drive>) returns (path: string)
    ensures FirstUsable(drives).None? ==> path == ""
    ensures FirstUsable(drives).Some? ==> path == drives[FirstUsable(drives).value].root
  {
    var i := 0;
    while i < |drives|
      invariant 0 <= i <= |drives|
      invariant forall j :: 0 <= j < i ==> !Usable(drives[j])
    {
      if Usable(drives[i]) {
        return drives[i].root;
      }
      i := i + 1;
    }
    return "";
  }

  /** The label shown at the root. */
  const RootLabel := "שורש"

  /** UpdatePathDisplay, run on every FolderChanged: the root label at the root, the
      current folder's full path inside a folder. */
  function PathDisplay(currentFolder: TreeItem?): (shown: string)
    ensures currentFolder == null ==> shown == RootLabel
    ensures currentFolder != null ==> shown == currentFolder.fullPath
  {
    if currentFolder == null then RootLabel else currentFolder.fullPath
  }
}
