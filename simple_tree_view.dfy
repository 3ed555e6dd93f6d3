/** Controls/SimpleTreeView.cs: the same one-folder-at-a-time list as FolderTreeView, but
    a click on a folder opens it, no item is ever written, and no event is raised. */
module SimpleTree {
  import opened Text
  import opened TreeItems
  import opened TreeNavigation

  class SimpleTreeView {
    /** The TreeItems property. */
    var treeItems: seq<TreeItem>
    /** The CurrentFolder property; null is the root. */
    var currentFolder: TreeItem?
    /** The list box's ItemsSource: what is displayed. */
    var itemsSource: seq<TreeItem>

    constructor()
      ensures treeItems == [] && currentFolder == null && itemsSource == []
    {
      treeItems, currentFolder, itemsSource := [], null, [];
    }

    /** What the current folder lists. */
    function Listing(): Listing
      reads this
    {
      if currentFolder == null then AtRoot else Inside(currentFolder.fullPath)
    }

    /** The displayed list matches the state: the root folders at the root; inside a
        folder, its direct children, preceded by a ".." entry (with HasChildren left
        false) when the folder is below the root and its parent path names an item. */
    predicate Shows()
      reads this, itemsSource
    {
      if currentFolder == null then itemsSource == RootFolders(treeItems)
      else
        var back := BackTarget(treeItems, currentFolder);
        var kids := ChildItems(treeItems, currentFolder.fullPath);
        if back == null then itemsSource == kids
        else (|itemsSource| == |kids| + 1 && itemsSource[1..] == kids
              && IsBackEntry(itemsSource[0], back) && !itemsSource[0].hasChildren)
    }

    /** RefreshDisplay: recomputes the displayed list and writes nothing else. */
    method RefreshDisplay()
      modifies this`itemsSource
      ensures Shows()
      ensures currentFolder != null && BackTarget(treeItems, currentFolder) != null ==> fresh(itemsSource[0])
    {
      var listed := ListCurrent();
      var display := BackEntry();
      itemsSource := display + listed;
      assert itemsSource[|display|..] == listed;
    }

    /** The first part of RefreshDisplay: inside a folder below the root whose parent
        path names an item, a new ".." entry leading to that item; otherwise nothing. */
    method BackEntry() returns (display: seq<TreeItem>)
      ensures currentFolder == null || BackTarget(treeItems, currentFolder) == null ==> display == []
      ensures currentFolder != null && BackTarget(treeItems, currentFolder) != null ==>
        |display| == 1 && fresh(display[0])
        && IsBackEntry(display[0], BackTarget(treeItems, currentFolder)) && !display[0].hasChildren
    {
      display := [];
      if currentFolder != null {
        var back := BackTarget(treeItems, currentFolder);
        if back != null {
          var backItem := new TreeItem("..", back.fullPath, back.id, true, back.level - 1, Optional.None);
          display := [backItem];
        }
      }
    }

    /** The loop of RefreshDisplay: the listed items in list order. */
    method ListCurrent() returns (listed: seq<TreeItem>)
      ensures listed == Where(treeItems, Listing())
    {
      var c := Listing();
      listed := [];
      var i := 0;
      while i < |treeItems|
        invariant 0 <= i <= |treeItems|
        invariant listed == Where(treeItems[..i], c)
      {
        var item := treeItems[i];
        WhereStep(treeItems, i, c);
        WhereSingle(item, c);
        if Listed(c, item.View()) {
          listed := listed + [item];
        }
        i := i + 1;
      }
      assert treeItems[..i] == treeItems;
    }

    /** Assigning the TreeItems property (always a new collection, so always a refresh). */
    method SetTreeItems(items: seq<TreeItem>)
      modifies this`treeItems, this`itemsSource
      ensures treeItems == items && Shows()
    {
      treeItems := items;
      RefreshDisplay();
    }

    /** Assigning the CurrentFolder property: refreshes only when the value differs. */
    method SetCurrentFolder(f: TreeItem?)
      modifies this`currentFolder, this`itemsSource
      ensures currentFolder == f
      ensures f != old(currentFolder) ==> Shows()
      ensures f == old(currentFolder) ==> itemsSource == old(itemsSource)
    {
      if f != currentFolder {
        currentFolder := f;
        RefreshDisplay();
      }
    }

    /** A click on a displayed item (after hit testing): a folder becomes the current
        folder; a leaf changes nothing. */
    method Click(item: TreeItem)
      modifies this`currentFolder, this`itemsSource
      ensures currentFolder == if item.isFolder then item else old(currentFolder)
      ensures !item.isFolder || item == old(currentFolder) ==> itemsSource == old(itemsSource)
      ensures item.isFolder && item != old(currentFolder) ==> Shows()
    {
      if item.isFolder {
        SetCurrentFolder(item);
      }
    }

    /** NavigateToRoot. */
    method NavigateToRoot()
      modifies this`currentFolder, this`itemsSource
      ensures currentFolder == null
      ensures old(currentFolder) != null ==> Shows()
      ensures old(currentFolder) == null ==> itemsSource == old(itemsSource)
    {
      SetCurrentFolder(null);
    }

    /** NavigateBack: from a folder below the root, to the first item with its parent
        path (the root when there is none); otherwise to the root. */
    method NavigateBack()
      modifies this`currentFolder, this`itemsSource
      ensures currentFolder == if old(currentFolder) == null then null else BackTarget(treeItems, old(currentFolder))
      ensures currentFolder != old(currentFolder) ==> Shows()
      ensures currentFolder == old(currentFolder) ==> itemsSource == old(itemsSource)
    {
      if currentFolder != null && currentFolder.level > 0 {
        var parent := FirstWithPath(treeItems, ParentPath(currentFolder.fullPath));
        SetCurrentFolder(parent);
      } else {
        NavigateToRoot();
      }
    }
  }
}
