/** Controls/FolderTreeView.cs: a list box that shows one folder of the flat tree at a
    time. Setting the items or the current folder re-derives the displayed list; folders
    shown get their HasChildren flag recomputed; a change of folder raises FolderChanged. */
module FolderTree {
  import opened Text
  import opened TreeItems
  import opened TreeNavigation

  class FolderTreeView {
    /** The TreeItems property. */
    var treeItems: seq<TreeItem>
    /** The CurrentFolder property; null is the root. */
    var currentFolder: TreeItem?
    /** The list box's SelectedItem. */
    var selectedItem: TreeItem?
    /** The list box's ItemsSource: what is displayed. */
    var itemsSource: seq<TreeItem>
    /** How many times FolderChanged has been raised. */
    var folderChangedEvents: nat

    constructor()
      ensures treeItems == [] && currentFolder == null && selectedItem == null
      ensures itemsSource == [] && folderChangedEvents == 0
    {
      treeItems, currentFolder, selectedItem, itemsSource, folderChangedEvents := [], null, null, [], 0;
    }

    /** What the current folder lists. */
    function Listing(): Listing
      reads this
    {
      if currentFolder == null then AtRoot else Inside(currentFolder.fullPath)
    }

    /** Whether a refresh recomputes x's HasChildren flag: the folders it displays. */
    predicate Touched(x: TreeItem)
      reads this
    {
      x.isFolder && Listed(Listing(), x.View())
    }

    /** The displayed list matches the state: the root folders at the root; inside a
        folder, its direct children, preceded by a ".." entry when the folder is below the
        root and its parent path names an item. */
    predicate Shows()
      reads this, itemsSource
    {
      if currentFolder == null then itemsSource == RootFolders(treeItems)
      else
        var back := BackTarget(treeItems, currentFolder);
        var kids := ChildItems(treeItems, currentFolder.fullPath);
        if back == null then itemsSource == kids
        else (|itemsSource| == |kids| + 1 && itemsSource[1..] == kids
              && IsBackEntry(itemsSource[0], back) && itemsSource[0].hasChildren)
    }

    /** Every displayed folder knows whether anything lies below it. */
    predicate ChildFlagsCurrent()
      reads this, treeItems
    {
      forall x :: x in treeItems && Touched(x) ==> x.hasChildren == HasDescendant(Views(treeItems), x.fullPath)
    }

    /** Replacing the list box's ItemsSource: the selection survives only when the new
        list holds the selected item. */
    predicate SelectionFollows(previous: TreeItem?)
      reads this
    {
      selectedItem == if previous in itemsSource then previous else null
    }

    /** RefreshDisplay. The new list holds only items of TreeItems and, possibly, a new
        ".." entry; the list box drops a selection the new list does not hold. */
    method RefreshDisplay()
      modifies this`itemsSource, this`selectedItem, treeItems`hasChildren
      ensures Shows() && ChildFlagsCurrent()
      ensures forall x :: x in treeItems && !Touched(x) ==> x.hasChildren == old(x.hasChildren)
      ensures currentFolder != null && BackTarget(treeItems, currentFolder) != null ==> fresh(itemsSource[0])
      ensures forall x :: x in itemsSource ==> x in treeItems || fresh(x)
      ensures SelectionFollows(old(selectedItem))
    {
      var listed := ListCurrent();
      var display := BackEntry();
      itemsSource := display + listed;
      assert itemsSource[|display|..] == listed;
      WhereSubset(treeItems, Listing());
      if selectedItem !in itemsSource {
        selectedItem := null;
      }
    }

    /** The first part of RefreshDisplay: inside a folder below the root whose parent
        path names an item, a new ".." entry leading to that item; otherwise nothing. */
    method BackEntry() returns (display: seq<TreeItem>)
      ensures currentFolder == null || BackTarget(treeItems, currentFolder) == null ==> display == []
      ensures currentFolder != null && BackTarget(treeItems, currentFolder) != null ==>
        |display| == 1 && fresh(display[0])
        && IsBackEntry(display[0], BackTarget(treeItems, currentFolder)) && display[0].hasChildren
    {
      display := [];
      if currentFolder != null {
        var back := BackTarget(treeItems, currentFolder);
        if back != null {
          var backItem := new TreeItem("..", back.fullPath, back.id, true, back.level - 1, Optional.None);
          backItem.hasChildren := true;
          display := [backItem];
        }
      }
    }

    /** The two loops of RefreshDisplay: the listed items in list order, with the
        HasChildren flag of each listed folder recomputed on the way. */
    method ListCurrent() returns (listed: seq<TreeItem>)
      modifies treeItems`hasChildren
      ensures listed == Where(treeItems, Listing())
      ensures forall x :: x in treeItems ==> (x.hasChildren
        == if Touched(x) then HasDescendant(Views(treeItems), x.fullPath) else old(x.hasChildren))
    {
      var c := Listing();
      var views := Views(treeItems);
      listed := [];
      var i := 0;
      while i < |treeItems|
        invariant 0 <= i <= |treeItems|
        invariant listed == Where(treeItems[..i], c)
        invariant forall x :: x in treeItems ==> (x.hasChildren
          == if x in treeItems[..i] && Touched(x) then HasDescendant(views, x.fullPath) else old(x.hasChildren))
      {
        var item := treeItems[i];
        WhereStep(treeItems, i, c);
        PrefixStep(treeItems, i);
        Recompute(item, views);
        listed := listed + Where([item], c);
        i := i + 1;
      }
      assert treeItems[..i] == treeItems;
    }

    /** The body of the second loop for one item: a listed folder gets its HasChildren
        flag from the views. */
    method Recompute(item: TreeItem, views: seq<ItemView>)
      modifies item`hasChildren
      ensures item.hasChildren == if Touched(item) then HasDescendant(views, item.fullPath) else old(item.hasChildren)
    {
      if Listed(Listing(), item.View()) {
        if item.isFolder {
          item.hasChildren := HasDescendant(views, item.fullPath);
        }
      }
    }

    /** Assigning the TreeItems property. The windows assign a new collection each time,
        so the change callback always runs and refreshes the display. */
    method SetTreeItems(items: seq<TreeItem>)
      modifies this`treeItems, this`itemsSource, this`selectedItem, items`hasChildren
      ensures treeItems == items
      ensures Shows() && ChildFlagsCurrent()
      ensures forall x :: x in treeItems && !Touched(x) ==> x.hasChildren == old(x.hasChildren)
      ensures forall x :: x in itemsSource ==> x in treeItems || fresh(x)
      ensures SelectionFollows(old(selectedItem))
    {
      treeItems := items;
      RefreshDisplay();
    }

    /** Assigning the CurrentFolder property: the change callback runs only when the value
        differs (by reference), and then refreshes the display and raises FolderChanged. */
    method SetCurrentFolder(f: TreeItem?)
      modifies this`currentFolder, this`itemsSource, this`selectedItem, this`folderChangedEvents, treeItems`hasChildren
      ensures currentFolder == f
      ensures f != old(currentFolder) ==>
        Shows() && ChildFlagsCurrent() && folderChangedEvents == old(folderChangedEvents) + 1
        && SelectionFollows(old(selectedItem))
        && forall x :: x in treeItems && !Touched(x) ==> x.hasChildren == old(x.hasChildren)
      ensures f == old(currentFolder) ==>
        itemsSource == old(itemsSource) && folderChangedEvents == old(folderChangedEvents)
        && selectedItem == old(selectedItem)
        && forall x :: x in treeItems ==> x.hasChildren == old(x.hasChildren)
    {
      if f != currentFolder {
        currentFolder := f;
        RefreshDisplay();
        folderChangedEvents := folderChangedEvents + 1;
      }
    }

    /** NavigateToRoot. The root lists only folders, so a selected leaf is dropped. */
    method NavigateToRoot()
      modifies this`currentFolder, this`itemsSource, this`selectedItem, this`folderChangedEvents, treeItems`hasChildren
      ensures currentFolder == null
      ensures old(currentFolder) != null ==>
        Shows() && ChildFlagsCurrent() && folderChangedEvents == old(folderChangedEvents) + 1
        && SelectionFollows(old(selectedItem))
        && (forall x :: x in treeItems && !Touched(x) ==> x.hasChildren == old(x.hasChildren))
      ensures old(currentFolder) == null ==>
        itemsSource == old(itemsSource) && folderChangedEvents == old(folderChangedEvents)
        && selectedItem == old(selectedItem)
        && (forall x :: x in treeItems ==> x.hasChildren == old(x.hasChildren))
      ensures old(currentFolder) != null && old(selectedItem) != null && !old(selectedItem).isFolder ==>
        selectedItem == null
    {
      SetCurrentFolder(null);
      if old(currentFolder) != null && old(selectedItem) != null && !old(selectedItem).isFolder {
        WhereCount(treeItems, AtRoot);
      }
    }

    /** NavigateBack: from a folder below the root, to the first item whose path is the
        folder's path without its last segment (the root when there is none); from a
        top-level folder or the root, to the root. */
    method NavigateBack()
      modifies this`currentFolder, this`itemsSource, this`selectedItem, this`folderChangedEvents, treeItems`hasChildren
      ensures currentFolder == if old(currentFolder) == null then null else BackTarget(treeItems, old(currentFolder))
      ensures currentFolder != old(currentFolder) ==>
        Shows() && ChildFlagsCurrent() && folderChangedEvents == old(folderChangedEvents) + 1
        && SelectionFollows(old(selectedItem))
        && (forall x :: x in treeItems && !Touched(x) ==> x.hasChildren == old(x.hasChildren))
      ensures currentFolder == old(currentFolder) ==>
        itemsSource == old(itemsSource) && folderChangedEvents == old(folderChangedEvents)
        && selectedItem == old(selectedItem)
        && (forall x :: x in treeItems ==> x.hasChildren == old(x.hasChildren))
    {
      if currentFolder != null && currentFolder.level > 0 {
        var parentPath := ParentPath(currentFolder.fullPath);
        var parent := FirstWithPath(treeItems, parentPath);
        SetCurrentFolder(parent);
      } else {
        NavigateToRoot();
      }
    }

    /** NavigateToFolder: only a folder becomes the current folder; a leaf changes
        nothing. */
    method NavigateToFolder(folder: TreeItem)
      modifies this`currentFolder, this`itemsSource, this`selectedItem, this`folderChangedEvents, treeItems`hasChildren
      ensures currentFolder == if folder.isFolder then folder else old(currentFolder)
      ensures !folder.isFolder || folder == old(currentFolder) ==>
        itemsSource == old(itemsSource) && folderChangedEvents == old(folderChangedEvents)
        && selectedItem == old(selectedItem)
        && (forall x :: x in treeItems ==> x.hasChildren == old(x.hasChildren))
      ensures folder.isFolder && folder != old(currentFolder) ==>
        Shows() && ChildFlagsCurrent() && folderChangedEvents == old(folderChangedEvents) + 1
        && SelectionFollows(old(selectedItem))
        && (forall x :: x in treeItems && !Touched(x) ==> x.hasChildren == old(x.hasChildren))
    {
      if folder.isFolder {
        SetCurrentFolder(folder);
      }
    }

    /** A click on a displayed item (after hit testing): a folder has its IsExpanded flag
        flipped and the display refreshed, without changing the current folder; a leaf
        becomes the selected item. */
    method Click(item: TreeItem)
      modifies item`isExpanded, this`itemsSource, this`selectedItem, treeItems`hasChildren
      ensures item.isFolder ==>
        item.isExpanded == !old(item.isExpanded) && Shows() && ChildFlagsCurrent() && SelectionFollows(old(selectedItem))
        && (forall x :: x in treeItems && !Touched(x) ==> x.hasChildren == old(x.hasChildren))
      ensures !item.isFolder ==> (selectedItem == item && itemsSource == old(itemsSource)
        && forall x :: x in treeItems ==> x.hasChildren == old(x.hasChildren))
    {
      if item.isFolder {
        item.isExpanded := !item.isExpanded;
        RefreshDisplay();
      } else {
        selectedItem := item;
      }
    }

    /** GetBreadcrumbPath: nothing at the root, otherwise the '/'-segments of the current
        folder's path, which join back to that path. */
    function GetBreadcrumbPath(): (crumbs: seq<string>)
      reads this
      ensures currentFolder == null ==> crumbs == []
      ensures currentFolder != null ==>
        Join(crumbs, '/') == currentFolder.fullPath
        && |crumbs| == Count(currentFolder.fullPath, '/') + 1
        && forall k :: 0 <= k < |crumbs| ==> '/' !in crumbs[k]
    {
      if currentFolder == null then []
      else
        JoinSplit(currentFolder.fullPath, '/');
        SplitLength(currentFolder.fullPath, '/');
        SplitPiecesFree(currentFolder.fullPath, '/');
        Split(currentFolder.fullPath, '/')
    }
  }
}
