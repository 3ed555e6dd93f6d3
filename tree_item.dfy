/** Models/TreeItem.cs: one entry of the flat, path-addressed lesson tree. The name,
    path, id, folder flag, level and attached lesson are given at construction and never
    reassigned by the modelled code; expansion, child flag, parent and children are
    updated in place. */
module TreeItems {
  import opened Optional
  import opened Models

  /** The constant part of an item, as a value. */
  datatype ItemView = ItemView(
    name: string,
    fullPath: string,
    id: string,
    isFolder: bool,
    level: int,
    lesson: Option<Lesson>)

  class TreeItem {
    const name: string
    const fullPath: string
    const id: string
    const isFolder: bool
    const level: int
    const lesson: Option<Lesson>
    var isExpanded: bool
    var hasChildren: bool
    var parent: TreeItem?
    var children: seq<TreeItem>
    var subtitle: string

    /** The parameterless constructor used by XAML binding. */
    constructor Empty()
      ensures name == "" && fullPath == "" && id == "" && !isFolder && level == 0 && lesson.None?
      ensures !isExpanded && !hasChildren && parent == null && children == [] && subtitle == ""
    {
      name, fullPath, id, isFolder, level, lesson := "", "", "", false, 0, None;
      isExpanded, hasChildren, parent, children, subtitle := false, false, null, [], "";
    }

    /** The positional constructor (level defaults to 0 and lesson to null at the call
        sites that omit them). */
    constructor (name: string, fullPath: string, id: string, isFolder: bool, level: int, lesson: Option<Lesson>)
      ensures this.name == name && this.fullPath == fullPath && this.id == id
      ensures this.isFolder == isFolder && this.level == level && this.lesson == lesson
      ensures !isExpanded && !hasChildren && parent == null && children == [] && subtitle == ""
    {
      this.name, this.fullPath, this.id := name, fullPath, id;
      this.isFolder, this.level, this.lesson := isFolder, level, lesson;
      isExpanded, hasChildren, parent, children, subtitle := false, false, null, [], "";
    }

    function View(): (v: ItemView)
      ensures v.name == name && v.fullPath == fullPath && v.id == id
      ensures v.isFolder == isFolder && v.level == level && v.lesson == lesson
    {
      ItemView(name, fullPath, id, isFolder, level, lesson)
    }

    /** SetParent(p): records p as the parent and adds this item to p's children unless
        it is already there; a previous parent's children are left as they are. */
    method SetParent(p: TreeItem?)
      modifies this, p
      ensures parent == p
      ensures p != null ==> p.children == Attach(old(p.children), this)
      ensures p != this ==> children == old(children)
      ensures isExpanded == old(isExpanded) && hasChildren == old(hasChildren) && subtitle == old(subtitle)
      ensures p != null && p != this ==>
        p.parent == old(p.parent) && p.isExpanded == old(p.isExpanded)
        && p.hasChildren == old(p.hasChildren) && p.subtitle == old(p.subtitle)
    {
      parent := p;
      if p != null && this !in p.children {
        p.children := p.children + [this];
      }
    }
  }

  /** Children.Add guarded by Children.Contains (reference equality). */
  function Attach(children: seq<TreeItem>, x: TreeItem): (r: seq<TreeItem>)
    ensures x in r
    ensures forall y :: y in children ==> y in r
    ensures forall y :: y in r ==> y == x || y in children
  {
    if x in children then children else children + [x]
  }

  /** Adding a child twice is the same as adding it once. */
  lemma AttachIdempotent(children: seq<TreeItem>, x: TreeItem)
    ensures Attach(Attach(children, x), x) == Attach(children, x)
  {
  }

  /** Attaching keeps the existing children in place and adds x at most once: a child
      that was absent appears exactly once, one already present keeps its count. */
  lemma AttachCount(children: seq<TreeItem>, x: TreeItem)
    ensures Attach(children, x)[..|children|] == children
    ensures multiset(Attach(children, x))[x] == if x in children then multiset(children)[x] else 1
  {
    if x !in children {
      assert multiset(children)[x] == 0;
    }
  }
}
