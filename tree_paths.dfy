/** The path arithmetic shared by Controls/FolderTreeView.cs and Controls/SimpleTreeView.cs:
    which items are shown at the root and inside a folder, which item the ".." entry
    leads to, and whether a folder has anything below it. Paths are '/'-joined names. */
module TreeNavigation {
  import opened Optional
  import opened Text
  import opened TreeItems

  /** An item shown at the root: a folder of level 0. */
  predicate IsRootFolder(v: ItemView) {
    v.level == 0 && v.isFolder
  }

  /** q lies directly inside p: it starts with p + "/" and has exactly one more
      '/'-segment. */
  predicate IsChildPath(p: string, q: string) {
    StartsWith(q, p + "/") && |Split(q, '/')| == |Split(p, '/')| + 1
  }

  /** Which items a listing shows: the root folders, or the items directly inside the
      folder at a path. */
  datatype Listing = AtRoot | Inside(path: string)

  predicate Listed(c: Listing, v: ItemView) {
    match c
    case AtRoot => IsRootFolder(v)
    case Inside(p) => IsChildPath(p, v.fullPath)
  }

  /** Some item lies anywhere below path p (the HasChildren test). */
  predicate HasDescendant(vs: seq<ItemView>, p: string) {
    exists v :: v in vs && StartsWith(v.fullPath, p + "/")
  }

  /** The views of the items, in order. */
  function Views(items: seq<TreeItem>): (vs: seq<ItemView>)
    ensures |vs| == |items| && forall i :: 0 <= i < |items| ==> vs[i] == items[i].View()
  {
    seq(|items|, i requires 0 <= i < |items| => items[i].View())
  }

  lemma ViewsAppend(a: seq<TreeItem>, b: seq<TreeItem>)
    ensures Views(a + b) == Views(a) + Views(b)
  {
    assert forall i :: 0 <= i < |a| ==> (a + b)[i] == a[i];
    assert forall i :: |a| <= i < |a| + |b| ==> (a + b)[i] == b[i - |a|];
  }

  /** The LINQ Where of a listing over the items, by their constant part. */
  function Where(items: seq<TreeItem>, c: Listing): seq<TreeItem> {
    if items == [] then []
    else (if Listed(c, items[0].View()) then [items[0]] else []) + Where(items[1..], c)
  }

  /** Where keeps each listed item as often as it occurs and drops every other item. */
  lemma {:induction false} WhereCount(items: seq<TreeItem>, c: Listing)
    ensures forall x :: x in Where(items, c) ==> Listed(c, x.View()) && multiset(Where(items, c))[x] == multiset(items)[x]
    ensures forall x :: x in items && Listed(c, x.View()) ==> x in Where(items, c)
  {
    if items != [] {
      WhereCount(items[1..], c);
      assert items == [items[0]] + items[1..];
      var r := Where(items, c);
      forall x | x in r
        ensures Listed(c, x.View()) && multiset(r)[x] == multiset(items)[x]
      {
        assert x in multiset(r);
      }
    }
  }

  /** Where returns items of its input only. */
  lemma WhereSubset(items: seq<TreeItem>, c: Listing)
    ensures forall x :: x in Where(items, c) ==> x in items
  {
    WhereCount(items, c);
    forall x | x in Where(items, c)
      ensures x in items
    {
      assert x in multiset(Where(items, c));
    }
  }

  /** Where keeps the list order: filtering a concatenation filters each part. */
  lemma {:induction false} WhereAppend(a: seq<TreeItem>, b: seq<TreeItem>, c: Listing)
    ensures Where(a + b, c) == Where(a, c) + Where(b, c)
  {
    if a == [] {
      assert a + b == b;
    } else {
      var head := if Listed(c, a[0].View()) then [a[0]] else [];
      var rest := a[1..] + b;
      assert a + b == [a[0]] + rest;
      WhereAppend(a[1..], b, c);
      calc {
        Where(a + b, c);
        head + Where(rest, c);
        head + (Where(a[1..], c) + Where(b, c));
        (head + Where(a[1..], c)) + Where(b, c);
      }
    }
  }

  /** Filtering one more item of a list. */
  lemma WhereStep(items: seq<TreeItem>, i: nat, c: Listing)
    requires i < |items|
    ensures Where(items[..i + 1], c) == Where(items[..i], c) + Where([items[i]], c)
  {
    assert items[..i + 1] == items[..i] + [items[i]];
    WhereAppend(items[..i], [items[i]], c);
  }

  lemma WhereSingle(x: TreeItem, c: Listing)
    ensures Where([x], c) == if Listed(c, x.View()) then [x] else []
  {
    assert [x][1..] == [];
  }

  /** The members of a prefix one longer. */
  lemma PrefixStep<T>(s: seq<T>, i: nat)
    requires i < |s|
    ensures forall x :: x in s[..i + 1] <==> x in s[..i] || x == s[i]
  {
    assert s[..i + 1] == s[..i] + [s[i]];
  }

  /** The same filter on views. */
  function WhereView(vs: seq<ItemView>, c: Listing): seq<ItemView> {
    if vs == [] then []
    else (if Listed(c, vs[0]) then [vs[0]] else []) + WhereView(vs[1..], c)
  }

  /** The filter keeps exactly the listed views. */
  lemma {:induction false} WhereViewMembers(vs: seq<ItemView>, c: Listing)
    ensures forall v :: v in WhereView(vs, c) <==> v in vs && Listed(c, v)
  {
    if vs != [] {
      WhereViewMembers(vs[1..], c);
      assert vs == [vs[0]] + vs[1..];
    }
  }

  /** The filter on a single view. */
  lemma WhereViewSingle(v: ItemView, c: Listing)
    ensures WhereView([v], c) == if Listed(c, v) then [v] else []
  {
    assert [v][1..] == [];
  }

  lemma {:induction false} WhereViewAppend(a: seq<ItemView>, b: seq<ItemView>, c: Listing)
    ensures WhereView(a + b, c) == WhereView(a, c) + WhereView(b, c)
  {
    if a == [] {
      assert a + b == b;
    } else {
      var x := a[0];
      assert (a + b)[0] == x && (a + b)[1..] == a[1..] + b;
      WhereViewAppend(a[1..], b, c);
      var head := if Listed(c, x) then [x] else [];
      assert WhereView(a + b, c) == head + WhereView(a[1..] + b, c);
      assert WhereView(a, c) == head + WhereView(a[1..], c);
    }
  }

  /** Filtering the items and then viewing them is filtering their views. */
  lemma {:induction false} ViewsWhere(items: seq<TreeItem>, c: Listing)
    ensures Views(Where(items, c)) == WhereView(Views(items), c)
  {
    if items != [] {
      ViewsWhere(items[1..], c);
      assert Views(items)[1..] == Views(items[1..]);
      assert Views((if Listed(c, items[0].View()) then [items[0]] else []) + Where(items[1..], c))
          == (if Listed(c, items[0].View()) then [items[0].View()] else []) + Views(Where(items[1..], c));
    }
  }

  /** The items listed at the root. */
  function RootFolders(items: seq<TreeItem>): seq<TreeItem> {
    Where(items, AtRoot)
  }

  /** The items listed inside the folder at path p. */
  function ChildItems(items: seq<TreeItem>, p: string): seq<TreeItem> {
    Where(items, Inside(p))
  }

  /** The position of the first item with the given path, if any. */
  function FirstIndexWithPath(items: seq<TreeItem>, path: string): (r: Option<nat>)
    ensures r.None? <==> forall x :: x in items ==> x.fullPath != path
    ensures r.Some? ==> (r.value < |items| && items[r.value].fullPath == path
      && forall j :: 0 <= j < r.value ==> items[j].fullPath != path)
  {
    if items == [] then None
    else if items[0].fullPath == path then Some(0)
    else
      match FirstIndexWithPath(items[1..], path)
      case None => None
      case Some(i) => Some(i + 1)
  }

  /** FirstOrDefault(x => x.FullPath == path). */
  function FirstWithPath(items: seq<TreeItem>, path: string): (r: TreeItem?)
    ensures r == null <==> forall x :: x in items ==> x.fullPath != path
    ensures r != null ==> (r in items && r.fullPath == path)
    ensures r != null ==>
      exists i :: 0 <= i < |items| && items[i] == r && forall j :: 0 <= j < i ==> items[j].fullPath != path
  {
    match FirstIndexWithPath(items, path)
    case None => null
    case Some(i) => items[i]
  }

  /** The item a "..", or a step back, leads to from the folder f: for a folder below the
      root, the first item whose path is f's path without its last segment; for a
      top-level folder, none. */
  function BackTarget(items: seq<TreeItem>, f: TreeItem): TreeItem? {
    if f.level > 0 then FirstWithPath(items, ParentPath(f.fullPath)) else null
  }

  /** The ".." entry a listing puts first: a new folder item carrying the path and id of
      the folder it leads to, one level above it. */
  predicate IsBackEntry(e: TreeItem, target: TreeItem) {
    e.name == ".." && e.fullPath == target.fullPath && e.id == target.id
    && e.isFolder && e.level == target.level - 1 && e.lesson.None?
  }

  // ---------------------------------------------------------------------------
  // Paths built from '/'-free names.

  /** p + "/" + name lies directly inside p when name has no '/'. */
  lemma ChildOfJoin(p: string, name: string)
    requires '/' !in name
    ensures IsChildPath(p, p + "/" + name)
  {
    SplitConcat(p, name, '/');
    SplitFree(name, '/');
    assert (p + "/" + name)[..|p + "/"|] == p + "/";
  }

  /** Conversely, a path directly inside p is p + "/" + a '/'-free name. */
  lemma ChildIsJoin(p: string, q: string)
    requires IsChildPath(p, q)
    ensures '/' !in q[|p| + 1..] && q == p + "/" + q[|p| + 1..]
  {
    var rest := q[|p| + 1..];
    assert q == p + "/" + rest;
    SplitConcat(p, rest, '/');
    SplitLength(rest, '/');
    CountZero(rest, '/');
  }

  /** Going up from a path directly inside p leads back to p. */
  lemma ChildParent(p: string, q: string)
    requires IsChildPath(p, q)
    ensures ParentPath(q) == p
  {
    ChildIsJoin(p, q);
    ParentOfChild(p, q[|p| + 1..]);
  }

  /** The first segment of a/b/... is a when a has no '/'. */
  lemma FirstSegment(a: string, rest: string)
    requires '/' !in a
    ensures Split(a + "/" + rest, '/')[0] == a
  {
    SplitConcat(a, rest, '/');
    SplitFree(a, '/');
  }

  /** For '/'-free names, s2/ss lies directly inside s exactly when s2 == s. */
  lemma ChildOfTopLevel(s: string, s2: string, ss: string)
    requires '/' !in s && '/' !in s2 && '/' !in ss
    ensures IsChildPath(s, s2 + "/" + ss) <==> s2 == s
  {
    if s2 == s {
      ChildOfJoin(s, ss);
    }
    if IsChildPath(s, s2 + "/" + ss) {
      ChildIsJoin(s, s2 + "/" + ss);
      var q := s2 + "/" + ss;
      FirstSegment(s, q[|s| + 1..]);
      FirstSegment(s2, ss);
    }
  }

  /** A single name is not directly inside any folder. */
  lemma TopLevelNotChild(p: string, s: string)
    requires '/' !in s
    ensures !IsChildPath(p, s)
  {
    if |p| < |s| {
      assert s[|p|] in s;
      assert s[..|p| + 1][|p|] != (p + "/")[|p|];
    }
  }

  /** For '/'-free names, s2/ss2/t is never directly inside a single-segment folder: it
      has three segments. */
  lemma GrandchildNotChild(s: string, s2: string, ss2: string, t: string)
    requires '/' !in s && '/' !in s2 && '/' !in ss2 && '/' !in t
    ensures !IsChildPath(s, s2 + "/" + ss2 + "/" + t)
  {
    var q := s2 + "/" + ss2 + "/" + t;
    SplitConcat(s2 + "/" + ss2, t, '/');
    SplitConcat(s2, ss2, '/');
    SplitFree(s2, '/');
    SplitFree(ss2, '/');
    SplitFree(t, '/');
    SplitFree(s, '/');
  }
}
