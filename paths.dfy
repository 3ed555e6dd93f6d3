/** The two System.IO.Path operations the repository and the windows use, with the
    Windows rules (the application is a Windows desktop program): '\' and '/' both
    separate directories, and a drive letter followed by ':' roots a path. */
module FilePaths {

  predicate IsSeparator(c: char) {
    c == '\\' || c == '/'
  }

  /** Path.IsPathRooted. */
  predicate IsRooted(p: string) {
    (|p| >= 1 && IsSeparator(p[0]))
    || (|p| >= 2 && (('A' <= p[0] <= 'Z') || ('a' <= p[0] <= 'z')) && p[1] == ':')
  }

  /** Path.Combine(dir, name): an empty side yields the other one, a rooted name replaces
      the directory, and a '\' is inserted unless one side already has a separator there. */
  function Combine(dir: string, name: string): string {
    if name == [] then dir
    else if dir == [] then name
    else if IsRooted(name) then name
    else if IsSeparator(dir[|dir| - 1]) || IsSeparator(name[0]) then dir + name
    else dir + "\\" + name
  }

  /** A relative name without separators, combined with a directory that does not end in
      one, lands directly inside that directory. */
  lemma CombineInside(dir: string, name: string)
    requires dir != [] && !IsSeparator(dir[|dir| - 1])
    requires name != [] && !IsRooted(name)
    ensures Combine(dir, name) == dir + "\\" + name
  {
  }

  /** The scan of Path.GetExtension, from position i leftwards; p[i..] has been passed. */
  function ExtensionFrom(p: string, i: nat): (ext: string)
    requires i <= |p|
    requires forall k :: i <= k < |p| ==> p[k] != '.' && !IsSeparator(p[k])
    ensures ext == [] || (2 <= |ext| <= |p| && ext[0] == '.' && ext == p[|p| - |ext|..])
    ensures forall k :: 1 <= k < |ext| ==> ext[k] != '.' && !IsSeparator(ext[k])
    ensures ext == [] ==> forall k :: 0 <= k < i && k < |p| - 1 && p[k] == '.' ==>
      exists j :: k < j < |p| && (p[j] == '.' || IsSeparator(p[j]))
    decreases i
  {
    if i == 0 then []
    else if p[i - 1] == '.' then (if i != |p| then p[i - 1..] else [])
    else if IsSeparator(p[i - 1]) then []
    else ExtensionFrom(p, i - 1)
  }

  /** Path.GetExtension(p): from the last '.' of the last segment to the end, dot
      included; empty when the last segment has no '.', or when it ends with the '.'. */
  function Extension(p: string): (ext: string)
    ensures ext == [] || (2 <= |ext| <= |p| && ext[0] == '.' && ext == p[|p| - |ext|..])
    ensures forall k :: 1 <= k < |ext| ==> ext[k] != '.' && !IsSeparator(ext[k])
    ensures ext == [] ==> forall k :: 0 <= k < |p| - 1 && p[k] == '.' ==>
      exists j :: k < j < |p| && (p[j] == '.' || IsSeparator(p[j]))
  {
    ExtensionFrom(p, |p|)
  }
}
