/** src/meta/namespace_manager.cpp and src/meta/inode_table.cpp: entry lists and inode table updated in place. */
module NamespaceManager {
  import opened Bytes
  import opened Types
  import opened Namespace
  import opened NamespaceOps
  import opened NamespaceEffects
  import NR = NamespaceRename

  class InodeTable {
    var inodes: map<nat, Inode>
    var nextInodeId: nat

    /** The root directory is inode 1; ids are given out from 2. */
    constructor (now: nat)
      ensures inodes == map[ROOT := NewDirectory(ROOT, Attributes(493, 0, 0, now), 0, "/")] && nextInodeId == 2
    {
      inodes := map[ROOT := NewDirectory(ROOT, Attributes(493, 0, 0, now), 0, "/")];
      nextInodeId := 2;
    }

    method Create(inode: Inode) returns (status: Status)
      modifies this`inodes
      ensures status == if inode.id in old(inodes) then AlreadyExists else Ok
      ensures inodes == if inode.id in old(inodes) then old(inodes) else old(inodes)[inode.id := inode]
    {
      if inode.id in inodes {
        return AlreadyExists;
      }
      inodes := inodes[inode.id := inode];
      status := Ok;
    }

    method Get(id: nat) returns (r: LookupResult)
      ensures r == if id in inodes then Found(inodes[id]) else Missing(NotFound)
    {
      r := if id in inodes then Found(inodes[id]) else Missing(NotFound);
    }

    method Update(inode: Inode) returns (status: Status)
      modifies this`inodes
      ensures status == if inode.id in old(inodes) then Ok else NotFound
      ensures inodes == if inode.id in old(inodes) then old(inodes)[inode.id := inode] else old(inodes)
    {
      if inode.id !in inodes {
        return NotFound;
      }
      inodes := inodes[inode.id := inode];
      status := Ok;
    }

    method Delete(id: nat) returns (status: Status)
      modifies this`inodes
      ensures status == if id in old(inodes) then Ok else NotFound
      ensures inodes == old(inodes) - {id}
    {
      if id !in inodes {
        return NotFound;
      }
      inodes := inodes - {id};
      status := Ok;
    }

    method AllocateInodeId() returns (id: nat)
      modifies this`nextInodeId
      ensures id == old(nextInodeId) && nextInodeId == id + 1
    {
      id := nextInodeId;
      nextInodeId := nextInodeId + 1;
    }
  }

  /** The search loop over one entry list. */
  method FindEntry(entries: seq<DirEntry>, name: string, kind: Option<InodeType>) returns (r: Option<nat>)
    ensures r == IndexOf(entries, name, kind)
  {
    for i := 0 to |entries|
      invariant forall j | 0 <= j < i :: !Matches(entries[j], name, kind)
    {
      if entries[i].name == name && (kind.Some? ==> entries[i].fileType == kind.value) {
        assert Matches(entries[i], name, kind);
        return Some(i);
      }
    }
    r := None;
  }

  class NamespaceManager {
    const inodeTable: InodeTable
    var dirEntries: map<nat, seq<DirEntry>>

    ghost function Abs(): Tree
      reads this, inodeTable
    {
      Tree(dirEntries, inodeTable.inodes, inodeTable.nextInodeId)
    }

    constructor (table: InodeTable)
      ensures inodeTable == table && dirEntries == map[ROOT := []]
    {
      inodeTable := table;
      dirEntries := map[ROOT := []];
    }

    method ResolvePath(path: string) returns (r: Resolution)
      ensures r == Resolve(Abs(), path)
    {
      if path == "" || path[0] != '/' {
        return Unresolved(InvalidArgument);
      }
      if path == "/" {
        return Resolved(ROOT, "");
      }
      var components := Components(path);
      if components == [] {
        return Unresolved(InvalidArgument);
      }
      ghost var t := Abs();
      var last := |components| - 1;
      ghost var front := components[..last];
      var current := ROOT;
      for i := 0 to last
        invariant WalkDirs(t, front[..i]) == Some(current)
      {
        assert front[..i + 1][..i] == front[..i] && front[i] == components[i];
        assert WalkDirs(t, front[..i + 1]) == NextDir(t, current, components[i]);
        if current !in dirEntries {
          WalkDirsFails(t, front, i + 1);
          return Unresolved(NotFound);
        }
        var found := FindEntry(dirEntries[current], components[i], Some(Directory));
        if found.None? {
          WalkDirsFails(t, front, i + 1);
          return Unresolved(NotFound);
        }
        current := dirEntries[current][found.value].inodeId;
      }
      assert front[..last] == front;
      r := Resolved(current, components[|components| - 1]);
    }

    method Lookup(path: string) returns (r: LookupResult)
      ensures r == NamespaceOps.Lookup(Abs(), path)
    {
      if path == "/" {
        r := inodeTable.Get(ROOT);
        return;
      }
      var resolution := ResolvePath(path);
      if resolution.Unresolved? {
        return Missing(resolution.status);
      }
      if resolution.parent !in dirEntries {
        return Missing(NotFound);
      }
      var i := FindEntry(dirEntries[resolution.parent], resolution.name, None);
      if i.None? {
        return Missing(NotFound);
      }
      r := inodeTable.Get(dirEntries[resolution.parent][i.value].inodeId);
    }

    /** ReadDir, src/meta/namespace_manager.cpp:156-201. */
    method ReadDir(path: string) returns (r: Listing)
      ensures r == NamespaceEffects.ReadDir(Abs(), path)
    {
      var dirId := ROOT;
      if path == "/" {
        var root := inodeTable.Get(ROOT);
        if root.Missing? {
          return Unlisted(root.status);
        }
      } else {
        var resolution := ResolvePath(path);
        if resolution.Unresolved? {
          return Unlisted(resolution.status);
        }
        if resolution.parent !in dirEntries {
          return Unlisted(NotFound);
        }
        var i := FindEntry(dirEntries[resolution.parent], resolution.name, None);
        if i.None? {
          return Unlisted(NotFound);
        }
        var entry := dirEntries[resolution.parent][i.value];
        if entry.fileType != Directory {
          return Unlisted(NotDirectory);
        }
        dirId := entry.inodeId;
      }
      if dirId !in dirEntries {
        return Unlisted(NotDirectory);
      }
      r := Listed(dirEntries[dirId]);
    }

    method MkDir(path: string, a: Attributes) returns (status: Status)
      modifies this`dirEntries, inodeTable
      ensures var r := NamespaceEffects.MkDir(old(Abs()), path, a); Abs() == r.tree && status == r.status
    {
      var resolution := ResolvePath(path);
      if resolution.Unresolved? {
        return resolution.status;
      }
      var parent, name := resolution.parent, resolution.name;
      if name == "" {
        return AlreadyExists;
      }
      if parent in dirEntries {
        var i := FindEntry(dirEntries[parent], name, None);
        if i.Some? {
          return AlreadyExists;
        }
      }
      var newId := inodeTable.AllocateInodeId();
      var inode := NewDirectory(newId, a, parent, name);
      status := inodeTable.Create(inode);
      if status != Ok {
        return;
      }
      var entries := if parent in dirEntries then dirEntries[parent] else [];
      dirEntries := dirEntries[parent := entries + [DirEntry(name, newId, Directory)]];
      dirEntries := dirEntries[newId := []];
    }

    method CreateFile(path: string, a: Attributes, size: nat) returns (status: Status, inodeId: nat)
      modifies this`dirEntries, inodeTable
      ensures var r := NamespaceEffects.CreateFile(old(Abs()), path, a, size); Abs() == r.tree && status == r.status
      ensures status == Ok ==> inodeId == old(Abs()).nextId
    {
      inodeId := 0;
      var resolution := ResolvePath(path);
      if resolution.Unresolved? {
        return resolution.status, inodeId;
      }
      var parent, name := resolution.parent, resolution.name;
      if parent !in dirEntries {
        return NotFound, inodeId;
      }
      var i := FindEntry(dirEntries[parent], name, None);
      if i.Some? {
        return AlreadyExists, inodeId;
      }
      var newId := inodeTable.AllocateInodeId();
      var inode := NewFile(newId, a, size, parent, name);
      status := inodeTable.Create(inode);
      if status != Ok {
        return;
      }
      dirEntries := dirEntries[parent := dirEntries[parent] + [DirEntry(name, newId, Regular)]];
      inodeId := newId;
    }

    method RmDir(path: string) returns (status: Status)
      modifies this`dirEntries, inodeTable
      ensures var r := NamespaceEffects.RmDir(old(Abs()), path); Abs() == r.tree && status == r.status
    {
      if path == "/" {
        return InvalidArgument;
      }
      var resolution := ResolvePath(path);
      if resolution.Unresolved? {
        return resolution.status;
      }
      var parent := resolution.parent;
      if parent !in dirEntries {
        return NotFound;
      }
      var i := FindEntry(dirEntries[parent], resolution.name, Some(Directory));
      if i.None? {
        return NotFound;
      }
      var rmId := dirEntries[parent][i.value].inodeId;
      if rmId in dirEntries && dirEntries[rmId] != [] {
        return NotEmpty;
      }
      dirEntries := dirEntries[parent := RemoveAt(dirEntries[parent], i.value)];
      dirEntries := dirEntries - {rmId};
      var deleted := inodeTable.Delete(rmId);
      status := Ok;
    }

    method DeleteFile(path: string) returns (status: Status)
      modifies this`dirEntries, inodeTable
      ensures var r := NamespaceEffects.DeleteFile(old(Abs()), path); Abs() == r.tree && status == r.status
    {
      var resolution := ResolvePath(path);
      if resolution.Unresolved? {
        return resolution.status;
      }
      var parent := resolution.parent;
      if parent !in dirEntries {
        return NotFound;
      }
      var i := FindEntry(dirEntries[parent], resolution.name, Some(Regular));
      if i.None? {
        return NotFound;
      }
      var rmId := dirEntries[parent][i.value].inodeId;
      dirEntries := dirEntries[parent := RemoveAt(dirEntries[parent], i.value)];
      var deleted := inodeTable.Delete(rmId);
      status := Ok;
    }

    method Rename(srcPath: string, dstPath: string, now: nat) returns (status: Status)
      requires forall id | id in inodeTable.inodes :: inodeTable.inodes[id].id == id
      modifies this`dirEntries, inodeTable
      ensures var r := NR.Rename(old(Abs()), srcPath, dstPath, now); Abs() == r.tree && status == r.status
    {
      var source := ResolvePath(srcPath);
      if source.Unresolved? {
        return source.status;
      }
      var target := ResolvePath(dstPath);
      if target.Unresolved? {
        return target.status;
      }
      if source.parent !in dirEntries {
        return NotFound;
      }
      var i := FindEntry(dirEntries[source.parent], source.name, None);
      if i.None? {
        return NotFound;
      }
      var moving := dirEntries[source.parent][i.value];
      dirEntries := dirEntries[source.parent := RemoveAt(dirEntries[source.parent], i.value)];
      if target.parent !in dirEntries {
        return NotFound;
      }
      var existing := FindEntry(dirEntries[target.parent], target.name, None);
      if existing.Some? {
        return AlreadyExists;
      }
      dirEntries := dirEntries[target.parent := dirEntries[target.parent] + [moving.(name := target.name)]];
      var inode := inodeTable.Get(moving.inodeId);
      if inode.Found? {
        var updated := inodeTable.Update(inode.inode.(name := target.name, parentId := target.parent, ctime := now));
      }
      status := Ok;
    }
  }

  lemma {:induction false} WalkDirsFails(t: Tree, cs: seq<string>, k: nat)
    requires k <= |cs| && WalkDirs(t, cs[..k]) == None
    ensures WalkDirs(t, cs) == None
    decreases |cs| - k
  {
    if k < |cs| {
      assert cs[..k + 1][..k] == cs[..k];
      WalkDirsFails(t, cs, k + 1);
    } else {
      assert cs[..k] == cs;
    }
  }

  // ---- every reachable state ----

  datatype Operation =
    | OpMkDir(path: string, a: Attributes)
    | OpCreateFile(path: string, a: Attributes, size: nat)
    | OpRmDir(path: string)
    | OpDeleteFile(path: string)
    | OpRename(src: string, dst: string, now: nat)

  function Apply(t: Tree, op: Operation): Outcome {
    match op
    case OpMkDir(path, a) => NamespaceEffects.MkDir(t, path, a)
    case OpCreateFile(path, a, size) => NamespaceEffects.CreateFile(t, path, a, size)
    case OpRmDir(path) => NamespaceEffects.RmDir(t, path)
    case OpDeleteFile(path) => NamespaceEffects.DeleteFile(t, path)
    case OpRename(src, dst, now) => NR.Rename(t, src, dst, now)
  }

  /** What a caller must not ask for: a file called "/" or a rename onto the root, onto an existing path, or below itself. */
  ghost predicate Harmful(t: Tree, op: Operation) {
    match op
    case OpCreateFile(path, _, _) => path == "/"
    case OpRename(src, dst, _) => NR.Destroys(t, src, dst)
    case _ => false
  }

  function InitialTree(now: nat): Tree {
    Tree(map[ROOT := []], map[ROOT := NewDirectory(ROOT, Attributes(493, 0, 0, now), 0, "/")], 2)
  }

  lemma InitialIsTree(now: nat)
    ensures IsTree(InitialTree(now))
  {
    var rank: map<nat, nat> := map[ROOT := 0];
    assert TreeInv(InitialTree(now), rank);
  }

  /** An operation keeps the tree exactly when it is not harmful. */
  lemma OperationKeepsTreeExactly(t: Tree, op: Operation)
    requires IsTree(t)
    ensures IsTree(Apply(t, op).tree) <==> !Harmful(t, op)
  {
    var rank :| TreeInv(t, rank);
    match op {
      case OpMkDir(path, a) => MkDirEffect(t, rank, path, a, []);
      case OpCreateFile(path, a, size) => CreateFileKeepsTreeExactly(t, rank, path, a, size);
      case OpRmDir(path) => RmDirEffect(t, rank, path, []);
      case OpDeleteFile(path) => DeleteFileEffect(t, rank, path, []);
      case OpRename(src, dst, now) => NR.RenameKeepsTreeExactly(t, rank, src, dst, now);
    }
  }

  ghost predicate IsHistory(now: nat, trees: seq<Tree>, ops: seq<Operation>) {
    && |trees| == |ops| + 1 && trees[0] == InitialTree(now)
    && forall i | 0 <= i < |ops| :: !Harmful(trees[i], ops[i]) && trees[i + 1] == Apply(trees[i], ops[i]).tree
  }

  /** Every state reached by operations that are not harmful is a tree. */
  lemma {:induction false} ReachableIsTree(now: nat, trees: seq<Tree>, ops: seq<Operation>, i: nat)
    requires IsHistory(now, trees, ops) && i < |trees|
    ensures IsTree(trees[i])
  {
    if i == 0 {
      InitialIsTree(now);
    } else {
      ReachableIsTree(now, trees, ops, i - 1);
      OperationKeepsTreeExactly(trees[i - 1], ops[i - 1]);
    }
  }
}
