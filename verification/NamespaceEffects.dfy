/** MkDir, CreateFile, RmDir and DeleteFile, src/meta/namespace_manager.cpp:104-154 and 203-310. */
module NamespaceEffects {
  import opened Bytes
  import opened Types
  import opened Namespace
  import opened NamespaceOps

  /** The attributes a caller gives a new inode, and the clock reading of its creation. */
  datatype Attributes = Attributes(mode: nat, uid: nat, gid: nat, now: nat)

  function NewDirectory(id: nat, a: Attributes, parent: nat, name: string): Inode {
    Inode(id, Directory, a.mode, a.uid, a.gid, 0, 2, a.now, a.now, a.now, L2, parent, name)
  }

  function NewFile(id: nat, a: Attributes, size: nat, parent: nat, name: string): Inode {
    Inode(id, Regular, a.mode, a.uid, a.gid, size, 1, a.now, a.now, a.now, SelectBlockLevel(size), parent, name)
  }

  /** AllocateInodeId and Create; the id is used up even when Create finds it taken. */
  function CreateInode(t: Tree, d: nat, inode: Inode): Outcome {
    if inode.id in t.inodes then Outcome(t.(nextId := inode.id + 1), AlreadyExists)
    else Outcome(AddInode(t, d, inode), Ok)
  }

  function MkDir(t: Tree, path: string, a: Attributes): Outcome {
    match Resolve(t, path)
    case Unresolved(status) => Outcome(t, status)
    case Resolved(parent, name) =>
      if name == "" then Outcome(t, AlreadyExists)
      else if Next(t, parent, name).Some? then Outcome(t, AlreadyExists)
      else CreateInode(t, parent, NewDirectory(t.nextId, a, parent, name))
  }

  function CreateFile(t: Tree, path: string, a: Attributes, size: nat): Outcome {
    match Resolve(t, path)
    case Unresolved(status) => Outcome(t, status)
    case Resolved(parent, name) =>
      if parent !in t.dirs then Outcome(t, NotFound)
      else if Next(t, parent, name).Some? then Outcome(t, AlreadyExists)
      else CreateInode(t, parent, NewFile(t.nextId, a, size, parent, name))
  }

  function RmDir(t: Tree, path: string): Outcome {
    if path == "/" then Outcome(t, InvalidArgument)
    else
      match Resolve(t, path)
      case Unresolved(status) => Outcome(t, status)
      case Resolved(parent, name) =>
        if parent !in t.dirs then Outcome(t, NotFound)
        else
          match IndexOf(t.dirs[parent], name, Some(Directory))
          case None => Outcome(t, NotFound)
          case Some(i) =>
            var id := t.dirs[parent][i].inodeId;
            if id in t.dirs && t.dirs[id] != [] then Outcome(t, NotEmpty)
            else Outcome(RemoveInode(t, parent, i), Ok)
  }

  function DeleteFile(t: Tree, path: string): Outcome {
    match Resolve(t, path)
    case Unresolved(status) => Outcome(t, status)
    case Resolved(parent, name) =>
      if parent !in t.dirs then Outcome(t, NotFound)
      else
        match IndexOf(t.dirs[parent], name, Some(Regular))
        case None => Outcome(t, NotFound)
        case Some(i) => Outcome(RemoveInode(t, parent, i), Ok)
  }

  // ---- effects ----

  /** The directory part of `path` leads to a directory that has no such name yet. */
  ghost predicate Absent(t: Tree, path: string) {
    Wellformed(path) && BelowDirectory(t, path) && Reach(t, ROOT, Components(path)) == None
  }

  lemma ResolveFacts(t: Tree, rank: map<nat, nat>, path: string)
    requires TreeInv(t, rank) && Resolve(t, path).Resolved? && path != "/"
    ensures var cs := Components(path); var r := Resolve(t, path);
            && Wellformed(path) && cs != [] && cs == cs[..|cs| - 1] + [r.name] && IsName(r.name)
            && Reach(t, ROOT, cs[..|cs| - 1]) == Some(r.parent) && r.parent in t.dirs
            && Reach(t, ROOT, cs) == Next(t, r.parent, r.name)
  {
    TokensAreNames(path, "");
    var cs := Components(path);
    WalkDirsIsReach(t, rank, cs[..|cs| - 1]);
  }

  lemma ResolveFails(t: Tree, rank: map<nat, nat>, path: string)
    requires TreeInv(t, rank) && Resolve(t, path).Unresolved?
    ensures !Absent(t, path) && (Wellformed(path) ==> Reach(t, ROOT, Components(path)) == None)
    ensures Resolve(t, path).status != Ok
  {
    RootHasNoComponents();
    var cs := Components(path);
    if cs != [] {
      WalkDirsIsReach(t, rank, cs[..|cs| - 1]);
    }
  }

  /** A successful outcome has exactly one more path, `cs`; a failed one changes nothing. */
  ghost predicate Adds(t: Tree, r: Outcome, cs: seq<string>, other: seq<string>) {
    && (r.status == Ok ==> Reach(r.tree, ROOT, other) == if other == cs then Some(t.nextId) else Reach(t, ROOT, other))
    && (r.status != Ok ==> r.tree == t)
  }

  /** MkDir succeeds exactly on absent paths below a directory; then that one path is new and the tree stays a tree. */
  lemma MkDirEffect(t: Tree, rank: map<nat, nat>, path: string, a: Attributes, other: seq<string>)
    requires TreeInv(t, rank)
    ensures var r := MkDir(t, path, a);
            && (r.status == Ok <==> Absent(t, path))
            && IsTree(r.tree) && Adds(t, r, Components(path), other)
  {
    RootHasNoComponents();
    match Resolve(t, path) {
      case Unresolved(_) => ResolveFails(t, rank, path);
      case Resolved(parent, name) =>
        if path != "/" {
          ResolveFacts(t, rank, path);
          if Next(t, parent, name).None? {
            var cs := Components(path);
            var inode := NewDirectory(t.nextId, a, parent, name);
            AddKeepsTree(t, rank, cs[..|cs| - 1], parent, inode);
            AddReach(t, rank, cs[..|cs| - 1], parent, inode, other);
          }
        }
    }
  }

  /** The same for CreateFile, given a path that is not the root. */
  lemma CreateFileEffect(t: Tree, rank: map<nat, nat>, path: string, a: Attributes, size: nat, other: seq<string>)
    requires TreeInv(t, rank) && path != "/"
    ensures var r := CreateFile(t, path, a, size);
            && (r.status == Ok <==> Absent(t, path))
            && (r.status == Ok ==>
                  && r.tree.nextId == t.nextId + 1
                  && exists parent, name :: r.tree.inodes == t.inodes[t.nextId := NewFile(t.nextId, a, size, parent, name)])
            && IsTree(r.tree) && Adds(t, r, Components(path), other)
  {
    match Resolve(t, path) {
      case Unresolved(_) => ResolveFails(t, rank, path);
      case Resolved(parent, name) =>
        ResolveFacts(t, rank, path);
        if Next(t, parent, name).None? {
          var cs := Components(path);
          var inode := NewFile(t.nextId, a, size, parent, name);
          AddKeepsTree(t, rank, cs[..|cs| - 1], parent, inode);
          AddReach(t, rank, cs[..|cs| - 1], parent, inode, other);
          assert CreateFile(t, path, a, size).tree.inodes == t.inodes[t.nextId := inode];
        }
    }
  }

  /** CreateFile on the root path succeeds and leaves an entry with an empty name: it keeps the tree exactly on other paths. */
  lemma CreateFileKeepsTreeExactly(t: Tree, rank: map<nat, nat>, path: string, a: Attributes, size: nat)
    requires TreeInv(t, rank)
    ensures IsTree(CreateFile(t, path, a, size).tree) <==> path != "/"
  {
    if path != "/" {
      CreateFileEffect(t, rank, path, a, size, []);
    } else {
      assert EntriesOk(t, ROOT);
      forall i | 0 <= i < |t.dirs[ROOT]|
        ensures !Matches(t.dirs[ROOT][i], "", None)
      {
        assert EntryOk(t, ROOT, t.dirs[ROOT][i]);
      }
      var t' := CreateFile(t, path, a, size).tree;
      var last := |t'.dirs[ROOT]| - 1;
      assert t'.dirs[ROOT][last].name == "";
      assert !EntryOk(t', ROOT, t'.dirs[ROOT][last]);
      assert !EntriesOk(t', ROOT);
    }
  }

  /** A successful outcome has exactly one path less, `cs`; a failed one changes nothing. */
  ghost predicate Removes(t: Tree, r: Outcome, cs: seq<string>, other: seq<string>) {
    && (r.status == Ok ==> Reach(r.tree, ROOT, other) == if other == cs then None else Reach(t, ROOT, other))
    && (r.status != Ok ==> r.tree == t)
  }

  lemma FirstOfKind(t: Tree, rank: map<nat, nat>, d: nat, name: string, kind: InodeType)
    requires TreeInv(t, rank) && d in t.dirs
    ensures Next(t, d, name).Some? ==> Next(t, d, name).value in t.inodes
    ensures match IndexOf(t.dirs[d], name, Some(kind))
            case Some(i) => IndexOf(t.dirs[d], name, None) == Some(i)
            case None => Next(t, d, name).Some? ==> t.inodes[Next(t, d, name).value].fileType != kind
  {
    assert EntriesOk(t, d);
    match IndexOf(t.dirs[d], name, Some(kind)) {
      case Some(i) => IndexIsUnique(t.dirs[d], i);
      case None =>
        if Next(t, d, name).Some? {
          assert EntryOk(t, d, t.dirs[d][IndexOf(t.dirs[d], name, None).value]);
        }
    }
    if Next(t, d, name).Some? {
      NextIsEntry(t, rank, d, name);
    }
  }

  /** DeleteFile succeeds exactly on paths of regular files; then that one path is gone and the tree stays a tree. */
  lemma DeleteFileEffect(t: Tree, rank: map<nat, nat>, path: string, other: seq<string>)
    requires TreeInv(t, rank)
    ensures var r := DeleteFile(t, path); var cs := Components(path);
            && (r.status == Ok <==>
                  && Wellformed(path) && Reach(t, ROOT, cs).Some? && Reach(t, ROOT, cs).value in t.inodes
                  && t.inodes[Reach(t, ROOT, cs).value].fileType.Regular?)
            && IsTree(r.tree) && Removes(t, r, cs, other)
  {
    RootHasNoComponents();
    match Resolve(t, path) {
      case Unresolved(_) => ResolveFails(t, rank, path);
      case Resolved(parent, name) =>
        if path != "/" {
          ResolveFacts(t, rank, path);
          FirstOfKind(t, rank, parent, name, Regular);
          RemoveKind(t, rank, path, parent, name, Regular, other);
        } else {
          assert EntriesOk(t, ROOT);
          forall i | 0 <= i < |t.dirs[ROOT]|
            ensures !Matches(t.dirs[ROOT][i], "", Some(Regular))
          {
            assert EntryOk(t, ROOT, t.dirs[ROOT][i]);
          }
        }
    }
  }

  lemma RemoveKind(t: Tree, rank: map<nat, nat>, path: string, parent: nat, name: string, kind: InodeType, other: seq<string>)
    requires TreeInv(t, rank) && path != "/" && Resolve(t, path) == Resolved(parent, name)
    requires parent in t.dirs
    ensures match IndexOf(t.dirs[parent], name, Some(kind))
            case None => true
            case Some(i) =>
              var id := t.dirs[parent][i].inodeId;
              && id in t.inodes && t.inodes[id].fileType == kind && Reach(t, ROOT, Components(path)) == Some(id)
              && (id in t.dirs <==> kind.Directory?)
              && ((id in t.dirs ==> t.dirs[id] == []) ==>
                    var t' := RemoveInode(t, parent, i);
                    TreeInv(t', rank) && Reach(t', ROOT, other) == if other == Components(path) then None else Reach(t, ROOT, other))
  {
    ResolveFacts(t, rank, path);
    FirstOfKind(t, rank, parent, name, kind);
    match IndexOf(t.dirs[parent], name, Some(kind)) {
      case None =>
      case Some(i) =>
        var cs := Components(path);
        assert EntriesOk(t, parent) && EntryOk(t, parent, t.dirs[parent][i]);
        var id := t.dirs[parent][i].inodeId;
        if id in t.dirs ==> t.dirs[id] == [] {
          RemoveKeepsTree(t, rank, cs[..|cs| - 1], parent, i);
          RemoveReach(t, rank, cs[..|cs| - 1], parent, i, other);
        }
    }
  }

  /** RmDir succeeds exactly on paths of empty directories other than the root; then that one path is gone. */
  lemma RmDirEffect(t: Tree, rank: map<nat, nat>, path: string, other: seq<string>)
    requires TreeInv(t, rank)
    ensures var r := RmDir(t, path); var cs := Components(path);
            && (r.status == Ok <==>
                  && Wellformed(path) && path != "/" && Reach(t, ROOT, cs).Some?
                  && Reach(t, ROOT, cs).value in t.dirs && t.dirs[Reach(t, ROOT, cs).value] == [])
            && IsTree(r.tree) && Removes(t, r, cs, other)
  {
    match Resolve(t, path) {
      case Unresolved(_) => ResolveFails(t, rank, path);
      case Resolved(parent, name) =>
        if path != "/" {
          ResolveFacts(t, rank, path);
          FirstOfKind(t, rank, parent, name, Directory);
          RemoveKind(t, rank, path, parent, name, Directory, other);
        }
    }
  }

  /** A created file takes its name: a second CreateFile is refused, until DeleteFile, which succeeds, gives every path back. */
  lemma CreatedFileTakesName(t: Tree, rank: map<nat, nat>, path: string, a: Attributes, size: nat, a': Attributes, size': nat,
                             other: seq<string>)
    requires TreeInv(t, rank) && path != "/" && CreateFile(t, path, a, size).status == Ok
    ensures var t' := CreateFile(t, path, a, size).tree;
            && CreateFile(t', path, a', size') == Outcome(t', AlreadyExists)
            && DeleteFile(t', path).status == Ok && Reach(DeleteFile(t', path).tree, ROOT, other) == Reach(t, ROOT, other)
  {
    var t', cs := CreateFile(t, path, a, size).tree, Components(path);
    CreateFileEffect(t, rank, path, a, size, cs);
    CreateFileEffect(t, rank, path, a, size, other);
    var rank' :| TreeInv(t', rank');
    DeleteFileEffect(t', rank', path, other);
    SecondCreateFails(t', rank', path, a', size');
  }

  lemma SecondCreateFails(t: Tree, rank: map<nat, nat>, path: string, a: Attributes, size: nat)
    requires TreeInv(t, rank) && path != "/" && Wellformed(path) && Reach(t, ROOT, Components(path)).Some?
    ensures CreateFile(t, path, a, size) == Outcome(t, AlreadyExists)
  {
    match Resolve(t, path) {
      case Unresolved(_) => ResolveFails(t, rank, path);
      case Resolved(_, _) => ResolveFacts(t, rank, path);
    }
  }

  // ---- every status ----

  /** An existing path is refused by MkDir before anything else is looked at. */
  lemma MkDirStatus(t: Tree, rank: map<nat, nat>, path: string, a: Attributes)
    requires TreeInv(t, rank)
    ensures MkDir(t, path, a).status ==
            if !Wellformed(path) then InvalidArgument
            else if Reach(t, ROOT, Components(path)).Some? then AlreadyExists
            else if !BelowDirectory(t, path) then NotFound
            else Ok
  {
    RootHasNoComponents();
    ResolveIsReach(t, rank, path);
    MkDirEffect(t, rank, path, a, []);
    PathHasParent(t, path);
  }

  /** The same for CreateFile but on the root, where it succeeds (see CreateFileKeepsTreeExactly). */
  lemma CreateFileStatus(t: Tree, rank: map<nat, nat>, path: string, a: Attributes, size: nat)
    requires TreeInv(t, rank)
    ensures CreateFile(t, path, a, size).status ==
            if !Wellformed(path) then InvalidArgument
            else if path == "/" then Ok
            else if Reach(t, ROOT, Components(path)).Some? then AlreadyExists
            else if !BelowDirectory(t, path) then NotFound
            else Ok
  {
    RootHasNoComponents();
    ResolveIsReach(t, rank, path);
    if path == "/" {
      NoEmptyName(t, rank, ROOT);
    } else {
      CreateFileEffect(t, rank, path, a, size, []);
      PathHasParent(t, path);
    }
  }

  /** RmDir: the root is an invalid argument, a regular file is not found, a directory with entries is not empty. */
  lemma RmDirStatus(t: Tree, rank: map<nat, nat>, path: string)
    requires TreeInv(t, rank)
    ensures RmDir(t, path).status ==
            if !Wellformed(path) || path == "/" then InvalidArgument
            else
              match Reach(t, ROOT, Components(path))
              case None => NotFound
              case Some(id) => if id !in t.dirs then NotFound else if t.dirs[id] != [] then NotEmpty else Ok
  {
    ResolveIsReach(t, rank, path);
    RmDirEffect(t, rank, path, []);
    if path != "/" && Resolve(t, path).Resolved? {
      var r := Resolve(t, path);
      ResolveFacts(t, rank, path);
      FirstOfKind(t, rank, r.parent, r.name, Directory);
    }
  }

  /** DeleteFile finds regular files alone. */
  lemma DeleteFileStatus(t: Tree, rank: map<nat, nat>, path: string)
    requires TreeInv(t, rank)
    ensures DeleteFile(t, path).status ==
            if !Wellformed(path) then InvalidArgument
            else
              match Reach(t, ROOT, Components(path))
              case None => NotFound
              case Some(id) => if id in t.inodes && t.inodes[id].fileType.Regular? then Ok else NotFound
  {
    ResolveIsReach(t, rank, path);
    DeleteFileEffect(t, rank, path, []);
  }

  // ---- the inode table and the listings ----

  /** A new directory is looked up with the attributes it was made with, and no other inode changes. */
  lemma MkDirStores(t: Tree, rank: map<nat, nat>, path: string, a: Attributes)
    requires TreeInv(t, rank) && MkDir(t, path, a).status == Ok
    ensures var cs := Components(path); var t' := MkDir(t, path, a).tree;
            && BelowDirectory(t, path) && t'.nextId == t.nextId + 1
            && var inode := Inode(t.nextId, Directory, a.mode, a.uid, a.gid, 0, 2, a.now, a.now, a.now, L2,
                                  Reach(t, ROOT, cs[..|cs| - 1]).value, cs[|cs| - 1]);
            && t'.inodes == t.inodes[t.nextId := inode] && Lookup(t', path) == Found(inode)
  {
    MkDirEffect(t, rank, path, a, Components(path));
    RootHasNoComponents();
    ResolveFacts(t, rank, path);
    var t' := MkDir(t, path, a).tree;
    var rank' :| TreeInv(t', rank');
    LookupIsReach(t', rank', path);
  }

  /** So is a new file. */
  lemma CreateFileStores(t: Tree, rank: map<nat, nat>, path: string, a: Attributes, size: nat)
    requires TreeInv(t, rank) && path != "/" && CreateFile(t, path, a, size).status == Ok
    ensures var cs := Components(path); var t' := CreateFile(t, path, a, size).tree;
            && BelowDirectory(t, path) && t'.nextId == t.nextId + 1
            && var inode := Inode(t.nextId, Regular, a.mode, a.uid, a.gid, size, 1, a.now, a.now, a.now, SelectBlockLevel(size),
                                  Reach(t, ROOT, cs[..|cs| - 1]).value, cs[|cs| - 1]);
            && t'.inodes == t.inodes[t.nextId := inode] && Lookup(t', path) == Found(inode)
  {
    CreateFileEffect(t, rank, path, a, size, Components(path));
    ResolveFacts(t, rank, path);
    var t' := CreateFile(t, path, a, size).tree;
    var rank' :| TreeInv(t', rank');
    LookupIsReach(t', rank', path);
  }

  /** A removal takes the one inode out of the table. */
  lemma RemovalTakesInode(t: Tree, rank: map<nat, nat>, path: string)
    requires TreeInv(t, rank)
    ensures RmDir(t, path).status == Ok ==>
              && Reach(t, ROOT, Components(path)).Some? && RmDir(t, path).tree.nextId == t.nextId
              && RmDir(t, path).tree.inodes == t.inodes - {Reach(t, ROOT, Components(path)).value}
    ensures DeleteFile(t, path).status == Ok ==>
              && Reach(t, ROOT, Components(path)).Some? && DeleteFile(t, path).tree.nextId == t.nextId
              && DeleteFile(t, path).tree.inodes == t.inodes - {Reach(t, ROOT, Components(path)).value}
  {
    RmDirEffect(t, rank, path, []);
    DeleteFileEffect(t, rank, path, []);
    RootHasNoComponents();
    if path != "/" && Resolve(t, path).Resolved? {
      var r := Resolve(t, path);
      ResolveFacts(t, rank, path);
      RemoveKind(t, rank, path, r.parent, r.name, Directory, []);
      RemoveKind(t, rank, path, r.parent, r.name, Regular, []);
    }
  }

  datatype Listing = Listed(entries: seq<DirEntry>) | Unlisted(status: Status)

  function ListEntries(t: Tree, id: nat): Listing {
    if id in t.dirs then Listed(t.dirs[id]) else Unlisted(NotDirectory)
  }

  /** src/meta/namespace_manager.cpp:156-201. */
  function ReadDir(t: Tree, path: string): Listing {
    if path == "/" then if ROOT in t.inodes then ListEntries(t, ROOT) else Unlisted(NotFound)
    else
      match Resolve(t, path)
      case Unresolved(status) => Unlisted(status)
      case Resolved(parent, name) =>
        if parent !in t.dirs then Unlisted(NotFound)
        else
          match IndexOf(t.dirs[parent], name, None)
          case None => Unlisted(NotFound)
          case Some(i) =>
            if t.dirs[parent][i].fileType != Directory then Unlisted(NotDirectory)
            else ListEntries(t, t.dirs[parent][i].inodeId)
  }

  /** `entries` has one entry for each name that leads on from `cs`, with the inode it leads to and that inode's type. */
  ghost predicate Lists(t: Tree, cs: seq<string>, entries: seq<DirEntry>, name: string) {
    && UniqueNames(entries)
    && match Reach(t, ROOT, cs + [name])
       case None => forall e | e in entries :: e.name != name
       case Some(id) => id in t.inodes && DirEntry(name, id, t.inodes[id].fileType) in entries
  }

  /** ReadDir lists what the path leads to, name by name, or says what is wrong with it. */
  lemma ReadDirExactly(t: Tree, rank: map<nat, nat>, path: string, name: string)
    requires TreeInv(t, rank)
    ensures var cs, r := Components(path), ReadDir(t, path);
            if !Wellformed(path) then r == Unlisted(InvalidArgument)
            else if Reach(t, ROOT, cs) == None then r == Unlisted(NotFound)
            else if Reach(t, ROOT, cs).value !in t.dirs then r == Unlisted(NotDirectory)
            else r.Listed? && Lists(t, cs, r.entries, name)
  {
    var cs := Components(path);
    ResolveIsReach(t, rank, path);
    RootHasNoComponents();
    if Wellformed(path) {
      match Reach(t, ROOT, cs) {
        case None =>
        case Some(id) =>
          ReachDepth(t, rank, cs);
          if path != "/" {
            LastStep(t, rank, cs, id);
            var d := t.inodes[id].parentId;
            NextIsEntry(t, rank, d, cs[|cs| - 1]);
            assert EntriesOk(t, d) && EntryOk(t, d, t.dirs[d][IndexOf(t.dirs[d], cs[|cs| - 1], None).value]);
          }
          if id in t.dirs {
            ListsNext(t, rank, cs, id, name);
          }
      }
    }
  }

  lemma ListsNext(t: Tree, rank: map<nat, nat>, cs: seq<string>, id: nat, name: string)
    requires TreeInv(t, rank) && Reach(t, ROOT, cs) == Some(id) && id in t.dirs
    ensures Lists(t, cs, t.dirs[id], name)
  {
    assert EntriesOk(t, id);
    assert (cs + [name])[..|cs + [name]| - 1] == cs;
    match IndexOf(t.dirs[id], name, None) {
      case None =>
        forall e | e in t.dirs[id]
          ensures e.name != name
        {
          var i :| 0 <= i < |t.dirs[id]| && t.dirs[id][i] == e;
          assert !Matches(t.dirs[id][i], name, None);
        }
      case Some(i) =>
        assert EntryOk(t, id, t.dirs[id][i]);
    }
  }

  /** A new entry is listed last. */
  lemma ListingOrder(t: Tree, rank: map<nat, nat>, path: string, a: Attributes, size: nat)
    requires TreeInv(t, rank) && BelowDirectory(t, path)
    ensures var cs := Components(path); var d := Reach(t, ROOT, cs[..|cs| - 1]).value;
            && (MkDir(t, path, a).status == Ok ==>
                  d in MkDir(t, path, a).tree.dirs
                  && MkDir(t, path, a).tree.dirs[d] == t.dirs[d] + [DirEntry(cs[|cs| - 1], t.nextId, Directory)])
            && (CreateFile(t, path, a, size).status == Ok ==>
                  d in CreateFile(t, path, a, size).tree.dirs
                  && CreateFile(t, path, a, size).tree.dirs[d] == t.dirs[d] + [DirEntry(cs[|cs| - 1], t.nextId, Regular)])
  {
    RootHasNoComponents();
    MkDirEffect(t, rank, path, a, []);
    if Resolve(t, path).Resolved? {
      ResolveFacts(t, rank, path);
    }
  }
}
