/** The operations of src/meta/namespace_manager.cpp on a tree, and what each does to every path. */
module NamespaceOps {
  import opened Bytes
  import opened Types
  import opened Namespace

  // ---- resolution ----

  function NextDir(t: Tree, d: nat, name: string): Option<nat> {
    if d !in t.dirs then None
    else
      match IndexOf(t.dirs[d], name, Some(Directory))
      case None => None
      case Some(i) => Some(t.dirs[d][i].inodeId)
  }

  /** The directory the walk of ResolvePath is in after the names `cs`. */
  function WalkDirs(t: Tree, cs: seq<string>): Option<nat> {
    if cs == [] then Some(ROOT)
    else
      match WalkDirs(t, cs[..|cs| - 1])
      case None => None
      case Some(d) => NextDir(t, d, cs[|cs| - 1])
  }

  datatype Resolution = Resolved(parent: nat, name: string) | Unresolved(status: Status)

  predicate Absolute(path: string) {
    path != "" && path[0] == '/'
  }

  function Resolve(t: Tree, path: string): Resolution {
    var cs := Components(path);
    if !Absolute(path) then Unresolved(InvalidArgument)
    else if path == "/" then Resolved(ROOT, "")
    else if cs == [] then Unresolved(InvalidArgument)
    else
      match WalkDirs(t, cs[..|cs| - 1])
      case None => Unresolved(NotFound)
      case Some(d) => Resolved(d, cs[|cs| - 1])
  }

  datatype LookupResult = Found(inode: Inode) | Missing(status: Status)

  function GetInode(t: Tree, id: nat): LookupResult {
    if id in t.inodes then Found(t.inodes[id]) else Missing(NotFound)
  }

  function Lookup(t: Tree, path: string): LookupResult {
    if path == "/" then GetInode(t, ROOT)
    else
      match Resolve(t, path)
      case Unresolved(status) => Missing(status)
      case Resolved(parent, name) =>
        match Next(t, parent, name)
        case None => Missing(NotFound)
        case Some(id) => GetInode(t, id)
  }

  /** A path with components, or the root. */
  predicate Wellformed(path: string) {
    Absolute(path) && (path == "/" || Components(path) != [])
  }

  /** A path is well-formed exactly if it starts with a slash and is the root or has a character that is none. */
  lemma WellformedExactly(path: string)
    ensures Wellformed(path) <==> "/" <= path && (path == "/" || exists c | c in path :: c != '/')
  {
    OnlySlashes(path);
  }

  lemma {:induction false} OnlySlashes(path: string)
    ensures Components(path) == [] <==> forall c | c in path :: c == '/'
    decreases |path|
  {
    if path != "" {
      var c, rest := path[0], path[1..];
      assert path == [c] + rest;
      if c == '/' {
        OnlySlashes(rest);
        assert [] + Tokens(rest, "") == Components(rest);
        assert forall x :: x in path <==> x == c || x in rest;
      } else {
        assert c in path && Components(path) == Tokens(rest, "" + [c]);
        TokenStays(rest, "" + [c]);
      }
    }
  }

  lemma {:induction false} TokenStays(s: string, token: string)
    requires token != ""
    ensures Tokens(s, token) != []
    decreases |s|
  {
    if s != "" && s[0] != '/' {
      TokenStays(s[1..], token + [s[0]]);
    }
  }

  lemma RootHasNoComponents()
    ensures Components("/") == []
  {
    assert Tokens("/"[1..], "") == [];
  }

  lemma NextDirIsNext(t: Tree, rank: map<nat, nat>, d: nat, name: string)
    requires TreeInv(t, rank)
    ensures NextDir(t, d, name) == match Next(t, d, name) case None => None case Some(id) => if id in t.dirs then Some(id) else None
  {
    if d in t.dirs {
      assert EntriesOk(t, d);
      var entries := t.dirs[d];
      match IndexOf(entries, name, None) {
        case None =>
        case Some(i) =>
          assert EntryOk(t, d, entries[i]);
          if entries[i].fileType.Directory? {
            assert Matches(entries[i], name, Some(Directory));
          }
      }
    }
  }

  /** The walk of ResolvePath reaches exactly the directories the names lead to. */
  lemma {:induction false} WalkDirsIsReach(t: Tree, rank: map<nat, nat>, cs: seq<string>)
    requires TreeInv(t, rank)
    ensures WalkDirs(t, cs) == match Reach(t, ROOT, cs) case None => None case Some(id) => if id in t.dirs then Some(id) else None
  {
    if cs != [] {
      var front, name := cs[..|cs| - 1], cs[|cs| - 1];
      WalkDirsIsReach(t, rank, front);
      if Reach(t, ROOT, front).Some? {
        NextDirIsNext(t, rank, Reach(t, ROOT, front).value, name);
      }
    }
  }

  /** Lookup finds the inode the path's components lead to, and nothing else. */
  lemma LookupIsReach(t: Tree, rank: map<nat, nat>, path: string)
    requires TreeInv(t, rank)
    ensures Lookup(t, path) ==
            if !Wellformed(path) then Missing(InvalidArgument)
            else
              match Reach(t, ROOT, Components(path))
              case None => Missing(NotFound)
              case Some(id) => if id in t.inodes then Found(t.inodes[id]) else Missing(NotFound)
  {
    RootHasNoComponents();
    var cs := Components(path);
    if Wellformed(path) && path != "/" {
      WalkDirsIsReach(t, rank, cs[..|cs| - 1]);
    }
  }

  /** The directory part of `path` leads to a directory. */
  ghost predicate BelowDirectory(t: Tree, path: string) {
    var cs := Components(path);
    cs != [] && Reach(t, ROOT, cs[..|cs| - 1]).Some? && Reach(t, ROOT, cs[..|cs| - 1]).value in t.dirs
  }

  /** What a path leads to hangs below a directory. */
  lemma PathHasParent(t: Tree, path: string)
    ensures Reach(t, ROOT, Components(path)).Some? && Components(path) != [] ==> BelowDirectory(t, path)
  {
  }

  /** Ok for a path that can be resolved, and otherwise the reason why it cannot. */
  ghost function PathStatus(t: Tree, path: string): Status {
    if !Wellformed(path) then InvalidArgument
    else if path == "/" || BelowDirectory(t, path) then Ok
    else NotFound
  }

  lemma ResolveIsReach(t: Tree, rank: map<nat, nat>, path: string)
    requires TreeInv(t, rank)
    ensures var cs := Components(path);
            Resolve(t, path) ==
            if !Wellformed(path) then Unresolved(InvalidArgument)
            else if cs == [] then Resolved(ROOT, "")
            else
              match Reach(t, ROOT, cs[..|cs| - 1])
              case None => Unresolved(NotFound)
              case Some(d) => if d in t.dirs then Resolved(d, cs[|cs| - 1]) else Unresolved(NotFound)
  {
    RootHasNoComponents();
    var cs := Components(path);
    if cs != [] {
      WalkDirsIsReach(t, rank, cs[..|cs| - 1]);
    }
  }

  lemma NoEmptyName(t: Tree, rank: map<nat, nat>, d: nat)
    requires TreeInv(t, rank) && d in t.dirs
    ensures IndexOf(t.dirs[d], "", None) == None
  {
    assert EntriesOk(t, d);
    forall i | 0 <= i < |t.dirs[d]|
      ensures !Matches(t.dirs[d][i], "", None)
    {
      assert EntryOk(t, d, t.dirs[d][i]);
    }
  }

  /** Slashes at the end of a path below the root make no difference to Lookup. */
  lemma LookupOfTrailingSlash(t: Tree, rank: map<nat, nat>, path: string)
    requires TreeInv(t, rank) && Wellformed(path)
    ensures path != "/" ==> Lookup(t, path + "/") == Lookup(t, path)
  {
    if path != "/" {
      ComponentsOfTrailingSlash(path);
      LookupIsReach(t, rank, path);
      LookupIsReach(t, rank, path + "/");
    }
  }

  /** Path round trip: the path built by following parent ids looks up the inode it was built from. */
  lemma LookupOfPathTo(t: Tree, rank: map<nat, nat>, id: nat)
    requires TreeInv(t, rank) && id in t.inodes && id != ROOT
    ensures Lookup(t, PathString(PathTo(t, rank, id))) == Found(t.inodes[id])
  {
    PathReaches(t, rank, id);
    var cs := PathTo(t, rank, id);
    ComponentsOfPathString(cs);
    assert cs != [];
    LookupIsReach(t, rank, PathString(cs));
  }

  /** Path injectivity: two paths find the same inode only if their components are equal. */
  lemma LookupInjective(t: Tree, rank: map<nat, nat>, path1: string, path2: string)
    requires TreeInv(t, rank)
    requires Lookup(t, path1).Found? && Lookup(t, path1) == Lookup(t, path2)
    ensures Components(path1) == Components(path2)
  {
    LookupIsReach(t, rank, path1);
    LookupIsReach(t, rank, path2);
    var id := Reach(t, ROOT, Components(path1)).value;
    assert t.inodes[id].id == id;
    ReachInjective(t, rank, Components(path1), Components(path2), id);
  }

  // ---- how a changed entry changes paths ----

  /** The path `cs` does not use the entry `name` of directory `d`. */
  ghost predicate Avoids(t: Tree, cs: seq<string>, d: nat, name: string) {
    forall k | 0 <= k < |cs| :: !(Reach(t, ROOT, cs[..k]) == Some(d) && cs[k] == name)
  }

  lemma UseIsPrefix(t: Tree, rank: map<nat, nat>, cs: seq<string>, k: nat, dir: seq<string>, d: nat)
    requires TreeInv(t, rank) && k < |cs|
    requires Reach(t, ROOT, cs[..k]) == Some(d) == Reach(t, ROOT, dir)
    ensures dir + [cs[k]] <= cs
  {
    ReachInjective(t, rank, cs[..k], dir, d);
    assert cs[..k + 1] == cs[..k] + [cs[k]];
  }

  lemma AvoidsUnlessPrefix(t: Tree, rank: map<nat, nat>, cs: seq<string>, dir: seq<string>, d: nat, name: string)
    requires TreeInv(t, rank) && Reach(t, ROOT, dir) == Some(d)
    requires !(dir + [name] <= cs)
    ensures Avoids(t, cs, d, name)
  {
    forall k | 0 <= k < |cs|
      ensures !(Reach(t, ROOT, cs[..k]) == Some(d) && cs[k] == name)
    {
      if Reach(t, ROOT, cs[..k]) == Some(d) && cs[k] == name {
        UseIsPrefix(t, rank, cs, k, dir, d);
      }
    }
  }

  /** `t'` has the entries of `t` but for `name1` of `d1` and `name2` of `d2`. */
  ghost predicate SameBut(t: Tree, t': Tree, d1: nat, name1: string, d2: nat, name2: string) {
    forall d, name | !(d == d1 && name == name1) && !(d == d2 && name == name2) :: Next(t', d, name) == Next(t, d, name)
  }

  /** A path that uses neither entry leads where it did. */
  lemma {:induction false} SameReach(t: Tree, t': Tree, cs: seq<string>, d1: nat, name1: string, d2: nat, name2: string)
    requires SameBut(t, t', d1, name1, d2, name2)
    requires Avoids(t, cs, d1, name1) && Avoids(t, cs, d2, name2)
    ensures Reach(t', ROOT, cs) == Reach(t, ROOT, cs)
  {
    if cs != [] {
      var m := |cs| - 1;
      forall k | 0 <= k < m
        ensures cs[..m][..k] == cs[..k] && cs[..m][k] == cs[k]
      {
      }
      SameReach(t, t', cs[..m], d1, name1, d2, name2);
    }
  }

  lemma NothingBelow(t: Tree, from: nat, rest: seq<string>)
    requires from !in t.dirs || t.dirs[from] == []
    requires rest != []
    ensures Reach(t, from, rest) == None
  {
    assert rest == [rest[0]] + rest[1..];
    ReachAppend(t, from, [rest[0]], rest[1..]);
    assert [rest[0]][..0] == [];
    assert Reach(t, from, [rest[0]]) == Next(t, from, rest[0]);
  }

  lemma PrefixSplit(cs: seq<string>, prefix: seq<string>)
    requires prefix <= cs
    ensures cs == prefix + cs[|prefix|..]
  {
  }

  // ---- entry lists ----

  lemma IndexAfterPush(entries: seq<DirEntry>, e: DirEntry, name: string)
    ensures IndexOf(entries + [e], name, None) ==
            if IndexOf(entries, name, None).Some? then IndexOf(entries, name, None)
            else if e.name == name then Some(|entries|) else None
  {
    assert (entries + [e])[..|entries|] == entries;
  }

  ghost predicate UniqueNames(entries: seq<DirEntry>) {
    forall i, j | 0 <= i < j < |entries| :: entries[i].name != entries[j].name
  }

  /** With unique names, any entry called `name` is the first one. */
  lemma IndexIsUnique(entries: seq<DirEntry>, i: nat)
    requires UniqueNames(entries) && i < |entries|
    ensures IndexOf(entries, entries[i].name, None) == Some(i)
  {
    assert Matches(entries[i], entries[i].name, None);
  }

  function EntryOf(entries: seq<DirEntry>, name: string): Option<DirEntry> {
    match IndexOf(entries, name, None)
    case None => None
    case Some(i) => Some(entries[i])
  }

  lemma EntryAfterRemove(entries: seq<DirEntry>, i: nat, name: string)
    requires UniqueNames(entries) && i < |entries|
    ensures UniqueNames(RemoveAt(entries, i))
    ensures EntryOf(RemoveAt(entries, i), name) == if name == entries[i].name then None else EntryOf(entries, name)
  {
    var rest := RemoveAt(entries, i);
    forall j | 0 <= j < |rest|
      ensures rest[j] == entries[if j < i then j else j + 1]
    {
    }
    match IndexOf(entries, name, None) {
      case None =>
      case Some(k) =>
        if k != i {
          var j := if k < i then k else k - 1;
          assert rest[j] == entries[k];
          IndexIsUnique(rest, j);
        } else {
          forall j | 0 <= j < |rest|
            ensures !Matches(rest[j], name, None)
          {
          }
        }
    }
  }

  // ---- adding an inode ----

  datatype Outcome = Outcome(tree: Tree, status: Status)

  /** An inode and its entry; a directory starts with an empty entry list. */
  function AddInode(t: Tree, d: nat, inode: Inode): Tree {
    var entries := if d in t.dirs then t.dirs[d] else [];
    var dirs := t.dirs[d := entries + [DirEntry(inode.name, inode.id, inode.fileType)]];
    Tree(if inode.fileType.Directory? then dirs[inode.id := []] else dirs, t.inodes[inode.id := inode], inode.id + 1)
  }

  ghost function WithRank(rank: map<nat, nat>, id: nat, depth: nat): map<nat, nat> {
    rank[id := depth]
  }

  /** `inode` may be added to directory `d`, which `dir` leads to. */
  ghost predicate Addable(t: Tree, rank: map<nat, nat>, dir: seq<string>, d: nat, inode: Inode) {
    && TreeInv(t, rank) && Reach(t, ROOT, dir) == Some(d) && d in t.dirs
    && IsName(inode.name) && Next(t, d, inode.name) == None
    && inode.id == t.nextId && inode.parentId == d
  }

  lemma AddNext(t: Tree, rank: map<nat, nat>, dir: seq<string>, d: nat, inode: Inode, d': nat, name: string)
    requires Addable(t, rank, dir, d, inode)
    ensures Next(AddInode(t, d, inode), d', name) ==
            if d' == d && name == inode.name then Some(inode.id) else Next(t, d', name)
  {
    NextIdIsFree(t, rank);
    AddedEntry(t, d, inode, d', name);
  }

  lemma NextIdIsFree(t: Tree, rank: map<nat, nat>)
    requires TreeInv(t, rank)
    ensures t.nextId !in t.dirs && t.nextId !in t.inodes
  {
  }

  lemma AddedEntry(t: Tree, d: nat, inode: Inode, d': nat, name: string)
    requires d in t.dirs && inode.id !in t.dirs && Next(t, d, inode.name) == None
    ensures Next(AddInode(t, d, inode), d', name) ==
            if d' == d && name == inode.name then Some(inode.id) else Next(t, d', name)
  {
    if d' == d {
      IndexAfterPush(t.dirs[d], DirEntry(inode.name, inode.id, inode.fileType), name);
    }
  }

  lemma AddEntry(t: Tree, d: nat, inode: Inode, d': nat, e: DirEntry)
    requires EntryOk(t, d', e) && inode.id !in t.inodes
    ensures EntryOk(AddInode(t, d, inode), d', e)
  {
  }

  lemma AddEntries(t: Tree, rank: map<nat, nat>, dir: seq<string>, d: nat, inode: Inode, d': nat)
    requires Addable(t, rank, dir, d, inode) && d' in t.dirs
    ensures EntriesOk(AddInode(t, d, inode), d')
  {
    var t' := AddInode(t, d, inode);
    var entries := t.dirs[d'];
    assert EntriesOk(t, d') && d' != inode.id && d' in t'.dirs;
    forall i | 0 <= i < |t'.dirs[d']|
      ensures EntryOk(t', d', t'.dirs[d'][i])
    {
      if i < |entries| {
        AddEntry(t, d, inode, d', entries[i]);
      } else {
        assert t'.dirs[d'][i] == DirEntry(inode.name, inode.id, inode.fileType);
        assert ROOT in t.inodes;
      }
    }
  }

  lemma AddHangs(t: Tree, rank: map<nat, nat>, dir: seq<string>, d: nat, inode: Inode, id: nat)
    requires Addable(t, rank, dir, d, inode) && id in AddInode(t, d, inode).inodes && id != ROOT
    ensures Hangs(AddInode(t, d, inode), WithRank(rank, inode.id, |dir| + 1), id)
  {
    ReachDepth(t, rank, dir);
    if id == inode.id {
      AddNext(t, rank, dir, d, inode, d, inode.name);
    } else {
      assert Hangs(t, rank, id);
      AddNext(t, rank, dir, d, inode, t.inodes[id].parentId, t.inodes[id].name);
    }
  }

  lemma AddKeepsTree(t: Tree, rank: map<nat, nat>, dir: seq<string>, d: nat, inode: Inode)
    requires Addable(t, rank, dir, d, inode)
    ensures TreeInv(AddInode(t, d, inode), WithRank(rank, inode.id, |dir| + 1))
  {
    var t' := AddInode(t, d, inode);
    forall d' | d' in t'.dirs
      ensures EntriesOk(t', d')
    {
      if d' in t.dirs {
        AddEntries(t, rank, dir, d, inode, d');
      }
    }
    forall id | id in t'.inodes && id != ROOT
      ensures Hangs(t', WithRank(rank, inode.id, |dir| + 1), id)
    {
      AddHangs(t, rank, dir, d, inode, id);
    }
    assert DomainsOk(t');
    assert AllHang(t', WithRank(rank, inode.id, |dir| + 1));
    assert AllEntriesOk(t');
    assert RootOk(t', WithRank(rank, inode.id, |dir| + 1));
  }

  lemma AddSameBut(t: Tree, rank: map<nat, nat>, dir: seq<string>, d: nat, inode: Inode)
    requires Addable(t, rank, dir, d, inode)
    ensures SameBut(t, AddInode(t, d, inode), d, inode.name, d, inode.name)
  {
    forall d', name | !(d' == d && name == inode.name)
      ensures Next(AddInode(t, d, inode), d', name) == Next(t, d', name)
    {
      AddNext(t, rank, dir, d, inode, d', name);
    }
  }

  /** A path not below the new one leads where it did. */
  lemma AddReachElsewhere(t: Tree, rank: map<nat, nat>, dir: seq<string>, d: nat, inode: Inode, cs: seq<string>)
    requires Addable(t, rank, dir, d, inode) && !(dir + [inode.name] <= cs)
    ensures Reach(AddInode(t, d, inode), ROOT, cs) == Reach(t, ROOT, cs)
  {
    AvoidsUnlessPrefix(t, rank, cs, dir, d, inode.name);
    AddSameBut(t, rank, dir, d, inode);
    SameReach(t, AddInode(t, d, inode), cs, d, inode.name, d, inode.name);
  }

  lemma AddReachPath(t: Tree, rank: map<nat, nat>, dir: seq<string>, d: nat, inode: Inode)
    requires Addable(t, rank, dir, d, inode)
    ensures Reach(AddInode(t, d, inode), ROOT, dir + [inode.name]) == Some(inode.id)
    ensures Reach(t, ROOT, dir + [inode.name]) == None
  {
    var path := dir + [inode.name];
    AddReachElsewhere(t, rank, dir, d, inode, dir);
    AddNext(t, rank, dir, d, inode, d, inode.name);
    assert path[..|path| - 1] == dir;
  }

  /** The added inode is reached by its own path, every other path leads where it did. */
  lemma AddReach(t: Tree, rank: map<nat, nat>, dir: seq<string>, d: nat, inode: Inode, cs: seq<string>)
    requires Addable(t, rank, dir, d, inode)
    ensures Reach(AddInode(t, d, inode), ROOT, cs) ==
            if cs == dir + [inode.name] then Some(inode.id) else Reach(t, ROOT, cs)
  {
    var path := dir + [inode.name];
    if path <= cs {
      var rest := cs[|path|..];
      AddReachPath(t, rank, dir, d, inode);
      PrefixSplit(cs, path);
      ReachAppend(t, ROOT, path, rest);
      ReachAppend(AddInode(t, d, inode), ROOT, path, rest);
      if rest != [] {
        NothingBelow(AddInode(t, d, inode), inode.id, rest);
      }
    } else {
      AddReachElsewhere(t, rank, dir, d, inode, cs);
    }
  }

  // ---- removing an inode ----

  /** Entry `i` of directory `d` and its inode. */
  function RemoveInode(t: Tree, d: nat, i: nat): Tree
    requires d in t.dirs && i < |t.dirs[d]|
  {
    var id := t.dirs[d][i].inodeId;
    var dirs := t.dirs[d := RemoveAt(t.dirs[d], i)];
    Tree(if t.dirs[d][i].fileType.Directory? then dirs - {id} else dirs, t.inodes - {id}, t.nextId)
  }

  /** Entry `i` of directory `d`, which `dir` leads to, is a file or an empty directory. */
  ghost predicate Removable(t: Tree, rank: map<nat, nat>, dir: seq<string>, d: nat, i: nat) {
    && TreeInv(t, rank) && Reach(t, ROOT, dir) == Some(d)
    && d in t.dirs && i < |t.dirs[d]|
    && (t.dirs[d][i].inodeId in t.dirs ==> t.dirs[t.dirs[d][i].inodeId] == [])
  }

  lemma RemovedEntry(t: Tree, rank: map<nat, nat>, dir: seq<string>, d: nat, i: nat)
    requires Removable(t, rank, dir, d, i)
    ensures var e := t.dirs[d][i];
            && e.inodeId in t.inodes && e.inodeId != ROOT && e.inodeId != d
            && (e.fileType.Directory? <==> e.inodeId in t.dirs)
            && t.inodes[e.inodeId].parentId == d && t.inodes[e.inodeId].name == e.name
            && Next(t, d, e.name) == Some(e.inodeId)
    ensures UniqueNames(t.dirs[d])
  {
    assert EntriesOk(t, d) && EntryOk(t, d, t.dirs[d][i]);
    assert Hangs(t, rank, t.dirs[d][i].inodeId);
  }

  lemma RemoveNext(t: Tree, rank: map<nat, nat>, dir: seq<string>, d: nat, i: nat, d': nat, name: string)
    requires Removable(t, rank, dir, d, i)
    ensures Next(RemoveInode(t, d, i), d', name) ==
            if d' == d && name == t.dirs[d][i].name then None else Next(t, d', name)
  {
    RemovedEntry(t, rank, dir, d, i);
    if d' == d {
      EntryAfterRemove(t.dirs[d], i, name);
    }
  }

  lemma RemoveEntries(t: Tree, rank: map<nat, nat>, dir: seq<string>, d: nat, i: nat, d': nat)
    requires Removable(t, rank, dir, d, i) && d' in RemoveInode(t, d, i).dirs
    ensures EntriesOk(RemoveInode(t, d, i), d')
  {
    var t' := RemoveInode(t, d, i);
    var e := t.dirs[d][i];
    RemovedEntry(t, rank, dir, d, i);
    EntryAfterRemove(t.dirs[d], i, e.name);
    assert EntriesOk(t, d');
    forall j | 0 <= j < |t'.dirs[d']|
      ensures EntryOk(t', d', t'.dirs[d'][j])
    {
      var k := if d' == d && j >= i then j + 1 else j;
      assert t'.dirs[d'][j] == t.dirs[d'][k];
      assert EntryOk(t, d', t.dirs[d'][k]);
    }
  }

  lemma RemoveKeepsTree(t: Tree, rank: map<nat, nat>, dir: seq<string>, d: nat, i: nat)
    requires Removable(t, rank, dir, d, i)
    ensures TreeInv(RemoveInode(t, d, i), rank)
  {
    var t' := RemoveInode(t, d, i);
    var e := t.dirs[d][i];
    RemovedEntry(t, rank, dir, d, i);
    forall d' | d' in t'.dirs
      ensures EntriesOk(t', d')
    {
      RemoveEntries(t, rank, dir, d, i, d');
    }
    forall id | id in t'.inodes && id != ROOT
      ensures Hangs(t', rank, id)
    {
      assert Hangs(t, rank, id);
      var p := t.inodes[id].parentId;
      RemoveNext(t, rank, dir, d, i, p, t.inodes[id].name);
      if p == e.inodeId {
        assert false;
      }
    }
  }

  /** The removed path leads nowhere any more, every other path leads where it did. */
  lemma RemoveReach(t: Tree, rank: map<nat, nat>, dir: seq<string>, d: nat, i: nat, cs: seq<string>)
    requires Removable(t, rank, dir, d, i)
    ensures Reach(RemoveInode(t, d, i), ROOT, cs) ==
            if cs == dir + [t.dirs[d][i].name] then None else Reach(t, ROOT, cs)
  {
    var t' := RemoveInode(t, d, i);
    var e := t.dirs[d][i];
    var path := dir + [e.name];
    RemovedEntry(t, rank, dir, d, i);
    forall d', name
      ensures Next(t', d', name) == if d' == d && name == e.name then None else Next(t, d', name)
    {
      RemoveNext(t, rank, dir, d, i, d', name);
    }
    if path <= cs {
      assert !(path <= dir);
      AvoidsUnlessPrefix(t, rank, dir, dir, d, e.name);
      SameReach(t, t', dir, d, e.name, d, e.name);
      assert path[..|path| - 1] == dir;
      assert Reach(t', ROOT, path) == None && Reach(t, ROOT, path) == Some(e.inodeId);
      var rest := cs[|path|..];
      PrefixSplit(cs, path);
      ReachAppend(t, ROOT, path, rest);
      ReachAppend(t', ROOT, path, rest);
      if rest != [] {
        NothingBelow(t, e.inodeId, rest);
      }
    } else {
      AvoidsUnlessPrefix(t, rank, cs, dir, d, e.name);
      SameReach(t, t', cs, d, e.name, d, e.name);
    }
  }
}
