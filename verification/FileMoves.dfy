/** File contents under namespace operations: a rename carries them along, a delete takes only its own path away, and a
  * written file keeps reading its bytes through everything done to other paths. */
module FileMoves {
  import opened Bytes
  import opened Types
  import opened Namespace
  import opened NamespaceOps
  import opened NamespaceEffects
  import opened FileStore
  import NR = NamespaceRename

  /** Two paths that lead to the same inode, before and after, read the same. */
  lemma ReadFollowsReach(w: World, rank: map<nat, nat>, t': Tree, rank': map<nat, nat>, q: string, q': string, buf: seq<byte>)
    requires TreeInv(w.tree, rank) && TreeInv(t', rank') && Wellformed(q) && Wellformed(q')
    requires Reach(t', ROOT, Components(q)) == Reach(w.tree, ROOT, Components(q'))
    requires match Reach(w.tree, ROOT, Components(q'))
             case None => true
             case Some(id) => id in w.tree.inodes && id in t'.inodes && t'.inodes[id].size == w.tree.inodes[id].size
    ensures ReadFile(w.(tree := t'), q, buf) == ReadFile(w, q', buf)
  {
    LookupIsReach(w.tree, rank, q');
    LookupIsReach(t', rank', q);
  }

  lemma StoreOkWithTree(w: World, nextBlock: nat, t': Tree)
    requires StoreOk(w, nextBlock) && t'.nextId >= w.tree.nextId
    ensures StoreOk(w.(tree := t'), nextBlock)
  {
    var w' := w.(tree := t');
    forall id | id in w'.inodeBlocks
      ensures ListOk(w', id)
    {
      assert ListOk(w, id);
    }
    forall id | id in w'.metas
      ensures MetaOk(w', nextBlock, id)
    {
      assert MetaOk(w, nextBlock, id);
    }
  }

  /** Rename changes no inode's size and gives out no id. */
  lemma RenameKeepsInodes(t: Tree, src: string, dst: string, now: nat)
    ensures var t' := NR.Rename(t, src, dst, now).tree;
            && t'.nextId == t.nextId
            && forall id | id in t.inodes :: id in t'.inodes && t'.inodes[id].size == t.inodes[id].size
  {
  }

  /** A harmless rename carries the contents of everything below the source to the same place below the destination. */
  lemma RenameMovesContents(w: World, rank: map<nat, nat>, nextBlock: nat, src: string, dst: string, now: nat,
                            q: string, q': string, buf: seq<byte>)
    requires TreeInv(w.tree, rank) && StoreOk(w, nextBlock)
    requires NR.Starts(w.tree, src, dst) && !NR.Destroys(w.tree, src, dst)
    requires Wellformed(q) && Wellformed(q')
    requires Components(q') == if Components(dst) <= Components(q) then Components(src) + Components(q)[|Components(dst)|..] else Components(q)
    ensures var w' := w.(tree := NR.Rename(w.tree, src, dst, now).tree);
            && IsTree(w'.tree) && StoreOk(w', nextBlock)
            && ReadFile(w', q, buf) ==
               if Components(src) <= Components(q) && !(Components(dst) <= Components(q)) then FileReply(NotFound, buf)
               else ReadFile(w, q', buf)
  {
    var t' := NR.Rename(w.tree, src, dst, now).tree;
    var rank' := NR.NewRank(w.tree, rank, Components(src), Components(dst));
    NR.RenameMovesSubtree(w.tree, rank, src, dst, now, Components(q));
    RenameKeepsInodes(w.tree, src, dst, now);
    StoreOkWithTree(w, nextBlock, t');
    if Components(src) <= Components(q) && !(Components(dst) <= Components(q)) {
      LookupIsReach(t', rank', q);
    } else {
      if Reach(w.tree, ROOT, Components(q')).Some? {
        ReachDepth(w.tree, rank, Components(q'));
      }
      ReadFollowsReach(w, rank, t', rank', q, q', buf);
    }
  }

  /** Exactly the path `cs` and its inode are gone. */
  ghost predicate Loses(t: Tree, t': Tree, cs: seq<string>) {
    && IsTree(t') && t'.nextId == t.nextId
    && Reach(t, ROOT, cs).Some? && t'.inodes == t.inodes - {Reach(t, ROOT, cs).value}
    && forall other {:trigger Reach(t', ROOT, other)} :: Reach(t', ROOT, other) == if other == cs then None else Reach(t, ROOT, other)
  }

  lemma DeleteKeepsInodes(t: Tree, rank: map<nat, nat>, path: string)
    requires TreeInv(t, rank) && DeleteFile(t, path).status == Ok
    ensures var t' := DeleteFile(t, path).tree;
            && t'.nextId == t.nextId && Reach(t, ROOT, Components(path)).Some?
            && t'.inodes == t.inodes - {Reach(t, ROOT, Components(path)).value}
  {
    var r := Resolve(t, path);
    NoEmptyName(t, rank, ROOT);
    RemoveKind(t, rank, path, r.parent, r.name, Regular, []);
  }

  lemma DeleteLoses(t: Tree, rank: map<nat, nat>, path: string)
    requires TreeInv(t, rank) && DeleteFile(t, path).status == Ok
    ensures Loses(t, DeleteFile(t, path).tree, Components(path))
  {
    var r := DeleteFile(t, path);
    DeleteKeepsInodes(t, rank, path);
    DeleteFileEffect(t, rank, path, []);
    forall other
      ensures Reach(r.tree, ROOT, other) == if other == Components(path) then None else Reach(t, ROOT, other)
    {
      DeleteFileEffect(t, rank, path, other);
    }
  }

  lemma RmDirKeepsInodes(t: Tree, rank: map<nat, nat>, path: string)
    requires TreeInv(t, rank) && RmDir(t, path).status == Ok
    ensures var t' := RmDir(t, path).tree;
            && t'.nextId == t.nextId && Reach(t, ROOT, Components(path)).Some?
            && t'.inodes == t.inodes - {Reach(t, ROOT, Components(path)).value}
  {
    var r := Resolve(t, path);
    NoEmptyName(t, rank, ROOT);
    RemoveKind(t, rank, path, r.parent, r.name, Directory, []);
  }

  lemma RmDirLoses(t: Tree, rank: map<nat, nat>, path: string)
    requires TreeInv(t, rank) && RmDir(t, path).status == Ok
    ensures Loses(t, RmDir(t, path).tree, Components(path))
  {
    var r := RmDir(t, path);
    RmDirKeepsInodes(t, rank, path);
    RmDirEffect(t, rank, path, []);
    forall other
      ensures Reach(r.tree, ROOT, other) == if other == Components(path) then None else Reach(t, ROOT, other)
    {
      RmDirEffect(t, rank, path, other);
    }
  }

  /** After a removal its path reads as absent, and every other path reads as before. */
  lemma LosesReads(w: World, rank: map<nat, nat>, nextBlock: nat, t': Tree, path: string, q: string, buf: seq<byte>)
    requires TreeInv(w.tree, rank) && StoreOk(w, nextBlock) && Loses(w.tree, t', Components(path))
    ensures var w' := w.(tree := t');
            && IsTree(w'.tree) && StoreOk(w', nextBlock)
            && ReadFile(w', q, buf) == if SamePath(q, path) then FileReply(NotFound, buf) else ReadFile(w, q, buf)
  {
    StoreOkWithTree(w, nextBlock, t');
    var rank' :| TreeInv(t', rank');
    LookupIsReach(t', rank', q);
    LookupIsReach(w.tree, rank, q);
    match Reach(w.tree, ROOT, Components(q)) {
      case None =>
      case Some(id) =>
        ReachDepth(w.tree, rank, Components(q));
        if id == Reach(w.tree, ROOT, Components(path)).value {
          ReachInjective(w.tree, rank, Components(q), Components(path), id);
        }
    }
  }

  lemma DeleteReads(w: World, rank: map<nat, nat>, nextBlock: nat, path: string, q: string, buf: seq<byte>)
    requires TreeInv(w.tree, rank) && StoreOk(w, nextBlock) && DeleteFile(w.tree, path).status == Ok
    ensures var w' := w.(tree := DeleteFile(w.tree, path).tree);
            && IsTree(w'.tree) && StoreOk(w', nextBlock)
            && ReadFile(w', q, buf) == if SamePath(q, path) then FileReply(NotFound, buf) else ReadFile(w, q, buf)
  {
    DeleteLoses(w.tree, rank, path);
    LosesReads(w, rank, nextBlock, DeleteFile(w.tree, path).tree, path, q, buf);
  }

  lemma RmDirReads(w: World, rank: map<nat, nat>, nextBlock: nat, path: string, q: string, buf: seq<byte>)
    requires TreeInv(w.tree, rank) && StoreOk(w, nextBlock) && RmDir(w.tree, path).status == Ok
    ensures var w' := w.(tree := RmDir(w.tree, path).tree);
            && IsTree(w'.tree) && StoreOk(w', nextBlock)
            && ReadFile(w', q, buf) == if SamePath(q, path) then FileReply(NotFound, buf) else ReadFile(w, q, buf)
  {
    RmDirLoses(w.tree, rank, path);
    LosesReads(w, rank, nextBlock, RmDir(w.tree, path).tree, path, q, buf);
  }

  /** A new directory reads as an empty file; every other path reads as before. */
  lemma MkDirReads(w: World, rank: map<nat, nat>, nextBlock: nat, path: string, a: Attributes, q: string, buf: seq<byte>)
    requires TreeInv(w.tree, rank) && StoreOk(w, nextBlock) && MkDir(w.tree, path, a).status == Ok
    ensures var w' := w.(tree := MkDir(w.tree, path, a).tree);
            && IsTree(w'.tree) && StoreOk(w', nextBlock)
            && ReadFile(w', q, buf) == if SamePath(q, path) then FileReply(Ok, []) else ReadFile(w, q, buf)
  {
    var t' := MkDir(w.tree, path, a).tree;
    MkDirEffect(w.tree, rank, path, a, Components(q));
    StoreOkWithTree(w, nextBlock, t');
    var rank' :| TreeInv(t', rank');
    LookupIsReach(t', rank', q);
    LookupIsReach(w.tree, rank, q);
    if Reach(w.tree, ROOT, Components(q)).Some? {
      ReachDepth(w.tree, rank, Components(q));
    }
  }

  /** What DeleteFile does to the namespace keeps the invariants; a failed call changes nothing. */
  lemma RemovalKeepsStore(w: World, nextBlock: nat, path: string)
    requires IsTree(w.tree) && StoreOk(w, nextBlock)
    ensures var r := DeleteFile(w.tree, path);
            && IsTree(r.tree) && StoreOk(w.(tree := r.tree), nextBlock) && (r.status != Ok ==> r.tree == w.tree)
  {
    var rank :| TreeInv(w.tree, rank);
    DeleteFileEffect(w.tree, rank, path, []);
    if DeleteFile(w.tree, path).status == Ok {
      DeleteReads(w, rank, nextBlock, path, "", []);
    }
  }

  lemma MkDirKeepsStore(w: World, nextBlock: nat, path: string, a: Attributes)
    requires IsTree(w.tree) && StoreOk(w, nextBlock)
    ensures var r := MkDir(w.tree, path, a);
            && IsTree(r.tree) && StoreOk(w.(tree := r.tree), nextBlock) && (r.status != Ok ==> r.tree == w.tree)
  {
    var rank :| TreeInv(w.tree, rank);
    MkDirEffect(w.tree, rank, path, a, []);
    if MkDir(w.tree, path, a).status == Ok {
      MkDirReads(w, rank, nextBlock, path, a, "", []);
    }
  }

  lemma RmDirKeepsStore(w: World, nextBlock: nat, path: string)
    requires IsTree(w.tree) && StoreOk(w, nextBlock)
    ensures var r := RmDir(w.tree, path);
            && IsTree(r.tree) && StoreOk(w.(tree := r.tree), nextBlock) && (r.status != Ok ==> r.tree == w.tree)
  {
    var rank :| TreeInv(w.tree, rank);
    RmDirEffect(w.tree, rank, path, []);
    if RmDir(w.tree, path).status == Ok {
      RmDirReads(w, rank, nextBlock, path, "", []);
    }
  }

  /** So does a harmless Rename, which fails only when it does not start. */
  lemma RenameKeepsStore(w: World, nextBlock: nat, src: string, dst: string, now: nat)
    requires IsTree(w.tree) && StoreOk(w, nextBlock) && !NR.Destroys(w.tree, src, dst)
    ensures var r := NR.Rename(w.tree, src, dst, now);
            && IsTree(r.tree) && StoreOk(w.(tree := r.tree), nextBlock)
            && (if r.status == Ok then NR.Starts(w.tree, src, dst) else r.tree == w.tree)
  {
    var rank :| TreeInv(w.tree, rank);
    NR.RenameKeepsTreeExactly(w.tree, rank, src, dst, now);
    RenameKeepsInodes(w.tree, src, dst, now);
    StoreOkWithTree(w, nextBlock, NR.Rename(w.tree, src, dst, now).tree);
    if NR.Starts(w.tree, src, dst) {
      NR.RenameMovesSubtree(w.tree, rank, src, dst, now, []);
    } else {
      NR.RenameNotStarted(w.tree, rank, src, dst, now);
    }
  }

  /** The store survives any rename, the tree exactly a harmless one. */
  lemma RenameOutcome(w: World, nextBlock: nat, src: string, dst: string, now: nat)
    requires IsTree(w.tree) && StoreOk(w, nextBlock)
    ensures var r := NR.Rename(w.tree, src, dst, now);
            && StoreOk(w.(tree := r.tree), nextBlock)
            && (IsTree(r.tree) <==> !NR.Destroys(w.tree, src, dst))
            && (!NR.Destroys(w.tree, src, dst) ==> if r.status == Ok then NR.Starts(w.tree, src, dst) else r.tree == w.tree)
  {
    var rank :| TreeInv(w.tree, rank);
    NR.RenameKeepsTreeExactly(w.tree, rank, src, dst, now);
    RenameKeepsInodes(w.tree, src, dst, now);
    StoreOkWithTree(w, nextBlock, NR.Rename(w.tree, src, dst, now).tree);
    if !NR.Destroys(w.tree, src, dst) {
      RenameKeepsStore(w, nextBlock, src, dst, now);
    }
  }

  // ---- whole runs ----

  datatype FileEvent =
    | Wrote(path: string, content: seq<byte>)
    | FailedToWrite
    | Removed(path: string)
    | MadeDirectory(path: string, a: Attributes)
    | RemovedDirectory(path: string)
    | Renamed(src: string, dst: string, now: nat)
    | NodeRestarted

  /** One event, from world `w` with next block id `n` to `w'` with `n'`. What WriteFile promises is said of the writes, and
    * what DataNode.Restart and DataNode.WriteCutOff promise of a restart: all that was stored still is; more may be. The
    * others are what the namespace operations do. */
  ghost predicate Happens(w: World, n: nat, w': World, n': nat, e: FileEvent) {
    match e
    case Wrote(path, content) => ReadsWith(w, w', path, content) && IsTree(w'.tree) && StoreOk(w', n')
    case FailedToWrite => SameReads(w, w') && IsTree(w'.tree) && StoreOk(w', n')
    case Removed(path) => DeleteFile(w.tree, path).status == Ok && w' == w.(tree := DeleteFile(w.tree, path).tree) && n' == n
    case MadeDirectory(path, a) => MkDir(w.tree, path, a).status == Ok && w' == w.(tree := MkDir(w.tree, path, a).tree) && n' == n
    case RemovedDirectory(path) => RmDir(w.tree, path).status == Ok && w' == w.(tree := RmDir(w.tree, path).tree) && n' == n
    case Renamed(src, dst, now) =>
      && NR.Starts(w.tree, src, dst) && !NR.Destroys(w.tree, src, dst)
      && w' == w.(tree := NR.Rename(w.tree, src, dst, now).tree) && n' == n
    case NodeRestarted => w' == w.(shelf := w'.shelf) && KeepsAll(w.shelf, w'.shelf) && n' == n
  }

  /** Events one after the other, from a world in order. */
  ghost predicate IsFileRun(ws: seq<World>, ns: seq<nat>, es: seq<FileEvent>) {
    && |ws| == |es| + 1 == |ns|
    && IsTree(ws[0].tree) && StoreOk(ws[0], ns[0])
    && (forall k | 0 <= k < |es| :: Happens(ws[k], ns[k], ws[k + 1], ns[k + 1], es[k]))
  }

  lemma EventKeepsStore(w: World, n: nat, w': World, n': nat, e: FileEvent)
    requires IsTree(w.tree) && StoreOk(w, n) && Happens(w, n, w', n', e)
    ensures IsTree(w'.tree) && StoreOk(w', n')
  {
    match e {
      case Wrote(_, _) =>
      case FailedToWrite =>
      case Removed(path) => RemovalKeepsStore(w, n, path);
      case MadeDirectory(path, a) => MkDirKeepsStore(w, n, path, a);
      case RemovedDirectory(path) => RmDirKeepsStore(w, n, path);
      case Renamed(src, dst, now) => RenameKeepsStore(w, n, src, dst, now);
      case NodeRestarted => GrownShelf(w, n, w');
    }
  }

  /** Where an event takes the path `cs`. */
  function Carried(cs: seq<string>, e: FileEvent): seq<string> {
    if e.Renamed? && Components(e.src) <= cs then Components(e.dst) + cs[|Components(e.src)|..] else cs
  }

  function CarriedBy(cs: seq<string>, es: seq<FileEvent>): seq<string> {
    if es == [] then cs else Carried(CarriedBy(cs, es[..|es| - 1]), es[|es| - 1])
  }

  /** The event makes or removes something at the path `cs` itself. */
  predicate Hits(e: FileEvent, cs: seq<string>) {
    !e.FailedToWrite? && !e.Renamed? && !e.NodeRestarted? && Components(e.path) == cs
  }

  predicate AreNames(cs: seq<string>) {
    forall c | c in cs :: IsName(c)
  }

  ghost predicate ReadsAs(w: World, cs: seq<string>, content: seq<byte>) {
    forall q, buf | Wellformed(q) && Components(q) == cs :: ReadFile(w, q, buf) == FileReply(Ok, content)
  }

  lemma PathOf(cs: seq<string>)
    requires AreNames(cs) && cs != []
    ensures Wellformed(PathString(cs)) && Components(PathString(cs)) == cs
  {
    ComponentsOfPathString(cs);
  }

  /** A path that reads something exists, and so do its prefixes. */
  lemma PrefixExists(w: World, rank: map<nat, nat>, cs: seq<string>, content: seq<byte>, prefix: seq<string>)
    requires TreeInv(w.tree, rank) && AreNames(cs) && cs != [] && ReadsAs(w, cs, content) && prefix <= cs
    ensures Reach(w.tree, ROOT, prefix).Some?
  {
    PathOf(cs);
    LookupIsReach(w.tree, rank, PathString(cs));
    assert ReadFile(w, PathString(cs), []) == FileReply(Ok, content);
    assert cs == prefix + cs[|prefix|..];
    ReachAppend(w.tree, ROOT, prefix, cs[|prefix|..]);
  }

  lemma RenameCarries(w: World, nextBlock: nat, src: string, dst: string, now: nat, cs: seq<string>, content: seq<byte>)
    requires IsTree(w.tree) && StoreOk(w, nextBlock) && AreNames(cs) && cs != [] && ReadsAs(w, cs, content)
    requires NR.Starts(w.tree, src, dst) && !NR.Destroys(w.tree, src, dst)
    ensures ReadsAs(w.(tree := NR.Rename(w.tree, src, dst, now).tree), Carried(cs, Renamed(src, dst, now)), content)
  {
    var rank :| TreeInv(w.tree, rank);
    var cs' := Carried(cs, Renamed(src, dst, now));
    var from, to := Components(src), Components(dst);
    PathOf(cs);
    if to <= cs {
      PrefixExists(w, rank, cs, content, to);
    }
    forall q, buf | Wellformed(q) && Components(q) == cs'
      ensures ReadFile(w.(tree := NR.Rename(w.tree, src, dst, now).tree), q, buf) == FileReply(Ok, content)
    {
      assert from <= cs ==> cs == from + cs[|from|..] && cs'[|to|..] == cs[|from|..];
      RenameMovesContents(w, rank, nextBlock, src, dst, now, q, PathString(cs), buf);
    }
  }

  lemma EventCarries(w: World, nextBlock: nat, w': World, n': nat, e: FileEvent, cs: seq<string>, content: seq<byte>)
    requires IsTree(w.tree) && StoreOk(w, nextBlock) && Happens(w, nextBlock, w', n', e) && !Hits(e, cs)
    requires AreNames(cs) && cs != [] && ReadsAs(w, cs, content)
    ensures ReadsAs(w', Carried(cs, e), content) && AreNames(Carried(cs, e)) && Carried(cs, e) != []
  {
    match e {
      case Wrote(path, _) =>
      case FailedToWrite =>
      case Removed(path) =>
        var rank :| TreeInv(w.tree, rank);
        forall q, buf | Wellformed(q) && Components(q) == cs
          ensures ReadFile(w', q, buf) == FileReply(Ok, content)
        {
          DeleteReads(w, rank, nextBlock, path, q, buf);
        }
      case MadeDirectory(path, a) =>
        var rank :| TreeInv(w.tree, rank);
        forall q, buf | Wellformed(q) && Components(q) == cs
          ensures ReadFile(w', q, buf) == FileReply(Ok, content)
        {
          MkDirReads(w, rank, nextBlock, path, a, q, buf);
        }
      case RemovedDirectory(path) =>
        var rank :| TreeInv(w.tree, rank);
        forall q, buf | Wellformed(q) && Components(q) == cs
          ensures ReadFile(w', q, buf) == FileReply(Ok, content)
        {
          RmDirReads(w, rank, nextBlock, path, q, buf);
        }
      case Renamed(src, dst, now) =>
        RenameCarries(w, nextBlock, src, dst, now, cs, content);
        TokensAreNames(dst, "");
      case NodeRestarted => GrownShelf(w, nextBlock, w');
    }
  }

  /** A file that reads `content` reads it after any run that does not write or remove it, at the place its renames lead to. */
  lemma {:induction false} FileFollows(ws: seq<World>, ns: seq<nat>, es: seq<FileEvent>, cs: seq<string>, content: seq<byte>)
    requires IsFileRun(ws, ns, es) && AreNames(cs) && cs != [] && ReadsAs(ws[0], cs, content)
    requires forall k | 0 <= k < |es| :: !Hits(es[k], CarriedBy(cs, es[..k]))
    ensures IsTree(ws[|es|].tree) && StoreOk(ws[|es|], ns[|es|])
    ensures ReadsAs(ws[|es|], CarriedBy(cs, es), content)
    ensures AreNames(CarriedBy(cs, es)) && CarriedBy(cs, es) != []
    decreases |es|
  {
    if es != [] {
      var m := |es| - 1;
      assert forall k | 0 <= k < m :: es[..m][k] == es[k] && es[..m][..k] == es[..k];
      FileFollows(ws[..m + 1], ns[..m + 1], es[..m], cs, content);
      EventKeepsStore(ws[m], ns[m], ws[m + 1], ns[m + 1], es[m]);
      EventCarries(ws[m], ns[m], ws[m + 1], ns[m + 1], es[m], CarriedBy(cs, es[..m]), content);
    }
  }
}
