/** Rename, src/meta/namespace_manager.cpp:312-369: the source entry is removed before the destination is looked at, and
  * nothing checks that the destination lies outside the moved directory. */
module NamespaceRename {
  import opened Bytes
  import opened Types
  import opened Namespace
  import opened NamespaceOps

  /** The tree after entry `i` of `sp` became entry `dn` of `dp`. */
  function MovedTree(t: Tree, sp: nat, i: nat, dp: nat, dn: string, now: nat): Tree
    requires sp in t.dirs && i < |t.dirs[sp]| && dp in t.dirs
  {
    var moving := t.dirs[sp][i];
    var dirs := t.dirs[sp := RemoveAt(t.dirs[sp], i)];
    var inodes :=
      if moving.inodeId in t.inodes then
        t.inodes[moving.inodeId := t.inodes[moving.inodeId].(name := dn, parentId := dp, ctime := now)]
      else t.inodes;
    Tree(dirs[dp := dirs[dp] + [moving.(name := dn)]], inodes, t.nextId)
  }

  function Rename(t: Tree, srcPath: string, dstPath: string, now: nat): Outcome {
    match Resolve(t, srcPath)
    case Unresolved(status) => Outcome(t, status)
    case Resolved(sp, sn) =>
      match Resolve(t, dstPath)
      case Unresolved(status) => Outcome(t, status)
      case Resolved(dp, dn) =>
        if sp !in t.dirs then Outcome(t, NotFound)
        else
          match IndexOf(t.dirs[sp], sn, None)
          case None => Outcome(t, NotFound)
          case Some(i) =>
            var removed := t.(dirs := t.dirs[sp := RemoveAt(t.dirs[sp], i)]);
            if dp !in t.dirs then Outcome(removed, NotFound)
            else if IndexOf(removed.dirs[dp], dn, None).Some? then Outcome(removed, AlreadyExists)
            else Outcome(MovedTree(t, sp, i, dp, dn, now), Ok)
  }

  // ---- a move between two directories ----

  /** The path `src` leads to entry `i` of `sp`; the directory part of `dst` leads to `dp`. */
  ghost predicate Movable(t: Tree, rank: map<nat, nat>, src: seq<string>, sp: nat, i: nat, dst: seq<string>, dp: nat) {
    && TreeInv(t, rank) && src != [] && dst != []
    && Reach(t, ROOT, src[..|src| - 1]) == Some(sp) && sp in t.dirs
    && i < |t.dirs[sp]| && t.dirs[sp][i].name == src[|src| - 1]
    && Reach(t, ROOT, dst[..|dst| - 1]) == Some(dp) && dp in t.dirs
    && IsName(dst[|dst| - 1])
  }

  /** The destination is absent (or the source itself) and its directory is outside the moved subtree. */
  ghost predicate FreeOutside(t: Tree, src: seq<string>, dst: seq<string>) {
    (Reach(t, ROOT, dst) == None || dst == src) && !(src < dst)
  }

  lemma MovedEntry(t: Tree, rank: map<nat, nat>, src: seq<string>, sp: nat, i: nat, dst: seq<string>, dp: nat)
    requires Movable(t, rank, src, sp, i, dst, dp)
    ensures var e := t.dirs[sp][i];
            && UniqueNames(t.dirs[sp]) && EntryOk(t, sp, e)
            && Next(t, sp, e.name) == Some(e.inodeId) == Reach(t, ROOT, src)
            && (e.fileType.Directory? <==> e.inodeId in t.dirs)
            && dst == dst[..|dst| - 1] + [dst[|dst| - 1]] && src == src[..|src| - 1] + [src[|src| - 1]]
  {
    EntryLeads(t, rank, sp, i);
    SplitLast(src);
    SplitLast(dst);
  }

  lemma EntryLeads(t: Tree, rank: map<nat, nat>, d: nat, i: nat)
    requires TreeInv(t, rank) && d in t.dirs && i < |t.dirs[d]|
    ensures var e := t.dirs[d][i];
            && UniqueNames(t.dirs[d]) && EntryOk(t, d, e) && Next(t, d, e.name) == Some(e.inodeId)
            && (e.fileType.Directory? <==> e.inodeId in t.dirs)
  {
    assert EntriesOk(t, d) && EntryOk(t, d, t.dirs[d][i]);
    IndexIsUnique(t.dirs[d], i);
  }

  lemma SplitLast(path: seq<string>)
    requires path != []
    ensures path == path[..|path| - 1] + [path[|path| - 1]]
  {
  }

  lemma EntryAfterPush(entries: seq<DirEntry>, e: DirEntry, name: string)
    ensures EntryOf(entries + [e], name) ==
            if EntryOf(entries, name).Some? then EntryOf(entries, name) else if e.name == name then Some(e) else None
  {
    IndexAfterPush(entries, e, name);
  }

  /** Exactly the source and the destination entry change. */
  lemma MoveNext(t: Tree, rank: map<nat, nat>, src: seq<string>, sp: nat, i: nat, dst: seq<string>, dp: nat, now: nat,
                 d: nat, name: string)
    requires Movable(t, rank, src, sp, i, dst, dp)
    requires Reach(t, ROOT, dst) == None || dst == src
    ensures var dn := dst[|dst| - 1];
            Next(MovedTree(t, sp, i, dp, dn, now), d, name) ==
            if d == dp && name == dn then Some(t.dirs[sp][i].inodeId)
            else if d == sp && name == src[|src| - 1] then None
            else Next(t, d, name)
  {
    MovedEntry(t, rank, src, sp, i, dst, dp);
    var dn := dst[|dst| - 1];
    var dirs := t.dirs[sp := RemoveAt(t.dirs[sp], i)];
    if d == sp {
      EntryAfterRemove(t.dirs[sp], i, name);
    }
    if d == dp {
      EntryAfterPush(dirs[dp], t.dirs[sp][i].(name := dn), name);
    }
    assert d in t.dirs ==> Next(t, d, name) == match EntryOf(t.dirs[d], name) case None => None case Some(e) => Some(e.inodeId);
  }

  lemma MoveEntries(t: Tree, rank: map<nat, nat>, src: seq<string>, sp: nat, i: nat, dst: seq<string>, dp: nat, now: nat,
                    d: nat)
    requires Movable(t, rank, src, sp, i, dst, dp) && d in t.dirs
    requires Reach(t, ROOT, dst) == None || dst == src
    ensures EntriesOk(MovedTree(t, sp, i, dp, dst[|dst| - 1], now), d)
  {
    MovedEntry(t, rank, src, sp, i, dst, dp);
    KeptUnique(t, rank, src, sp, i, dst, dp, d);
    forall j | 0 <= j < |Kept(t, sp, i, d)|
      ensures EntryOk(MovedTree(t, sp, i, dp, dst[|dst| - 1], now), d, Kept(t, sp, i, d)[j])
    {
      KeptEntry(t, rank, src, sp, i, dst, dp, now, d, j);
    }
    if d == dp {
      PushedEntry(t, rank, src, sp, i, dst, dp, now);
    }
  }

  /** The entries of `d` but for the moved one. */
  function Kept(t: Tree, sp: nat, i: nat, d: nat): seq<DirEntry>
    requires sp in t.dirs && i < |t.dirs[sp]| && d in t.dirs
  {
    if d == sp then RemoveAt(t.dirs[d], i) else t.dirs[d]
  }

  lemma KeptUnique(t: Tree, rank: map<nat, nat>, src: seq<string>, sp: nat, i: nat, dst: seq<string>, dp: nat, d: nat)
    requires Movable(t, rank, src, sp, i, dst, dp) && d in t.dirs
    ensures UniqueNames(Kept(t, sp, i, d))
  {
    assert EntriesOk(t, d);
    if d == sp {
      EntryAfterRemove(t.dirs[d], i, "");
    }
  }

  /** No other entry leads to the moved inode. */
  lemma KeptIsNotMoved(t: Tree, rank: map<nat, nat>, src: seq<string>, sp: nat, i: nat, dst: seq<string>, dp: nat, d: nat, k: nat)
    requires Movable(t, rank, src, sp, i, dst, dp) && d in t.dirs && k < |t.dirs[d]| && !(d == sp && k == i)
    ensures EntryOk(t, d, t.dirs[d][k]) && t.dirs[d][k].inodeId != t.dirs[sp][i].inodeId
  {
    assert EntriesOk(t, d) && EntryOk(t, d, t.dirs[d][k]);
    assert EntriesOk(t, sp) && EntryOk(t, sp, t.dirs[sp][i]);
  }

  /** An entry that stays keeps agreeing with its inode. */
  lemma KeptEntry(t: Tree, rank: map<nat, nat>, src: seq<string>, sp: nat, i: nat, dst: seq<string>, dp: nat, now: nat,
                  d: nat, j: nat)
    requires Movable(t, rank, src, sp, i, dst, dp) && d in t.dirs && j < |Kept(t, sp, i, d)|
    ensures EntryOk(MovedTree(t, sp, i, dp, dst[|dst| - 1], now), d, Kept(t, sp, i, d)[j])
  {
    var k := if d == sp && j >= i then j + 1 else j;
    assert Kept(t, sp, i, d)[j] == t.dirs[d][k];
    KeptIsNotMoved(t, rank, src, sp, i, dst, dp, d, k);
  }

  /** The entry at the destination agrees with the moved inode, and its name is new there. */
  lemma PushedEntry(t: Tree, rank: map<nat, nat>, src: seq<string>, sp: nat, i: nat, dst: seq<string>, dp: nat, now: nat)
    requires Movable(t, rank, src, sp, i, dst, dp)
    requires Reach(t, ROOT, dst) == None || dst == src
    ensures var dn := dst[|dst| - 1];
            var pushed := t.dirs[sp][i].(name := dn);
            var t' := MovedTree(t, sp, i, dp, dn, now);
            && t'.dirs[dp] == Kept(t, sp, i, dp) + [pushed]
            && EntryOk(t', dp, pushed) && UniqueNames(t'.dirs[dp])
  {
    MovedEntry(t, rank, src, sp, i, dst, dp);
    KeptUnique(t, rank, src, sp, i, dst, dp, dp);
    DestinationIsFree(t, rank, src, sp, i, dst, dp);
    PushKeepsUnique(Kept(t, sp, i, dp), t.dirs[sp][i].(name := dst[|dst| - 1]));
  }

  lemma PushKeepsUnique(kept: seq<DirEntry>, e: DirEntry)
    requires UniqueNames(kept) && EntryOf(kept, e.name) == None
    ensures UniqueNames(kept + [e])
  {
    forall j | 0 <= j < |kept|
      ensures kept[j].name != e.name
    {
      assert !Matches(kept[j], e.name, None);
    }
  }

  lemma DestinationIsFree(t: Tree, rank: map<nat, nat>, src: seq<string>, sp: nat, i: nat, dst: seq<string>, dp: nat)
    requires Movable(t, rank, src, sp, i, dst, dp)
    requires Reach(t, ROOT, dst) == None || dst == src
    ensures EntryOf(Kept(t, sp, i, dp), dst[|dst| - 1]) == None
  {
    MovedEntry(t, rank, src, sp, i, dst, dp);
    EntryAfterRemove(t.dirs[sp], i, dst[|dst| - 1]);
    assert dst != src ==> Next(t, dp, dst[|dst| - 1]) == None;
  }

  /** Where an inode's path goes. */
  ghost function NewPath(t: Tree, rank: map<nat, nat>, src: seq<string>, dst: seq<string>, id: nat): seq<string>
    requires TreeInv(t, rank) && id in t.inodes
  {
    var p := PathTo(t, rank, id);
    if src <= p then dst + p[|src|..] else p
  }

  ghost function NewRank(t: Tree, rank: map<nat, nat>, src: seq<string>, dst: seq<string>): (r: map<nat, nat>)
    requires TreeInv(t, rank)
    ensures forall id | id in t.inodes :: id in r && r[id] == |NewPath(t, rank, src, dst, id)|
  {
    map id | id in t.inodes :: |NewPath(t, rank, src, dst, id)|
  }

  /** The moved inode hangs from the destination. */
  lemma MovedHangs(t: Tree, rank: map<nat, nat>, src: seq<string>, sp: nat, i: nat, dst: seq<string>, dp: nat, now: nat)
    requires Movable(t, rank, src, sp, i, dst, dp) && FreeOutside(t, src, dst)
    ensures t.dirs[sp][i].inodeId in t.inodes
    ensures Hangs(MovedTree(t, sp, i, dp, dst[|dst| - 1], now), NewRank(t, rank, src, dst), t.dirs[sp][i].inodeId)
  {
    var m := t.dirs[sp][i].inodeId;
    MovedEntry(t, rank, src, sp, i, dst, dp);
    PathReaches(t, rank, m);
    ReachInjective(t, rank, PathTo(t, rank, m), src, m);
    PathReaches(t, rank, dp);
    ReachInjective(t, rank, PathTo(t, rank, dp), dst[..|dst| - 1], dp);
    MoveNext(t, rank, src, sp, i, dst, dp, now, dp, dst[|dst| - 1]);
    assert !(src <= dst[..|dst| - 1]);
  }

  lemma MoveHangs(t: Tree, rank: map<nat, nat>, src: seq<string>, sp: nat, i: nat, dst: seq<string>, dp: nat, now: nat,
                  id: nat)
    requires Movable(t, rank, src, sp, i, dst, dp) && FreeOutside(t, src, dst)
    requires id in t.inodes && id != ROOT
    ensures Hangs(MovedTree(t, sp, i, dp, dst[|dst| - 1], now), NewRank(t, rank, src, dst), id)
  {
    if id == t.dirs[sp][i].inodeId {
      MovedHangs(t, rank, src, sp, i, dst, dp, now);
    } else {
      MovedEntry(t, rank, src, sp, i, dst, dp);
      assert Hangs(t, rank, id);
      PathReaches(t, rank, id);
      PathReaches(t, rank, t.inodes[id].parentId);
      MoveNext(t, rank, src, sp, i, dst, dp, now, t.inodes[id].parentId, t.inodes[id].name);
      NewPathOfChild(t, rank, src, dst, id);
    }
  }

  /** Parent and child move together unless the child is the moved inode itself. */
  lemma NewPathOfChild(t: Tree, rank: map<nat, nat>, src: seq<string>, dst: seq<string>, id: nat)
    requires TreeInv(t, rank) && id in t.inodes && id != ROOT && t.inodes[id].parentId in t.inodes
    requires src != [] && Reach(t, ROOT, src) != Some(id)
    ensures |NewPath(t, rank, src, dst, id)| == |NewPath(t, rank, src, dst, t.inodes[id].parentId)| + 1
  {
    assert Hangs(t, rank, id);
    PathReaches(t, rank, id);
    var path, up := PathTo(t, rank, id), PathTo(t, rank, t.inodes[id].parentId);
    assert path == up + [t.inodes[id].name];
    assert src <= path && !(src <= up) ==> src == path;
  }

  lemma MoveKeepsTree(t: Tree, rank: map<nat, nat>, src: seq<string>, sp: nat, i: nat, dst: seq<string>, dp: nat, now: nat)
    requires Movable(t, rank, src, sp, i, dst, dp) && FreeOutside(t, src, dst)
    ensures TreeInv(MovedTree(t, sp, i, dp, dst[|dst| - 1], now), NewRank(t, rank, src, dst))
  {
    var t' := MovedTree(t, sp, i, dp, dst[|dst| - 1], now);
    MovedEntry(t, rank, src, sp, i, dst, dp);
    forall d | d in t'.dirs
      ensures EntriesOk(t', d)
    {
      MoveEntries(t, rank, src, sp, i, dst, dp, now, d);
    }
    forall id | id in t'.inodes && id != ROOT
      ensures Hangs(t', NewRank(t, rank, src, dst), id)
    {
      MoveHangs(t, rank, src, sp, i, dst, dp, now, id);
    }
    MoveKeepsRoot(t, rank, src, sp, i, dst, dp, now);
  }

  lemma MoveKeepsRoot(t: Tree, rank: map<nat, nat>, src: seq<string>, sp: nat, i: nat, dst: seq<string>, dp: nat, now: nat)
    requires Movable(t, rank, src, sp, i, dst, dp)
    ensures var t' := MovedTree(t, sp, i, dp, dst[|dst| - 1], now);
            RootOk(t', NewRank(t, rank, src, dst)) && DomainsOk(t')
  {
    MovedEntry(t, rank, src, sp, i, dst, dp);
    assert PathTo(t, rank, ROOT) == [];
  }

  // ---- where every path leads afterwards ----

  /** Paths outside source and destination lead where they did. */
  lemma MoveElsewhere(t: Tree, rank: map<nat, nat>, src: seq<string>, sp: nat, i: nat, dst: seq<string>, dp: nat, now: nat,
                      cs: seq<string>)
    requires Movable(t, rank, src, sp, i, dst, dp)
    requires Reach(t, ROOT, dst) == None || dst == src
    requires !(src <= cs) && !(dst <= cs)
    ensures Reach(MovedTree(t, sp, i, dp, dst[|dst| - 1], now), ROOT, cs) == Reach(t, ROOT, cs)
  {
    MovedEntry(t, rank, src, sp, i, dst, dp);
    var t' := MovedTree(t, sp, i, dp, dst[|dst| - 1], now);
    AvoidsUnlessPrefix(t, rank, cs, src[..|src| - 1], sp, src[|src| - 1]);
    AvoidsUnlessPrefix(t, rank, cs, dst[..|dst| - 1], dp, dst[|dst| - 1]);
    forall d, name | !(d == sp && name == src[|src| - 1]) && !(d == dp && name == dst[|dst| - 1])
      ensures Next(t', d, name) == Next(t, d, name)
    {
      MoveNext(t, rank, src, sp, i, dst, dp, now, d, name);
    }
    SameReach(t, t', cs, sp, src[|src| - 1], dp, dst[|dst| - 1]);
  }

  /** Neither the source's directory nor the destination's lies below the source. */
  lemma BelowSourceIsElsewhere(t: Tree, rank: map<nat, nat>, src: seq<string>, sp: nat, i: nat, dst: seq<string>, dp: nat,
                               rest: seq<string>, x: nat)
    requires Movable(t, rank, src, sp, i, dst, dp) && !(src < dst)
    requires Reach(t, ROOT, src + rest) == Some(x)
    ensures x != sp && x != dp
  {
    assert src <= src + rest;
    if x == sp {
      ReachInjective(t, rank, src + rest, src[..|src| - 1], sp);
    }
    if x == dp {
      ReachInjective(t, rank, src + rest, dst[..|dst| - 1], dp);
    }
  }

  lemma ReachSnoc(t: Tree, base: seq<string>, rest: seq<string>)
    requires rest != []
    ensures Reach(t, ROOT, base + rest) ==
            match Reach(t, ROOT, base + rest[..|rest| - 1]) case None => None case Some(x) => Next(t, x, rest[|rest| - 1])
  {
    assert (base + rest)[..|base + rest| - 1] == base + rest[..|rest| - 1];
  }

  /** Below the destination everything is found that was below the source. */
  lemma {:induction false} MoveSubtree(t: Tree, rank: map<nat, nat>, src: seq<string>, sp: nat, i: nat, dst: seq<string>, dp: nat, now: nat,
                                       rest: seq<string>)
    requires Movable(t, rank, src, sp, i, dst, dp) && FreeOutside(t, src, dst)
    ensures Reach(MovedTree(t, sp, i, dp, dst[|dst| - 1], now), ROOT, dst + rest) == Reach(t, ROOT, src + rest)
    decreases |rest|
  {
    MovedEntry(t, rank, src, sp, i, dst, dp);
    var t' := MovedTree(t, sp, i, dp, dst[|dst| - 1], now);
    if rest == [] {
      assert dst + rest == dst && src + rest == src;
      MoveElsewhere(t, rank, src, sp, i, dst, dp, now, dst[..|dst| - 1]);
      MoveNext(t, rank, src, sp, i, dst, dp, now, dp, dst[|dst| - 1]);
    } else {
      var front, name := rest[..|rest| - 1], rest[|rest| - 1];
      MoveSubtree(t, rank, src, sp, i, dst, dp, now, front);
      ReachSnoc(t', dst, rest);
      ReachSnoc(t, src, rest);
      match Reach(t, ROOT, src + front) {
        case None =>
        case Some(x) =>
          BelowSourceIsElsewhere(t, rank, src, sp, i, dst, dp, front, x);
          MoveNext(t, rank, src, sp, i, dst, dp, now, x, name);
      }
    }
  }

  /** The source path leads nowhere any more. */
  lemma MoveSource(t: Tree, rank: map<nat, nat>, src: seq<string>, sp: nat, i: nat, dst: seq<string>, dp: nat, now: nat,
                   rest: seq<string>)
    requires Movable(t, rank, src, sp, i, dst, dp) && FreeOutside(t, src, dst) && !(dst <= src + rest)
    ensures Reach(MovedTree(t, sp, i, dp, dst[|dst| - 1], now), ROOT, src + rest) == None
  {
    MovedEntry(t, rank, src, sp, i, dst, dp);
    var t' := MovedTree(t, sp, i, dp, dst[|dst| - 1], now);
    var front := src[..|src| - 1];
    assert front <= src + rest;
    MoveElsewhere(t, rank, src, sp, i, dst, dp, now, front);
    assert src <= src + rest;
    if sp == dp {
      ReachInjective(t, rank, front, dst[..|dst| - 1], sp);
    }
    MoveNext(t, rank, src, sp, i, dst, dp, now, sp, src[|src| - 1]);
    ReachAppend(t', ROOT, src, rest);
  }

  /** Where `cs` should lead once the subtree of `src` is at `dst`. */
  function Carried(t: Tree, src: seq<string>, dst: seq<string>, cs: seq<string>): Option<nat> {
    if dst <= cs then Reach(t, ROOT, src + cs[|dst|..])
    else if src <= cs then None
    else Reach(t, ROOT, cs)
  }

  /** A move carries the whole subtree over and leaves every other path alone. */
  lemma MoveReach(t: Tree, rank: map<nat, nat>, src: seq<string>, sp: nat, i: nat, dst: seq<string>, dp: nat, now: nat,
                  cs: seq<string>)
    requires Movable(t, rank, src, sp, i, dst, dp) && FreeOutside(t, src, dst)
    ensures Reach(MovedTree(t, sp, i, dp, dst[|dst| - 1], now), ROOT, cs) == Carried(t, src, dst, cs)
  {
    if dst <= cs {
      PrefixSplit(cs, dst);
      MoveSubtree(t, rank, src, sp, i, dst, dp, now, cs[|dst|..]);
    } else if src <= cs {
      PrefixSplit(cs, src);
      MoveSource(t, rank, src, sp, i, dst, dp, now, cs[|src|..]);
    } else {
      MoveElsewhere(t, rank, src, sp, i, dst, dp, now, cs);
    }
  }

  // ---- Rename ----

  /** Both paths resolve and the source exists, so Rename gets as far as removing the source entry. */
  ghost predicate Starts(t: Tree, srcPath: string, dstPath: string) {
    var src, dst := Components(srcPath), Components(dstPath);
    && Wellformed(srcPath) && Wellformed(dstPath)
    && src != [] && Reach(t, ROOT, src).Some?
    && (dst == [] || (Reach(t, ROOT, dst[..|dst| - 1]).Some? && Reach(t, ROOT, dst[..|dst| - 1]).value in t.dirs))
  }

  /** What a caller should rule out beforehand: a destination that is the root, that exists, or that lies below the source. */
  ghost predicate Destroys(t: Tree, srcPath: string, dstPath: string) {
    var src, dst := Components(srcPath), Components(dstPath);
    Starts(t, srcPath, dstPath) && (dst == [] || src < dst || (dst != src && Reach(t, ROOT, dst).Some?))
  }

  /** A rename that does not start leaves the tree alone. */
  lemma RenameNotStarted(t: Tree, rank: map<nat, nat>, srcPath: string, dstPath: string, now: nat)
    requires TreeInv(t, rank) && !Starts(t, srcPath, dstPath)
    ensures var r := Rename(t, srcPath, dstPath, now); r.tree == t && r.status != Ok
  {
    ResolveIsReach(t, rank, srcPath);
    ResolveIsReach(t, rank, dstPath);
    NoEmptyName(t, rank, ROOT);
  }

  /** The status of a rename, in the order of its tests: the source path, the destination path, the source, and what the
    * destination leads to once the source entry is gone. */
  lemma RenameStatus(t: Tree, rank: map<nat, nat>, srcPath: string, dstPath: string, now: nat)
    requires TreeInv(t, rank)
    ensures var src, dst := Components(srcPath), Components(dstPath);
            Rename(t, srcPath, dstPath, now).status ==
            if PathStatus(t, srcPath) != Ok then PathStatus(t, srcPath)
            else if PathStatus(t, dstPath) != Ok then PathStatus(t, dstPath)
            else if srcPath == "/" || Reach(t, ROOT, src) == None then NotFound
            else if dstPath != "/" && dst != src && Reach(t, ROOT, dst).Some? then AlreadyExists
            else Ok
  {
    StartsExactly(t, srcPath, dstPath);
    if Starts(t, srcPath, dstPath) {
      StartedStatus(t, rank, srcPath, dstPath, now);
    } else {
      NotStartedStatus(t, rank, srcPath, dstPath, now);
    }
  }

  lemma StartsExactly(t: Tree, srcPath: string, dstPath: string)
    ensures Wellformed(srcPath) ==> (srcPath == "/" <==> Components(srcPath) == [])
    ensures Wellformed(dstPath) ==> (dstPath == "/" <==> Components(dstPath) == [])
    ensures Starts(t, srcPath, dstPath) <==>
            && PathStatus(t, srcPath) == Ok && PathStatus(t, dstPath) == Ok
            && srcPath != "/" && Reach(t, ROOT, Components(srcPath)).Some?
  {
    RootHasNoComponents();
    PathHasParent(t, srcPath);
  }

  lemma StartedStatus(t: Tree, rank: map<nat, nat>, srcPath: string, dstPath: string, now: nat)
    requires TreeInv(t, rank) && Starts(t, srcPath, dstPath)
    ensures var src, dst := Components(srcPath), Components(dstPath);
            Rename(t, srcPath, dstPath, now).status ==
            if dst != [] && dst != src && Reach(t, ROOT, dst).Some? then AlreadyExists else Ok
  {
    var src, dst := Components(srcPath), Components(dstPath);
    if dst != [] && dst != src && Reach(t, ROOT, dst).Some? {
      RenameLosesSource(t, rank, srcPath, dstPath, now);
    } else if dst == [] {
      OntoRootStatus(t, rank, srcPath, dstPath, now);
    } else {
      OntoFreeStatus(t, rank, srcPath, dstPath, now);
    }
  }

  lemma OntoRootStatus(t: Tree, rank: map<nat, nat>, srcPath: string, dstPath: string, now: nat)
    requires TreeInv(t, rank) && Starts(t, srcPath, dstPath) && Components(dstPath) == []
    ensures Rename(t, srcPath, dstPath, now).status == Ok
  {
    var sp, i, dp := RenameStarted(t, rank, srcPath, dstPath, now);
    RootAfterRemove(t, rank, sp, i);
  }

  lemma OntoFreeStatus(t: Tree, rank: map<nat, nat>, srcPath: string, dstPath: string, now: nat)
    requires TreeInv(t, rank) && Starts(t, srcPath, dstPath) && Components(dstPath) != []
    requires Reach(t, ROOT, Components(dstPath)) == None || Components(dstPath) == Components(srcPath)
    ensures Rename(t, srcPath, dstPath, now).status == Ok
  {
    var sp, i, dp := RenameStarted(t, rank, srcPath, dstPath, now);
    DestinationIsFree(t, rank, Components(srcPath), sp, i, Components(dstPath), dp);
  }

  lemma NotStartedStatus(t: Tree, rank: map<nat, nat>, srcPath: string, dstPath: string, now: nat)
    requires TreeInv(t, rank) && !Starts(t, srcPath, dstPath)
    ensures Rename(t, srcPath, dstPath, now).status ==
            if PathStatus(t, srcPath) != Ok then PathStatus(t, srcPath)
            else if PathStatus(t, dstPath) != Ok then PathStatus(t, dstPath)
            else NotFound
  {
    StartsExactly(t, srcPath, dstPath);
    ResolveIsReach(t, rank, srcPath);
    ResolveIsReach(t, rank, dstPath);
    NoEmptyName(t, rank, ROOT);
  }

  /** The root has no entry with an empty name, whichever entry goes. */
  lemma RootAfterRemove(t: Tree, rank: map<nat, nat>, sp: nat, i: nat)
    requires TreeInv(t, rank) && sp in t.dirs && i < |t.dirs[sp]|
    ensures IndexOf(t.dirs[sp := RemoveAt(t.dirs[sp], i)][ROOT], "", None) == None
  {
    NoEmptyName(t, rank, ROOT);
    assert EntriesOk(t, sp);
    EntryAfterRemove(t.dirs[sp], i, "");
  }

  /** The entry and the directories Rename works on. */
  lemma RenameStarted(t: Tree, rank: map<nat, nat>, srcPath: string, dstPath: string, now: nat)
    returns (sp: nat, i: nat, dp: nat)
    requires TreeInv(t, rank) && Starts(t, srcPath, dstPath)
    ensures var src, dst := Components(srcPath), Components(dstPath);
            var dn := if dst == [] then "" else dst[|dst| - 1];
            && Reach(t, ROOT, src[..|src| - 1]) == Some(sp) && sp in t.dirs
            && IndexOf(t.dirs[sp], src[|src| - 1], None) == Some(i) && t.dirs[sp][i].name == src[|src| - 1]
            && dp in t.dirs && (dst == [] ==> dp == ROOT)
            && (dst != [] ==> Movable(t, rank, src, sp, i, dst, dp))
            && var removed := t.(dirs := t.dirs[sp := RemoveAt(t.dirs[sp], i)]);
            && Rename(t, srcPath, dstPath, now) ==
               if IndexOf(removed.dirs[dp], dn, None).Some? then Outcome(removed, AlreadyExists)
               else Outcome(MovedTree(t, sp, i, dp, dn, now), Ok)
  {
    ResolveIsReach(t, rank, srcPath);
    ResolveIsReach(t, rank, dstPath);
    TokensAreNames(dstPath, "");
    var src, dst := Components(srcPath), Components(dstPath);
    sp := Reach(t, ROOT, src[..|src| - 1]).value;
    i := IndexOf(t.dirs[sp], src[|src| - 1], None).value;
    dp := if dst == [] then ROOT else Reach(t, ROOT, dst[..|dst| - 1]).value;
  }

  /** A harmless rename ends with the moved tree. */
  lemma RenameMoves(t: Tree, rank: map<nat, nat>, srcPath: string, dstPath: string, now: nat)
    returns (sp: nat, i: nat, dp: nat)
    requires TreeInv(t, rank) && Starts(t, srcPath, dstPath) && !Destroys(t, srcPath, dstPath)
    ensures var src, dst := Components(srcPath), Components(dstPath);
            && Movable(t, rank, src, sp, i, dst, dp) && FreeOutside(t, src, dst)
            && Rename(t, srcPath, dstPath, now) == Outcome(MovedTree(t, sp, i, dp, dst[|dst| - 1], now), Ok)
  {
    sp, i, dp := RenameStarted(t, rank, srcPath, dstPath, now);
    DestinationIsFree(t, rank, Components(srcPath), sp, i, Components(dstPath), dp);
  }

  lemma RenameKeepsTree(t: Tree, rank: map<nat, nat>, srcPath: string, dstPath: string, now: nat)
    requires TreeInv(t, rank) && Starts(t, srcPath, dstPath) && !Destroys(t, srcPath, dstPath)
    ensures Rename(t, srcPath, dstPath, now).status == Ok
    ensures TreeInv(Rename(t, srcPath, dstPath, now).tree, NewRank(t, rank, Components(srcPath), Components(dstPath)))
  {
    var src, dst := Components(srcPath), Components(dstPath);
    var sp, i, dp := RenameMoves(t, rank, srcPath, dstPath, now);
    assert Rename(t, srcPath, dstPath, now).tree == MovedTree(t, sp, i, dp, dst[|dst| - 1], now);
    MoveKeepsTree(t, rank, src, sp, i, dst, dp, now);
  }

  lemma RenameMovesPath(t: Tree, rank: map<nat, nat>, srcPath: string, dstPath: string, now: nat, cs: seq<string>)
    requires TreeInv(t, rank) && Starts(t, srcPath, dstPath) && !Destroys(t, srcPath, dstPath)
    ensures Reach(Rename(t, srcPath, dstPath, now).tree, ROOT, cs) == Carried(t, Components(srcPath), Components(dstPath), cs)
  {
    var src, dst := Components(srcPath), Components(dstPath);
    var sp, i, dp := RenameMoves(t, rank, srcPath, dstPath, now);
    assert Rename(t, srcPath, dstPath, now).tree == MovedTree(t, sp, i, dp, dst[|dst| - 1], now);
    MoveReach(t, rank, src, sp, i, dst, dp, now, cs);
  }

  /** A harmless rename keeps the tree and moves the subtree: every path under the source now resolves under the
    * destination to the same inode, and all other paths resolve as before. */
  lemma RenameMovesSubtree(t: Tree, rank: map<nat, nat>, srcPath: string, dstPath: string, now: nat, cs: seq<string>)
    requires TreeInv(t, rank) && Starts(t, srcPath, dstPath) && !Destroys(t, srcPath, dstPath)
    ensures var src, dst := Components(srcPath), Components(dstPath);
            var r := Rename(t, srcPath, dstPath, now);
            && r.status == Ok && TreeInv(r.tree, NewRank(t, rank, src, dst))
            && Reach(r.tree, ROOT, cs) == Carried(t, src, dst, cs)
  {
    RenameKeepsTree(t, rank, srcPath, dstPath, now);
    RenameMovesPath(t, rank, srcPath, dstPath, now, cs);
  }

  /** Onto an existing destination the source entry is removed and the moved inode is left without one. */
  lemma RenameLosesSource(t: Tree, rank: map<nat, nat>, srcPath: string, dstPath: string, now: nat)
    requires TreeInv(t, rank) && Starts(t, srcPath, dstPath)
    requires Components(dstPath) != [] && Components(dstPath) != Components(srcPath)
    requires Reach(t, ROOT, Components(dstPath)).Some?
    ensures Rename(t, srcPath, dstPath, now).status == AlreadyExists
    ensures !IsTree(Rename(t, srcPath, dstPath, now).tree)
  {
    var src, dst := Components(srcPath), Components(dstPath);
    var sp, i, dp := RenameStarted(t, rank, srcPath, dstPath, now);
    MovedEntry(t, rank, src, sp, i, dst, dp);
    var dn := dst[|dst| - 1];
    EntryAfterRemove(t.dirs[sp], i, dn);
    EntryAfterRemove(t.dirs[sp], i, src[|src| - 1]);
    if sp == dp {
      ReachInjective(t, rank, src[..|src| - 1], dst[..|dst| - 1], sp);
    }
    var t' := t.(dirs := t.dirs[sp := RemoveAt(t.dirs[sp], i)]);
    forall rank'
      ensures !TreeInv(t', rank')
    {
      assert !Hangs(t', rank', t.dirs[sp][i].inodeId);
    }
  }

  /** What exactly is lost then: every path at or below the source. No inode is touched. */
  lemma RenameLosesSubtree(t: Tree, rank: map<nat, nat>, srcPath: string, dstPath: string, now: nat, cs: seq<string>)
    requires TreeInv(t, rank) && Starts(t, srcPath, dstPath)
    requires Components(dstPath) != [] && Components(dstPath) != Components(srcPath)
    requires Reach(t, ROOT, Components(dstPath)).Some?
    ensures var r := Rename(t, srcPath, dstPath, now);
            && r.tree.inodes == t.inodes && r.tree.nextId == t.nextId
            && Reach(r.tree, ROOT, cs) == if Components(srcPath) <= cs then None else Reach(t, ROOT, cs)
  {
    var src, dst := Components(srcPath), Components(dstPath);
    RenameLosesSource(t, rank, srcPath, dstPath, now);
    var sp, i, dp := RenameStarted(t, rank, srcPath, dstPath, now);
    EntryLost(t, rank, src, sp, i, cs);
  }

  lemma EntryLost(t: Tree, rank: map<nat, nat>, src: seq<string>, sp: nat, i: nat, cs: seq<string>)
    requires TreeInv(t, rank) && src != [] && Reach(t, ROOT, src[..|src| - 1]) == Some(sp) && sp in t.dirs
    requires i < |t.dirs[sp]| && t.dirs[sp][i].name == src[|src| - 1]
    ensures Reach(t.(dirs := t.dirs[sp := RemoveAt(t.dirs[sp], i)]), ROOT, cs) == if src <= cs then None else Reach(t, ROOT, cs)
  {
    var t' := t.(dirs := t.dirs[sp := RemoveAt(t.dirs[sp], i)]);
    var front, name := src[..|src| - 1], src[|src| - 1];
    SplitLast(src);
    EntryLeads(t, rank, sp, i);
    forall d, other
      ensures Next(t', d, other) == if d == sp && other == name then None else Next(t, d, other)
    {
      if d == sp {
        EntryAfterRemove(t.dirs[sp], i, other);
      }
    }
    if src <= cs {
      AvoidsUnlessPrefix(t, rank, front, front, sp, name);
      SameReach(t, t', front, sp, name, sp, name);
      PrefixSplit(cs, src);
      ReachAppend(t', ROOT, src, cs[|src|..]);
    } else {
      AvoidsUnlessPrefix(t, rank, cs, front, sp, name);
      SameReach(t, t', cs, sp, name, sp, name);
    }
  }

  /** A harmless rename changes name, parent and change time of the moved inode, and nothing else in the inode table. */
  lemma RenameChangesOneInode(t: Tree, rank: map<nat, nat>, srcPath: string, dstPath: string, now: nat)
    requires TreeInv(t, rank) && Starts(t, srcPath, dstPath) && !Destroys(t, srcPath, dstPath)
    ensures var src, dst := Components(srcPath), Components(dstPath);
            var t' := Rename(t, srcPath, dstPath, now).tree; var id := Reach(t, ROOT, src).value;
            && id in t.inodes && Reach(t, ROOT, dst[..|dst| - 1]).Some? && t'.nextId == t.nextId
            && t'.inodes == t.inodes[id := t.inodes[id].(name := dst[|dst| - 1], parentId := Reach(t, ROOT, dst[..|dst| - 1]).value, ctime := now)]
  {
    var src, dst := Components(srcPath), Components(dstPath);
    var sp, i, dp := RenameMoves(t, rank, srcPath, dstPath, now);
    MovedEntry(t, rank, src, sp, i, dst, dp);
  }

  /** Onto the root an entry with an empty name appears. */
  lemma RenameOntoRoot(t: Tree, rank: map<nat, nat>, srcPath: string, dstPath: string, now: nat)
    requires TreeInv(t, rank) && Starts(t, srcPath, dstPath) && Components(dstPath) == []
    ensures !IsTree(Rename(t, srcPath, dstPath, now).tree)
  {
    var sp, i, dp := RenameStarted(t, rank, srcPath, dstPath, now);
    NoEmptyName(t, rank, ROOT);
    assert EntriesOk(t, sp);
    EntryAfterRemove(t.dirs[sp], i, "");
    var t' := MovedTree(t, sp, i, dp, "", now);
    var last := |t'.dirs[ROOT]| - 1;
    assert t'.dirs[ROOT][last].name == "";
    assert !EntryOk(t', ROOT, t'.dirs[ROOT][last]);
    assert !EntriesOk(t', ROOT);
  }

  lemma BelowIsNotSource(t: Tree, rank: map<nat, nat>, src: seq<string>, rest: seq<string>, m: nat, x: nat)
    requires TreeInv(t, rank) && rest != []
    requires Reach(t, ROOT, src) == Some(m) && Reach(t, ROOT, src + rest) == Some(x)
    ensures x != m && x != ROOT && x in t.inodes
  {
    ReachDepth(t, rank, src + rest);
    ReachDepth(t, rank, src);
  }

  /** Every inode but the moved one hangs where it did. */
  lemma HangsAsBefore(t: Tree, rank: map<nat, nat>, src: seq<string>, sp: nat, i: nat, dst: seq<string>, dp: nat, now: nat,
                      rank': map<nat, nat>, x: nat)
    requires Movable(t, rank, src, sp, i, dst, dp)
    requires TreeInv(MovedTree(t, sp, i, dp, dst[|dst| - 1], now), rank')
    requires x in t.inodes && x != ROOT && x != t.dirs[sp][i].inodeId
    ensures Deepens(t, rank', x)
  {
    assert Hangs(MovedTree(t, sp, i, dp, dst[|dst| - 1], now), rank', x);
  }

  /** An inode is one deeper than its parent. */
  ghost predicate Deepens(t: Tree, rank': map<nat, nat>, x: nat)
    requires x in t.inodes
  {
    t.inodes[x].parentId in rank' && x in rank' && rank'[x] == rank'[t.inodes[x].parentId] + 1
  }

  /** Every inode but `m` and the root is. */
  ghost predicate DeepensBut(t: Tree, rank': map<nat, nat>, m: nat) {
    && m in rank'
    && forall x {:trigger Deepens(t, rank', x)} | x in t.inodes && x != ROOT && x != m :: Deepens(t, rank', x)
  }

  /** Along a path below the source, ranks still grow by one. */
  lemma {:induction false} RanksBelowSource(t: Tree, rank: map<nat, nat>, src: seq<string>, m: nat, rank': map<nat, nat>,
                                            rest: seq<string>, x: nat)
    requires TreeInv(t, rank) && DeepensBut(t, rank', m)
    requires Reach(t, ROOT, src) == Some(m) && Reach(t, ROOT, src + rest) == Some(x)
    ensures x in rank' && rank'[x] == rank'[m] + |rest|
    decreases |rest|
  {
    if rest == [] {
      assert src + rest == src;
    } else {
      var front := rest[..|rest| - 1];
      LastStep(t, rank, src + rest, x);
      BelowIsNotSource(t, rank, src, rest, m, x);
      var p := t.inodes[x].parentId;
      assert (src + rest)[..|src + rest| - 1] == src + front;
      assert Reach(t, ROOT, src + front) == Some(p) && Deepens(t, rank', x);
      RanksBelowSource(t, rank, src, m, rank', front, p);
    }
  }

  /** Into its own subtree the source is cut off: no depth fits the cycle. */
  lemma RenameMakesCycle(t: Tree, rank: map<nat, nat>, srcPath: string, dstPath: string, now: nat)
    requires TreeInv(t, rank) && Starts(t, srcPath, dstPath)
    requires Components(srcPath) < Components(dstPath) && Reach(t, ROOT, Components(dstPath)) == None
    ensures Rename(t, srcPath, dstPath, now).status == Ok
    ensures !IsTree(Rename(t, srcPath, dstPath, now).tree)
  {
    var src, dst := Components(srcPath), Components(dstPath);
    var sp, i, dp := RenameStarted(t, rank, srcPath, dstPath, now);
    MovedEntry(t, rank, src, sp, i, dst, dp);
    DestinationIsFree(t, rank, src, sp, i, dst, dp);
    var t' := MovedTree(t, sp, i, dp, dst[|dst| - 1], now);
    var m := t.dirs[sp][i].inodeId;
    var rest := dst[|src|..|dst| - 1];
    assert dst[..|dst| - 1] == src + rest;
    forall rank'
      ensures !TreeInv(t', rank')
    {
      if TreeInv(t', rank') {
        assert Hangs(t', rank', m);
        forall x | x in t.inodes && x != ROOT && x != m
          ensures Deepens(t, rank', x)
        {
          HangsAsBefore(t, rank, src, sp, i, dst, dp, now, rank', x);
        }
        RanksBelowSource(t, rank, src, m, rank', rest, dp);
      }
    }
  }

  /** Rename keeps the tree exactly when it does not start or its destination is neither the root, nor there, nor below
    * the source. */
  lemma RenameKeepsTreeExactly(t: Tree, rank: map<nat, nat>, srcPath: string, dstPath: string, now: nat)
    requires TreeInv(t, rank)
    ensures IsTree(Rename(t, srcPath, dstPath, now).tree) <==> !Destroys(t, srcPath, dstPath)
  {
    var src, dst := Components(srcPath), Components(dstPath);
    if !Starts(t, srcPath, dstPath) {
      RenameNotStarted(t, rank, srcPath, dstPath, now);
    } else if !Destroys(t, srcPath, dstPath) {
      RenameMovesSubtree(t, rank, srcPath, dstPath, now, []);
    } else if dst == [] {
      RenameOntoRoot(t, rank, srcPath, dstPath, now);
    } else if dst != src && Reach(t, ROOT, dst).Some? {
      RenameLosesSource(t, rank, srcPath, dstPath, now);
    } else {
      RenameMakesCycle(t, rank, srcPath, dstPath, now);
    }
  }
}
