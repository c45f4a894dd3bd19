/** src/meta/namespace_manager.cpp and src/meta/inode_table.cpp: the directory tree as values.
  *
  * Two structures hold it, the inode table and the entry list of every directory, and they must agree. The classes in
  * NamespaceManager.dfy update both in place and are proved against the functions here.
  */
module Namespace {
  import opened Bytes
  import opened Types

  const ROOT: nat := 1

  datatype InodeType = Regular | Directory

  datatype Inode = Inode(id: nat, fileType: InodeType, mode: nat, uid: nat, gid: nat, size: nat, nlink: nat,
                         atime: nat, mtime: nat, ctime: nat, level: BlkLevel,
                         parentId: nat, name: string)

  datatype DirEntry = DirEntry(name: string, inodeId: nat, fileType: InodeType)

  datatype Tree = Tree(dirs: map<nat, seq<DirEntry>>, inodes: map<nat, Inode>, nextId: nat)

  // ---- paths ----

  /** The non-empty pieces of `s` between slashes, where `token` is the piece read so far. */
  function Tokens(s: string, token: string): seq<string> {
    if s == "" then if token == "" then [] else [token]
    else if s[0] == '/' then (if token == "" then [] else [token]) + Tokens(s[1..], "")
    else Tokens(s[1..], token + [s[0]])
  }

  function Components(path: string): seq<string> {
    Tokens(path, "")
  }

  predicate IsName(name: string) {
    name != "" && '/' !in name
  }

  /** A path whose components are `cs`. */
  function PathString(cs: seq<string>): string {
    if cs == [] then "" else "/" + cs[0] + PathString(cs[1..])
  }

  lemma {:induction false} TokensAreNames(s: string, token: string)
    requires '/' !in token
    ensures forall c | c in Tokens(s, token) :: IsName(c)
    decreases |s|
  {
    if s != "" {
      if s[0] == '/' {
        TokensAreNames(s[1..], "");
      } else {
        TokensAreNames(s[1..], token + [s[0]]);
      }
    }
  }

  lemma {:induction false} TokensOfName(name: string, token: string, rest: string)
    requires '/' !in name
    ensures Tokens(name + rest, token) == Tokens(rest, token + name)
    decreases |name|
  {
    if name == "" {
      assert name + rest == rest && token + name == token;
    } else {
      assert (name + rest)[1..] == name[1..] + rest;
      assert token + [name[0]] + name[1..] == token + name;
      assert name[0] in name && forall c | c in name[1..] :: c in name;
      TokensOfName(name[1..], token + [name[0]], rest);
    }
  }

  lemma {:induction false} TokensJoin(a: string, token: string, b: string)
    ensures Tokens(a + "/" + b, token) == Tokens(a, token) + Tokens(b, "")
    decreases |a|
  {
    var s := a + "/" + b;
    if a == "" {
      assert s == "/" + b && s[1..] == b;
    } else {
      assert s[1..] == a[1..] + "/" + b && s[0] == a[0];
      TokensJoin(a[1..], if a[0] == '/' then "" else token + [a[0]], b);
    }
  }

  /** A slash only separates: the names before it and the names after it, none lost and none joined. */
  lemma ComponentsJoin(a: string, b: string)
    ensures Components(a + "/" + b) == Components(a) + Components(b)
  {
    TokensJoin(a, "", b);
  }

  /** Without a slash the whole string is one name. */
  lemma ComponentsOfName(s: string)
    requires '/' !in s
    ensures Components(s) == if s == "" then [] else [s]
  {
    TokensOfName(s, "", "");
    assert s + "" == s && "" + s == s;
  }

  /** Slashes at the end make no difference. */
  lemma ComponentsOfTrailingSlash(path: string)
    ensures Components(path + "/") == Components(path)
  {
    ComponentsJoin(path, "");
    assert path + "/" + "" == path + "/";
  }

  /** Every list of names is the component list of a path. */
  lemma {:induction false} ComponentsOfPathString(cs: seq<string>)
    requires forall c | c in cs :: IsName(c)
    ensures Components(PathString(cs)) == cs
  {
    if cs != [] {
      ComponentsOfPathString(cs[1..]);
      var rest := PathString(cs[1..]);
      var path := PathString(cs);
      assert IsName(cs[0]);
      assert path == "/" + (cs[0] + rest) && path[1..] == cs[0] + rest;
      TokensOfName(cs[0], "", rest);
      assert "" + cs[0] == cs[0];
      if cs[1..] != [] {
        assert rest[0] == '/';
        assert Tokens(rest, cs[0]) == [cs[0]] + Tokens(rest[1..], "");
        assert Tokens(rest, "") == [] + Tokens(rest[1..], "");
      }
      assert cs == [cs[0]] + cs[1..];
    }
  }

  // ---- one directory ----

  /** An entry called `name`, of type `kind` when one is asked for. */
  predicate Matches(e: DirEntry, name: string, kind: Option<InodeType>) {
    e.name == name && (kind.Some? ==> e.fileType == kind.value)
  }

  /** Position of the first matching entry, if any. */
  function IndexOf(entries: seq<DirEntry>, name: string, kind: Option<InodeType>): (r: Option<nat>)
    ensures r.Some? ==> r.value < |entries| && Matches(entries[r.value], name, kind)
    ensures r.Some? ==> forall i | 0 <= i < r.value :: !Matches(entries[i], name, kind)
    ensures r.None? ==> forall i | 0 <= i < |entries| :: !Matches(entries[i], name, kind)
  {
    if entries == [] then None
    else if Matches(entries[|entries| - 1], name, kind) && IndexOf(entries[..|entries| - 1], name, kind).None? then
      Some(|entries| - 1)
    else IndexOf(entries[..|entries| - 1], name, kind)
  }

  function RemoveAt(entries: seq<DirEntry>, i: nat): seq<DirEntry>
    requires i < |entries|
  {
    entries[..i] + entries[i + 1..]
  }

  /** The inode that `name` leads to from directory `d`. */
  function Next(t: Tree, d: nat, name: string): Option<nat> {
    if d !in t.dirs then None
    else
      match IndexOf(t.dirs[d], name, None)
      case None => None
      case Some(i) => Some(t.dirs[d][i].inodeId)
  }

  /** The inode a list of names leads to from `from`. */
  function Reach(t: Tree, from: nat, cs: seq<string>): Option<nat> {
    if cs == [] then Some(from)
    else
      match Reach(t, from, cs[..|cs| - 1])
      case None => None
      case Some(d) => Next(t, d, cs[|cs| - 1])
  }

  // ---- the invariant ----

  /** The entries of one directory: names are unique, and each names an inode that agrees with it. */
  ghost predicate EntriesOk(t: Tree, d: nat)
    requires d in t.dirs
  {
    && (forall i, j | 0 <= i < j < |t.dirs[d]| :: t.dirs[d][i].name != t.dirs[d][j].name)
    && (forall i {:trigger EntryOk(t, d, t.dirs[d][i])} | 0 <= i < |t.dirs[d]| :: EntryOk(t, d, t.dirs[d][i]))
  }

  ghost predicate EntryOk(t: Tree, d: nat, e: DirEntry) {
    && IsName(e.name)
    && e.inodeId in t.inodes && e.inodeId != ROOT
    && t.inodes[e.inodeId].parentId == d
    && t.inodes[e.inodeId].name == e.name
    && t.inodes[e.inodeId].fileType == e.fileType
  }

  /** A non-root inode hangs in its parent directory, one level below it. */
  ghost predicate Hangs(t: Tree, rank: map<nat, nat>, id: nat)
    requires id in t.inodes
  {
    var p := t.inodes[id].parentId;
    && p in t.dirs
    && Next(t, p, t.inodes[id].name) == Some(id)
    && p in rank && id in rank && rank[id] == rank[p] + 1
  }

  ghost predicate RootOk(t: Tree, rank: map<nat, nat>) {
    ROOT in t.inodes && t.inodes[ROOT].fileType.Directory? && ROOT in rank && rank[ROOT] == 0
  }

  /** The directories with an entry list are the directory inodes; ids are below the next one. */
  ghost predicate DomainsOk(t: Tree) {
    && (forall d | d in t.dirs :: d in t.inodes && t.inodes[d].fileType.Directory?)
    && (forall d | d in t.inodes && t.inodes[d].fileType.Directory? :: d in t.dirs)
    && (forall id | id in t.inodes :: id < t.nextId && t.inodes[id].id == id)
  }

  ghost predicate AllEntriesOk(t: Tree) {
    forall d {:trigger EntriesOk(t, d)} | d in t.dirs :: EntriesOk(t, d)
  }

  ghost predicate AllHang(t: Tree, rank: map<nat, nat>) {
    forall id {:trigger Hangs(t, rank, id)} | id in t.inodes && id != ROOT :: Hangs(t, rank, id)
  }

  /** Entry lists and inode table agree on one tree below the root, where `rank` is the depth of each inode. */
  ghost predicate TreeInv(t: Tree, rank: map<nat, nat>) {
    RootOk(t, rank) && DomainsOk(t) && AllEntriesOk(t) && AllHang(t, rank)
  }

  ghost predicate IsTree(t: Tree) {
    exists rank :: TreeInv(t, rank)
  }

  // ---- reaching inodes ----

  lemma NextIsEntry(t: Tree, rank: map<nat, nat>, d: nat, name: string)
    requires TreeInv(t, rank) && Next(t, d, name).Some?
    ensures var id := Next(t, d, name).value;
            && d in t.dirs && id in t.inodes && id != ROOT
            && t.inodes[id].parentId == d && t.inodes[id].name == name && IsName(name)
            && d in rank && id in rank && rank[id] == rank[d] + 1
  {
    var i := IndexOf(t.dirs[d], name, None).value;
    assert EntriesOk(t, d) && EntryOk(t, d, t.dirs[d][i]);
    assert Hangs(t, rank, t.dirs[d][i].inodeId);
  }

  lemma {:induction false} ReachAppend(t: Tree, from: nat, a: seq<string>, b: seq<string>)
    ensures Reach(t, from, a + b) == match Reach(t, from, a) case None => None case Some(x) => Reach(t, x, b)
    decreases |b|
  {
    if b == [] {
      assert a + b == a;
    } else {
      var m := |b| - 1;
      assert (a + b)[..|a + b| - 1] == a + b[..m];
      assert (a + b)[|a + b| - 1] == b[m];
      ReachAppend(t, from, a, b[..m]);
    }
  }

  lemma {:induction false} ReachDepth(t: Tree, rank: map<nat, nat>, cs: seq<string>)
    requires TreeInv(t, rank) && Reach(t, ROOT, cs).Some?
    ensures var id := Reach(t, ROOT, cs).value;
            id in t.inodes && id in rank && rank[id] == |cs| && (id == ROOT <==> cs == [])
  {
    if cs != [] {
      var front := cs[..|cs| - 1];
      ReachDepth(t, rank, front);
      NextIsEntry(t, rank, Reach(t, ROOT, front).value, cs[|cs| - 1]);
    }
  }

  lemma LastStep(t: Tree, rank: map<nat, nat>, cs: seq<string>, id: nat)
    requires TreeInv(t, rank) && cs != [] && Reach(t, ROOT, cs) == Some(id)
    ensures id in t.inodes && t.inodes[id].name == cs[|cs| - 1]
    ensures Reach(t, ROOT, cs[..|cs| - 1]) == Some(t.inodes[id].parentId)
  {
    NextIsEntry(t, rank, Reach(t, ROOT, cs[..|cs| - 1]).value, cs[|cs| - 1]);
  }

  /** Two paths reach the same inode only if their components are equal. */
  lemma {:induction false} ReachInjective(t: Tree, rank: map<nat, nat>, a: seq<string>, b: seq<string>, id: nat)
    requires TreeInv(t, rank)
    requires Reach(t, ROOT, a) == Some(id) == Reach(t, ROOT, b)
    ensures a == b
    decreases |a|
  {
    ReachDepth(t, rank, a);
    ReachDepth(t, rank, b);
    if a != [] {
      LastStep(t, rank, a, id);
      LastStep(t, rank, b, id);
      var m, p := |a| - 1, t.inodes[id].parentId;
      assert a == a[..m] + [a[m]] && b == b[..m] + [b[m]];
      assert Reach(t, ROOT, a[..m]) == Some(p) == Reach(t, ROOT, b[..m]);
      ReachInjective(t, rank, a[..m], b[..m], p);
    }
  }

  /** The path found by following parent ids up to the root. */
  ghost function PathTo(t: Tree, rank: map<nat, nat>, id: nat): seq<string>
    requires TreeInv(t, rank) && id in t.inodes
    decreases if id in rank then rank[id] else 0
  {
    if id == ROOT then []
    else
      assert Hangs(t, rank, id);
      var p := t.inodes[id].parentId;
      PathTo(t, rank, p) + [t.inodes[id].name]
  }

  /** Looking up that path leads back to the inode, and its length is the inode's depth. */
  lemma {:induction false} PathReaches(t: Tree, rank: map<nat, nat>, id: nat)
    requires TreeInv(t, rank) && id in t.inodes
    ensures Reach(t, ROOT, PathTo(t, rank, id)) == Some(id)
    ensures id in rank && |PathTo(t, rank, id)| == rank[id]
    ensures forall c | c in PathTo(t, rank, id) :: IsName(c)
    decreases if id in rank then rank[id] else 0
  {
    if id != ROOT {
      assert Hangs(t, rank, id);
      var p := t.inodes[id].parentId;
      PathReaches(t, rank, p);
      var path := PathTo(t, rank, id);
      assert path[..|path| - 1] == PathTo(t, rank, p);
      NextIsEntry(t, rank, p, t.inodes[id].name);
    }
  }
}
