/** The host's file system as the server reaches it through `fs`: a tree of directories and
    regular files, each place addressed by the names on the way down from the root, and the
    resolution of a path string that `existsSync`, `stat`, `readdir`, `createWriteStream` and
    `remove` perform. Every directory's listing agrees with the places below it. */
module Disks {
  import opened Options
  import opened Posix
  import opened Folders

  /** A place in the tree: the names from the root down to it; the root is []. */
  type Place = seq<string>

  datatype Node = DirNode(listing: Folder) | FileNode(size: nat)

  type Disk = map<Place, Node>

  function Parent(p: Place): Place
    requires p != []
  {
    p[..|p| - 1]
  }

  function Last(p: Place): string
    requires p != []
  {
    p[|p| - 1]
  }

  /** q is an entry of the directory at d. */
  predicate IsChild(q: Place, d: Place)
  {
    |q| == |d| + 1 && q[..|d|] == d
  }

  /** q is t or lies somewhere under it. */
  predicate Below(t: Place, q: Place)
  {
    |t| <= |q| && q[..|t|] == t
  }

  /** A node is what its parent's listing says it is. */
  predicate Agrees(n: Node, k: Kind)
  {
    match k
    case Directory => n.DirNode?
    case RegularFile(size) => n == FileNode(size)
  }

  ghost predicate RootIsDirectory(disk: Disk)
  {
    [] in disk && disk[[]].DirNode?
  }

  /** Every place but the root is listed by its parent directory. */
  ghost predicate KeysListed(disk: Disk)
  {
    forall p {:trigger Parent(p)} :: p in disk && p != [] ==>
      Parent(p) in disk && disk[Parent(p)].DirNode? && Has(disk[Parent(p)].listing, Last(p))
  }

  /** Every entry of a directory is a place one level down, of the kind the entry gives. */
  ghost predicate EntriesPresent(disk: Disk)
  {
    forall p, e :: p in disk && disk[p].DirNode? && e in disk[p].listing ==>
      Component(e.name) && p + [e.name] in disk && Agrees(disk[p + [e.name]], e.kind)
  }

  ghost predicate ListingsDistinct(disk: Disk)
  {
    forall p :: p in disk && disk[p].DirNode? ==> DistinctNames(disk[p].listing)
  }

  /** The tree is a tree: the root is a directory and listings and places agree both ways. */
  ghost predicate Coherent(disk: Disk)
  {
    RootIsDirectory(disk) && KeysListed(disk) && EntriesPresent(disk) && ListingsDistinct(disk)
  }

  lemma ParentOfChild(d: Place, n: string)
    ensures Parent(d + [n]) == d && Last(d + [n]) == n && IsChild(d + [n], d)
  {
    assert (d + [n])[..|d|] == d;
  }

  /** The parent of an existing place lists it. */
  lemma Listed(disk: Disk, q: Place)
    requires Coherent(disk) && q in disk && q != []
    ensures Parent(q) in disk && disk[Parent(q)].DirNode? && Has(disk[Parent(q)].listing, Last(q))
  {
    assert KeysListed(disk);
  }

  /** A directory has an entry under a name exactly when the place one level down exists. */
  lemma ChildIff(disk: Disk, d: Place, n: string)
    requires Coherent(disk) && d in disk && disk[d].DirNode?
    ensures d + [n] in disk <==> Has(disk[d].listing, n)
  {
    ParentOfChild(d, n);
    HasEntry(disk[d].listing, n);
    if d + [n] in disk {
      Listed(disk, d + [n]);
    }
  }

  /** Every place above an existing place is an existing directory. */
  lemma {:induction false} Ancestor(disk: Disk, q: Place, k: nat)
    requires Coherent(disk) && q in disk && k < |q|
    ensures q[..k] in disk && disk[q[..k]].DirNode?
    decreases |q| - k
  {
    var p := Parent(q);
    Listed(disk, q);
    if k < |p| {
      Ancestor(disk, p, k);
      assert p[..k] == q[..k];
    }
  }

  /** The resolution of the pieces of a path from a starting place, as the operating system
      does it: each piece needs the place reached so far to be a directory; "" and "." stay
      where they are, ".." goes up (the root is its own parent), and a name goes down into the
      entry. The place reached must exist. */
  function Walk(disk: Disk, cur: Place, segs: seq<string>): (r: Option<Place>)
    ensures r.Some? ==> r.value in disk
    decreases |segs|
  {
    if segs == [] then (if cur in disk then Some(cur) else None)
    else if !(cur in disk && disk[cur].DirNode?) then None
    else if segs[0] == "" || segs[0] == "." then Walk(disk, cur, segs[1..])
    else if segs[0] == ".." then Walk(disk, if cur == [] then [] else Parent(cur), segs[1..])
    else Walk(disk, cur + [segs[0]], segs[1..])
  }

  /** The place a path names, resolved from the root or from the process's working directory;
      `existsSync` holds exactly when there is one. */
  function Locate(disk: Disk, cwd: Place, p: string): Option<Place>
  {
    if p == "" then None else Walk(disk, if Absolute(p) then [] else cwd, Split(p))
  }

  /** The directory that path.join(a, name) puts a name into: the pieces `a` keeps after
      normalisation, resolved from where `a` starts. */
  function JoinDir(disk: Disk, cwd: Place, a: string): Option<Place>
  {
    Walk(disk, if Absolute(a) then [] else cwd, JoinBase(a))
  }

  /** One more name after a run of pieces goes down from wherever the run led. */
  lemma {:induction false} WalkSnoc(disk: Disk, cur: Place, segs: seq<string>, n: string)
    requires Component(n)
    ensures Walk(disk, cur, segs + [n]) ==
      match Walk(disk, cur, segs)
      case Some(c) => if disk[c].DirNode? && c + [n] in disk then Some(c + [n]) else None
      case None => None
    decreases |segs|
  {
    if segs == [] {
      assert segs + [n] == [n];
    } else {
      assert (segs + [n])[1..] == segs[1..] + [n];
      if cur in disk && disk[cur].DirNode? {
        var next := if segs[0] == "" || segs[0] == "." then cur
          else if segs[0] == ".." then (if cur == [] then [] else Parent(cur))
          else cur + [segs[0]];
        WalkSnoc(disk, next, segs[1..], n);
      }
    }
  }

  /** Going down through components reaches the place below exactly when it exists. */
  lemma {:induction false} WalkDown(disk: Disk, cur: Place, c: seq<string>)
    requires Coherent(disk) && AllComponents(c)
    ensures Walk(disk, cur, c) == if cur + c in disk then Some(cur + c) else None
    decreases |c|
  {
    if c == [] {
      assert cur + c == cur;
    } else {
      assert cur + c == (cur + [c[0]]) + c[1..];
      assert AllComponents(c[1..]) by {
        forall i | 0 <= i < |c[1..]| ensures Component(c[1..][i]) {
          assert c[1..][i] == c[i + 1];
        }
      }
      if cur in disk && disk[cur].DirNode? {
        WalkDown(disk, cur + [c[0]], c[1..]);
      } else if cur + c in disk {
        assert (cur + c)[..|cur|] == cur;
        Ancestor(disk, cur + c, |cur|);
      }
    }
  }

  /** A leading empty piece, as in an absolute path, resolves from the root as it stands. */
  lemma WalkFromRoot(disk: Disk, segs: seq<string>)
    requires RootIsDirectory(disk)
    ensures Walk(disk, [], [""] + segs) == Walk(disk, [], segs)
  {
    assert ([""] + segs)[1..] == segs;
  }

  /** existsSync on a canonical path holds exactly when the place exists. */
  lemma LocateRender(disk: Disk, cwd: Place, c: seq<string>)
    requires Coherent(disk) && AllComponents(c)
    ensures Locate(disk, cwd, Render(c)) == if c in disk then Some(c) else None
  {
    SplitRender(c);
    var rest := if c == [] then [""] else c;
    WalkFromRoot(disk, rest);
    if c == [] {
      assert [""][1..] == [];
    } else {
      WalkDown(disk, [], c);
      assert [] + c == c;
    }
  }

  /** path.join of a canonical path puts names into that place. */
  lemma JoinDirRender(disk: Disk, cwd: Place, c: seq<string>)
    requires Coherent(disk) && AllComponents(c)
    ensures JoinDir(disk, cwd, Render(c)) == if c in disk then Some(c) else None
  {
    NormRender(c, false);
    WalkDown(disk, [], c);
    assert [] + c == c;
  }

  /** The path path.join(a, n) names n inside the directory JoinDir gives, if it has one. */
  lemma LocateJoin(disk: Disk, cwd: Place, a: string, n: string)
    requires Coherent(disk) && Component(n)
    ensures Locate(disk, cwd, PathJoin(a, n)) ==
      match JoinDir(disk, cwd, a)
      case Some(d) => if disk[d].DirNode? && Has(disk[d].listing, n) then Some(d + [n]) else None
      case None => None
  {
    LocateJoinWalk(disk, cwd, a, n);
    WalkSnoc(disk, if Absolute(a) then [] else cwd, JoinBase(a), n);
    match JoinDir(disk, cwd, a)
    case Some(d) =>
      if disk[d].DirNode? {
        ChildIff(disk, d, n);
      }
    case None =>
  }

  /** The path path.join(a, n) resolves as the pieces `a` keeps followed by n. */
  lemma LocateJoinWalk(disk: Disk, cwd: Place, a: string, n: string)
    requires RootIsDirectory(disk) && Component(n)
    ensures Locate(disk, cwd, PathJoin(a, n)) ==
      Walk(disk, if Absolute(a) then [] else cwd, JoinBase(a) + [n])
  {
    JoinComponent(a, n);
    var base := JoinBase(a);
    if Absolute(a) {
      assert [""] + base + [n] == [""] + (base + [n]);
      WalkFromRoot(disk, base + [n]);
    } else {
      assert [] + base + [n] == base + [n];
    }
  }

  /** Resolving two runs of pieces one after the other: the second starts where the first
      ended, and nothing is reached when the first reaches nothing. */
  lemma {:induction false} WalkAppend(disk: Disk, cur: Place, a: seq<string>, b: seq<string>)
    ensures Walk(disk, cur, a + b) ==
      match Walk(disk, cur, a)
      case Some(p) => Walk(disk, p, b)
      case None => None
    decreases |a|
  {
    if a == [] {
      assert a + b == b;
      if b != [] && cur !in disk {
        assert Walk(disk, cur, b) == None;
      }
    } else {
      assert (a + b)[1..] == a[1..] + b;
      if cur in disk && disk[cur].DirNode? {
        var next := if a[0] == "" || a[0] == "." then cur
          else if a[0] == ".." then (if cur == [] then [] else Parent(cur))
          else cur + [a[0]];
        WalkAppend(disk, next, a[1..], b);
      }
    }
  }

  /** existsSync on a canonical path with a '/' added holds exactly when the place is a
      directory: the trailing empty piece needs a directory to stand in. */
  lemma LocateTrailingSlash(disk: Disk, cwd: Place, c: seq<string>)
    requires Coherent(disk) && AllComponents(c)
    ensures Locate(disk, cwd, Render(c) + "/") ==
      if c in disk && disk[c].DirNode? then Some(c) else None
  {
    var p := Render(c);
    assert p + "/" == p + "/" + "";
    SplitSlash(p, "");
    SplitRender(c);
    var rest := if c == [] then [""] else c;
    assert Split(p + "/") == [""] + (rest + [""]);
    WalkFromRoot(disk, rest + [""]);
    WalkAppend(disk, [], rest, [""]);
    LocateRender(disk, cwd, c);
    assert Walk(disk, [], rest) == Locate(disk, cwd, p);
  }

  /** A directory's listing in a coherent tree has distinct names that are all components. */
  lemma ListingOf(disk: Disk, d: Place)
    requires Coherent(disk) && d in disk && disk[d].DirNode?
    ensures DistinctNames(disk[d].listing) && NamesAreComponents(disk[d].listing)
  {
    assert EntriesPresent(disk);
  }

  /** The places that are directories are the same in both trees. */
  ghost predicate SameDirectoryPlaces(a: Disk, b: Disk)
  {
    forall p :: (p in a && a[p].DirNode?) <==> (p in b && b[p].DirNode?)
  }

  /** A resolution that ends in a directory passes through directories only, so it ends in
      the same place in any tree with the same directories. */
  lemma {:induction false} WalkSameDirectories(a: Disk, b: Disk, cur: Place, segs: seq<string>)
    requires SameDirectoryPlaces(a, b)
    requires Walk(a, cur, segs).Some? && a[Walk(a, cur, segs).value].DirNode?
    ensures Walk(b, cur, segs) == Walk(a, cur, segs)
    decreases |segs|
  {
    if segs == [] {
      assert cur in a && a[cur].DirNode?;
    } else {
      assert cur in a && a[cur].DirNode?;
      var next := if segs[0] == "" || segs[0] == "." then cur
        else if segs[0] == ".." then (if cur == [] then [] else Parent(cur))
        else cur + [segs[0]];
      WalkSameDirectories(a, b, next, segs[1..]);
    }
  }

  /** The directory's listing replaced by one with the same directories. */
  ghost predicate SameDirectories(before: Folder, after: Folder)
  {
    forall n :: DirEntry(n, Directory) in before <==> DirEntry(n, Directory) in after
  }

  /** Every name a listing gives can be a directory entry. */
  predicate NamesAreComponents(f: Folder)
  {
    forall e :: e in f ==> Component(e.name)
  }

  /** An entry of d that the new listing no longer names. */
  predicate Dropped(d: Place, f: Folder, q: Place)
  {
    IsChild(q, d) && !Has(f, q[|d|])
  }

  /** The disk after the directory at d takes a new listing that keeps its directories: the
      files the new listing names are regular files of the sizes it gives, the entries it no
      longer names are gone, and every other place is as it was. */
  function WithFiles(disk: Disk, d: Place, f: Folder): Disk
  {
    var sizes := FileSizes(f);
    map q | q in disk.Keys + (set n | n in sizes :: d + [n]) && !Dropped(d, f, q) ::
      if q == d then DirNode(f)
      else if IsChild(q, d) && q[|d|] in sizes then FileNode(sizes[q[|d|]])
      else disk[q]
  }

  /** The places after the update: the old ones but the dropped entries, and the new files. */
  lemma WithFilesKeys(disk: Disk, d: Place, f: Folder, q: Place)
    ensures q in WithFiles(disk, d, f) <==>
      (q in disk && !Dropped(d, f, q)) || (IsChild(q, d) && q[|d|] in FileSizes(f))
  {
    var sizes := FileSizes(f);
    if IsChild(q, d) && q[|d|] in sizes {
      assert q == d + [q[|d|]];
      FileSizesSpec(f, q[|d|]);
      HasEntry(f, q[|d|]);
    }
  }

  lemma WithFilesRoot(disk: Disk, d: Place, f: Folder)
    requires Coherent(disk) && d in disk && disk[d].DirNode?
    ensures RootIsDirectory(WithFiles(disk, d, f))
  {
    WithFilesKeys(disk, d, f, []);
  }

  /** A file of the new listing is listed by the directory. */
  lemma WithFilesListedChild(disk: Disk, d: Place, f: Folder, q: Place)
    requires d in disk && disk[d].DirNode?
    requires q in WithFiles(disk, d, f) && IsChild(q, d)
    ensures var r := WithFiles(disk, d, f);
      Parent(q) in r && r[Parent(q)] == DirNode(f) && Has(f, Last(q))
  {
    WithFilesKeys(disk, d, f, q);
    WithFilesKeys(disk, d, f, d);
    var name := q[|d|];
    if name in FileSizes(f) {
      FileSizesSpec(f, name);
      HasEntry(f, name);
    }
  }

  /** A place that is neither d nor an entry of d is untouched. */
  lemma WithFilesUntouched(disk: Disk, d: Place, f: Folder, q: Place)
    requires q in disk && q != d && !IsChild(q, d)
    ensures q in WithFiles(disk, d, f) && WithFiles(disk, d, f)[q] == disk[q]
  {
    WithFilesKeys(disk, d, f, q);
  }

  /** An entry of a directory that is itself a directory is listed as one. */
  lemma DirectoryEntryOf(disk: Disk, d: Place, name: string)
    requires Coherent(disk) && d + [name] in disk && disk[d + [name]].DirNode?
    ensures d in disk && disk[d].DirNode? && DirEntry(name, Directory) in disk[d].listing
  {
    ParentOfChild(d, name);
    Listed(disk, d + [name]);
    HasEntry(disk[d].listing, name);
    var e :| e in disk[d].listing && e.name == name;
    assert Agrees(disk[d + [name]], e.kind);
  }

  /** A directory entry of d is untouched, since the new listing keeps it. */
  lemma WithFilesKeepsDirectory(disk: Disk, d: Place, f: Folder, name: string)
    requires d in disk && disk[d].DirNode? && SameDirectories(disk[d].listing, f) && DistinctNames(f)
    requires DirEntry(name, Directory) in disk[d].listing && d + [name] in disk
    ensures d + [name] in WithFiles(disk, d, f) && WithFiles(disk, d, f)[d + [name]] == disk[d + [name]]
  {
    ParentOfChild(d, name);
    HasEntry(f, name);
    FileSizesSpec(f, name);
    WithFilesKeys(disk, d, f, d + [name]);
  }

  /** The parent of a place other than d and its entries is untouched: when it is itself an
      entry of d it is a directory, which the new listing keeps. */
  lemma WithFilesKeepsParent(disk: Disk, d: Place, f: Folder, p: Place)
    requires d in disk && disk[d].DirNode? && SameDirectories(disk[d].listing, f) && DistinctNames(f)
    requires p in disk && p != d
    requires IsChild(p, d) ==> DirEntry(p[|d|], Directory) in disk[d].listing
    ensures p in WithFiles(disk, d, f) && WithFiles(disk, d, f)[p] == disk[p]
  {
    if IsChild(p, d) {
      assert p == d + [p[|d|]];
      WithFilesKeepsDirectory(disk, d, f, p[|d|]);
    } else {
      WithFilesUntouched(disk, d, f, p);
    }
  }

  /** The parent of an existing place lists it, and when that parent is itself an entry of d
      it is a directory entry of d. */
  lemma ParentOfOther(disk: Disk, d: Place, q: Place)
    requires Coherent(disk) && q in disk && q != []
    ensures Parent(q) in disk && disk[Parent(q)].DirNode? && Has(disk[Parent(q)].listing, Last(q))
    ensures IsChild(Parent(q), d) ==>
      d in disk && disk[d].DirNode? && DirEntry(Parent(q)[|d|], Directory) in disk[d].listing
  {
    Listed(disk, q);
    var p := Parent(q);
    if IsChild(p, d) {
      assert p == d + [p[|d|]];
      DirectoryEntryOf(disk, d, p[|d|]);
    }
  }

  /** Any other place keeps its parent, and the parent's listing. */
  lemma WithFilesListedOther(disk: Disk, d: Place, f: Folder, q: Place)
    requires d in disk && disk[d].DirNode?
    requires SameDirectories(disk[d].listing, f) && DistinctNames(f)
    requires q in disk && q != [] && !IsChild(q, d)
    requires Parent(q) in disk && disk[Parent(q)].DirNode? && Has(disk[Parent(q)].listing, Last(q))
    requires IsChild(Parent(q), d) ==> DirEntry(Parent(q)[|d|], Directory) in disk[d].listing
    ensures var r := WithFiles(disk, d, f);
      Parent(q) in r && r[Parent(q)] == disk[Parent(q)] && r[Parent(q)].DirNode? &&
      Has(r[Parent(q)].listing, Last(q))
  {
    var p := Parent(q);
    assert q == p + [Last(q)];
    ParentOfChild(p, Last(q));
    WithFilesKeepsParent(disk, d, f, p);
  }

  lemma WithFilesListed(disk: Disk, d: Place, f: Folder)
    requires Coherent(disk) && d in disk && disk[d].DirNode?
    requires SameDirectories(disk[d].listing, f) && DistinctNames(f)
    ensures KeysListed(WithFiles(disk, d, f))
  {
    var r := WithFiles(disk, d, f);
    forall q | q in r && q != []
      ensures Parent(q) in r && r[Parent(q)].DirNode? && Has(r[Parent(q)].listing, Last(q))
    {
      if IsChild(q, d) {
        WithFilesListedChild(disk, d, f, q);
      } else {
        WithFilesKeys(disk, d, f, q);
        ParentOfOther(disk, d, q);
        WithFilesListedOther(disk, d, f, q);
      }
    }
  }

  lemma WithFilesEntries(disk: Disk, d: Place, f: Folder)
    requires Coherent(disk) && d in disk && disk[d].DirNode?
    requires SameDirectories(disk[d].listing, f) && DistinctNames(f) && NamesAreComponents(f)
    ensures EntriesPresent(WithFiles(disk, d, f))
  {
    var r := WithFiles(disk, d, f);
    var sizes := FileSizes(f);
    forall p, e | p in r && r[p].DirNode? && e in r[p].listing
      ensures Component(e.name) && p + [e.name] in r && Agrees(r[p + [e.name]], e.kind)
    {
      var c := p + [e.name];
      ParentOfChild(p, e.name);
      WithFilesKeys(disk, d, f, p);
      WithFilesKeys(disk, d, f, c);
      FileSizesSpec(f, e.name);
      HasEntry(f, e.name);
      if p == d {
        if e.kind.Directory? {
          assert e == DirEntry(e.name, Directory);
        }
      } else {
        assert p in disk && r[p] == disk[p];
        if c == d {
          assert e.kind.Directory?;
        } else {
          assert !IsChild(c, d);
        }
      }
    }
  }

  /** Replacing a listing by one with the same directories, distinct names and proper entry
      names keeps the tree coherent. */
  lemma WithFilesCoherent(disk: Disk, d: Place, f: Folder)
    requires Coherent(disk) && d in disk && disk[d].DirNode?
    requires SameDirectories(disk[d].listing, f) && DistinctNames(f) && NamesAreComponents(f)
    ensures Coherent(WithFiles(disk, d, f))
    ensures d in WithFiles(disk, d, f) && WithFiles(disk, d, f)[d] == DirNode(f)
  {
    var r := WithFiles(disk, d, f);
    WithFilesRoot(disk, d, f);
    WithFilesListed(disk, d, f);
    WithFilesEntries(disk, d, f);
    assert ListingsDistinct(r) by {
      forall p | p in r && r[p].DirNode? ensures DistinctNames(r[p].listing) {
        WithFilesKeys(disk, d, f, p);
      }
    }
    WithFilesKeys(disk, d, f, d);
  }

  /** One place is a directory after a listing is replaced exactly when it was one before. */
  lemma WithFilesDirectoryAt(disk: Disk, d: Place, f: Folder, p: Place)
    requires d in disk && disk[d].DirNode?
    requires SameDirectories(disk[d].listing, f) && DistinctNames(f)
    requires IsChild(p, d) && p in disk && disk[p].DirNode? ==>
      DirEntry(p[|d|], Directory) in disk[d].listing
    ensures var r := WithFiles(disk, d, f);
      (p in disk && disk[p].DirNode?) <==> (p in r && r[p].DirNode?)
  {
    WithFilesKeys(disk, d, f, p);
    if p == d {
    } else if IsChild(p, d) {
      var name := p[|d|];
      assert p == d + [name];
      if p in disk && disk[p].DirNode? {
        WithFilesKeepsDirectory(disk, d, f, name);
      }
    } else if p in disk {
      WithFilesUntouched(disk, d, f, p);
    }
  }

  /** Replacing a listing by one with the same directories leaves every directory where it
      was and makes no new one. */
  lemma WithFilesDirectories(disk: Disk, d: Place, f: Folder)
    requires Coherent(disk) && d in disk && disk[d].DirNode?
    requires SameDirectories(disk[d].listing, f) && DistinctNames(f)
    ensures SameDirectoryPlaces(disk, WithFiles(disk, d, f))
  {
    var r := WithFiles(disk, d, f);
    forall p ensures (p in disk && disk[p].DirNode?) <==> (p in r && r[p].DirNode?) {
      ChildDirectoryListed(disk, d, p);
      WithFilesDirectoryAt(disk, d, f, p);
    }
  }

  /** A directory one level below d is listed by d as a directory. */
  lemma ChildDirectoryListed(disk: Disk, d: Place, p: Place)
    requires Coherent(disk)
    ensures IsChild(p, d) && p in disk && disk[p].DirNode? ==>
      d in disk && disk[d].DirNode? && DirEntry(p[|d|], Directory) in disk[d].listing
  {
    if IsChild(p, d) && p in disk && disk[p].DirNode? {
      assert p == d + [p[|d|]];
      DirectoryEntryOf(disk, d, p[|d|]);
    }
  }

  /** After a listing is replaced, a file it names is reached through path.join of any path
      that led to the directory, and has the size the listing gives. */
  lemma WithFilesLocate(disk: Disk, cwd: Place, a: string, d: Place, f: Folder, name: string,
                        size: nat)
    requires Coherent(disk) && JoinDir(disk, cwd, a) == Some(d) && disk[d].DirNode?
    requires SameDirectories(disk[d].listing, f) && DistinctNames(f) && NamesAreComponents(f)
    requires DirEntry(name, RegularFile(size)) in f
    ensures var r := WithFiles(disk, d, f);
      Locate(r, cwd, PathJoin(a, name)) == Some(d + [name]) && r[d + [name]] == FileNode(size)
  {
    var r := WithFiles(disk, d, f);
    WithFilesCoherent(disk, d, f);
    WithFilesDirectories(disk, d, f);
    WalkSameDirectories(disk, r, if Absolute(a) then [] else cwd, JoinBase(a));
    assert Component(name);
    HasEntry(f, name);
    LocateJoin(r, cwd, a, name);
    FileSizesSpec(f, name);
    ParentOfChild(d, name);
    WithFilesKeys(disk, d, f, d + [name]);
  }

  /** Giving a directory back its own listing changes nothing. */
  lemma WithFilesSame(disk: Disk, d: Place)
    requires Coherent(disk) && d in disk && disk[d].DirNode?
    ensures WithFiles(disk, d, disk[d].listing) == disk
  {
    var f := disk[d].listing;
    var r := WithFiles(disk, d, f);
    var sizes := FileSizes(f);
    forall q ensures q in r <==> q in disk {
      WithFilesKeys(disk, d, f, q);
      if IsChild(q, d) {
        assert q == d + [q[|d|]];
        ChildIff(disk, d, q[|d|]);
        if q[|d|] in sizes {
          FileSizesSpec(f, q[|d|]);
          HasEntry(f, q[|d|]);
        }
      }
    }
    forall q | q in r ensures r[q] == disk[q] {
      if q != d && IsChild(q, d) && q[|d|] in sizes {
        assert q == d + [q[|d|]];
        FileSizesSpec(f, q[|d|]);
      }
    }
  }

  /** `remove` of the place t: t and everything below it go, and its parent stops listing it.
      The root cannot be removed itself; everything below it goes. */
  function RemoveTree(disk: Disk, t: Place): Disk
    requires t != [] ==> Parent(t) in disk && disk[Parent(t)].DirNode?
  {
    if t == [] then map[[] := DirNode([])]
    else
      map q | q in disk && !Below(t, q) ::
        if q == Parent(t) then DirNode(RemoveNames(disk[q].listing, {Last(t)})) else disk[q]
  }

  /** Exactly the places outside the removed subtree remain. */
  lemma RemoveTreeKeys(disk: Disk, t: Place, q: Place)
    requires t != [] && Parent(t) in disk && disk[Parent(t)].DirNode?
    ensures q in RemoveTree(disk, t) <==> q in disk && !Below(t, q)
  {
  }

  lemma RemoveTreeListed(disk: Disk, t: Place)
    requires Coherent(disk) && t in disk && t != []
    requires Parent(t) in disk && disk[Parent(t)].DirNode?
    ensures KeysListed(RemoveTree(disk, t))
  {
    var r := RemoveTree(disk, t);
    forall q | q in r && q != []
      ensures Parent(q) in r && r[Parent(q)].DirNode? && Has(r[Parent(q)].listing, Last(q))
    {
      Listed(disk, q);
    }
  }

  lemma RemoveTreeEntries(disk: Disk, t: Place)
    requires Coherent(disk) && t in disk && t != []
    requires Parent(t) in disk && disk[Parent(t)].DirNode?
    ensures EntriesPresent(RemoveTree(disk, t))
  {
    var r := RemoveTree(disk, t);
    forall p, e | p in r && r[p].DirNode? && e in r[p].listing
      ensures Component(e.name) && p + [e.name] in r && Agrees(r[p + [e.name]], e.kind)
    {
      var c := p + [e.name];
      ParentOfChild(p, e.name);
      if p == Parent(t) {
        RemoveNamesEntries(disk[p].listing, {Last(t)}, e);
      } else {
        assert e in disk[p].listing;
      }
    }
  }

  /** Removing an existing place keeps the tree coherent. */
  lemma RemoveTreeCoherent(disk: Disk, t: Place)
    requires Coherent(disk) && t in disk
    ensures t != [] ==> Parent(t) in disk && disk[Parent(t)].DirNode?
    ensures Coherent(RemoveTree(disk, t))
  {
    if t != [] {
      Listed(disk, t);
      RemoveTreeListed(disk, t);
      RemoveTreeEntries(disk, t);
      assert RootIsDirectory(RemoveTree(disk, t));
    }
  }
}
