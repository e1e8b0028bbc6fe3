/** The shared folder as the server sees it through `fs`: the entries `readdir` lists, in
    listing order, each with what `stat` reports about it. */
module Folders {

  datatype Kind = RegularFile(size: nat) | Directory

  datatype DirEntry = DirEntry(name: string, kind: Kind)

  /** A directory's entries in listing order. */
  type Folder = seq<DirEntry>

  /** One element of the file list served by GET /api/files and pushed to live clients
      (the modification time is not modelled). */
  datatype FileInfo = FileInfo(name: string, size: nat)

  /** existsSync(path.join(folder, name)). */
  predicate Has(f: Folder, name: string)
  {
    f != [] && (f[0].name == name || Has(f[1..], name))
  }

  /** The folder holds a directory under this name. */
  predicate HasDirectory(f: Folder, name: string)
  {
    f != [] && ((f[0].name == name && f[0].kind.Directory?) || HasDirectory(f[1..], name))
  }

  /** The folder holds a directory under this name exactly when one of its entries is that
      directory. */
  lemma {:induction false} HasDirectoryEntry(f: Folder, name: string)
    ensures HasDirectory(f, name) <==> DirEntry(name, Directory) in f
    decreases |f|
  {
    if f != [] {
      HasDirectoryEntry(f[1..], name);
      assert f == [f[0]] + f[1..];
    }
  }

  /** A directory never lists two entries under one name. */
  predicate DistinctNames(f: Folder)
  {
    f == [] || (!Has(f[1..], f[0].name) && DistinctNames(f[1..]))
  }

  /** Membership by name agrees with membership of some entry. */
  lemma {:induction false} HasEntry(f: Folder, name: string)
    ensures Has(f, name) <==> exists d :: d in f && d.name == name
    decreases |f|
  {
    if f != [] {
      HasEntry(f[1..], name);
      assert f == [f[0]] + f[1..];
      if d :| d in f && d.name == name {
        assert d == f[0] || d in f[1..];
      }
    }
  }

  lemma {:induction false} HasAppend(f: Folder, g: Folder, name: string)
    ensures Has(f + g, name) <==> Has(f, name) || Has(g, name)
    decreases |f|
  {
    if f == [] {
      assert f + g == g;
    } else {
      assert (f + g)[1..] == f[1..] + g;
      HasAppend(f[1..], g, name);
    }
  }

  /** Writing a file: an entry of the same name is replaced where it stands, otherwise the
      new entry joins the end of the listing. */
  function Put(f: Folder, e: DirEntry): (r: Folder)
    ensures forall n :: Has(r, n) <==> Has(f, n) || n == e.name
    ensures DistinctNames(f) ==> DistinctNames(r)
    ensures !Has(f, e.name) ==> r == f + [e]
    ensures |r| == if Has(f, e.name) then |f| else |f| + 1
  {
    if f == [] then
      assert [e][1..] == [];
      [e]
    else if f[0].name == e.name then
      var r := [e] + f[1..];
      assert r[1..] == f[1..];
      r
    else
      var r := [f[0]] + Put(f[1..], e);
      assert r[1..] == Put(f[1..], e);
      assert !Has(f, e.name) ==> r == f + [e] by {
        if !Has(f, e.name) {
          assert f == [f[0]] + f[1..];
        }
      }
      r
  }

  /** Writing under a name keeps every other entry: an entry is in the result exactly when
      it is the one written or an entry of the folder under another name. */
  lemma {:induction false} PutEntries(f: Folder, e: DirEntry, d: DirEntry)
    requires DistinctNames(f)
    ensures d in Put(f, e) <==> d == e || (d in f && d.name != e.name)
    decreases |f|
  {
    if f != [] && f[0].name != e.name {
      PutEntries(f[1..], e, d);
      assert f == [f[0]] + f[1..];
    } else if f != [] {
      assert f == [f[0]] + f[1..];
      HasEntry(f[1..], e.name);
    }
  }

  /** Removing every entry whose name is in a set, keeping the order of the rest. */
  function RemoveNames(f: Folder, names: set<string>): (r: Folder)
    ensures forall n :: Has(r, n) <==> Has(f, n) && n !in names
    ensures DistinctNames(f) ==> DistinctNames(r)
    ensures |r| <= |f|
  {
    if f == [] then []
    else if f[0].name in names then RemoveNames(f[1..], names)
    else
      var r := [f[0]] + RemoveNames(f[1..], names);
      assert r[1..] == RemoveNames(f[1..], names);
      r
  }

  /** An entry survives removal exactly when its name is not in the set. */
  lemma {:induction false} RemoveNamesEntries(f: Folder, names: set<string>, d: DirEntry)
    ensures d in RemoveNames(f, names) <==> d in f && d.name !in names
    decreases |f|
  {
    if f != [] {
      RemoveNamesEntries(f[1..], names, d);
      assert f == [f[0]] + f[1..];
    }
  }

  lemma {:induction false} RemoveNamesAppend(f: Folder, g: Folder, names: set<string>)
    ensures RemoveNames(f + g, names) == RemoveNames(f, names) + RemoveNames(g, names)
    decreases |f|
  {
    if f != [] {
      assert (f + g)[1..] == f[1..] + g;
      RemoveNamesAppend(f[1..], g, names);
    } else {
      assert f + g == g;
    }
  }

  /** Removing names that the folder does not hold leaves it as it was. */
  lemma {:induction false} RemoveAbsentNames(f: Folder, names: set<string>)
    requires forall n :: n in names ==> !Has(f, n)
    ensures RemoveNames(f, names) == f
    decreases |f|
  {
    if f != [] {
      assert f[0].name !in names;
      RemoveAbsentNames(f[1..], names);
      assert [f[0]] + f[1..] == f;
    }
  }

  /** Deleting one name from a folder with distinct names drops exactly one entry when the
      name is present, and keeps every entry under another name. */
  lemma {:induction false} RemoveOne(f: Folder, name: string, d: DirEntry)
    requires DistinctNames(f)
    ensures |RemoveNames(f, {name})| == if Has(f, name) then |f| - 1 else |f|
    ensures d in RemoveNames(f, {name}) <==> d in f && d.name != name
    decreases |f|
  {
    if f != [] {
      RemoveOne(f[1..], name, d);
      assert f == [f[0]] + f[1..];
      if f[0].name == name {
        assert !Has(f[1..], name);
        RemoveAbsentNames(f[1..], {name});
      }
    }
  }

  /** The sizes of the folder's regular files, by name. */
  function FileSizes(f: Folder): map<string, nat>
  {
    if f == [] then map[]
    else
      var rest := FileSizes(f[1..]);
      match f[0].kind
      case Directory => rest - {f[0].name}
      case RegularFile(size) => rest[f[0].name := size]
  }

  /** A name has a size exactly when the folder lists a regular file under it, of that size. */
  lemma {:induction false} FileSizesSpec(f: Folder, name: string)
    ensures name in FileSizes(f) ==> DirEntry(name, RegularFile(FileSizes(f)[name])) in f
    ensures DistinctNames(f) ==> forall s: nat ::
      DirEntry(name, RegularFile(s)) in f ==> name in FileSizes(f) && FileSizes(f)[name] == s
    ensures DistinctNames(f) && DirEntry(name, Directory) in f ==> name !in FileSizes(f)
    decreases |f|
  {
    if f != [] {
      FileSizesSpec(f[1..], name);
      assert f == [f[0]] + f[1..];
      if DistinctNames(f) && f[0].name == name {
        HasEntry(f[1..], name);
      }
    }
  }

  /** getFileList's filter and map: the non-directory entries, with name and size. */
  function ListFiles(f: Folder): (r: seq<FileInfo>)
    ensures |r| <= |f|
  {
    if f == [] then []
    else
      (if f[0].kind.Directory? then [] else [FileInfo(f[0].name, f[0].kind.size)]) +
      ListFiles(f[1..])
  }

  /** The listing holds a file exactly when the folder holds it as a regular file. */
  lemma {:induction false} ListFilesMembers(f: Folder, x: FileInfo)
    ensures x in ListFiles(f) <==> DirEntry(x.name, RegularFile(x.size)) in f
    decreases |f|
  {
    if f != [] {
      ListFilesMembers(f[1..], x);
      assert f == [f[0]] + f[1..];
    }
  }

  /** Listing keeps the folder's order: the listing of two runs of entries is the listing
      of the first followed by that of the second. */
  lemma {:induction false} ListFilesAppend(f: Folder, g: Folder)
    ensures ListFiles(f + g) == ListFiles(f) + ListFiles(g)
    decreases |f|
  {
    if f == [] {
      assert f + g == g;
    } else {
      assert (f + g)[1..] == f[1..] + g;
      ListFilesAppend(f[1..], g);
    }
  }

  /** A directory contributes nothing to the listing; a file contributes its name and size. */
  lemma ListFilesSingle(e: DirEntry)
    ensures ListFiles([e]) == if e.kind.Directory? then [] else [FileInfo(e.name, e.kind.size)]
  {
    assert [e][1..] == [];
  }
}
