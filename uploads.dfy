/** One multipart upload handled by multer's disk storage: each file of the "files" field
    is named by the storage's filename callback, checked against the size limit while it
    streams, and written into the shared folder; on the first error the files already
    written by the request are removed again and the error is passed on. */
module Uploads {
  import opened Options
  import opened Posix
  import opened Folders
  import opened Naming
  import opened Disks

  /** The two multer instances the server builds: whether the filename callback renames on
      collision, and the per-file size limit. */
  datatype Uploader = Uploader(renameOnCollision: bool, sizeLimit: Option<nat>)

  /** limits.fileSize of the first uploader: 100 MiB. */
  const MaxUploadBytes: nat := 100 * 1024 * 1024

  /** The uploader set up with the server: collision renaming and the 100 MiB limit. */
  const SafeUploader: Uploader := Uploader(true, Some(MaxUploadBytes))

  /** The uploader setSharedFolder builds: the client's name as is, and no size limit. */
  const PlainUploader: Uploader := Uploader(false, None)

  /** The multipart field that upload.array("files") accepts. */
  const UploadField: string := "files"

  /** A file part of the request: its field, the filename its header declares, and its
      length. */
  datatype Incoming = Incoming(field: string, filename: string, size: nat)

  /** What follows the last '/' or '\\' of a string: the whole string when it has neither. */
  function AfterSeparator(s: string): string
    decreases |s|
  {
    if s == [] then s
    else if s[|s| - 1] == '/' || s[|s| - 1] == '\\' then ""
    else AfterSeparator(s[..|s| - 1]) + [s[|s| - 1]]
  }

  /** The longest end of the string without '/' or '\\': a suffix free of both, which is the
      whole string or follows one of them. */
  lemma {:induction false} AfterSeparatorSpec(s: string)
    ensures var r := AfterSeparator(s);
      && |r| <= |s| && r == s[|s| - |r|..]
      && '/' !in r && '\\' !in r
      && (|r| < |s| ==> s[|s| - |r| - 1] == '/' || s[|s| - |r| - 1] == '\\')
    decreases |s|
  {
    if s != [] && s[|s| - 1] != '/' && s[|s| - 1] != '\\' {
      var init := s[..|s| - 1];
      AfterSeparatorSpec(init);
      var r0 := AfterSeparator(init);
      var r := r0 + [s[|s| - 1]];
      assert init[|init| - |r0|..] + [s[|s| - 1]] == s[|s| - |r|..];
      assert |r| < |s| ==> s[|s| - |r| - 1] == init[|init| - |r0| - 1];
    }
  }

  /** file.originalname as busboy reports it: the basename of the declared filename, taken
      after the last '/' or '\\', with "." and ".." read as no name at all. */
  function ClientName(raw: string): string
  {
    var b := AfterSeparator(raw);
    if b == "." || b == ".." then "" else b
  }

  /** A part's name is either missing or one that can be a directory entry without '\\'; it
      is missing exactly when the declared filename ends with a separator, or its end after
      the last separator is "." or "..". */
  lemma ClientNameSpec(raw: string)
    ensures var n := ClientName(raw);
      && (n == "" || (Component(n) && '\\' !in n))
      && (n == "" <==> AfterSeparator(raw) in ["", ".", ".."])
      && (n != "" ==> n == AfterSeparator(raw))
  {
    AfterSeparatorSpec(raw);
    var b := AfterSeparator(raw);
    if b != "" && b != "." && b != ".." {
      assert ClientName(raw) == b;
      assert Component(b);
    } else {
      assert ClientName(raw) == "";
    }
  }

  /** The parts multer hands to the storage: those whose filename is not empty, in order. */
  function Named(files: seq<Incoming>): (r: seq<Incoming>)
    ensures |r| <= |files|
    ensures forall p :: p in r <==> p in files && ClientName(p.filename) != ""
  {
    if files == [] then []
    else if ClientName(files[0].filename) == "" then Named(files[1..])
    else [files[0]] + Named(files[1..])
  }

  /** What the request reports for a stored file: file.filename, file.size, file.path. */
  datatype Stored = Stored(name: string, size: nat, path: string)

  datatype UploadError = UnexpectedField | WriteFailed | FileTooLarge

  /** The storage's filename callback. */
  function TargetName(u: Uploader, f: Folder, original: string): string
  {
    if u.renameOnCollision then FreeName(f, original) else original
  }

  /** The state of a batch in progress: the folder, the files completed, every name written
      (including a file cut off by the limit), and the error that stopped the batch. */
  datatype Run = Run(listing: Folder, stored: seq<Stored>, written: seq<string>,
                     failure: Option<UploadError>)

  /** The batch from the current file on. The destination is `dir`; `writable` says whether
      it is a directory that files can be created in. A part without a filename is drained
      and dropped before anything else looks at it. */
  function Ingest(u: Uploader, dir: string, writable: bool, listing: Folder,
                  files: seq<Incoming>, stored: seq<Stored>, written: seq<string>): Run
    decreases |files|
  {
    if files == [] then Run(listing, stored, written, None)
    else
      var file := files[0];
      if ClientName(file.filename) == "" then
        Ingest(u, dir, writable, listing, files[1..], stored, written)
      else if file.field != UploadField then Run(listing, stored, written, Some(UnexpectedField))
      else
        var name := TargetName(u, listing, ClientName(file.filename));
        if !writable || HasDirectory(listing, name) then
          Run(listing, stored, written, Some(WriteFailed))
        else if u.sizeLimit.Some? && file.size > u.sizeLimit.value then
          var cut := DirEntry(name, RegularFile(u.sizeLimit.value));
          Run(Put(listing, cut), stored, written + [name], Some(FileTooLarge))
        else
          Ingest(u, dir, writable, Put(listing, DirEntry(name, RegularFile(file.size))),
                 files[1..], stored + [Stored(name, file.size, PathJoin(dir, name))],
                 written + [name])
  }

  /** multer's handling of one request's parts, in order: a part without a filename is
      skipped; each other part of the "files" field is named by the filename callback
      against the folder as the earlier parts left it, then written, until the parts run out
      or one fails. */
  method IngestBatch(u: Uploader, dir: string, writable: bool, listing: Folder,
                     files: seq<Incoming>) returns (run: Run)
    ensures run == Ingest(u, dir, writable, listing, files, [], [])
  {
    ghost var goal := Ingest(u, dir, writable, listing, files, [], []);
    var cur, stored, written, failure := listing, [], [], None;
    var i := 0;
    while i < |files| && failure.None?
      invariant 0 <= i <= |files|
      invariant failure.None? ==> Ingest(u, dir, writable, cur, files[i..], stored, written) == goal
      invariant failure.Some? ==> Run(cur, stored, written, failure) == goal
    {
      var file := files[i];
      assert files[i..][1..] == files[i + 1..];
      var original := ClientName(file.filename);
      if original == "" {
      } else if file.field != UploadField {
        failure := Some(UnexpectedField);
      } else {
        var name := original;
        if u.renameOnCollision {
          name := PickName(cur, original);
        }
        if !writable || HasDirectory(cur, name) {
          failure := Some(WriteFailed);
        } else if u.sizeLimit.Some? && file.size > u.sizeLimit.value {
          cur := Put(cur, DirEntry(name, RegularFile(u.sizeLimit.value)));
          written := written + [name];
          failure := Some(FileTooLarge);
        } else {
          cur := Put(cur, DirEntry(name, RegularFile(file.size)));
          stored := stored + [Stored(name, file.size, PathJoin(dir, name))];
          written := written + [name];
        }
      }
      i := i + 1;
    }
    run := Run(cur, stored, written, failure);
  }

  /** The clean-up after an error: every file the request wrote is removed. */
  function RolledBack(run: Run): Folder
  {
    RemoveNames(run.listing, set n | n in run.written)
  }

  /** A whole request: the folder afterwards, and the stored files or the error. */
  datatype Outcome = Outcome(listing: Folder, result: Result<seq<Stored>, UploadError>)

  function RunUploader(u: Uploader, dir: string, writable: bool, listing: Folder,
                       files: seq<Incoming>): Outcome
  {
    var run := Ingest(u, dir, writable, listing, files, [], []);
    if run.failure.None? then Outcome(run.listing, Ok(run.stored))
    else Outcome(RolledBack(run), Err(run.failure.value))
  }

  /** The folder entries of stored files. */
  function Entries(stored: seq<Stored>): (f: Folder)
    ensures |f| == |stored|
    ensures forall i :: 0 <= i < |stored| ==>
      f[i] == DirEntry(stored[i].name, RegularFile(stored[i].size))
  {
    seq(|stored|, i requires 0 <= i < |stored| =>
      DirEntry(stored[i].name, RegularFile(stored[i].size)))
  }

  function Names(stored: seq<Stored>): (s: seq<string>)
    ensures |s| == |stored|
    ensures forall i :: 0 <= i < |stored| ==> s[i] == stored[i].name
  {
    seq(|stored|, i requires 0 <= i < |stored| => stored[i].name)
  }

  /** Parts without a filename leave no trace: a batch runs as if only the named parts had
      been sent. */
  lemma {:induction false} IngestSkipsUnnamed(u: Uploader, dir: string, writable: bool,
                                              listing: Folder, files: seq<Incoming>,
                                              stored: seq<Stored>, written: seq<string>)
    ensures Ingest(u, dir, writable, listing, files, stored, written) ==
            Ingest(u, dir, writable, listing, Named(files), stored, written)
    decreases |files|
  {
    if files != [] {
      var file := files[0];
      if ClientName(file.filename) == "" {
        assert Named(files) == Named(files[1..]);
        IngestSkipsUnnamed(u, dir, writable, listing, files[1..], stored, written);
      } else {
        var named := Named(files);
        assert named == [file] + Named(files[1..]);
        assert named[0] == file && named[1..] == Named(files[1..]);
        if file.field == UploadField {
          var name := TargetName(u, listing, ClientName(file.filename));
          IngestSkipsUnnamed(u, dir, writable, Put(listing, DirEntry(name, RegularFile(file.size))),
                             files[1..], stored + [Stored(name, file.size, PathJoin(dir, name))],
                             written + [name]);
        }
      }
    }
  }

  /** Every part from position `from` on has a filename. */
  predicate NamedFrom(all: seq<Incoming>, from: nat)
  {
    forall i :: from <= i < |all| ==> ClientName(all[i].filename) != ""
  }

  /** Every part from position `from` on belongs to the "files" field. */
  predicate FieldFrom(all: seq<Incoming>, from: nat)
  {
    forall i :: from <= i < |all| ==> all[i].field == UploadField
  }

  lemma {:induction false} HasDirectoryHas(f: Folder, name: string)
    ensures HasDirectory(f, name) ==> Has(f, name)
    decreases |f|
  {
    if f != [] {
      HasDirectoryHas(f[1..], name);
    }
  }

  /** Removing the names of entries that were added after a base the names are foreign to
      gives the base back. */
  lemma {:induction false} RemoveAdded(base: Folder, added: Folder, names: set<string>)
    requires forall n :: n in names ==> !Has(base, n)
    requires forall i :: 0 <= i < |added| ==> added[i].name in names
    ensures RemoveNames(base + added, names) == base
    decreases |added|
  {
    RemoveNamesAppend(base, added, names);
    RemoveAbsentNames(base, names);
    if added != [] {
      RemoveAdded([], added[1..], names);
      assert [] + added[1..] == added[1..];
      assert [] + base == base;
    }
  }

  /** The invariant of a collision-safe batch in progress: the folder is the base followed
      by the files completed so far, whose names the base does not hold. */
  predicate SafeProgress(base: Folder, stored: seq<Stored>)
  {
    DistinctNames(base + Entries(stored)) && forall n :: n in Names(stored) ==> !Has(base, n)
  }

  /** One file of a collision-safe batch: its name is free, so writing it appends one entry
      and the invariant carries over. */
  lemma SafeStep(dir: string, base: Folder, stored: seq<Stored>, original: string, size: nat)
    requires SafeProgress(base, stored)
    ensures var cur := base + Entries(stored);
      var name := FreeName(cur, original);
      var s := Stored(name, size, PathJoin(dir, name));
      && !HasDirectory(cur, name)
      && Put(cur, DirEntry(name, RegularFile(size))) == base + Entries(stored + [s])
      && Names(stored + [s]) == Names(stored) + [name]
      && SafeProgress(base, stored + [s])
  {
    var cur := base + Entries(stored);
    var name := FreeName(cur, original);
    FreeNameSpec(cur, original);
    HasAppend(base, Entries(stored), name);
    HasDirectoryHas(cur, name);
    var s := Stored(name, size, PathJoin(dir, name));
    assert Entries(stored + [s]) == Entries(stored) + [DirEntry(name, RegularFile(size))];
    assert Names(stored + [s]) == Names(stored) + [name];
  }

  /** A named file within the limit moves a collision-safe batch on by one stored file. */
  lemma SafeAdvance(dir: string, base: Folder, stored: seq<Stored>, all: seq<Incoming>)
    requires |stored| < |all| && SafeProgress(base, stored)
    requires ClientName(all[|stored|].filename) != ""
    requires all[|stored|].field == UploadField && all[|stored|].size <= MaxUploadBytes
    ensures var file := all[|stored|];
      var name := FreeName(base + Entries(stored), ClientName(file.filename));
      var stored' := stored + [Stored(name, file.size, PathJoin(dir, name))];
      && SafeProgress(base, stored')
      && Ingest(SafeUploader, dir, true, base + Entries(stored), all[|stored|..], stored,
                Names(stored)) ==
         Ingest(SafeUploader, dir, true, base + Entries(stored'), all[|stored'|..], stored',
                Names(stored'))
  {
    var file := all[|stored|];
    var original := ClientName(file.filename);
    var name := FreeName(base + Entries(stored), original);
    var stored' := stored + [Stored(name, file.size, PathJoin(dir, name))];
    SafeStep(dir, base, stored, original, file.size);
    assert all[|stored'|..] == all[|stored|..][1..];
  }

  /** The names of the completed files cover the entries they added. */
  lemma NamesCoverEntries(stored: seq<Stored>)
    ensures forall i :: 0 <= i < |Entries(stored)| ==>
      Entries(stored)[i].name in (set n | n in Names(stored))
  {
    forall i | 0 <= i < |Entries(stored)|
      ensures Entries(stored)[i].name in (set n | n in Names(stored))
    {
      assert Names(stored)[i] == stored[i].name;
    }
  }

  /** A named part the collision-safe uploader refuses: one outside the "files" field, or
      one over 100 MiB. */
  predicate Rejected(p: Incoming)
  {
    p.field != UploadField || p.size > MaxUploadBytes
  }

  /** The error a refused part stops the batch with. The field is checked before the file
      is opened, so a part outside "files" fails with LIMIT_UNEXPECTED_FILE whatever its
      size. */
  function RejectError(p: Incoming): UploadError
  {
    if p.field != UploadField then UnexpectedField else FileTooLarge
  }

  /** Part `j` is the first part from position `from` on that is refused. */
  predicate FirstRejected(all: seq<Incoming>, from: nat, j: int)
  {
    from <= j < |all| && Rejected(all[j]) && forall i :: from <= i < j ==> !Rejected(all[i])
  }

  /** There is at most one first refused part. */
  lemma FirstRejectedUnique(all: seq<Incoming>, from: nat, j: int, j': int)
    requires FirstRejected(all, from, j) && FirstRejected(all, from, j')
    ensures j == j'
  {
  }

  /** A part that is not refused passes the first refused part after it, and the question
      whether any part is refused, to the part before. */
  lemma RejectedStep(all: seq<Incoming>, from: nat)
    requires from < |all| && !Rejected(all[from])
    ensures (forall i :: from <= i < |all| ==> !Rejected(all[i])) <==>
            (forall i :: from + 1 <= i < |all| ==> !Rejected(all[i]))
    ensures forall j :: FirstRejected(all, from + 1, j) ==> FirstRejected(all, from, j)
  {
  }

  /** A refused named part stops a collision-safe batch at once, with its own error. */
  lemma SafeRejectFirst(dir: string, base: Folder, stored: seq<Stored>, all: seq<Incoming>)
    requires |stored| < |all| && SafeProgress(base, stored)
    requires ClientName(all[|stored|].filename) != "" && Rejected(all[|stored|])
    ensures Ingest(SafeUploader, dir, true, base + Entries(stored), all[|stored|..], stored,
                   Names(stored)).failure == Some(RejectError(all[|stored|]))
  {
    var file := all[|stored|];
    assert all[|stored|..][0] == file;
    if file.field == UploadField {
      SafeStep(dir, base, stored, ClientName(file.filename), file.size);
    }
  }

  /** A collision-safe batch of named parts into a directory fails exactly when a remaining
      part is refused, and then with the error of the first refused part. */
  lemma {:induction false} SafeIngestStatus(dir: string, base: Folder, stored: seq<Stored>,
                                            all: seq<Incoming>)
    requires |stored| <= |all| && SafeProgress(base, stored)
    requires NamedFrom(all, |stored|)
    ensures var run := Ingest(SafeUploader, dir, true, base + Entries(stored),
                              all[|stored|..], stored, Names(stored));
      && (run.failure.None? <==> forall i :: |stored| <= i < |all| ==> !Rejected(all[i]))
      && (run.failure.Some? ==>
            exists j :: FirstRejected(all, |stored|, j) && run.failure.value == RejectError(all[j]))
    decreases |all| - |stored|
  {
    if |stored| < |all| {
      var file := all[|stored|];
      if Rejected(file) {
        SafeRejectFirst(dir, base, stored, all);
        assert FirstRejected(all, |stored|, |stored|);
      } else {
        var name := FreeName(base + Entries(stored), ClientName(file.filename));
        var stored' := stored + [Stored(name, file.size, PathJoin(dir, name))];
        SafeAdvance(dir, base, stored, all);
        SafeIngestStatus(dir, base, stored', all);
        RejectedStep(all, |stored|);
      }
    }
  }

  /** Removing what a collision-safe batch of named parts wrote gives back the folder it
      started from. */
  lemma {:induction false} SafeIngestRollback(dir: string, base: Folder, stored: seq<Stored>,
                                              all: seq<Incoming>)
    requires |stored| <= |all| && SafeProgress(base, stored)
    requires NamedFrom(all, |stored|)
    ensures RolledBack(Ingest(SafeUploader, dir, true, base + Entries(stored),
                              all[|stored|..], stored, Names(stored))) == base
    decreases |all| - |stored|
  {
    var cur := base + Entries(stored);
    if |stored| < |all| && all[|stored|].field == UploadField {
      var file := all[|stored|];
      var original := ClientName(file.filename);
      assert original != "";
      var name := FreeName(cur, original);
      var size := if file.size > MaxUploadBytes then MaxUploadBytes else file.size;
      var stored' := stored + [Stored(name, size, PathJoin(dir, name))];
      SafeStep(dir, base, stored, original, size);
      if file.size > MaxUploadBytes {
        NamesCoverEntries(stored');
        RemoveAdded(base, Entries(stored'), set n | n in Names(stored'));
      } else {
        assert all[|stored'|..] == all[|stored|..][1..];
        SafeIngestRollback(dir, base, stored', all);
      }
    } else {
      if |stored| < |all| {
        assert ClientName(all[|stored|].filename) != "";
      }
      NamesCoverEntries(stored);
      RemoveAdded(base, Entries(stored), set n | n in Names(stored));
    }
  }

  /** The k-th stored file of a batch: the size sent by the client, the name the filename
      callback picks for the part's basename in the folder as it stood when that part
      arrived, and path.join of the destination and that name. */
  predicate FreshlyStored(base: Folder, stored: seq<Stored>, k: nat, file: Incoming,
                          dir: string)
    requires k < |stored|
  {
    var name := FreeName(base + Entries(stored[..k]), ClientName(file.filename));
    stored[k] == Stored(name, file.size, PathJoin(dir, name))
  }

  /** A collision-safe batch of named parts that succeeds appends one entry per part, in
      order, each under the name picked at its turn. */
  lemma {:induction false} SafeIngestStored(dir: string, base: Folder, stored: seq<Stored>,
                                            all: seq<Incoming>)
    requires |stored| <= |all| && SafeProgress(base, stored)
    requires NamedFrom(all, |stored|)
    ensures var run := Ingest(SafeUploader, dir, true, base + Entries(stored),
                              all[|stored|..], stored, Names(stored));
      run.failure.None? ==>
        && run.listing == base + Entries(run.stored)
        && |run.stored| == |all|
        && run.stored[..|stored|] == stored
        && forall k :: |stored| <= k < |all| ==> FreshlyStored(base, run.stored, k, all[k], dir)
    decreases |all| - |stored|
  {
    var run := Ingest(SafeUploader, dir, true, base + Entries(stored),
                      all[|stored|..], stored, Names(stored));
    if |stored| == |all| {
      assert all[|stored|..] == [];
      assert run.stored == stored;
    } else if Rejected(all[|stored|]) {
      SafeIngestStatus(dir, base, stored, all);
    } else {
      var file := all[|stored|];
      var name := FreeName(base + Entries(stored), ClientName(file.filename));
      var s := Stored(name, file.size, PathJoin(dir, name));
      var stored' := stored + [s];
      SafeAdvance(dir, base, stored, all);
      SafeIngestStored(dir, base, stored', all);
      if run.failure.None? {
        StoredPrefix(run.stored, stored, s);
        assert FreshlyStored(base, run.stored, |stored|, file, dir);
      }
    }
  }

  /** A prefix one longer than `stored` fixes the prefix and the element after it. */
  lemma StoredPrefix(rs: seq<Stored>, stored: seq<Stored>, s: Stored)
    requires |stored| < |rs| && rs[..|stored| + 1] == stored + [s]
    ensures rs[..|stored|] == stored && rs[|stored|] == s
  {
    assert rs[..|stored|] == rs[..|stored| + 1][..|stored|];
  }

  /** The named parts of a request: all of them have a filename, they are all in the
      "files" field when the request's named parts are, and one of them is too large, or
      refused, exactly when a named part of the request is. */
  lemma NamedParts(files: seq<Incoming>)
    ensures NamedFrom(Named(files), 0)
    ensures (forall i :: 0 <= i < |files| && ClientName(files[i].filename) != "" ==>
               files[i].field == UploadField) ==> FieldFrom(Named(files), 0)
    ensures (exists i :: 0 <= i < |Named(files)| && Named(files)[i].size > MaxUploadBytes) <==>
      exists i :: 0 <= i < |files| && ClientName(files[i].filename) != "" &&
        files[i].size > MaxUploadBytes
    ensures (exists i :: 0 <= i < |Named(files)| && Rejected(Named(files)[i])) <==>
      exists i :: 0 <= i < |files| && ClientName(files[i].filename) != "" && Rejected(files[i])
  {
    var named := Named(files);
    forall i | 0 <= i < |named|
      ensures ClientName(named[i].filename) != "" && named[i] in files
    {
      assert named[i] in named;
    }
    if i :| 0 <= i < |files| && ClientName(files[i].filename) != "" && Rejected(files[i]) {
      assert files[i] in named;
    }
  }

  /** POST /api/upload through the collision-safe uploader into a directory. The parts
      without a filename are dropped. The request fails exactly when some named part lies
      outside the "files" field or exceeds 100 MiB; the error is the one of the first such
      part (LIMIT_UNEXPECTED_FILE for a stray field, LIMIT_FILE_SIZE otherwise), and the
      folder is then as it was. Otherwise each named part is stored in order under the name
      the filename callback picks at its turn, with the size sent; no existing entry is
      touched and the new entries follow them. */
  lemma SafeUpload(dir: string, listing: Folder, files: seq<Incoming>)
    requires DistinctNames(listing)
    ensures var out := RunUploader(SafeUploader, dir, true, listing, files);
      var named := Named(files);
      && (out.result.Err? <==>
            exists i :: 0 <= i < |files| && ClientName(files[i].filename) != "" &&
              Rejected(files[i]))
      && (forall j :: FirstRejected(named, 0, j) ==> out.result == Err(RejectError(named[j])))
      && (out.result.Err? ==> out.listing == listing)
      && (out.result.Ok? ==>
           && out.listing == listing + Entries(out.result.value)
           && |out.result.value| == |named|
           && forall k :: 0 <= k < |named| ==>
                FreshlyStored(listing, out.result.value, k, named[k], dir))
  {
    var named := Named(files);
    IngestSkipsUnnamed(SafeUploader, dir, true, listing, files, [], []);
    NamedParts(files);
    assert listing + Entries([]) == listing;
    assert named[0..] == named;
    assert SafeProgress(listing, []);
    SafeIngestStatus(dir, listing, [], named);
    SafeIngestRollback(dir, listing, [], named);
    SafeIngestStored(dir, listing, [], named);
    var out := RunUploader(SafeUploader, dir, true, listing, files);
    forall j | FirstRejected(named, 0, j)
      ensures out.result == Err(RejectError(named[j]))
    {
      assert out.result.Err?;
      var j' :| FirstRejected(named, 0, j') && out.result.error == RejectError(named[j']);
      FirstRejectedUnique(named, 0, j, j');
    }
  }

  /** Each stored name is free in the folder it was written into, so the collision-safe
      uploader never replaces a file, and the folder keeps distinct names. */
  lemma SafeUploadKeepsFiles(dir: string, listing: Folder, files: seq<Incoming>)
    requires DistinctNames(listing)
    ensures var out := RunUploader(SafeUploader, dir, true, listing, files);
      && DistinctNames(out.listing)
      && forall d :: d in listing ==> d in out.listing
  {
    SafeUpload(dir, listing, files);
    UploadKeepsDistinct(SafeUploader, dir, true, listing, files);
  }

  /** A batch never lists two entries under one name, whatever the uploader. */
  lemma {:induction false} IngestKeepsDistinct(u: Uploader, dir: string, writable: bool,
                                               listing: Folder, files: seq<Incoming>,
                                               stored: seq<Stored>, written: seq<string>)
    requires DistinctNames(listing)
    ensures DistinctNames(Ingest(u, dir, writable, listing, files, stored, written).listing)
    decreases |files|
  {
    if files != [] {
      var file := files[0];
      var original := ClientName(file.filename);
      if original == "" {
        IngestKeepsDistinct(u, dir, writable, listing, files[1..], stored, written);
      } else if file.field == UploadField {
        var name := TargetName(u, listing, original);
        if writable && !HasDirectory(listing, name) &&
           !(u.sizeLimit.Some? && file.size > u.sizeLimit.value) {
          IngestKeepsDistinct(u, dir, writable, Put(listing, DirEntry(name, RegularFile(file.size))),
                              files[1..], stored + [Stored(name, file.size, PathJoin(dir, name))],
                              written + [name]);
        }
      }
    }
  }

  /** The folder after a request, successful or cleaned up, has distinct names. */
  lemma UploadKeepsDistinct(u: Uploader, dir: string, writable: bool, listing: Folder,
                            files: seq<Incoming>)
    requires DistinctNames(listing)
    ensures DistinctNames(RunUploader(u, dir, writable, listing, files).listing)
  {
    IngestKeepsDistinct(u, dir, writable, listing, files, [], []);
  }

  /** What a batch keeps of the folder it started from: the same directories, distinct
      names that can all be entries, and only names written that were not directories. */
  ghost predicate KeepsDirectories(base: Folder, listing: Folder, written: seq<string>)
  {
    && SameDirectories(base, listing) && DistinctNames(listing) && NamesAreComponents(listing)
    && forall n :: n in written ==> DirEntry(n, Directory) !in base
  }

  /** Writing a regular file under a name that is not a directory keeps the directories. */
  lemma PutFileKeeps(base: Folder, listing: Folder, written: seq<string>, name: string, size: nat)
    requires KeepsDirectories(base, listing, written)
    requires Component(name) && !HasDirectory(listing, name)
    ensures KeepsDirectories(base, Put(listing, DirEntry(name, RegularFile(size))), written + [name])
  {
    var e := DirEntry(name, RegularFile(size));
    var r := Put(listing, e);
    HasDirectoryEntry(listing, name);
    forall d ensures d in r <==> d == e || (d in listing && d.name != name) {
      PutEntries(listing, e, d);
    }
    assert DirEntry(name, Directory) !in base;
  }

  /** The name a part is written under can be a directory entry. */
  lemma TargetComponent(u: Uploader, listing: Folder, raw: string)
    requires ClientName(raw) != ""
    ensures Component(TargetName(u, listing, ClientName(raw)))
  {
    ClientNameSpec(raw);
    if u.renameOnCollision {
      FreeNameComponent(listing, ClientName(raw));
    }
  }

  /** A batch never turns a directory into a file nor removes one, whatever the uploader. */
  lemma {:induction false} IngestKeepsDirectories(u: Uploader, dir: string, writable: bool,
                                                  base: Folder, listing: Folder,
                                                  files: seq<Incoming>, stored: seq<Stored>,
                                                  written: seq<string>)
    requires KeepsDirectories(base, listing, written)
    ensures var run := Ingest(u, dir, writable, listing, files, stored, written);
      KeepsDirectories(base, run.listing, run.written)
    decreases |files|
  {
    if files != [] {
      var file := files[0];
      var original := ClientName(file.filename);
      if original == "" {
        IngestKeepsDirectories(u, dir, writable, base, listing, files[1..], stored, written);
      } else if file.field == UploadField {
        var name := TargetName(u, listing, original);
        TargetComponent(u, listing, file.filename);
        if writable && !HasDirectory(listing, name) {
          if u.sizeLimit.Some? && file.size > u.sizeLimit.value {
            PutFileKeeps(base, listing, written, name, u.sizeLimit.value);
          } else {
            PutFileKeeps(base, listing, written, name, file.size);
            IngestKeepsDirectories(u, dir, writable, base,
                                   Put(listing, DirEntry(name, RegularFile(file.size))),
                                   files[1..], stored + [Stored(name, file.size, PathJoin(dir, name))],
                                   written + [name]);
          }
        }
      }
    }
  }

  /** The clean-up removes only names that were written, none of which is a directory. */
  lemma RollbackKeepsDirectories(base: Folder, run: Run)
    requires KeepsDirectories(base, run.listing, run.written)
    ensures KeepsDirectories(base, RolledBack(run), run.written)
  {
    var names := set n | n in run.written;
    var r := RolledBack(run);
    forall d ensures d in r <==> d in run.listing && d.name !in names {
      RemoveNamesEntries(run.listing, names, d);
    }
  }

  /** Whatever the uploader and the parts, the folder afterwards, successful or cleaned up,
      has the same directories, distinct names and only names that can be entries. */
  lemma UploadKeepsDirectories(u: Uploader, dir: string, writable: bool, listing: Folder,
                               files: seq<Incoming>)
    requires DistinctNames(listing) && NamesAreComponents(listing)
    ensures var out := RunUploader(u, dir, writable, listing, files);
      SameDirectories(listing, out.listing) && DistinctNames(out.listing) &&
      NamesAreComponents(out.listing)
  {
    IngestKeepsDirectories(u, dir, writable, listing, listing, files, [], []);
    var run := Ingest(u, dir, writable, listing, files, [], []);
    if run.failure.Some? {
      RollbackKeepsDirectories(listing, run);
    }
  }

  /** The uploader setSharedFolder builds stores a named part under its basename whatever
      its size, replacing a file of that name where it stands in the listing. */
  lemma PlainUploaderOverwrites(dir: string, listing: Folder, raw: string, size: nat)
    requires DistinctNames(listing)
    requires ClientName(raw) != "" && !HasDirectory(listing, ClientName(raw))
    ensures var name := ClientName(raw);
      var out := RunUploader(PlainUploader, dir, true, listing, [Incoming(UploadField, raw, size)]);
      && out.result == Ok([Stored(name, size, PathJoin(dir, name))])
      && out.listing == Put(listing, DirEntry(name, RegularFile(size)))
      && forall d :: d in out.listing <==>
           d == DirEntry(name, RegularFile(size)) || (d in listing && d.name != name)
  {
    var name := ClientName(raw);
    var e := DirEntry(name, RegularFile(size));
    var file := Incoming(UploadField, raw, size);
    assert [file][1..] == [];
    assert TargetName(PlainUploader, listing, name) == name;
    assert Ingest(PlainUploader, dir, true, listing, [file], [], []) ==
      Ingest(PlainUploader, dir, true, Put(listing, e), [], [Stored(name, size, PathJoin(dir, name))], [name]);
    forall d ensures d in Put(listing, e) <==> d == e || (d in listing && d.name != name) {
      PutEntries(listing, e, d);
    }
  }
}
