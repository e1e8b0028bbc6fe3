/** FileShareServer: one shared folder served over HTTP, with a registry of live clients
    and a log of the "files-updated" events it broadcasts to them. The shared folder is a
    path string, resolved against the host's file system on every request as `fs` resolves
    it. Each route handler and socket callback runs as one atomic step. */
module Server {
  import opened Options
  import opened Posix
  import opened Paths
  import opened Folders
  import opened Disks
  import opened Uploads
  import opened Watcher

  /** stat of the entries read from directory path `dir`, in listing order: the regular
      files with their sizes, or None as soon as one entry's path does not resolve. */
  function StatFiles(disk: Disk, cwd: Place, dir: string, entries: Folder): Option<seq<FileInfo>>
    decreases |entries|
  {
    if entries == [] then Some([])
    else
      match Locate(disk, cwd, PathJoin(dir, entries[0].name))
      case None => None
      case Some(q) =>
        match StatFiles(disk, cwd, dir, entries[1..])
        case None => None
        case Some(rest) =>
          Some(if disk[q].FileNode? then [FileInfo(entries[0].name, disk[q].size)] + rest else rest)
  }

  /** getFileList: readdir of the shared folder, stat of path.join(folder, name) for every
      name, the directories filtered out; any failure gives []. */
  function FileList(disk: Disk, cwd: Place, dir: string): seq<FileInfo>
  {
    match Locate(disk, cwd, dir)
    case None => []
    case Some(d) =>
      if disk[d].FileNode? then []
      else
        match StatFiles(disk, cwd, dir, disk[d].listing)
        case None => []
        case Some(files) => files
  }

  /** An entry of the directory that path.join puts names into resolves one level down,
      and stat sees the kind and size its listing gives. */
  lemma EntryResolved(disk: Disk, cwd: Place, dir: string, d: Place, e: DirEntry)
    requires Coherent(disk) && JoinDir(disk, cwd, dir) == Some(d) && disk[d].DirNode?
    requires e in disk[d].listing
    ensures Locate(disk, cwd, PathJoin(dir, e.name)) == Some(d + [e.name])
    ensures d + [e.name] in disk && Agrees(disk[d + [e.name]], e.kind)
  {
    assert EntriesPresent(disk);
    assert Component(e.name) && d + [e.name] in disk && Agrees(disk[d + [e.name]], e.kind);
    HasEntry(disk[d].listing, e.name);
    LocateJoin(disk, cwd, dir, e.name);
  }

  /** Entry `e` of the directory at `d` resolves through path.join one level down, to a
      node of the kind the entry lists. */
  ghost predicate ResolvesBelow(disk: Disk, cwd: Place, dir: string, d: Place, e: DirEntry)
  {
    Locate(disk, cwd, PathJoin(dir, e.name)) == Some(d + [e.name]) &&
    d + [e.name] in disk && Agrees(disk[d + [e.name]], e.kind)
  }

  /** One step of stat over the entries: the first entry's file, if it is one, before the
      rest. */
  lemma StatFilesStep(disk: Disk, cwd: Place, dir: string, d: Place, entries: Folder,
                      rest: seq<FileInfo>)
    requires entries != [] && ResolvesBelow(disk, cwd, dir, d, entries[0])
    requires StatFiles(disk, cwd, dir, entries[1..]) == Some(rest)
    ensures StatFiles(disk, cwd, dir, entries) ==
      Some(ListFiles([entries[0]]) + rest)
  {
    var e := entries[0];
    var q := d + [e.name];
    ListFilesSingle(e);
    assert Locate(disk, cwd, PathJoin(dir, e.name)) == Some(q);
    if e.kind.Directory? {
      assert disk[q].DirNode? && ListFiles([e]) + rest == rest;
    } else {
      assert disk[q] == FileNode(e.kind.size);
    }
  }

  /** When every entry resolves one level below `d` to a node of the kind it lists, stat
      gives each entry's kind and size as its listing says. */
  lemma {:induction false} StatFilesListed(disk: Disk, cwd: Place, dir: string, d: Place,
                                           entries: Folder)
    requires forall e :: e in entries ==> ResolvesBelow(disk, cwd, dir, d, e)
    ensures StatFiles(disk, cwd, dir, entries) == Some(ListFiles(entries))
    decreases |entries|
  {
    if entries != [] {
      assert entries[0] in entries;
      assert forall x :: x in entries[1..] ==> x in entries;
      StatFilesListed(disk, cwd, dir, d, entries[1..]);
      StatFilesStep(disk, cwd, dir, d, entries, ListFiles(entries[1..]));
      assert entries == [entries[0]] + entries[1..];
      ListFilesAppend([entries[0]], entries[1..]);
    }
  }

  /** Every entry of that directory resolves, so stat gives each entry's kind and size as
      its listing says. */
  lemma StatFilesResolved(disk: Disk, cwd: Place, dir: string, d: Place)
    requires Coherent(disk) && JoinDir(disk, cwd, dir) == Some(d) && disk[d].DirNode?
    ensures StatFiles(disk, cwd, dir, disk[d].listing) == Some(ListFiles(disk[d].listing))
  {
    forall e | e in disk[d].listing
      ensures ResolvesBelow(disk, cwd, dir, d, e)
    {
      EntryResolved(disk, cwd, dir, d, e);
    }
    StatFilesListed(disk, cwd, dir, d, disk[d].listing);
  }

  /** When the shared folder names the same place read directly and through path.join, the
      list is that directory's regular files in listing order, and [] when it is a file. */
  lemma FileListResolved(disk: Disk, cwd: Place, dir: string, d: Place)
    requires Coherent(disk) && Locate(disk, cwd, dir) == Some(d) && JoinDir(disk, cwd, dir) == Some(d)
    ensures FileList(disk, cwd, dir) == if disk[d].DirNode? then ListFiles(disk[d].listing) else []
  {
    if disk[d].DirNode? {
      StatFilesResolved(disk, cwd, dir, d);
    }
  }

  /** For a shared folder given by its canonical path, the list holds exactly the regular
      files of the directory with their sizes, in listing order, and is empty when there is
      no such directory. */
  lemma FileListCanonical(disk: Disk, cwd: Place, c: seq<string>, x: FileInfo)
    requires Coherent(disk) && AllComponents(c)
    ensures !(c in disk && disk[c].DirNode?) ==> FileList(disk, cwd, Render(c)) == []
    ensures c in disk && disk[c].DirNode? ==>
      && FileList(disk, cwd, Render(c)) == ListFiles(disk[c].listing)
      && (x in FileList(disk, cwd, Render(c)) <==> DirEntry(x.name, RegularFile(x.size)) in disk[c].listing)
  {
    LocateRender(disk, cwd, c);
    JoinDirRender(disk, cwd, c);
    if c in disk {
      FileListResolved(disk, cwd, Render(c), c);
      if disk[c].DirNode? {
        ListFilesMembers(disk[c].listing, x);
      }
    }
  }

  datatype ServerError =
    | FileNotFound
    | NotSent
    | RemoveFailed
    | InvalidFolderPath
    | UploadFailed(cause: UploadError)
    | MissingFiles

  /** The body of a response. */
  datatype Reply =
    | Files(files: seq<FileInfo>)
    | UploadDone(message: string, uploaded: seq<Stored>)
    | Attachment(path: string, filename: string)
    | Deleted
    | ServerInfo(sharedFolder: string, connectedClients: nat)
    | FolderSet(sharedFolder: string)
    | Failure(error: ServerError)

  datatype Response = Response(status: nat, reply: Reply)

  /** The `type` of a files-updated event sent on a watcher event. */
  datatype ChangeType = Add | Change | Delete

  /** The payload of one io.emit("files-updated", ...). */
  datatype Broadcast =
    | UploadEvent(files: seq<Stored>)
    | DeleteEvent(filename: string)
    | ChangeEvent(kind: ChangeType, list: seq<FileInfo>)

  /** A POST /api/upload request: multipart, with its file parts, or not. */
  datatype UploadRequest = NotMultipart | Multipart(files: seq<Incoming>)

  /** What one request does: the disk afterwards, the response and the broadcasts. */
  datatype Effect = Effect(disk: Disk, response: Response, events: seq<Broadcast>)

  function UploadMessage(count: nat): string
  {
    Decimal(count) + " file(s) uploaded successfully"
  }

  /** POST /api/upload through uploader `u` into shared folder `sf`. The files go into the
      directory that path.join(sf, name) names; when there is no such directory, writing
      fails. A request that is not multipart has no req.files and fails in the handler; an
      uploader error reaches Express's default error handler, which answers 500. */
  function UploadEffect(u: Uploader, disk: Disk, cwd: Place, sf: string, req: UploadRequest): Effect
  {
    match req
    case NotMultipart => Effect(disk, Response(500, Failure(MissingFiles)), [])
    case Multipart(files) =>
      var dir := JoinDir(disk, cwd, sf);
      var writable := dir.Some? && disk[dir.value].DirNode?;
      var listing := if writable then disk[dir.value].listing else [];
      var out := RunUploader(u, sf, writable, listing, files);
      var disk' := if writable then WithFiles(disk, dir.value, out.listing) else disk;
      match out.result
      case Ok(stored) =>
        Effect(disk', Response(200, UploadDone(UploadMessage(|stored|), stored)), [UploadEvent(stored)])
      case Err(e) =>
        Effect(disk', Response(500, Failure(UploadFailed(e))), [])
  }

  /** Whatever the uploader and the parts, an upload keeps the tree coherent. */
  lemma UploadKeepsCoherent(u: Uploader, disk: Disk, cwd: Place, sf: string, req: UploadRequest)
    requires Coherent(disk)
    ensures Coherent(UploadEffect(u, disk, cwd, sf, req).disk)
  {
    var dir := JoinDir(disk, cwd, sf);
    if req.Multipart? && dir.Some? && disk[dir.value].DirNode? {
      var listing := disk[dir.value].listing;
      ListingOf(disk, dir.value);
      UploadKeepsDirectories(u, sf, true, listing, req.files);
      WithFilesCoherent(disk, dir.value, RunUploader(u, sf, true, listing, req.files).listing);
    }
  }

  /** The upload route into a shared folder that leads to a directory. It answers 200
      exactly when no named part lies outside the "files" field or exceeds 100 MiB. Then the
      response and the single upload event carry one stored file per named part, with the
      size sent and the path path.join gives; the directory gains exactly those entries
      after its old ones, and each stored path now names a regular file of that size.
      Otherwise the answer is 500 with the error of the first refused part, nothing is
      broadcast and the disk is as it was. */
  lemma SafeUploadEffect(disk: Disk, cwd: Place, sf: string, files: seq<Incoming>)
    requires Coherent(disk) && JoinDir(disk, cwd, sf).Some?
    requires disk[JoinDir(disk, cwd, sf).value].DirNode?
    ensures var d := JoinDir(disk, cwd, sf).value;
      var named := Named(files);
      var eff := UploadEffect(SafeUploader, disk, cwd, sf, Multipart(files));
      && (eff.response.status == 200 <==>
            forall i :: 0 <= i < |files| && ClientName(files[i].filename) != "" ==>
              !Rejected(files[i]))
      && (eff.response.status == 200 ==>
           && eff.response.reply.UploadDone?
           && var stored := eff.response.reply.uploaded;
           && eff.events == [UploadEvent(stored)]
           && |stored| == |named|
           && (forall k :: 0 <= k < |named| ==>
                stored[k].size == named[k].size && stored[k].path == PathJoin(sf, stored[k].name))
           && eff.disk == WithFiles(disk, d, disk[d].listing + Entries(stored))
           && (forall k :: 0 <= k < |stored| ==>
                Locate(eff.disk, cwd, stored[k].path) == Some(d + [stored[k].name]) &&
                eff.disk[d + [stored[k].name]] == FileNode(stored[k].size)))
      && (forall j :: FirstRejected(named, 0, j) ==>
            eff.response == Response(500, Failure(UploadFailed(RejectError(named[j])))))
      && (eff.response.status != 200 ==> eff.events == [] && eff.disk == disk)
  {
    var d := JoinDir(disk, cwd, sf).value;
    var listing := disk[d].listing;
    var named := Named(files);
    SafeUpload(sf, listing, files);
    ListingOf(disk, d);
    UploadKeepsDirectories(SafeUploader, sf, true, listing, files);
    var out := RunUploader(SafeUploader, sf, true, listing, files);
    if out.result.Ok? {
      var stored := out.result.value;
      forall k | 0 <= k < |named|
        ensures stored[k].size == named[k].size && stored[k].path == PathJoin(sf, stored[k].name)
      {
        assert FreshlyStored(listing, stored, k, named[k], sf);
      }
      forall k | 0 <= k < |stored|
        ensures Locate(WithFiles(disk, d, out.listing), cwd, stored[k].path) == Some(d + [stored[k].name])
        ensures WithFiles(disk, d, out.listing)[d + [stored[k].name]] == FileNode(stored[k].size)
      {
        assert Entries(stored)[k] == DirEntry(stored[k].name, RegularFile(stored[k].size));
        assert Entries(stored)[k] in out.listing;
        assert FreshlyStored(listing, stored, k, named[k], sf);
        WithFilesLocate(disk, cwd, sf, d, out.listing, stored[k].name, stored[k].size);
      }
    } else {
      WithFilesSame(disk, d);
    }
  }

  /** Parts without a filename leave the folder as it was, with nothing stored. */
  lemma NoNamedParts(u: Uploader, dir: string, writable: bool, listing: Folder, files: seq<Incoming>)
    requires forall i :: 0 <= i < |files| ==> ClientName(files[i].filename) == ""
    ensures RunUploader(u, dir, writable, listing, files) == Outcome(listing, Ok([]))
  {
    IngestSkipsUnnamed(u, dir, writable, listing, files, [], []);
    assert Named(files) == [];
  }

  /** The message for a batch that stored nothing. */
  lemma NoFilesMessage()
    ensures UploadMessage(0) == "0 file(s) uploaded successfully"
  {
    assert Decimal(0) == "0";
  }

  /** A request whose parts all lack a filename stores nothing and still answers 200, with
      "0 file(s) uploaded successfully" and one upload event that lists no file. */
  lemma UploadWithoutFiles(u: Uploader, disk: Disk, cwd: Place, sf: string, files: seq<Incoming>)
    requires Coherent(disk)
    requires forall i :: 0 <= i < |files| ==> ClientName(files[i].filename) == ""
    ensures UploadEffect(u, disk, cwd, sf, Multipart(files)) ==
      Effect(disk, Response(200, UploadDone("0 file(s) uploaded successfully", [])), [UploadEvent([])])
  {
    var dir := JoinDir(disk, cwd, sf);
    var writable := dir.Some? && disk[dir.value].DirNode?;
    var listing := if writable then disk[dir.value].listing else [];
    NoNamedParts(u, sf, writable, listing, files);
    var eff := UploadEffect(u, disk, cwd, sf, Multipart(files));
    assert eff.response == Response(200, UploadDone(UploadMessage(0), []));
    assert eff.events == [UploadEvent([])];
    NoFilesMessage();
    if writable {
      WithFilesSame(disk, dir.value);
    }
  }

  /** An upload into a shared folder that leads to no directory stores nothing: the first
      named part of the "files" field fails to be written. */
  lemma UploadIntoMissingFolder(u: Uploader, disk: Disk, cwd: Place, sf: string, files: seq<Incoming>)
    requires !(JoinDir(disk, cwd, sf).Some? && disk[JoinDir(disk, cwd, sf).value].DirNode?)
    requires Named(files) != [] && Named(files)[0].field == UploadField
    ensures UploadEffect(u, disk, cwd, sf, Multipart(files)) ==
      Effect(disk, Response(500, Failure(UploadFailed(WriteFailed))), [])
  {
    IngestSkipsUnnamed(u, sf, false, [], files, [], []);
    assert Named(files)[0] in Named(files);
  }

  /** GET /api/download/:filename. A path that does not exist answers 404. res.download
      does not send a directory, nor a path whose last component starts with '.', and
      those requests fall through to Express's 404. Otherwise the file is sent as an
      attachment under the requested name. */
  function DownloadResponse(disk: Disk, cwd: Place, sf: string, filename: string): Response
  {
    var filePath := PathJoin(sf, filename);
    match Locate(disk, cwd, filePath)
    case None => Response(404, Failure(FileNotFound))
    case Some(t) =>
      if disk[t].DirNode? || (t != [] && Last(t) != "" && Last(t)[0] == '.') then
        Response(404, Failure(NotSent))
      else Response(200, Attachment(filePath, filename))
  }

  /** Downloading a name from a shared folder given by its canonical path: a name the
      directory does not hold answers 404 "File not found"; a directory or a dotfile is not
      sent; any other file is sent from the canonical path one level down. */
  lemma DownloadCanonical(disk: Disk, cwd: Place, c: seq<string>, name: string)
    requires Coherent(disk) && AllComponents(c) && c in disk && disk[c].DirNode?
    requires Component(name)
    ensures var listing := disk[c].listing;
      var r := DownloadResponse(disk, cwd, Render(c), name);
      && (!Has(listing, name) ==> r == Response(404, Failure(FileNotFound)))
      && (Has(listing, name) && (HasDirectory(listing, name) || name[0] == '.') ==>
            r == Response(404, Failure(NotSent)))
      && (Has(listing, name) && !HasDirectory(listing, name) && name[0] != '.' ==>
            r == Response(200, Attachment(Render(c + [name]), name)))
  {
    var listing := disk[c].listing;
    JoinDirRender(disk, cwd, c);
    LocateJoin(disk, cwd, Render(c), name);
    JoinRender(c, name);
    ParentOfChild(c, name);
    if Has(listing, name) {
      ChildIff(disk, c, name);
      HasDirectoryEntry(listing, name);
      if disk[c + [name]].DirNode? {
        DirectoryEntryOf(disk, c, name);
      }
      if DirEntry(name, Directory) in listing {
        assert EntriesPresent(disk);
        assert Agrees(disk[c + [name]], Directory);
      }
    }
  }

  /** DELETE /api/files/:filename. A path that does not exist answers 404. Otherwise the
      place it names is removed with everything below it, the answer is 200 and a delete
      event is broadcast; removing the root fails and answers 500. */
  function DeleteEffect(disk: Disk, cwd: Place, sf: string, filename: string): Effect
    requires Coherent(disk)
  {
    match Locate(disk, cwd, PathJoin(sf, filename))
    case None => Effect(disk, Response(404, Failure(FileNotFound)), [])
    case Some(t) =>
      if t == [] then Effect(RemoveTree(disk, []), Response(500, Failure(RemoveFailed)), [])
      else
        Listed(disk, t);
        Effect(RemoveTree(disk, t), Response(200, Deleted), [DeleteEvent(filename)])
  }

  /** A delete keeps the tree coherent; a path that exists loses exactly the places at or
      below it, and one that does not leaves everything as it was. */
  lemma DeleteSpec(disk: Disk, cwd: Place, sf: string, filename: string, q: Place)
    requires Coherent(disk)
    ensures var eff := DeleteEffect(disk, cwd, sf, filename);
      && Coherent(eff.disk)
      && match Locate(disk, cwd, PathJoin(sf, filename))
         case None =>
           eff == Effect(disk, Response(404, Failure(FileNotFound)), [])
         case Some(t) =>
           && (t != [] ==> eff.response == Response(200, Deleted) &&
                             eff.events == [DeleteEvent(filename)] &&
                             (q in eff.disk <==> q in disk && !Below(t, q)))
           && (t == [] ==> eff.response == Response(500, Failure(RemoveFailed)) &&
                             eff.events == [] && eff.disk == map[[] := DirNode([])])
  {
    match Locate(disk, cwd, PathJoin(sf, filename))
    case None =>
    case Some(t) =>
      RemoveTreeCoherent(disk, t);
      if t != [] {
        RemoveTreeKeys(disk, t, q);
      }
  }

  /** Deleting a name from a shared folder given by its canonical path: afterwards the name
      no longer exists there, and the file list is the old one less the entry under that
      name. */
  lemma DeleteRemovesOnlyThat(disk: Disk, cwd: Place, c: seq<string>, name: string, x: FileInfo)
    requires Coherent(disk) && AllComponents(c) && c in disk && disk[c].DirNode?
    requires Component(name) && Has(disk[c].listing, name)
    ensures var eff := DeleteEffect(disk, cwd, Render(c), name);
      && eff.response == Response(200, Deleted)
      && Locate(eff.disk, cwd, PathJoin(Render(c), name)).None?
      && c in eff.disk && eff.disk[c] == DirNode(RemoveNames(disk[c].listing, {name}))
      && (x in FileList(eff.disk, cwd, Render(c)) <==> x in FileList(disk, cwd, Render(c)) && x.name != name)
      && |eff.disk[c].listing| == |disk[c].listing| - 1
  {
    var listing := disk[c].listing;
    var t := c + [name];
    JoinDirRender(disk, cwd, c);
    LocateJoin(disk, cwd, Render(c), name);
    ParentOfChild(c, name);
    var eff := DeleteEffect(disk, cwd, Render(c), name);
    RemoveTreeCoherent(disk, t);
    RemoveTreeKeys(disk, t, c);
    RemoveTreeKeys(disk, t, t);
    assert eff.disk[c] == DirNode(RemoveNames(listing, {name}));
    JoinDirRender(eff.disk, cwd, c);
    LocateJoin(eff.disk, cwd, Render(c), name);
    ListingOf(disk, c);
    FileListCanonical(disk, cwd, c, x);
    FileListCanonical(eff.disk, cwd, c, x);
    RemoveOne(listing, name, DirEntry(x.name, RegularFile(x.size)));
  }

  /** The file name is not checked: "." names the shared folder itself, which a delete
      removes with everything in it, answering 200. */
  lemma DeleteDotRemovesFolder(disk: Disk, cwd: Place, c: seq<string>)
    requires Coherent(disk) && AllComponents(c) && c != [] && c in disk
    ensures var eff := DeleteEffect(disk, cwd, Render(c), ".");
      && eff.response == Response(200, Deleted)
      && eff.events == [DeleteEvent(".")]
      && c !in eff.disk
      && FileList(eff.disk, cwd, Render(c)) == []
  {
    JoinDot(c);
    LocateRender(disk, cwd, c);
    var eff := DeleteEffect(disk, cwd, Render(c), ".");
    Listed(disk, c);
    RemoveTreeCoherent(disk, c);
    RemoveTreeKeys(disk, c, c);
    assert Below(c, c);
    FileListCanonical(eff.disk, cwd, c, FileInfo("", 0));
  }

  /** ".." names the folder's parent, which a delete removes together with the shared
      folder. */
  lemma DeleteDotDotRemovesParent(disk: Disk, cwd: Place, c: seq<string>)
    requires Coherent(disk) && AllComponents(c) && |c| >= 2 && c in disk
    ensures var eff := DeleteEffect(disk, cwd, Render(c), "..");
      && eff.response == Response(200, Deleted)
      && c[..|c| - 1] !in eff.disk && c !in eff.disk
  {
    var up := c[..|c| - 1];
    JoinDotDot(c);
    assert AllComponents(up) by {
      forall i | 0 <= i < |up| ensures Component(up[i]) {
        assert up[i] == c[i];
      }
    }
    Ancestor(disk, c, |c| - 1);
    LocateRender(disk, cwd, up);
    DeleteSpec(disk, cwd, Render(c), "..", up);
    DeleteSpec(disk, cwd, Render(c), "..", c);
    assert Below(up, up) && Below(up, c);
  }

  /** The test set-folder applies before switching: a path given in the body that is
      non-empty and exists. */
  function FolderAccepted(disk: Disk, cwd: Place, folderPath: Option<string>): bool
  {
    folderPath.Some? && folderPath.value != "" && Locate(disk, cwd, folderPath.value).Some?
  }

  /** Set-folder on a canonical path is accepted exactly when the place exists, file or
      directory; with a '/' added, exactly when it is a directory. */
  lemma FolderAcceptedCanonical(disk: Disk, cwd: Place, c: seq<string>)
    requires Coherent(disk) && AllComponents(c)
    ensures FolderAccepted(disk, cwd, Some(Render(c))) <==> c in disk
    ensures FolderAccepted(disk, cwd, Some(Render(c) + "/")) <==> c in disk && disk[c].DirNode?
  {
    LocateRender(disk, cwd, c);
    LocateTrailingSlash(disk, cwd, c);
  }

  /** The collision-safe uploader, given one part under a plain name within the size limit
      and an empty writable folder, stores it under that name. */
  lemma UploadOneIntoEmpty(dir: string, name: string, size: nat)
    requires name != "" && ClientName(name) == name && size <= MaxUploadBytes
    ensures RunUploader(SafeUploader, dir, true, [], [Incoming(UploadField, name, size)]) ==
      Outcome([DirEntry(name, RegularFile(size))], Ok([Stored(name, size, PathJoin(dir, name))]))
  {
    var file := Incoming(UploadField, name, size);
    var e := DirEntry(name, RegularFile(size));
    var st := Stored(name, size, PathJoin(dir, name));
    assert [file][1..] == [];
    assert TargetName(SafeUploader, [], name) == name;
    assert Put([], e) == [e];
    assert Ingest(SafeUploader, dir, true, [e], [], [st], [name]) == Run([e], [st], [name], None);
    assert [] + [st] == [st] && [] + [name] == [name];
    assert Ingest(SafeUploader, dir, true, [], [file], [], []) ==
           Ingest(SafeUploader, dir, true, [e], [], [st], [name]);
  }

  /** Uploading one file, sent under a plain name within the size limit, into an empty
      folder `c` answers 200 and leaves the folder holding just that file. */
  lemma UploadIntoEmpty(disk: Disk, cwd: Place, c: seq<string>, name: string, size: nat)
    requires Coherent(disk) && AllComponents(c) && c in disk && disk[c] == DirNode([])
    requires name != "" && ClientName(name) == name && size <= MaxUploadBytes
    ensures var up := UploadEffect(SafeUploader, disk, cwd, Render(c),
                                   Multipart([Incoming(UploadField, name, size)]));
      && up.response.status == 200
      && Coherent(up.disk)
      && c in up.disk && up.disk[c] == DirNode([DirEntry(name, RegularFile(size))])
  {
    var file := Incoming(UploadField, name, size);
    JoinDirRender(disk, cwd, c);
    UploadOneIntoEmpty(Render(c), name, size);
    UploadKeepsCoherent(SafeUploader, disk, cwd, Render(c), Multipart([file]));
    var e := DirEntry(name, RegularFile(size));
    assert UploadEffect(SafeUploader, disk, cwd, Render(c), Multipart([file])).disk ==
           WithFiles(disk, c, [e]);
    assert !Dropped(c, [e], c);
  }

  /** The story of one file in a folder `c` that starts empty: uploading it answers 200
      and lists it with its size, and set-folder now accepts its path; deleting it empties
      the list again, and set-folder then refuses the path. */
  lemma UploadThenDelete(disk: Disk, cwd: Place, c: seq<string>, name: string, size: nat)
    requires Coherent(disk) && AllComponents(c) && c in disk && disk[c] == DirNode([])
    requires name != "" && ClientName(name) == name && size <= MaxUploadBytes
    ensures var up := UploadEffect(SafeUploader, disk, cwd, Render(c),
                                   Multipart([Incoming(UploadField, name, size)]));
      && up.response.status == 200
      && FileList(up.disk, cwd, Render(c)) == [FileInfo(name, size)]
      && FolderAccepted(up.disk, cwd, Some(Render(c + [name])))
      && Coherent(up.disk)
      && var del := DeleteEffect(up.disk, cwd, Render(c), name);
      && del.response == Response(200, Deleted)
      && FileList(del.disk, cwd, Render(c)) == []
      && !FolderAccepted(del.disk, cwd, Some(Render(c + [name])))
  {
    ClientNameSpec(name);
    UploadIntoEmpty(disk, cwd, c, name, size);
    var up := UploadEffect(SafeUploader, disk, cwd, Render(c),
                           Multipart([Incoming(UploadField, name, size)]));
    ListedAfterUpload(up.disk, cwd, c, name, size);
    DeleteAfterUpload(up.disk, cwd, c, name, size);
  }

  /** A folder that holds only one file lists it, and set-folder accepts its path. */
  lemma ListedAfterUpload(disk: Disk, cwd: Place, c: seq<string>, name: string, size: nat)
    requires Coherent(disk) && AllComponents(c) && c in disk && Component(name)
    requires disk[c] == DirNode([DirEntry(name, RegularFile(size))])
    ensures FileList(disk, cwd, Render(c)) == [FileInfo(name, size)]
    ensures FolderAccepted(disk, cwd, Some(Render(c + [name])))
  {
    var e := DirEntry(name, RegularFile(size));
    ListFilesSingle(e);
    FileListCanonical(disk, cwd, c, FileInfo(name, size));
    assert Has([e], name);
    ChildIff(disk, c, name);
    assert AllComponents(c + [name]);
    FolderAcceptedCanonical(disk, cwd, c + [name]);
  }

  /** Deleting the one file of a folder answers 200 and leaves the folder empty, the path
      gone. */
  lemma DeleteAfterUpload(disk: Disk, cwd: Place, c: seq<string>, name: string, size: nat)
    requires Coherent(disk) && AllComponents(c) && c in disk && Component(name)
    requires disk[c] == DirNode([DirEntry(name, RegularFile(size))])
    ensures var del := DeleteEffect(disk, cwd, Render(c), name);
      && del.response == Response(200, Deleted)
      && FileList(del.disk, cwd, Render(c)) == []
      && !FolderAccepted(del.disk, cwd, Some(Render(c + [name])))
  {
    var e := DirEntry(name, RegularFile(size));
    assert Has([e], name);
    DeleteRemovesOnlyThat(disk, cwd, c, name, FileInfo(name, size));
    var del := DeleteEffect(disk, cwd, Render(c), name);
    assert RemoveNames([e], {name}) == [] by {
      assert [e][1..] == [];
    }
    DeleteSpec(disk, cwd, Render(c), name, c + [name]);
    FileListCanonical(del.disk, cwd, c, FileInfo(name, size));
    ChildIff(del.disk, c, name);
    assert AllComponents(c + [name]);
    FolderAcceptedCanonical(del.disk, cwd, c + [name]);
  }

  /** The server. `upload` is the multer instance held in this.upload; `uploadRoute` is the
      middleware the upload route bound when the routes were set up, which later
      assignments to this.upload do not replace. `cwd` is the working directory relative
      paths resolve from. */
  class FileShareServer {
    var sharedFolder: string
    var disk: Disk
    const cwd: Place
    var connectedClients: set<string>
    var upload: Uploader
    const uploadRoute: Uploader
    var broadcasts: seq<Broadcast>

    ghost predicate Valid()
      reads this
    {
      uploadRoute == SafeUploader && Coherent(disk)
    }

    /** A new server sharing path.join(home, "LocalFileShare"), with the collision-safe
        uploader. */
    constructor (home: string, workingDirectory: Place, hostDisk: Disk)
      requires Coherent(hostDisk)
      ensures Valid()
      ensures sharedFolder == PathJoin(home, "LocalFileShare") && disk == hostDisk
      ensures cwd == workingDirectory
      ensures connectedClients == {} && broadcasts == []
      ensures upload == SafeUploader && uploadRoute == SafeUploader
    {
      sharedFolder := PathJoin(home, "LocalFileShare");
      disk := hostDisk;
      cwd := workingDirectory;
      connectedClients := {};
      upload := SafeUploader;
      uploadRoute := SafeUploader;
      broadcasts := [];
    }

    /** getFileList. */
    method GetFileList() returns (files: seq<FileInfo>)
      ensures files == FileList(disk, cwd, sharedFolder)
    {
      files := FileList(disk, cwd, sharedFolder);
    }

    /** GET /api/files. getFileList never fails, so the 500 branch is never taken. */
    method ListRoute() returns (resp: Response)
      ensures resp.status == 200
      ensures resp.reply == Files(FileList(disk, cwd, sharedFolder))
    {
      var files := GetFileList();
      resp := Response(200, Files(files));
    }

    /** POST /api/upload. The filename callback runs for each part in turn against the
        folder as the earlier parts left it. */
    method Upload(req: UploadRequest) returns (resp: Response)
      requires Valid()
      modifies this
      ensures Valid()
      ensures var eff := UploadEffect(uploadRoute, old(disk), cwd, old(sharedFolder), req);
        disk == eff.disk && resp == eff.response && broadcasts == old(broadcasts) + eff.events
      ensures sharedFolder == old(sharedFolder) && upload == old(upload)
      ensures connectedClients == old(connectedClients)
    {
      UploadKeepsCoherent(uploadRoute, disk, cwd, sharedFolder, req);
      if req.NotMultipart? {
        resp := Response(500, Failure(MissingFiles));
        return;
      }
      var files := req.files;
      var dir := JoinDir(disk, cwd, sharedFolder);
      var writable := dir.Some? && disk[dir.value].DirNode?;
      var listing := if writable then disk[dir.value].listing else [];
      var run := IngestBatch(uploadRoute, sharedFolder, writable, listing, files);
      if run.failure.None? {
        if writable {
          disk := WithFiles(disk, dir.value, run.listing);
        }
        broadcasts := broadcasts + [UploadEvent(run.stored)];
        resp := Response(200, UploadDone(UploadMessage(|run.stored|), run.stored));
      } else {
        if writable {
          disk := WithFiles(disk, dir.value, RolledBack(run));
        }
        resp := Response(500, Failure(UploadFailed(run.failure.value)));
      }
    }

    /** GET /api/download/:filename. */
    method Download(filename: string) returns (resp: Response)
      ensures resp == DownloadResponse(disk, cwd, sharedFolder, filename)
    {
      var filePath := PathJoin(sharedFolder, filename);
      var t := Locate(disk, cwd, filePath);
      if t.None? {
        return Response(404, Failure(FileNotFound));
      }
      var place := t.value;
      if disk[place].DirNode? || (place != [] && Last(place) != "" && Last(place)[0] == '.') {
        return Response(404, Failure(NotSent));
      }
      resp := Response(200, Attachment(filePath, filename));
    }

    /** DELETE /api/files/:filename. */
    method Delete(filename: string) returns (resp: Response)
      requires Valid()
      modifies this
      ensures Valid()
      ensures var eff := DeleteEffect(old(disk), cwd, sharedFolder, filename);
        disk == eff.disk && resp == eff.response && broadcasts == old(broadcasts) + eff.events
      ensures sharedFolder == old(sharedFolder) && upload == old(upload)
      ensures connectedClients == old(connectedClients)
    {
      var t := Locate(disk, cwd, PathJoin(sharedFolder, filename));
      if t.None? {
        return Response(404, Failure(FileNotFound));
      }
      RemoveTreeCoherent(disk, t.value);
      disk := RemoveTree(disk, t.value);
      if t.value == [] {
        resp := Response(500, Failure(RemoveFailed));
      } else {
        broadcasts := broadcasts + [DeleteEvent(filename)];
        resp := Response(200, Deleted);
      }
    }

    /** GET /api/info (the server time is not modelled). */
    method Info() returns (resp: Response)
      ensures resp == Response(200, ServerInfo(sharedFolder, |connectedClients|))
    {
      resp := Response(200, ServerInfo(sharedFolder, |connectedClients|));
    }

    /** setSharedFolder: the new path, and a new multer instance that keeps the client's
        name and has no size limit. The upload route keeps its own middleware. ensureDir on
        a path that exists creates nothing. */
    method SetSharedFolder(folderPath: string)
      modifies this
      ensures sharedFolder == folderPath && upload == PlainUploader
      ensures disk == old(disk) && connectedClients == old(connectedClients)
      ensures broadcasts == old(broadcasts)
    {
      sharedFolder := folderPath;
      upload := PlainUploader;
    }

    /** POST /api/set-folder with body field folderPath (absent when None). A missing or
        empty path, or one that does not exist, answers 400 and changes nothing; any other
        is taken as it was given. */
    method SetFolder(folderPath: Option<string>) returns (resp: Response)
      requires Valid()
      modifies this
      ensures Valid()
      ensures !FolderAccepted(old(disk), cwd, folderPath) ==>
        resp == Response(400, Failure(InvalidFolderPath)) &&
        sharedFolder == old(sharedFolder) && upload == old(upload)
      ensures FolderAccepted(old(disk), cwd, folderPath) ==>
        resp == Response(200, FolderSet(folderPath.value)) &&
        sharedFolder == folderPath.value && upload == PlainUploader
      ensures disk == old(disk) && connectedClients == old(connectedClients)
      ensures broadcasts == old(broadcasts)
    {
      if folderPath.None? || folderPath.value == "" || Locate(disk, cwd, folderPath.value).None? {
        return Response(400, Failure(InvalidFolderPath));
      }
      SetSharedFolder(folderPath.value);
      resp := Response(200, FolderSet(sharedFolder));
    }

    /** A socket connects: its id joins the registry and it is sent the file list. */
    method Connect(id: string) returns (sent: seq<FileInfo>)
      modifies this
      ensures connectedClients == old(connectedClients) + {id}
      ensures sent == FileList(disk, cwd, sharedFolder)
      ensures disk == old(disk) && sharedFolder == old(sharedFolder) && upload == old(upload)
      ensures broadcasts == old(broadcasts)
    {
      connectedClients := connectedClients + {id};
      sent := GetFileList();
    }

    /** A socket disconnects: its id leaves the registry. */
    method Disconnect(id: string)
      modifies this
      ensures connectedClients == old(connectedClients) - {id}
      ensures disk == old(disk) && sharedFolder == old(sharedFolder) && upload == old(upload)
      ensures broadcasts == old(broadcasts)
    {
      connectedClients := connectedClients - {id};
    }

    /** A socket sends "request-files": it is sent the file list again. */
    method RequestFiles() returns (sent: seq<FileInfo>)
      ensures sent == FileList(disk, cwd, sharedFolder)
    {
      sent := GetFileList();
    }

    /** notifyFileChange: broadcast the current file list with the change type. */
    method NotifyFileChange(kind: ChangeType)
      modifies this
      ensures broadcasts == old(broadcasts) + [ChangeEvent(kind, FileList(disk, cwd, sharedFolder))]
      ensures disk == old(disk) && sharedFolder == old(sharedFolder) && upload == old(upload)
      ensures connectedClients == old(connectedClients)
    {
      var files := GetFileList();
      broadcasts := broadcasts + [ChangeEvent(kind, files)];
    }

    /** The watcher reports an add, change or unlink at a path; paths the `ignored` pattern
        matches raise no event. Events the watcher library drops by its own defaults never
        reach this callback and are not modelled. */
    method OnWatcherEvent(path: string, kind: ChangeType)
      modifies this
      ensures Ignored(path) ==> broadcasts == old(broadcasts)
      ensures !Ignored(path) ==>
        broadcasts == old(broadcasts) + [ChangeEvent(kind, FileList(disk, cwd, sharedFolder))]
      ensures disk == old(disk) && sharedFolder == old(sharedFolder) && upload == old(upload)
      ensures connectedClients == old(connectedClients)
    {
      if !Ignored(path) {
        NotifyFileChange(kind);
      }
    }
  }
}
