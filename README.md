# LocalFileShare server, modelled in Dafny

This project models the `FileShareServer` of LocalFileShare (`electron/server.js`). The server shares one folder of the host over HTTP and socket.io. The model treats it as a state machine over an abstract file system.

The server's state is:

- the shared folder, kept as the path string it was given;
- the host's file system: a tree of places, each a directory that holds its entries in listing order or a regular file with its size;
- the working directory that relative paths resolve from;
- the set of connected socket ids;
- the multer instance held in `this.upload`, and the upload middleware that the upload route bound when the routes were set up;
- the log of `files-updated` events broadcast to clients.

The file system is kept coherent:

- The root is a directory.
- Every place but the root is listed by its parent directory, under its last component.
- Every entry of a directory is a place one level down, of the kind the entry gives.
- Every directory lists distinct names.

Each route resolves its path strings against this tree as `fs` does:

- every `path.join` is normalised;
- `existsSync` holds exactly when the path resolves;
- an upload writes entries into the directory the destination resolves to;
- a delete removes the resolved place with everything below it.

Each route handler and socket callback is one atomic method of the class `Server.FileShareServer`. A method returns the status and body of its response, and its contract ties the new state to a function of the old one. Lemmas state what those functions promise.

The modules follow the pieces of the server:

- `Paths`: `path.extname`, `path.basename(name, ext)` and the decimal rendering of a counter in a template string.
- `Posix`: POSIX `path.normalize` and `path.join`. Pieces are split at '/'. Empty pieces and "." are dropped, ".." pops a kept name, and a trailing '/' is kept.
- `Folders`: one directory listing. It covers looking up a name, writing a file, removing entries, and `getFileList`'s filter and map.
- `Naming`: the filename callback of the first uploader. It keeps a free name, and otherwise runs the do-while loop over `stem_1.ext`, `stem_2.ext`, and so on.
- `Disks`: the file system as a map from places to nodes. It covers the walk that resolves a path, writing a listing back, and `fs.remove`.
- `Uploads`: multer's handling of one request's parts through a given uploader. It covers the name busboy reports, skipping parts without one, naming, writing, the size limit, and the clean-up after an error. It also holds the two uploaders the server builds: the collision-safe 100 MiB one from `setupMiddleware`, and the plain one from `setSharedFolder`.
- `Watcher`: the regular expression `/(^|[\/\\])\../` that the folder watcher uses to ignore dotfiles.
- `Server`: the responses, the broadcast events, the effect of each route on the file system, and the `FileShareServer` class.

Several points where the code's behaviour is easy to misread, modelled as the code does it:

- **The upload route keeps its first uploader.** The route is registered with `this.upload.array("files")` (`electron/server.js:80`). That expression is evaluated once, when the routes are set up. `setSharedFolder` assigns a new multer instance to `this.upload` (`electron/server.js:241-250`), but the route never uses it.
  - After a folder change, uploads still rename on collision and still refuse files over 100 MiB.
  - Only their destination moves, because the destination callback reads `this.sharedFolder` at each request.
  - The model keeps both: the field `upload` switches to the plain uploader, and the constant `uploadRoute` stays the collision-safe one.
  - The plain uploader's behaviour is still proved (`Uploads.PlainUploaderOverwrites`).
- **Multer's errors answer 500, not 413.** The modelled ones are a file over the limit, a part under another field name, and a write that cannot create its file: into a destination that is not a directory, or onto a name held by a directory. Other failures of the write, such as a name too long for the file system or a full disk, are not modelled (see "Left out"). They are passed to `next(err)` and reach Express's default error handler, because multer's errors carry no HTTP status. Before that, multer removes the files the request had already written; the model rolls them back.
- **Parts without a name are skipped.** `file.originalname` is what busboy reports: the part of the declared filename after its last '/' or '\\'. Busboy reports "." and ".." as empty. Multer drains a part whose name is empty without looking at its field or its size. A form submitted with no file chosen therefore answers 200 with "0 file(s) uploaded successfully".
- **A request that is not multipart answers 500.** Such a POST to `/api/upload` leaves `req.files` undefined, so `req.files.map` throws.
- **The download and delete routes do not check the file name.**
  - "." names the shared folder itself, and ".." names its parent. A delete of either removes that directory with everything in it and answers 200.
  - A delete that resolves to the root empties it and answers 500.
  - `res.download` does not send a directory, nor a path whose last component starts with '.'. Both fall through to Express's 404.
- **`set-folder` accepts any path that exists, a regular file included, and keeps the string as given.** A path with a trailing '/' is accepted exactly when it names a directory.

## Model

| member | source | states |
|---|---|---|
| Paths.LastDot | electron/server.js:47 | the index found holds a '.' and no later character is a '.', or the result is -1 when there is none |
| Paths.Ext | electron/server.js:47 | the extension is a suffix of the name, starts with its last '.' and has no other '.'; it is empty exactly when the name is ".." or has no '.' after its first character |
| Paths.StemAndExt | electron/server.js:47-48 | the stem followed by the extension gives back the name, and the stem is non-empty when there is an extension |
| Paths.Decimal | electron/server.js:53 | a counter renders as decimal digits with no leading zero, and "0" only for zero |
| Paths.DecimalRoundTrip | electron/server.js:53 | reading a rendered counter back gives the counter |
| Paths.DecimalInjective | electron/server.js:53 | distinct counters render as distinct strings |
| Paths.DecimalLength | electron/server.js:52-55 | a counter of at least 10^k has more than k digits, so long enough counters give names the folder cannot hold |
| Posix.Split | electron/server.js:44 | a path splits into at least one piece, none containing '/' |
| Posix.IntercalateSplit | electron/server.js:44 | joining the pieces of a path with '/' gives the path back |
| Posix.SplitIntercalate | electron/server.js:44 | splitting pieces joined with '/' gives the pieces back |
| Posix.SplitSlash | electron/server.js:44 | the pieces of a + "/" + b are the pieces of a followed by the pieces of b |
| Posix.NormFromAppend | electron/server.js:44 | normalising two runs of pieces in a row is normalising the second from where the first left the stack |
| Posix.NormFromComponents | electron/server.js:44 | plain names are pushed on the stack unchanged |
| Posix.NormFromKept | electron/server.js:44 | normalisation keeps only non-empty pieces other than "."; an absolute path keeps no ".." |
| Posix.SplitRender | electron/server.js:103 | the canonical spelling of a place splits into "" and its components |
| Posix.NormRender | electron/server.js:103 | a canonical path normalises to its own components |
| Posix.JoinOnto | electron/server.js:44 | path.join of a path and a plain name is the path's normalised pieces and the name, spelled with '/' |
| Posix.JoinComponent | electron/server.js:44 | path.join of a path and a plain name is non-empty, as absolute as the path, and splits into the path's normalised pieces and the name |
| Posix.JoinRender | electron/server.js:103 | joining a plain name onto a canonical path gives the canonical path one level down |
| Posix.JoinDot | electron/server.js:114 | joining "." onto a canonical path gives the path itself |
| Posix.JoinDotDot | electron/server.js:114 | joining ".." onto a canonical path gives its parent, the root staying the root |
| Posix.NormalizeAlike | electron/server.js:44 | two paths with the same normalised pieces, absoluteness and last character normalise alike |
| Posix.JoinTrailingSlash | electron/server.js:44 | a trailing '/' on the folder does not change what path.join gives |
| Folders.HasDirectoryEntry | electron/server.js:225 | a name is listed as a directory exactly when the directory entry of that name is in the listing |
| Folders.HasEntry | electron/server.js:46 | a name is listed exactly when some entry of the folder has that name |
| Folders.HasAppend | electron/server.js:46 | a name is in two runs of entries exactly when it is in one of them |
| Folders.Put | electron/server.js:37-62 | after writing a file the folder holds the old names plus the new one and keeps distinct names; a new name is appended at the end of the listing (an assumed order, see "Left out") |
| Folders.PutEntries | electron/server.js:37-62 | writing a file keeps every entry under another name and replaces the one under its own name |
| Folders.RemoveNames | electron/server.js:64-69 | after removal the folder holds exactly the names it held outside the removed set, still distinct |
| Folders.RemoveNamesEntries | electron/server.js:64-69 | an entry survives removal exactly when its name is not removed |
| Folders.RemoveNamesAppend | electron/server.js:64-69 | removing names from two runs of entries removes them from each |
| Folders.RemoveAbsentNames | electron/server.js:64-69 | removing names the folder does not hold changes nothing |
| Folders.RemoveOne | electron/server.js:116-125 | removing a present name drops exactly one entry and keeps every entry under another name |
| Folders.FileSizesSpec | electron/server.js:220-223 | each name the size table holds is a regular file of that size in the listing, every regular file is in the table, and no directory is |
| Folders.ListFiles | electron/server.js:214-234 | the file list is no longer than the listing |
| Folders.ListFilesMembers | electron/server.js:216-229 | a name and size are listed exactly when the folder holds a regular file with that name and size |
| Folders.ListFilesAppend | electron/server.js:216-229 | the list keeps the listing order: the list of two runs of entries is the first run's list followed by the second's |
| Folders.ListFilesSingle | electron/server.js:225-229 | a directory contributes nothing to the list, and a file contributes its name and size |
| Naming.CandidateShape | electron/server.js:47-53 | the k-th candidate is the client's name with "_k" put in front of its extension |
| Naming.CandidateInjective | electron/server.js:52-55 | distinct counters give distinct candidate names |
| Naming.CandidateComponent | electron/server.js:53 | a candidate for a plain name is a plain name |
| Naming.MaxNameLength | electron/server.js:52-55 | no name in the folder is longer than the bound |
| Naming.PresentCandidateBound | electron/server.js:52-55 | a candidate the folder holds has a counter below 10 to the power of the longest name's length, so the loop ends |
| Naming.FirstFree | electron/server.js:52-55 | the counter found is at least the start, its candidate is free, and every candidate from the start up to it is taken |
| Naming.FreeNameSpec | electron/server.js:46-59 | the stored name is never one the folder holds; it is the client's name when that is free, and otherwise the candidate with the least counter from 1 that is free |
| Naming.FreeNameComponent | electron/server.js:41-61 | the stored name for a plain name is a plain name |
| Naming.FirstFreeIsLeast | electron/server.js:52-55 | a free counter whose smaller counters are all taken is the one the search stops at |
| Naming.NthCollision | electron/server.js:46-57 | when the name and its first n-1 renamings are taken and the n-th is free, the file is stored as stem_n.ext |
| Naming.NextCollisionAdvances | electron/server.js:46-57 | uploading the same name after a renamed copy was stored picks a larger counter |
| Naming.PickName | electron/server.js:41-61 | the filename callback's do-while loop returns the name the naming rule picks, which the folder does not hold |
| Naming.FirstCollisionExample | electron/server.js:46-57 | a second "a.txt" is stored as "a_1.txt" |
| Disks.Walk | electron/server.js:105 | a walk that succeeds ends at a place of the file system |
| Disks.Listed | electron/server.js:120 | every place but the root is listed, under its last component, by its parent directory |
| Disks.ChildIff | electron/server.js:46 | one level below a directory there is a place exactly when the directory lists that name |
| Disks.Ancestor | electron/server.js:139 | every ancestor of a place is a directory |
| Disks.WalkSnoc | electron/server.js:46 | one more name after a run of pieces goes down from wherever the run led, into a directory's entry |
| Disks.WalkDown | electron/server.js:105 | walking plain names from a place reaches the place below it exactly when that exists |
| Disks.WalkAppend | electron/server.js:105 | walking two runs of pieces is walking the second from where the first ended |
| Disks.LocateRender | electron/server.js:139 | existsSync on the canonical path of a place holds exactly when the place exists, and names it |
| Disks.JoinDirRender | electron/server.js:44 | path.join puts names into the place a canonical folder path names |
| Disks.LocateJoin | electron/server.js:46 | existsSync(path.join(folder, name)) for a plain name holds exactly when the folder resolves to a directory listing that name, and then names the entry's place |
| Disks.LocateTrailingSlash | electron/server.js:139 | a canonical path with a '/' added resolves exactly when it names a directory |
| Disks.ListingOf | electron/server.js:216 | a directory's listing has distinct names, each a plain name |
| Disks.WalkSameDirectories | electron/server.js:105 | writing files does not change where a path to a directory leads |
| Disks.WithFilesKeys | electron/server.js:37-69 | after a directory takes a new listing, the places are the old ones less the dropped entries, plus the new files |
| Disks.WithFilesListed | electron/server.js:37-69 | a new listing that keeps the directory's subdirectories keeps every place listed by its parent |
| Disks.WithFilesEntries | electron/server.js:37-69 | every entry of the new listing is a place of the kind it lists |
| Disks.WithFilesCoherent | electron/server.js:37-69 | writing a listing that keeps its subdirectories and has distinct plain names keeps the tree coherent and installs the listing |
| Disks.WithFilesDirectories | electron/server.js:37-69 | writing files keeps the same places directories |
| Disks.WithFilesLocate | electron/server.js:85 | after the write, path.join(folder, name) names a regular file of the size the new listing gives |
| Disks.WithFilesSame | electron/server.js:64-69 | writing back a directory's own listing leaves the file system as it was |
| Disks.RemoveTreeKeys | electron/server.js:120 | fs.remove leaves exactly the places not at or below the removed one |
| Disks.RemoveTreeCoherent | electron/server.js:120 | fs.remove keeps the tree coherent |
| Uploads.AfterSeparatorSpec | electron/server.js:43 | busboy's basename is the suffix of the declared name after its last '/' or '\\', and contains neither |
| Uploads.ClientNameSpec | electron/server.js:43 | the reported name is empty exactly when the basename is "", "." or ".."; otherwise it is that basename, a plain name without '\\' |
| Uploads.Named | electron/server.js:80 | the parts multer handles are exactly the parts with a non-empty reported name, in order |
| Uploads.IngestBatch | electron/server.js:37-69 | the loop over a request's parts reaches the folder, stored files, written names and error that the batch definition gives |
| Uploads.IngestSkipsUnnamed | electron/server.js:80 | parts without a name change nothing: a batch acts as the batch of its named parts |
| Uploads.TargetComponent | electron/server.js:41-61 | whichever uploader, a part with a name is stored under a plain name |
| Uploads.SafeStep | electron/server.js:46-59 | with the collision-safe uploader each file is written under a free name that is not a directory, so one entry is appended and the batch invariant carries over |
| Uploads.SafeAdvance | electron/server.js:64-69 | a named file within 100 MiB moves a collision-safe batch on by exactly one stored file |
| Uploads.SafeRejectFirst | electron/server.js:64-80 | a named part outside the "files" field, or over 100 MiB, stops a collision-safe batch at once; the field is checked first, so a stray part fails with LIMIT_UNEXPECTED_FILE whatever its size |
| Uploads.SafeIngestStatus | electron/server.js:64-69 | a collision-safe batch of named parts fails exactly when a remaining part lies outside the "files" field or exceeds 100 MiB, and then with the error of the first such part: LIMIT_UNEXPECTED_FILE for a stray field, LIMIT_FILE_SIZE otherwise |
| Uploads.SafeIngestRollback | electron/server.js:64-69 | the clean-up after a collision-safe batch gives back the folder it started from |
| Uploads.SafeIngestStored | electron/server.js:41-61 | a successful collision-safe batch appends one entry per named part, in order, each under the name picked against the folder as the earlier parts left it |
| Uploads.NamedParts | electron/server.js:80 | the parts handed on all have names, they are all in the "files" field when the request's named parts are, and one of them is too large, or refused, exactly when a named part of the request is |
| Uploads.SafeUpload | electron/server.js:37-69 | an upload through the first uploader fails exactly when some named part lies outside the "files" field or exceeds 100 MiB, with the error of the first such part, and then leaves the folder as it was; otherwise every named part is stored, in order, with its size and the picked name, after the existing entries |
| Uploads.SafeUploadKeepsFiles | electron/server.js:41-69 | whatever the parts, the collision-safe uploader never replaces an existing entry and keeps names distinct, whether the request succeeds or is rolled back |
| Uploads.IngestKeepsDistinct | electron/server.js:37-62 | whatever the uploader, a batch leaves a folder with distinct names |
| Uploads.UploadKeepsDistinct | electron/server.js:37-69 | the folder after a request, successful or cleaned up, has distinct names |
| Uploads.UploadKeepsDirectories | electron/server.js:37-69 | whatever the uploader, a request keeps the folder's subdirectories, distinct names and plain names |
| Uploads.PlainUploaderOverwrites | electron/server.js:241-250 | the uploader setSharedFolder builds stores any size under the reported name, replacing an entry of that name in place and keeping the rest |
| Watcher.SearchFromHidden | electron/server.js:195 | the unanchored search from position i matches exactly when a hidden component starts after i, or at the start when i is 0 |
| Watcher.IgnoredIffHidden | electron/server.js:195 | a path is ignored exactly when a '.' at its start or right after '/' or '\\' is followed by one more character other than a line terminator |
| Watcher.IgnoredEntry | electron/server.js:194-197 | an entry of the watched folder is ignored exactly when the folder path is, the entry's name is a dotfile, or the folder path ends in a lone '.' component |
| Server.StatFilesStep | electron/server.js:218-227 | stat of an entry that resolves to its own place gives its kind and size, before the rest |
| Server.StatFilesListed | electron/server.js:217-228 | when every entry resolves to its own place, stat gives the listing's files and sizes in order |
| Server.StatFilesResolved | electron/server.js:216-229 | every entry of the folder path.join puts names into resolves, so stat gives its listing's files |
| Server.FileListResolved | electron/server.js:214-234 | getFileList of a folder path that names a directory is that directory's regular files with sizes in listing order, and [] for a regular file |
| Server.FileListCanonical | electron/server.js:214-234 | for a canonical folder path, getFileList holds exactly the regular files of that directory with their sizes, and is [] when there is no such directory |
| Server.UploadKeepsCoherent | electron/server.js:80-99 | whatever the uploader and the parts, an upload keeps the file system coherent |
| Server.SafeUploadEffect | electron/server.js:80-99 | an upload into a directory answers 200 exactly when no named part lies outside the "files" field or exceeds 100 MiB; then the response and the one upload event carry a stored file per named part with its size and joined path, the directory gains those entries, and each path names a file of that size; otherwise it answers 500 with the error of the first refused part, broadcasts nothing and leaves the disk as it was |
| Server.NoNamedParts | electron/server.js:80 | parts that all lack a name leave the folder as it was and store nothing |
| Server.NoFilesMessage | electron/server.js:93 | the message for no stored files is "0 file(s) uploaded successfully" |
| Server.UploadWithoutFiles | electron/server.js:80-99 | a request whose parts all lack a name answers 200 with "0 file(s) uploaded successfully", broadcasts an empty upload and changes nothing |
| Server.UploadIntoMissingFolder | electron/server.js:37-40 | an upload into a shared folder that is not a directory answers 500 and changes nothing |
| Server.DownloadCanonical | electron/server.js:101-110 | a name the folder does not hold answers 404; a directory or a dotfile is not sent; any other file is sent from the canonical path one level down under its name |
| Server.DeleteSpec | electron/server.js:112-126 | a delete keeps the tree coherent; a path that exists loses exactly the places at or below it and answers 200 with a delete event, the root is emptied with 500, and a path that does not exist changes nothing and answers 404 |
| Server.DeleteRemovesOnlyThat | electron/server.js:112-126 | after a delete the name no longer exists, the folder's listing loses just that entry, and the file list loses only the entries under that name |
| Server.DeleteDotRemovesFolder | electron/server.js:112-126 | deleting "." removes the shared folder itself, answers 200 and leaves an empty file list |
| Server.DeleteDotDotRemovesParent | electron/server.js:112-126 | deleting ".." removes the shared folder's parent and the folder with it, answering 200 |
| Server.FolderAcceptedCanonical | electron/server.js:136-141 | set-folder accepts a canonical path exactly when the place exists, file or directory, and the path with '/' added exactly when it is a directory |
| Server.UploadOneIntoEmpty | electron/server.js:37-69 | one named part within the limit into an empty folder is stored under its own name |
| Server.UploadIntoEmpty | electron/server.js:80-99 | uploading one file into an empty folder answers 200 and leaves the folder holding just that file |
| Server.ListedAfterUpload | electron/server.js:136-141 | a folder holding one file lists it, and set-folder accepts its path |
| Server.DeleteAfterUpload | electron/server.js:112-141 | deleting the one file of a folder answers 200, empties the list, and set-folder then refuses the path |
| Server.UploadThenDelete | electron/server.js:74-141 | uploading a file into an empty folder answers 200 and lists it with its size, and set-folder accepts its path; deleting it empties the list and set-folder then refuses the path |
| Server.FileShareServer.constructor | electron/server.js:12-29 | a new server shares path.join(home, "LocalFileShare"), has no clients and no events, and both the field and the route use the collision-safe uploader |
| Server.FileShareServer.GetFileList | electron/server.js:214-234 | the list returned is getFileList of the current shared folder |
| Server.FileShareServer.ListRoute | electron/server.js:74-78 | GET /api/files always answers 200 with the file list |
| Server.FileShareServer.Upload | electron/server.js:80-99 | POST /api/upload gives the disk, response and broadcasts of an upload through the route's uploader into the current folder, keeps the tree coherent, and leaves the folder, the clients and the uploader field as they were |
| Server.FileShareServer.Download | electron/server.js:101-110 | a path that does not exist answers 404; a directory or a path whose last component starts with '.' is not sent; any other is sent from path.join(folder, name) under its name |
| Server.FileShareServer.Delete | electron/server.js:112-126 | the disk, response and broadcasts of removing the place path.join(folder, name) resolves to, keeping the tree coherent |
| Server.FileShareServer.Info | electron/server.js:128-134 | GET /api/info answers 200 with the shared folder and the number of connected clients |
| Server.FileShareServer.SetSharedFolder | electron/server.js:236-251 | the shared folder becomes the given path and the uploader field becomes the plain uploader; nothing else changes |
| Server.FileShareServer.SetFolder | electron/server.js:136-145 | a missing or empty path, or one that does not resolve, answers 400 and changes nothing; otherwise the folder becomes that path as given, the uploader field the plain one, and the answer echoes the path |
| Server.FileShareServer.Connect | electron/server.js:154-163 | the socket id joins the client set and the socket is sent the current file list |
| Server.FileShareServer.Disconnect | electron/server.js:165-168 | the socket id leaves the client set and nothing else changes |
| Server.FileShareServer.RequestFiles | electron/server.js:170-176 | the socket is sent the current file list |
| Server.FileShareServer.NotifyFileChange | electron/server.js:205-212 | one change event with its type and the current file list is broadcast |
| Server.FileShareServer.OnWatcherEvent | electron/server.js:194-202 | an ignored path raises no event; any other add, change or unlink that reaches the callback broadcasts one change event of that type with the current file list |

## Left out

- Folders.Put: a listing keeps the order its files were written in. A new name goes at the end and an overwritten file keeps its place. `fs.readdir` promises no order; it returns whatever order the file system keeps, such as hash order on ext4 or name order on HFS+. The order claims of `Uploads.SafeUpload`, `Uploads.SafeIngestStored`, `Server.SafeUploadEffect`, `Folders.ListFilesAppend` and `Server.FileListResolved` rest on this choice. Their claims about which entries a folder holds do not.
- Uploads.IngestBatch: the file system's limits on name length and space are not modelled. A write that fails with ENAMETOOLONG or ENOSPC answers 500 in the server and has the files already written removed. The model stores such a file and answers 200. A name of 252 to 255 bytes can be pushed over the limit by the `_k` renaming.
- Uploads.SafeIngestStored: the parts of one request are handled one after another, each named against the folder as the earlier parts left it. In multer, the next part's filename callback can run before the earlier part's file is opened. Two parts with the same name in one request could then both find it free and both be written to it. `Uploads.SafeUploadKeepsFiles` and `Server.SafeUploadEffect` rest on the same sequential reading.
- Watcher.IgnoredEntry: its case of a folder path ending in a lone '.' does not arise, because the watcher reports paths under the watched folder in normalised form.
- Server.FileShareServer.OnWatcherEvent: the watcher library's own default filters are not modelled, such as its `atomic` mode dropping editor temporaries whose names end in '~'. Events it drops never reach the callback.
- Server.FileShareServer.Download: only which response is chosen is modelled. The streaming done by `res.download`, and its errors, are I/O.
- Server.FileShareServer.Delete: a failure of `fs.remove` for want of permission is not modelled, because the file system has no permissions. Removing the root is modelled as emptying it and answering 500.
- Server.FileShareServer.SetFolder: `folderPath` is a string or absent. A body value of another JSON type is not modelled.
- Server.FileShareServer.Info: the `serverTime` field is not modelled, because it is a clock value.
- Folders.ListFiles: the modification time of each file is not modelled, because it is a clock value.
- Symbolic links, hard links, permissions, and path strings holding a NUL character are not modelled. The file system is a tree of directories and regular files.
- Only POSIX paths are modelled. Windows drive letters and '\\' as a separator in `path.join` are not.
- `fs.stat` failures while listing, such as an entry removed mid-listing, are not modelled. In a coherent tree every listed entry resolves.
- `ensureSharedFolder` and the re-arming of the watcher (`electron/server.js:180-203`, `238`) are not modelled. They run asynchronously and unawaited. The model treats each handler as atomic and does not create the shared folder.
- Concurrency between requests, the interleaving of the `Promise.all` stats, and the timing of watcher events are not modelled.
- The Express, socket.io, multer and chokidar plumbing (middleware, static files, the index page, CORS) is not modelled. Broadcasts are a log of event payloads.
- `getNetworkIP`, `start` and `stop` are not modelled, because they concern network interfaces and socket listening.
- electron/main.js and the React interface are not part of this model.
