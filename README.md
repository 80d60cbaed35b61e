# file-uploader: the destination resolver and the run around it

`file-uploader` is a command-line tool. It uploads every file of a local
directory to a directory on a Yandex Disk account. Its core is `App.Run`
and `App.GetDestinationPath` in `App.cs`:

- **Guards.** `Run` checks that there are two arguments and that the local
  directory exists and holds files.
- **Resolution.** `GetDestinationPath` turns the destination argument into
  path segments. It walks down from the root `/` while the current
  directory lists the next segment, then creates each remaining segment in
  order. It returns the accumulated path `/seg1/.../segN/`.
- **Uploads.** `Run` uploads each file to the resolved path followed by the
  file's base name.

The model has four modules:

- `Paths` (paths.dfy) covers destination text.
  - `Normalize` replaces the platform separator and splits on `/` (`Split`
    drops empty entries).
  - `PathOf` builds the accumulated path from segments.
  - Round-trip lemmas tie these together: `Split(PathOf(s)) == s`, and
    `Split(PathOf(s) + name) == s + [name]`.
- `Remote` (remote.dfy) is the storage service.
  - Its state is a tree `map<seq<string>, Kind>`, keyed by segment
    sequences.
  - The class `Disk` holds that tree in the field `nodes`. Its four calls
    (metadata fetch, create directory, upload link, upload) keep ghost logs
    of the paths they receive.
  - The service parses each path it receives with `Split`.
- `Resolver` (resolver.dfy) models `GetDestinationPath`.
  - It is an imperative method with the source's two loops.
  - It is proved against `ResolveSpec`, a closed-form description of which
    paths are fetched, which are created, what the tree becomes and what is
    returned.
  - The lemmas about `ResolveSpec` state what the source promises.
- `App` (app.dfy) models the rest of `Run`.
  - `Guard` gives the guard decision.
  - `UploadTarget` builds the per-file target.
  - `UploadFile`, `UploadFiles` and `Run` are methods.
  - `UploadSpec` describes the uploads in closed form.
  - `Classify` mirrors the two `catch` blocks.

Every failing remote call ends the run with its error, as the exceptions do
in the source. While the destination is resolved, an unauthorized token
gives `InvalidToken` and every other failure `UnhandledException`. While
the files are uploaded, every failure gives `UnhandledException`: the
upload's continuation (App.cs:54) rethrows the error wrapped in an
aggregate exception, which the unauthorized-token handler does not catch.

Points where the model follows the code closely:

- **Trailing `/`.** The created paths and the returned path end in `/`
  (`/photos/`, `/photos/2024/`).
- **Children are matched by name only.** The walk matches a segment against
  all children, files included, without checking the type
  (App.cs:93).
  - A segment that names a file in the middle of the destination makes the
    next metadata response carry no listing. The source then dereferences
    null. The model reports this as `NoListing`, classified as an unhandled
    exception.
  - A last segment that names an existing file resolves to that file's path
    without error (`Resolver.ResolvedIsDirectoryUnlessFile`). The uploads
    into it are then refused.
- **Creation is not checked first.** The creation loop creates directories
  without checking whether they exist. On a tree that is not prefix-closed,
  a create can hit an existing path. The service's conflict then aborts the
  run. On a prefix-closed tree this cannot happen
  (`Resolver.NoCreateOfExisting`), given complete listings: the service's
  paging of listings is not modelled (see "Left out").

## Model

| member | source | states |
|---|---|---|
| Paths.Normalize | App.cs:81-83 | every segment of the normalised destination is non-empty and contains neither `/` nor the platform separator |
| Paths.SplitKeepsText | App.cs:83 | splitting with empty entries removed loses exactly the separators: the segments concatenated give the input without its separators |
| Paths.SeparatorsOnly | App.cs:81-83 | an empty destination, or one made only of separators, normalises to no segment at all |
| Paths.PathOf | App.cs:84-112 | the accumulated path always begins and ends with `/` |
| Paths.PathOfSnoc | App.cs:98 | appending `segment + "/"` to the accumulated path of the first i segments gives the accumulated path of the first i+1 |
| Paths.SplitPathOf | App.cs:98 | round trip: the path built from valid segments parses back into exactly those segments |
| Paths.SplitPathOfThen | App.cs:73 | the path built from segments, followed by a valid name, parses as those segments plus the name |
| Remote.ChildNamed | App.cs:93 | a directory's listing holds a name exactly when the child path with that name exists |
| Remote.Disk.GetInfo | App.cs:85-88 | a metadata fetch is logged and answers with the resource's listing (none for a file), not-found or not-authorized |
| Remote.Disk.CreateDirectory | App.cs:109 | a create is logged; it adds the directory when the parent is a directory and the path is free, else fails with a conflict |
| Remote.Disk.GetUploadLink | App.cs:73 | the link request is logged with its target; an overwriting upload link is issued unless the parent is not a directory or the target is a directory |
| Remote.Disk.Upload | App.cs:75 | the upload is logged with its target |
| Resolver.WalkFrom | App.cs:91-96 | the walk stops at the first level whose directory does not list the next segment; every level before it is found |
| Resolver.FirstExisting | App.cs:106-109 | the first level from a given one whose path already exists, so that its create would conflict |
| Resolver.PrefixPathsAt | App.cs:98-108 | entry i of the logged paths is the accumulated path of level lo + i |
| Resolver.AddDirsSpec | App.cs:109 | the created levels become directories; every other resource is kept as it was |
| Resolver.GetDestinationPath | App.cs:79-113 | the result, the new tree and the fetch and create logs are exactly those of the closed-form resolution of the normalised destination; no upload link is requested and no upload is made |
| Resolver.ResolveSegments | App.cs:84-112 | the same statement, over already-normalised segments |
| Resolver.WalkExisting | App.cs:84-103 | the first loop fetches the root and each found prefix, in order. It stops at the walk's stopping level, or fails when a fetched resource has no listing. Its path is the accumulated path of that level |
| Resolver.CreateMissing | App.cs:105-112 | the second loop creates each remaining level in order, stopping at the first that already exists; otherwise it returns the full path |
| Resolver.CreateNext | App.cs:108-109 | one step of the second loop: the path grows by one segment, one create is logged, and it conflicts exactly at the first existing level |
| Resolver.WalkStep | App.cs:93-102 | the listing names the segment exactly when that level is found; the next fetch then answers with the next level's listing |
| Resolver.CreateStep | App.cs:108-109 | creating level i+1 conflicts exactly when it is the first existing level |
| Resolver.FetchesUpToFirstMiss | App.cs:85-103 | if the first K segments are found and segment K+1 is not, exactly K+1 fetches are made: the root and each found prefix, in order |
| Resolver.CreatesFromFirstMiss | App.cs:105-110 | on a prefix-closed tree, creates are issued for exactly the n−K remaining segments, left to right, each the accumulated prefix ending in that segment; the result is the full path |
| Resolver.AllFoundCreatesNothing | App.cs:91-110 | if every segment is found, no create is issued, the tree is unchanged, n+1 fetches are made and the full path is returned |
| Resolver.SeparatorsOnlyResolveToRoot | App.cs:81-91 | an empty or separators-only destination costs exactly one fetch (of `/`) and no create, and resolves to `/` when authorized |
| Resolver.NoCreateOfExisting | App.cs:90-110 | on a prefix-closed tree no create targets an existing path, so creation never conflicts (listings are taken as complete; paging is not modelled) |
| Resolver.MissingStaysMissing | App.cs:105 | on a prefix-closed tree nothing below a missing level exists, which is the assumption behind creating without checking |
| Resolver.CreatedPathsMissing | App.cs:105-110 | when no level from k+1 on exists, every created path names a missing level |
| Resolver.ResolvedPrefixesExist | App.cs:105-112 | a successful result is `PathOf(segments)`: it begins and ends with `/`, parses back into the segments, and afterwards every proper prefix is a directory |
| Resolver.ResolvedIsDirectoryUnlessFile | App.cs:91-112 | a successful resolution ends at a directory, unless every segment was found and the last one is an existing file (nothing is then created) |
| Resolver.ResolvePreservesPrefixClosed | App.cs:105-110 | resolution keeps a prefix-closed tree prefix-closed |
| Resolver.WalkStopsAt | App.cs:91-96 | the walk's stopping level is the first level not found |
| App.Guard | App.cs:26-46 | usage help for fewer than two arguments, then a missing local directory, then an empty one; the run proceeds exactly when all three pass, with the directory's files and the second argument |
| App.Refusal | App.cs:26-46 | a run stopped by a guard reports that guard: usage help, a missing directory or an empty directory, naming the local directory |
| App.Classify | App.cs:57-66 | an unauthorized failure is reported as an invalid token; every other failure as an unhandled exception (applied by `App.Run` to failures of the resolution only) |
| App.UploadTarget | App.cs:73 | the target is the resolved path followed by the file's base name |
| App.UploadTargetInside | App.cs:71-73 | the target of a file uploaded into a resolved path names the child of that directory called after the file |
| App.Names | App.cs:76 | the reported names are the files' base names, in file order |
| App.UploadFile | App.cs:69-77 | an overwriting upload link is requested for the target, and the request is logged; if it is issued the bytes are uploaded to it and the base name returned, else its error is returned and nothing is uploaded |
| App.UploadFiles | App.cs:51-55 | link requests, uploads and result are exactly those of the closed-form upload of all files |
| App.Run | App.cs:24-67 | a run stopped by a guard makes no remote call and changes nothing. Otherwise the disk and logs follow the resolution; a failed resolution requests no link and uploads nothing, and its error is classified as the catch blocks do (invalid token or unhandled exception); after a successful one the link requests and uploads follow the closed-form upload of all files into the resolved path, and a failed upload is always an unhandled exception, because the upload's continuation rethrows its error wrapped in an aggregate exception that no specific handler catches |
| App.UploadNext | App.cs:51-55 | after a run of successful uploads, the next file's link is always requested; it is uploaded and its name reported if the link is granted, else the run fails with that error |
| App.UploadsInOrder | App.cs:51-55 | upload i targets the destination plus file i's name and was granted its link; a successful run requests exactly the links it uploads to, uploads every file and reports every name |
| App.UploadFailsAtFirstRefusal | App.cs:48-66 | a failed run fails at the first file whose link is refused, with that error; that link is the last one requested, and every earlier file's link was granted |
| App.UploadsAllAccepted | App.cs:51-55 | when every link is granted, every file is uploaded and every name reported |
| App.UploadsIntoDirectory | App.cs:71-75 | into a directory with no sub-directory named like a file, an authorized run uploads every file, each to the child named after it |
| App.ResolvedThenUploaded | App.cs:50-55 | when the destination resolves to a directory, an authorized run uploads every file into it under its base name |

## Left out

- Program.cs is not part of this model: dependency injection, configuration loading, logger set-up and the construction of the HTTP client from the OAuth token.
- The storage service's internals (HTTP, JSON, authentication) are not modelled. `Remote.Disk` fixes one abstract behaviour for each call:
  - a rejected token fails every call with `NotAuthorized`;
  - a create fails with a conflict if the path exists or its parent is not a directory;
  - an upload link fails if the parent is not a directory or the target is a directory.
- Listings are complete: the service's paging of `Embedded.Items` is not modelled.
- The platform directory separator is a parameter, and the alternate separator is the constant `/`.
- Local file-system access is given as input: `Directory.Exists`, `Directory.GetFiles`, `Path.GetFileName` and `File.OpenRead`. A `LocalFs` map gives each existing directory's files with their base names. Local read failures are not modelled.
- Uploaded bytes are not modelled; an upload is logged by its target and does not change the tree.
- Console and logger output, and the exit status, are left out; the `Outcome` value stands for them.
- App.UploadFiles: uploads run one after the other in file order and stop at the first refused link. The source launches all uploads concurrently and waits for all of them, so there every file whose link is granted is uploaded, in any order, even after another file has failed.
- App.Run: inherits the sequential upload order of `App.UploadFiles`; which files are uploaded after a failure is therefore not modelled, though the outcome (an unhandled exception) is the same.
- Remote.Disk.GetInfo, Remote.Disk.CreateDirectory, Remote.Disk.GetUploadLink, Remote.Disk.Upload: only the outcomes of the fixed rules above are modelled (`NotAuthorized`, `NotFound`, `Conflict`, and `NoListing` for a listing-less response). Transient network or server failures of any call are not: the metadata fetch inside the walk of `Resolver.WalkExisting` always succeeds once the root fetch has, and `Upload` never fails.
- Resolver.ResolveSegments: the source's single method, with one counter shared by two loops, is modelled as two phase methods. `WalkExisting` hands the counter's value over to `CreateMissing`, whose loop body is `CreateNext`.
- A metadata response without a listing (a file) is modelled as the `NoListing` error, standing for the null dereference in the source.
