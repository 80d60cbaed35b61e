/**
  The uploader's entry point (`App.Run`): check the arguments and the
  local directory, resolve the remote destination, then upload every
  local file into it under its base name.
 */
module App {
  import opened Paths
  import opened Remote
  import opened Resolver

  /** A local file as the directory listing reports it: full path and base name. */
  datatype LocalFile = LocalFile(path: string, name: string)

  /** The local file system as `Run` sees it: the files of each existing directory. */
  type LocalFs = map<string, seq<LocalFile>>

  /** What the guards at the top of `Run` decide. */
  datatype Decision =
    | ShowUsage
    | NoDirectory(localDirectory: string)
    | NoFiles(localDirectory: string)
    | Proceed(localDirectory: string, destination: string, files: seq<LocalFile>)

  /** How a run ends, as the console reports it. */
  datatype Outcome =
    | Usage                             // fewer than two arguments
    | MissingDirectory(path: string)    // the local directory does not exist
    | EmptyDirectory(path: string)      // the local directory holds no files
    | InvalidToken                      // a remote call was refused as unauthorized
    | UnhandledException                // any other remote failure
    | Uploaded(names: seq<string>)      // every file uploaded, in this order

  /**
    The guards of `Run`: usage help below two arguments, then a missing
    local directory, then an empty one; only past all three does the run
    proceed, with the first argument as local directory, the second as
    destination and the directory's files.
   */
  function Guard(args: seq<string>, fs: LocalFs): (d: Decision)
    ensures d.ShowUsage? <==> |args| < 2
    ensures d.NoDirectory? <==> |args| >= 2 && args[0] !in fs
    ensures d.NoFiles? <==> |args| >= 2 && args[0] in fs && fs[args[0]] == []
    ensures d.Proceed? <==> |args| >= 2 && args[0] in fs && fs[args[0]] != []
    ensures !d.ShowUsage? ==> d.localDirectory == args[0]
    ensures d.Proceed? ==> d.destination == args[1] && d.files == fs[args[0]] && |d.files| > 0
  {
    if |args| < 2 then ShowUsage
    else if args[0] !in fs then NoDirectory(args[0])
    else if fs[args[0]] == [] then NoFiles(args[0])
    else Proceed(args[0], args[1], fs[args[0]])
  }

  /** The outcome of a run stopped by a guard: the message of the guard that stopped it. */
  function Refusal(d: Decision): (o: Outcome)
    requires !d.Proceed?
    ensures o.Usage? <==> d.ShowUsage?
    ensures o.MissingDirectory? <==> d.NoDirectory?
    ensures o.EmptyDirectory? <==> d.NoFiles?
    ensures !d.ShowUsage? ==> o.path == d.localDirectory
  {
    match d
    case ShowUsage => Usage
    case NoDirectory(p) => MissingDirectory(p)
    case NoFiles(p) => EmptyDirectory(p)
  }

  /** The catch blocks of `Run`: an unauthorized call is reported apart from every other failure. */
  function Classify(e: ApiError): (o: Outcome)
    ensures o == InvalidToken <==> e == NotAuthorized
    ensures o == InvalidToken || o == UnhandledException
  {
    if e == NotAuthorized then InvalidToken else UnhandledException
  }

  /** The remote path a file is uploaded to: the resolved destination followed by its base name. */
  function UploadTarget(destinationPath: string, fileName: string): (target: string)
    ensures |target| == |destinationPath| + |fileName|
    ensures target[..|destinationPath|] == destinationPath && target[|destinationPath|..] == fileName
  {
    destinationPath + fileName
  }

  /**
    Uploading into a resolved destination: the target is the child named
    after the file of the directory the destination path denotes.
   */
  lemma UploadTargetInside(s: seq<string>, fileName: string)
    requires ValidSegments(s) && ValidSegment(fileName)
    ensures Split(UploadTarget(PathOf(s), fileName), Sep) == s + [fileName]
  {
    SplitPathOfThen(s, fileName);
  }

  /** The base names of `files`, in order. */
  function Names(files: seq<LocalFile>): (r: seq<string>)
    ensures |r| == |files|
    ensures forall i :: 0 <= i < |files| ==> r[i] == files[i].name
  {
    if files == [] then [] else Names(files[..|files| - 1]) + [files[|files| - 1].name]
  }

  /**
    The uploads of one run: the targets an upload link was requested for,
    the targets whose bytes were sent, and the result.
   */
  datatype UploadTrace = UploadTrace(requested: seq<string>, targets: seq<string>, result: Result<seq<string>>)

  /**
    Uploading `files` one after the other into `destinationPath` on tree
    `t`: each file asks for an upload link to its target (overwriting) and
    then sends its bytes; the first refused link ends the run with its error.
   */
  function UploadSpec(t: Tree, authorized: bool, destinationPath: string, files: seq<LocalFile>): UploadTrace
    decreases |files|
  {
    if files == [] then UploadTrace([], [], Success([]))
    else
      var prev := UploadSpec(t, authorized, destinationPath, files[..|files| - 1]);
      var file := files[|files| - 1];
      var target := UploadTarget(destinationPath, file.name);
      var st := LinkStatus(t, authorized, target, true);
      if prev.result.Failure? then prev
      else if st.Err? then UploadTrace(prev.requested + [target], prev.targets, Failure(st.error))
      else UploadTrace(prev.requested + [target], prev.targets + [target], Success(prev.result.value + [file.name]))
  }

  // ---------------------------------------------------------------------
  // Methods
  // ---------------------------------------------------------------------

  /** `App.UploadFile`: request an overwriting upload link for the file's target, then upload. */
  method UploadFile(disk: Disk, file: LocalFile, destinationPath: string) returns (r: Result<string>)
    modifies disk`links, disk`uploads
    ensures disk.links == old(disk.links) + [UploadTarget(destinationPath, file.name)]
    ensures var target := UploadTarget(destinationPath, file.name);
      var st := LinkStatus(disk.nodes, disk.authorized, target, true);
      && (st.Ok? ==> r == Success(file.name) && disk.uploads == old(disk.uploads) + [target])
      && (st.Err? ==> r == Failure(st.error) && disk.uploads == old(disk.uploads))
  {
    var uploadLink := disk.GetUploadLink(UploadTarget(destinationPath, file.name), true);
    if uploadLink.Failure? {
      return Failure(uploadLink.error);
    }
    disk.Upload(uploadLink.value);
    return Success(file.name);
  }

  /** The uploads of `Run`, one file after the other, stopping at the first failure. */
  method UploadFiles(disk: Disk, files: seq<LocalFile>, destinationPath: string) returns (r: Result<seq<string>>)
    modifies disk`links, disk`uploads
    ensures var up := UploadSpec(disk.nodes, disk.authorized, destinationPath, files);
      && r == up.result
      && disk.links == old(disk.links) + up.requested
      && disk.uploads == old(disk.uploads) + up.targets
  {
    ghost var t, links, uploads := disk.nodes, disk.links, disk.uploads;
    ghost var up := UploadSpec(t, disk.authorized, destinationPath, files[..0]);
    var names := [];
    var i := 0;
    while i < |files|
      invariant i <= |files| && disk.nodes == t
      invariant up == UploadSpec(t, disk.authorized, destinationPath, files[..i])
      invariant up.result == Success(names)
      invariant disk.links == links + up.requested && disk.uploads == uploads + up.targets
    {
      UploadNext(t, disk.authorized, destinationPath, files, i);
      var uploaded := UploadFile(disk, files[i], destinationPath);
      up := UploadSpec(t, disk.authorized, destinationPath, files[..i + 1]);
      if uploaded.Failure? {
        UploadsStop(t, disk.authorized, destinationPath, files, i + 1);
        return Failure(uploaded.error);
      }
      names := names + [uploaded.value];
      i := i + 1;
    }
    assert files[..i] == files;
    r := Success(names);
  }

  /**
    `App.Run`: a run stopped by a guard makes no remote call at all;
    otherwise it resolves the destination and, if that succeeds, uploads
    every file into the resolved path. A failure while resolving is reported
    as an invalid token or an unhandled exception; a failure while uploading
    reaches the handlers wrapped by the upload's continuation, so it is
    always reported as an unhandled exception.
   */
  method Run(disk: Disk, args: seq<string>, fs: LocalFs, platformSep: char) returns (outcome: Outcome)
    requires disk.Valid()
    modifies disk
    ensures !Guard(args, fs).Proceed? ==> outcome == Refusal(Guard(args, fs)) && unchanged(disk)
    ensures Guard(args, fs).Proceed? ==>
      var d := Guard(args, fs);
      var tr := ResolveSpec(old(disk.nodes), disk.authorized, Normalize(d.destination, platformSep));
      && disk.nodes == tr.tree
      && disk.fetches == old(disk.fetches) + tr.fetches
      && disk.creates == old(disk.creates) + tr.creates
      && (tr.result.Failure? ==>
            outcome == Classify(tr.result.error) && disk.links == old(disk.links) && disk.uploads == old(disk.uploads))
      && (tr.result.Success? ==>
            var up := UploadSpec(tr.tree, disk.authorized, tr.result.value, d.files);
            && disk.links == old(disk.links) + up.requested
            && disk.uploads == old(disk.uploads) + up.targets
            && outcome == if up.result.Success? then Uploaded(up.result.value) else UnhandledException)
  {
    var d := Guard(args, fs);
    if !d.Proceed? {
      return Refusal(d);
    }
    var destinationPath := GetDestinationPath(disk, d.destination, platformSep);
    if destinationPath.Failure? {
      return Classify(destinationPath.error);
    }
    var uploaded := UploadFiles(disk, d.files, destinationPath.value);
    if uploaded.Failure? {
      // the failure reaches the handlers wrapped by the upload's continuation
      return UnhandledException;
    }
    return Uploaded(uploaded.value);
  }

  // ---------------------------------------------------------------------
  // Lemmas
  // ---------------------------------------------------------------------

  /** One more file after a run of successful uploads: its link is requested, and granted or not. */
  lemma UploadNext(t: Tree, authorized: bool, destinationPath: string, files: seq<LocalFile>, i: nat)
    requires i < |files| && UploadSpec(t, authorized, destinationPath, files[..i]).result.Success?
    ensures var prev := UploadSpec(t, authorized, destinationPath, files[..i]);
      var target := UploadTarget(destinationPath, files[i].name);
      var st := LinkStatus(t, authorized, target, true);
      UploadSpec(t, authorized, destinationPath, files[..i + 1]) ==
        if st.Err? then UploadTrace(prev.requested + [target], prev.targets, Failure(st.error))
        else UploadTrace(prev.requested + [target], prev.targets + [target], Success(prev.result.value + [files[i].name]))
  {
    assert files[..i + 1][..i] == files[..i];
  }

  /** Once an upload has failed, later files change nothing. */
  lemma {:induction false} UploadsStop(t: Tree, authorized: bool, destinationPath: string, files: seq<LocalFile>, n: nat)
    requires n <= |files|
    requires UploadSpec(t, authorized, destinationPath, files[..n]).result.Failure?
    ensures UploadSpec(t, authorized, destinationPath, files) == UploadSpec(t, authorized, destinationPath, files[..n])
    decreases |files| - n
  {
    if n < |files| {
      assert files[..n + 1][..n] == files[..n];
      UploadsStop(t, authorized, destinationPath, files, n + 1);
    } else {
      assert files[..n] == files;
    }
  }

  /**
    The uploads go out in file order: upload `i` targets the destination
    followed by the base name of file `i`, and a run that succeeds uploads
    every file and reports every name.
   */
  lemma {:induction false} UploadsInOrder(t: Tree, authorized: bool, destinationPath: string, files: seq<LocalFile>)
    ensures var up := UploadSpec(t, authorized, destinationPath, files);
      && |up.targets| <= |files|
      && (forall i :: 0 <= i < |up.targets| ==> up.targets[i] == UploadTarget(destinationPath, files[i].name))
      && (forall i :: 0 <= i < |up.targets| ==> LinkStatus(t, authorized, up.targets[i], true).Ok?)
      && (up.result.Success? ==> up.result.value == Names(files) && |up.targets| == |files| && up.requested == up.targets)
    decreases |files|
  {
    if files != [] {
      var init := files[..|files| - 1];
      UploadsInOrder(t, authorized, destinationPath, init);
      assert forall i :: 0 <= i < |init| ==> init[i] == files[i];
    }
  }

  /**
    A failed run stops at the first file whose upload link is refused:
    every earlier file was uploaded, that file's link was the last one
    requested, and its error is the run's.
   */
  lemma {:induction false} UploadFailsAtFirstRefusal(t: Tree, authorized: bool, destinationPath: string, files: seq<LocalFile>)
    ensures var up := UploadSpec(t, authorized, destinationPath, files);
      up.result.Failure? ==>
        var n := |up.targets|;
        && n < |files|
        && up.requested == up.targets + [UploadTarget(destinationPath, files[n].name)]
        && LinkStatus(t, authorized, UploadTarget(destinationPath, files[n].name), true) == Err(up.result.error)
        && forall i :: 0 <= i < n ==> LinkStatus(t, authorized, UploadTarget(destinationPath, files[i].name), true).Ok?
    decreases |files|
  {
    if files != [] {
      var init := files[..|files| - 1];
      UploadFailsAtFirstRefusal(t, authorized, destinationPath, init);
      UploadsInOrder(t, authorized, destinationPath, init);
      assert forall i :: 0 <= i < |init| ==> init[i] == files[i];
    }
  }

  /** When every upload link is granted, every file is uploaded and every name reported. */
  lemma {:induction false} UploadsAllAccepted(t: Tree, authorized: bool, destinationPath: string, files: seq<LocalFile>)
    requires forall i :: 0 <= i < |files| ==> LinkStatus(t, authorized, UploadTarget(destinationPath, files[i].name), true).Ok?
    ensures UploadSpec(t, authorized, destinationPath, files).result == Success(Names(files))
    decreases |files|
  {
    if files != [] {
      var init := files[..|files| - 1];
      assert forall i :: 0 <= i < |init| ==> init[i] == files[i];
      UploadsAllAccepted(t, authorized, destinationPath, init);
    }
  }

  /**
    Into a directory that holds no sub-directory named like a file, an
    authorized run uploads every file, each to the child of the resolved
    directory named after it.
   */
  lemma UploadsIntoDirectory(t: Tree, s: seq<string>, files: seq<LocalFile>)
    requires ValidSegments(s) && IsDir(t, s)
    requires forall i :: 0 <= i < |files| ==> ValidSegment(files[i].name) && !IsDir(t, s + [files[i].name])
    ensures var up := UploadSpec(t, true, PathOf(s), files);
      && up.result == Success(Names(files))
      && |up.targets| == |files|
      && forall i :: 0 <= i < |files| ==> Split(up.targets[i], Sep) == s + [files[i].name]
  {
    forall i | 0 <= i < |files|
      ensures Split(UploadTarget(PathOf(s), files[i].name), Sep) == s + [files[i].name]
      ensures LinkStatus(t, true, UploadTarget(PathOf(s), files[i].name), true).Ok?
    {
      UploadTargetInside(s, files[i].name);
      assert (s + [files[i].name])[..|s|] == s;
    }
    UploadsAllAccepted(t, true, PathOf(s), files);
    UploadsInOrder(t, true, PathOf(s), files);
  }

  /**
    End to end: when the destination resolves to a directory holding no
    sub-directory named like a file, an authorized run uploads every file
    into it, each under its base name.
   */
  lemma ResolvedThenUploaded(t: Tree, s: seq<string>, files: seq<LocalFile>)
    requires IsDir(t, []) && ValidSegments(s)
    requires var tr := ResolveSpec(t, true, s);
      && tr.result.Success?
      && IsDir(tr.tree, s)
      && forall i :: 0 <= i < |files| ==> ValidSegment(files[i].name) && !IsDir(tr.tree, s + [files[i].name])
    ensures var tr := ResolveSpec(t, true, s);
      var up := UploadSpec(tr.tree, true, tr.result.value, files);
      && up.result == Success(Names(files))
      && |up.targets| == |files|
      && forall i :: 0 <= i < |up.targets| ==> Split(up.targets[i], Sep) == s + [files[i].name]
  {
    var tr := ResolveSpec(t, true, s);
    ResolvedPrefixesExist(t, true, s);
    UploadsIntoDirectory(tr.tree, s, files);
  }
}
