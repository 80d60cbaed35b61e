/**
  The remote storage service as the uploader sees it: a tree of resources
  addressed by path, and the four calls it makes (metadata fetch, directory
  creation, upload-link request, byte upload). The service itself is a
  black box; this module fixes one abstract behaviour for it and keeps a
  ghost log of every call, so that the resolver can be specified by the
  calls it makes.
 */
module Remote {
  import opened Paths

  datatype Kind = Directory | File

  /** Every existing resource, keyed by its path segments; the root is `[]`. */
  type Tree = map<seq<string>, Kind>

  /** Error kinds of the remote calls as the uploader distinguishes them. */
  datatype ApiError =
    | NotAuthorized   // the OAuth token was rejected
    | NotFound        // no resource at the requested path
    | Conflict        // the path already exists, or its parent is not a directory
    | NoListing       // the fetched resource is a file: it has no embedded listing

  datatype Result<T> = Success(value: T) | Failure(error: ApiError)

  datatype Status = Ok | Err(error: ApiError)

  /** The `Embedded` part of a metadata response: absent for a file. */
  datatype Listing = NoEmbedded | Embedded(items: set<string>)

  datatype Resource = Resource(path: string, embedded: Listing)

  predicate IsDir(t: Tree, p: seq<string>) {
    p in t && t[p] == Directory
  }

  /** Names of the immediate children of `p`, files and directories alike. */
  function Children(t: Tree, p: seq<string>): set<string> {
    set q | q in t && |q| == |p| + 1 && q[..|p|] == p :: q[|p|]
  }

  /**
    A well-formed tree: the root is a directory and the parent of every
    other resource exists and is a directory (so the tree is prefix-closed).
   */
  predicate PrefixClosed(t: Tree) {
    IsDir(t, []) && forall p, j :: p in t && 0 <= j < |p| ==> IsDir(t, p[..j])
  }

  /** The `Embedded` listing a metadata fetch of `p` returns. */
  function ListingOf(t: Tree, p: seq<string>): Listing {
    if IsDir(t, p) then Embedded(Children(t, p)) else NoEmbedded
  }

  /** The metadata-fetch response for `path`. */
  function Info(t: Tree, authorized: bool, path: string): Result<Resource> {
    if !authorized then Failure(NotAuthorized)
    else
      var p := Split(path, Sep);
      if p !in t then Failure(NotFound)
      else Success(Resource(path, ListingOf(t, p)))
  }

  /** Whether creating a directory at `path` succeeds. */
  function CreateStatus(t: Tree, authorized: bool, path: string): Status {
    if !authorized then Err(NotAuthorized)
    else
      var p := Split(path, Sep);
      if p in t || p == [] || !IsDir(t, p[..|p| - 1]) then Err(Conflict)
      else Ok
  }

  /** Whether an upload link for `path` is issued. */
  function LinkStatus(t: Tree, authorized: bool, path: string, overwrite: bool): Status {
    if !authorized then Err(NotAuthorized)
    else
      var p := Split(path, Sep);
      if p == [] || !IsDir(t, p[..|p| - 1]) then Err(Conflict)
      else if p in t && (t[p] == Directory || !overwrite) then Err(Conflict)
      else Ok
  }

  // ---------------------------------------------------------------------
  // Lemmas
  // ---------------------------------------------------------------------

  /** The listing of a directory holds `name` exactly when the child exists. */
  lemma ChildNamed(t: Tree, p: seq<string>, name: string)
    ensures name in Children(t, p) <==> p + [name] in t
  {
    var q := p + [name];
    assert q[..|p|] == p && q[|p|] == name;
    if name in Children(t, p) {
      var q' :| q' in t && |q'| == |p| + 1 && q'[..|p|] == p && q'[|p|] == name;
      assert q' == q'[..|p|] + [q'[|p|]];
    }
  }

  /** The metadata fetch of the path built from valid segments `p`. */
  lemma InfoAtPath(t: Tree, p: seq<string>)
    requires ValidSegments(p)
    ensures Split(PathOf(p), Sep) == p
    ensures Info(t, true, PathOf(p)) == if p in t then Success(Resource(PathOf(p), ListingOf(t, p))) else Failure(NotFound)
  {
    SplitPathOf(p);
  }

  /** Creating the directory at the path built from valid segments `p`. */
  lemma CreateAtPath(t: Tree, p: seq<string>)
    requires ValidSegments(p)
    ensures Split(PathOf(p), Sep) == p
    ensures CreateStatus(t, true, PathOf(p)) == if p in t || p == [] || !IsDir(t, p[..|p| - 1]) then Err(Conflict) else Ok
  {
    SplitPathOf(p);
  }

  // ---------------------------------------------------------------------
  // The service, with a ghost log of the calls made to it
  // ---------------------------------------------------------------------

  class Disk {
    /** The resources stored on the service. */
    var nodes: Tree
    /** Whether the client's OAuth token is accepted. */
    const authorized: bool
    /** Paths passed to the metadata fetch, in call order. */
    ghost var fetches: seq<string>
    /** Paths passed to the create-directory command, in call order. */
    ghost var creates: seq<string>
    /** Paths passed to the upload-link request, in call order. */
    ghost var links: seq<string>
    /** Targets whose bytes were uploaded, in call order. */
    ghost var uploads: seq<string>

    ghost predicate Valid()
      reads this
    {
      IsDir(nodes, [])
    }

    constructor (initial: Tree, authorized: bool)
      requires IsDir(initial, [])
      ensures Valid()
      ensures nodes == initial && this.authorized == authorized
      ensures fetches == [] && creates == [] && links == [] && uploads == []
    {
      nodes := initial;
      this.authorized := authorized;
      fetches, creates, links, uploads := [], [], [], [];
    }

    /** Metadata fetch (`MetaInfo.GetInfoAsync`). */
    method GetInfo(path: string) returns (r: Result<Resource>)
      modifies this`fetches
      ensures fetches == old(fetches) + [path]
      ensures r == Info(nodes, authorized, path)
    {
      fetches := fetches + [path];
      r := Info(nodes, authorized, path);
    }

    /** Create-directory command (`Commands.CreateDictionaryAsync`). */
    method CreateDirectory(path: string) returns (st: Status)
      requires Valid()
      modifies this`nodes, this`creates
      ensures Valid()
      ensures creates == old(creates) + [path]
      ensures st == CreateStatus(old(nodes), authorized, path)
      ensures nodes == if st.Ok? then old(nodes)[Split(path, Sep) := Directory] else old(nodes)
    {
      creates := creates + [path];
      st := CreateStatus(nodes, authorized, path);
      if st.Ok? {
        nodes := nodes[Split(path, Sep) := Directory];
      }
    }

    /** Upload-link request (`Files.GetUploadLinkAsync`); the link is the target path. */
    method GetUploadLink(path: string, overwrite: bool) returns (r: Result<string>)
      modifies this`links
      ensures links == old(links) + [path]
      ensures var st := LinkStatus(nodes, authorized, path, overwrite);
        r == if st.Ok? then Success(path) else Failure(st.error)
    {
      links := links + [path];
      var st := LinkStatus(nodes, authorized, path, overwrite);
      r := if st.Ok? then Success(path) else Failure(st.error);
    }

    /** Byte upload to a link (`Files.UploadAsync`). */
    method Upload(link: string)
      modifies this`uploads
      ensures uploads == old(uploads) + [link]
    {
      uploads := uploads + [link];
    }
  }
}
