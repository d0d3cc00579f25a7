/**
  * The resource registry: a project root and a map from a source path,
  * relative to that root, to the resource registered there. It is filled by
  * walking a directory listing and asking a caller-supplied classifier about
  * every file, and then queried by identifier.
  *
  * The file system is not modelled: the listing `read_dir` would produce is
  * passed in as a `Listing` value, a directory entry carrying the listing of
  * its own contents.
  */
module ResourceManagement {
  import opened Wrappers
  import opened Paths

  /** What the core observes of a resource: its identifier and where its
      generated output goes, relative to the output root. */
  datatype Resource = Resource(identifier: string, outputPath: Path)

  datatype IoError = IoError(message: string)

  /** A directory listing: either `read_dir` fails, or it yields entries. */
  datatype Listing = CannotRead(error: IoError) | Entries(entries: seq<Entry>)

  /** One item yielded by `read_dir`: a failed entry, or a file name with
      its type. */
  datatype Entry = BadEntry(error: IoError) | Entry(name: string, fileType: FileType)

  /** `DirEntry::file_type`: it can fail; a directory carries the listing the
      walk would read if it descended into it. */
  datatype FileType = TypeError(error: IoError) | NotDirectory | Directory(contents: Listing)

  /** The outcome of a registration and the registered map it leaves behind:
      on failure the map keeps what was inserted before the failure. */
  datatype Registration = Registration(outcome: Result<(), IoError>, registered: map<Path, Resource>)

  /** `entries` lists every entry of `m` exactly once: one possible iteration
      order of the map, which Rust leaves unspecified. */
  predicate Enumerates(entries: seq<(Path, Resource)>, m: map<Path, Resource>) {
    && (forall i :: 0 <= i < |entries| ==> entries[i].0 in m && m[entries[i].0] == entries[i].1)
    && (forall p :: p in m ==> exists i :: 0 <= i < |entries| && entries[i].0 == p)
    && (forall i, j :: 0 <= i < j < |entries| ==> entries[i].0 != entries[j].0)
  }

  /** The first entry, in iteration order, whose resource has the identifier. */
  function FirstWithIdentifier(entries: seq<(Path, Resource)>, identifier: string): (r: Option<Resource>)
    ensures r.None? <==> forall i :: 0 <= i < |entries| ==> entries[i].1.identifier != identifier
    ensures r.Some? ==> r.value.identifier == identifier
    ensures r.Some? ==> exists i :: 0 <= i < |entries| && entries[i].1 == r.value && (forall j :: 0 <= j < i ==> entries[j].1.identifier != identifier)
  {
    if |entries| == 0 then None
    else if entries[0].1.identifier == identifier then Some(entries[0].1)
    else
      var r := FirstWithIdentifier(entries[1..], identifier);
      assert forall i :: 1 <= i < |entries| ==> entries[i] == entries[1..][i - 1];
      r
  }

  /** Against an enumeration of the registered map, the lookup finds a
      resource exactly when one with that identifier is registered. */
  lemma FirstWithIdentifierInMap(entries: seq<(Path, Resource)>, m: map<Path, Resource>, identifier: string)
    requires Enumerates(entries, m)
    ensures var r := FirstWithIdentifier(entries, identifier);
      && (r.Some? ==> r.value in m.Values && r.value.identifier == identifier)
      && (r.None? <==> forall p :: p in m ==> m[p].identifier != identifier)
  {
    var r := FirstWithIdentifier(entries, identifier);
    if r.Some? {
      var i :| 0 <= i < |entries| && entries[i].1 == r.value;
      assert m[entries[i].0] == r.value;
    } else {
      forall p | p in m ensures m[p].identifier != identifier {
        var i :| 0 <= i < |entries| && entries[i].0 == p;
      }
    }
  }

  /** No two registered resources share an identifier. */
  predicate UniqueIdentifiers(m: map<Path, Resource>) {
    forall p, q :: p in m && q in m && m[p].identifier == m[q].identifier ==> p == q
  }

  /** With unique identifiers the unspecified iteration order does not matter:
      every enumeration resolves an identifier to the same resource. */
  lemma LookupIndependentOfOrder(e1: seq<(Path, Resource)>, e2: seq<(Path, Resource)>, m: map<Path, Resource>, identifier: string)
    requires Enumerates(e1, m) && Enumerates(e2, m) && UniqueIdentifiers(m)
    ensures FirstWithIdentifier(e1, identifier) == FirstWithIdentifier(e2, identifier)
  {
    FirstWithIdentifierInMap(e1, m, identifier);
    FirstWithIdentifierInMap(e2, m, identifier);
    var r1, r2 := FirstWithIdentifier(e1, identifier), FirstWithIdentifier(e2, identifier);
    if r1.Some? && r2.Some? {
      var p :| p in m && m[p] == r1.value;
      var q :| q in m && m[q] == r2.value;
    }
  }

  /** The relative path of a directory entry: the bare name when the
      directory compares equal to `.`, otherwise the directory with the name
      pushed onto it. */
  function EntryPath(dirPath: Path, name: string): Path {
    if IsCurDir(dirPath) then name else Push(dirPath, name)
  }

  /** The parent of an entry path is the listed directory, or the empty path
      for entries of `.`. */
  lemma EntryPathParent(dirPath: Path, name: string)
    requires Trimmed(dirPath) && IsFileName(name)
    ensures Parent(EntryPath(dirPath, name)) == Some(if IsCurDir(dirPath) then "" else dirPath)
  {
    if IsCurDir(dirPath) {
      ParentOfPush("", name);
      assert Push("", name) == name;
    } else {
      ParentOfPush(dirPath, name);
    }
  }

  /** Outside `.`, the classifier is shown the absolute form of the entry path. */
  lemma ClassifiedPathIsAbsoluteEntryPath(root: Path, dirPath: Path, name: string)
    requires !IsCurDir(dirPath)
    ensures Push(Push(root, dirPath), name) == Push(root, EntryPath(dirPath, name))
  {
    PushAssociative(root, dirPath, name);
  }

  function Width(listing: Listing): nat {
    if listing.Entries? then |listing.entries| else 0
  }

  /** `register_all_files_in_directory_ref`, as a function of the registered
      map before the call. */
  function Register(root: Path, m: map<Path, Resource>, dirPath: Path, listing: Listing,
                    classify: Path -> Option<Resource>, recurse: bool): Registration
    decreases listing, Width(listing) + 1
  {
    match listing
    case CannotRead(e) => Registration(Err(e), m)
    case Entries(es) => RegisterPrefix(root, m, dirPath, listing, |es|, classify, recurse)
  }

  /** The registration after the first `n` entries of the listing. */
  function RegisterPrefix(root: Path, m: map<Path, Resource>, dirPath: Path, listing: Listing, n: nat,
                          classify: Path -> Option<Resource>, recurse: bool): Registration
    requires listing.Entries? && n <= |listing.entries|
    decreases listing, n
  {
    if n == 0 then Registration(Ok(()), m)
    else
      var before := RegisterPrefix(root, m, dirPath, listing, n - 1, classify, recurse);
      if before.outcome.Err? then before
      else RegisterEntry(root, before.registered, dirPath, listing.entries[n - 1], classify, recurse)
  }

  /** One entry of the listing of `dirPath`: a failed entry or file type is an
      error; a directory is walked when `recurse` holds; a file goes to the
      classifier under its absolute path, and what the classifier returns is
      inserted at the entry path, replacing what was there. */
  function RegisterEntry(root: Path, m: map<Path, Resource>, dirPath: Path, entry: Entry,
                         classify: Path -> Option<Resource>, recurse: bool): Registration
    decreases entry
  {
    match entry
    case BadEntry(e) => Registration(Err(e), m)
    case Entry(name, fileType) =>
      var entryPath := EntryPath(dirPath, name);
      match fileType
      case TypeError(e) => Registration(Err(e), m)
      case Directory(sub) =>
        if recurse then Register(root, m, entryPath, sub, classify, recurse)
        else Registration(Ok(()), m)
      case NotDirectory =>
        match classify(Push(Push(root, dirPath), name))
        case None => Registration(Ok(()), m)
        case Some(res) => Registration(Ok(()), m[entryPath := res])
  }

  /** `res` is what the classifier returns for a file the walk reaches, and
      `p` is that file's entry path. Directories are entered only when
      `recurse` holds, and are never reached themselves. */
  ghost predicate Reaches(root: Path, dirPath: Path, listing: Listing, classify: Path -> Option<Resource>,
                          recurse: bool, p: Path, res: Resource)
    decreases listing
  {
    listing.Entries? &&
    exists k :: 0 <= k < |listing.entries| && ReachesVia(root, dirPath, listing, k, classify, recurse, p, res)
  }

  ghost predicate ReachesVia(root: Path, dirPath: Path, listing: Listing, k: nat, classify: Path -> Option<Resource>,
                             recurse: bool, p: Path, res: Resource)
    requires listing.Entries? && k < |listing.entries|
    decreases listing, 0
  {
    match listing.entries[k]
    case BadEntry(_) => false
    case Entry(name, fileType) =>
      match fileType
      case TypeError(_) => false
      case NotDirectory => p == EntryPath(dirPath, name) && classify(Push(Push(root, dirPath), name)) == Some(res)
      case Directory(sub) => recurse && Reaches(root, EntryPath(dirPath, name), sub, classify, recurse, p, res)
  }

  /** Registration only ever adds or overwrites the entry paths of files the
      walk reaches, with what the classifier returned for them; everything
      else in the map is left as it was. */
  lemma {:induction false} RegisterOnlyInsertsReachedFiles(root: Path, m: map<Path, Resource>, dirPath: Path, listing: Listing,
                                                          classify: Path -> Option<Resource>, recurse: bool)
    ensures var after := Register(root, m, dirPath, listing, classify, recurse).registered;
      forall p :: p in after ==>
        (p in m && after[p] == m[p]) || Reaches(root, dirPath, listing, classify, recurse, p, after[p])
    decreases listing, Width(listing) + 1
  {
    if listing.Entries? {
      PrefixOnlyInsertsReachedFiles(root, m, dirPath, listing, |listing.entries|, classify, recurse);
    }
  }

  lemma {:induction false} PrefixOnlyInsertsReachedFiles(root: Path, m: map<Path, Resource>, dirPath: Path, listing: Listing, n: nat,
                                                        classify: Path -> Option<Resource>, recurse: bool)
    requires listing.Entries? && n <= |listing.entries|
    ensures var after := RegisterPrefix(root, m, dirPath, listing, n, classify, recurse).registered;
      forall p :: p in after ==>
        (p in m && after[p] == m[p]) || Reaches(root, dirPath, listing, classify, recurse, p, after[p])
    decreases listing, n
  {
    if n > 0 {
      PrefixOnlyInsertsReachedFiles(root, m, dirPath, listing, n - 1, classify, recurse);
      var before := RegisterPrefix(root, m, dirPath, listing, n - 1, classify, recurse);
      var m1 := before.registered;
      var after := RegisterPrefix(root, m, dirPath, listing, n, classify, recurse).registered;
      if before.outcome.Ok? && listing.entries[n - 1].Entry? {
        var k := n - 1;
        var name, fileType := listing.entries[k].name, listing.entries[k].fileType;
        var entryPath := EntryPath(dirPath, name);
        if fileType.Directory? && recurse {
          var sub := fileType.contents;
          RegisterOnlyInsertsReachedFiles(root, m1, entryPath, sub, classify, recurse);
          assert RegisterPrefix(root, m, dirPath, listing, n, classify, recurse)
              == RegisterEntry(root, m1, dirPath, listing.entries[k], classify, recurse);
          assert after == Register(root, m1, entryPath, sub, classify, recurse).registered;
          forall p | p in after && !(p in m1 && after[p] == m1[p])
            ensures Reaches(root, dirPath, listing, classify, recurse, p, after[p])
          {
            assert ReachesVia(root, dirPath, listing, k, classify, recurse, p, after[p]);
          }
        } else if fileType.NotDirectory? {
          var c := classify(Push(Push(root, dirPath), name));
          if c.Some? {
            assert ReachesVia(root, dirPath, listing, k, classify, recurse, entryPath, c.value);
          }
        }
      }
    }
  }

  /** When registration succeeds, every file the walk reaches and the
      classifier accepts is registered under its entry path. */
  lemma {:induction false} RegisterCoversReachedFiles(root: Path, m: map<Path, Resource>, dirPath: Path, listing: Listing,
                                                     classify: Path -> Option<Resource>, recurse: bool, p: Path, res: Resource)
    requires Register(root, m, dirPath, listing, classify, recurse).outcome.Ok?
    requires Reaches(root, dirPath, listing, classify, recurse, p, res)
    ensures p in Register(root, m, dirPath, listing, classify, recurse).registered
    decreases listing, Width(listing) + 1
  {
    var k :| 0 <= k < |listing.entries| && ReachesVia(root, dirPath, listing, k, classify, recurse, p, res);
    PrefixCoversReachedFiles(root, m, dirPath, listing, |listing.entries|, k, classify, recurse, p, res);
  }

  lemma {:induction false} PrefixCoversReachedFiles(root: Path, m: map<Path, Resource>, dirPath: Path, listing: Listing, n: nat, k: nat,
                                                   classify: Path -> Option<Resource>, recurse: bool, p: Path, res: Resource)
    requires listing.Entries? && k < n <= |listing.entries|
    requires RegisterPrefix(root, m, dirPath, listing, n, classify, recurse).outcome.Ok?
    requires ReachesVia(root, dirPath, listing, k, classify, recurse, p, res)
    ensures p in RegisterPrefix(root, m, dirPath, listing, n, classify, recurse).registered
    decreases listing, n
  {
    var before := RegisterPrefix(root, m, dirPath, listing, n - 1, classify, recurse);
    var name, fileType := listing.entries[n - 1].name, listing.entries[n - 1].fileType;
    if k == n - 1 {
      if fileType.Directory? {
        RegisterCoversReachedFiles(root, before.registered, EntryPath(dirPath, name), fileType.contents, classify, recurse, p, res);
      }
    } else {
      PrefixCoversReachedFiles(root, m, dirPath, listing, n - 1, k, classify, recurse, p, res);
      RegisterKeepsKeys(root, dirPath, listing, n, classify, recurse, m);
    }
  }

  /** A registration step never removes a path: the map only grows. */
  lemma {:induction false} RegisterKeepsKeys(root: Path, dirPath: Path, listing: Listing, n: nat,
                                            classify: Path -> Option<Resource>, recurse: bool, m: map<Path, Resource>)
    requires listing.Entries? && 0 < n <= |listing.entries|
    ensures RegisterPrefix(root, m, dirPath, listing, n - 1, classify, recurse).registered.Keys
         <= RegisterPrefix(root, m, dirPath, listing, n, classify, recurse).registered.Keys
    decreases listing, n, 0
  {
    var before := RegisterPrefix(root, m, dirPath, listing, n - 1, classify, recurse);
    var e := listing.entries[n - 1];
    if before.outcome.Ok? && e.Entry? && e.fileType.Directory? && recurse {
      RegisterGrows(root, before.registered, EntryPath(dirPath, e.name), e.fileType.contents, classify, recurse);
    }
  }

  lemma {:induction false} RegisterGrows(root: Path, m: map<Path, Resource>, dirPath: Path, listing: Listing,
                                        classify: Path -> Option<Resource>, recurse: bool)
    ensures m.Keys <= Register(root, m, dirPath, listing, classify, recurse).registered.Keys
    decreases listing, Width(listing) + 1
  {
    if listing.Entries? {
      PrefixGrows(root, m, dirPath, listing, |listing.entries|, classify, recurse);
    }
  }

  lemma {:induction false} PrefixGrows(root: Path, m: map<Path, Resource>, dirPath: Path, listing: Listing, n: nat,
                                      classify: Path -> Option<Resource>, recurse: bool)
    requires listing.Entries? && n <= |listing.entries|
    ensures m.Keys <= RegisterPrefix(root, m, dirPath, listing, n, classify, recurse).registered.Keys
    decreases listing, n, 1
  {
    if n > 0 {
      PrefixGrows(root, m, dirPath, listing, n - 1, classify, recurse);
      RegisterKeepsKeys(root, dirPath, listing, n, classify, recurse, m);
    }
  }

  /** The first failure ends the registration: the entries after it are never
      looked at, so the outcome and the map stay as the failure left them. */
  lemma {:induction false} RegisterStopsAtFirstFailure(root: Path, m: map<Path, Resource>, dirPath: Path, listing: Listing,
                                                      n: nat, n': nat, classify: Path -> Option<Resource>, recurse: bool)
    requires listing.Entries? && n <= n' <= |listing.entries|
    requires RegisterPrefix(root, m, dirPath, listing, n, classify, recurse).outcome.Err?
    ensures RegisterPrefix(root, m, dirPath, listing, n', classify, recurse)
         == RegisterPrefix(root, m, dirPath, listing, n, classify, recurse)
    decreases n' - n
  {
    if n < n' {
      RegisterStopsAtFirstFailure(root, m, dirPath, listing, n, n' - 1, classify, recurse);
    }
  }

  /** Keeps the project root and the registered resources. */
  class ResourceManager {
    var projectRoot: Path
    var registeredResources: map<Path, Resource>

    /** `new`: the given root, nothing registered. */
    constructor (projectRoot: Path)
      ensures this.projectRoot == projectRoot && registeredResources == map[]
    {
      this.projectRoot := projectRoot;
      registeredResources := map[];
    }

    /** `absolute_path`: the root with the fragment pushed onto it. It never
        fails; an absolute fragment replaces the root, and a relative one is
        joined with a separator exactly when the root needs one. */
    function AbsolutePath(fragment: Path): (r: Path)
      reads this
      ensures IsAbsolute(fragment) ==> r == fragment
      ensures !IsAbsolute(fragment) ==>
        && |projectRoot| <= |r| && |fragment| <= |r|
        && r[..|projectRoot|] == projectRoot && r[|r| - |fragment|..] == fragment
        && (|r| == |projectRoot| + |fragment| || (|r| == |projectRoot| + |fragment| + 1 && r[|projectRoot|] == '/'))
        && (|r| == |projectRoot| + |fragment| + 1 <==> |projectRoot| > 0 && projectRoot[|projectRoot| - 1] != '/')
    {
      if IsAbsolute(fragment) then
        PushAbsolute(projectRoot, fragment);
        Push(projectRoot, fragment)
      else
        PushRelative(projectRoot, fragment);
        Push(projectRoot, fragment)
    }

    /** `register_all_files_in_directory`: delegates to the recursive walk. */
    method RegisterAllFilesInDirectory(dirPath: Path, listing: Listing, classify: Path -> Option<Resource>, recurse: bool)
      returns (r: Result<(), IoError>)
      modifies this
      ensures projectRoot == old(projectRoot)
      ensures Registration(r, registeredResources)
           == Register(projectRoot, old(registeredResources), dirPath, listing, classify, recurse)
    {
      r := RegisterAllFilesInDirectoryRef(dirPath, listing, classify, recurse);
    }

    /** `register_all_files_in_directory_ref`: for each entry in order, fail
        on an unreadable entry or file type, descend into a directory when
        `recurse` holds, and insert the classifier's resource for a file at
        its entry path. */
    method RegisterAllFilesInDirectoryRef(dirPath: Path, listing: Listing, classify: Path -> Option<Resource>, recurse: bool)
      returns (r: Result<(), IoError>)
      modifies this
      ensures projectRoot == old(projectRoot)
      ensures Registration(r, registeredResources)
           == Register(projectRoot, old(registeredResources), dirPath, listing, classify, recurse)
      decreases listing
    {
      if listing.CannotRead? {
        return Err(listing.error);
      }
      var entries := listing.entries;
      var i := 0;
      while i < |entries|
        invariant 0 <= i <= |entries| && projectRoot == old(projectRoot)
        invariant RegisterPrefix(projectRoot, old(registeredResources), dirPath, listing, i, classify, recurse)
               == Registration(Ok(()), registeredResources)
      {
        assert entries[i] < listing;
        ghost var m1 := registeredResources;
        r := RegisterOneEntry(dirPath, entries[i], classify, recurse);
        assert RegisterPrefix(projectRoot, old(registeredResources), dirPath, listing, i + 1, classify, recurse)
            == RegisterEntry(projectRoot, m1, dirPath, entries[i], classify, recurse);
        match r
        case Err(_) =>
          RegisterStopsAtFirstFailure(projectRoot, old(registeredResources), dirPath, listing, i + 1, |entries|, classify, recurse);
          return;
        case Ok(()) =>
          i := i + 1;
      }
      r := Ok(());
    }

    /** The body of the registration loop, for one entry. */
    method RegisterOneEntry(dirPath: Path, entry: Entry, classify: Path -> Option<Resource>, recurse: bool)
      returns (r: Result<(), IoError>)
      modifies this
      ensures projectRoot == old(projectRoot)
      ensures Registration(r, registeredResources)
           == RegisterEntry(projectRoot, old(registeredResources), dirPath, entry, classify, recurse)
      decreases entry
    {
      if entry.BadEntry? {
        return Err(entry.error);
      }
      var entryPath := EntryPath(dirPath, entry.name);
      match entry.fileType
      case TypeError(e) =>
        return Err(e);
      case Directory(sub) =>
        if recurse {
          r := RegisterAllFilesInDirectoryRef(entryPath, sub, classify, recurse);
        } else {
          r := Ok(());
        }
      case NotDirectory =>
        var res := classify(Push(AbsolutePath(dirPath), entry.name));
        if res.Some? {
          registeredResources := registeredResources[entryPath := res.value];
        }
        r := Ok(());
    }

    /** One iteration of the registered map, in an order the model leaves
        open, as `HashMap` iteration does. */
    method Iterate() returns (entries: seq<(Path, Resource)>)
      ensures Enumerates(entries, registeredResources)
    {
      var remaining := registeredResources.Keys;
      entries := [];
      while remaining != {}
        invariant remaining <= registeredResources.Keys
        invariant forall i :: 0 <= i < |entries| ==>
          entries[i].0 in registeredResources && entries[i].0 !in remaining
          && registeredResources[entries[i].0] == entries[i].1
        invariant forall p :: p in registeredResources && p !in remaining ==>
          exists i :: 0 <= i < |entries| && entries[i].0 == p
        invariant forall i, j :: 0 <= i < j < |entries| ==> entries[i].0 != entries[j].0
        decreases remaining
      {
        var p :| p in remaining;
        var listed := entries;
        entries := entries + [(p, registeredResources[p])];
        remaining := remaining - {p};
        forall q | q in registeredResources && q !in remaining
          ensures exists i :: 0 <= i < |entries| && entries[i].0 == q
        {
          if q == p {
            assert entries[|listed|].0 == q;
          } else {
            var i :| 0 <= i < |listed| && listed[i].0 == q;
            assert entries[i].0 == q;
          }
        }
      }
    }

    /** `resource_by_identifier`: some registered resource with that
        identifier, or none exactly when no registered resource has it. */
    method ResourceByIdentifier(identifier: string) returns (r: Option<Resource>)
      ensures r.Some? ==> r.value in registeredResources.Values && r.value.identifier == identifier
      ensures r.None? <==> forall p :: p in registeredResources ==> registeredResources[p].identifier != identifier
    {
      var entries := Iterate();
      r := FirstWithIdentifier(entries, identifier);
      FirstWithIdentifierInMap(entries, registeredResources, identifier);
    }

    /** `all_registered_files`: a copy of the registered map. The copy is a
        value, so later registrations cannot change it. */
    function AllRegisteredFiles(): (files: map<Path, Resource>)
      reads this
      ensures files.Keys == registeredResources.Keys
      ensures forall p :: p in files ==> files[p] == registeredResources[p]
    {
      registeredResources
    }
  }
}
