/** The workflow synchroniser: a sequential fold over a remote file listing of
    (path, sha) entries that keeps a store of workflow records, keyed by file
    path, in step with the `.json` files of a fixed GitHub repository.

    The network and the database are parameters: the listing is an input,
    the raw-content download and the success of each upsert are oracles
    (`Remote`), and the store is a finite map. */
module WorkflowSync {
  import opened Wrappers
  import opened JsStrings

  // ---------------------------------------------------------------------
  // Fixed repository identity
  // ---------------------------------------------------------------------

  const RepoOwner: string := "Zie619"
  const RepoName: string := "n8n-workflows"
  const Branch: string := "main"

  /** Only listing entries whose path has this ending are synchronised. */
  const WorkflowExtension: string := ".json"

  /** The package prefix removed from node type names. */
  const NodesBasePrefix: string := "n8n-nodes-base."

  /** The message of the fatal error raised when the listing has no tree. */
  const TreeMissingMessage: string := "Could not fetch repository tree"

  /** The address of the repository's files on `main`, up to the path. */
  const GithubBlobBase: string := "https://github.com/" + RepoOwner + "/" + RepoName + "/blob/" + Branch + "/"

  /** The browsable GitHub address stored with every record: the fixed blob
      address followed by the path, which can be read back from it. */
  function GithubUrl(path: string): (url: string)
    ensures |url| == |GithubBlobBase| + |path|
    ensures url[..|GithubBlobBase|] == GithubBlobBase
    ensures url[|GithubBlobBase|..] == path
  {
    GithubBlobBase + path
  }

  /** Distinct paths get distinct addresses. */
  lemma GithubUrlInjective(a: string, b: string)
    ensures GithubUrl(a) == GithubUrl(b) <==> a == b
  {
    if GithubUrl(a) == GithubUrl(b) {
      assert a == GithubUrl(a)[|GithubBlobBase|..] == GithubUrl(b)[|GithubBlobBase|..] == b;
    }
  }

  // ---------------------------------------------------------------------
  // Downloaded workflow documents
  // ---------------------------------------------------------------------

  /** The `type` field of one node, as far as `node.type || ""` followed by
      `.replace(...)` can tell: missing or falsy (undefined, null, false, 0,
      ""), a string, or a truthy non-string (a number, object, array or
      `true`), on which `.replace` is not a function and throws. */
  datatype TypeField = NoType | TypeString(s: string) | TypeOther

  /** One element of a document's `nodes` array. Reading `.type` of `null`
      throws; a primitive other than null has no `type` and is `NodeItem(NoType)`. */
  datatype NodeItem = NullNode | NodeItem(typeField: TypeField)

  /** A downloaded document (`contentRes.data`). Reading `.nodes` of `null`
      throws. Otherwise `nodes` is the `nodes` array when it is present and an
      array, and `None` when it is missing, falsy or not an array (also when
      the response body is not JSON and arrives as a plain string); `rest`
      stands opaquely for everything else in the document. */
  datatype Document = NullDocument | Document(nodes: Option<seq<NodeItem>>, rest: string)

  /** The name one node contributes, or `None` when computing it throws. */
  function NodeName(item: NodeItem): (r: Option<string>)
    ensures r.None? <==> item.NullNode? || item.typeField.TypeOther?
    ensures item == NodeItem(NoType) ==> r == Some("")
    ensures item.NodeItem? && item.typeField.TypeString? && Absent(item.typeField.s, NodesBasePrefix)
            ==> r == Some(item.typeField.s)
    ensures item.NodeItem? && item.typeField.TypeString? ==>
              var t := item.typeField.s;
              forall i: nat :: IsFirstOccurrence(t, NodesBasePrefix, i) ==> r == Some(t[..i] + t[i + |NodesBasePrefix|..])
  {
    match item
    case NullNode => None
    case NodeItem(NoType) => Some("")
    case NodeItem(TypeString(t)) => Some(RemoveFirst(t, NodesBasePrefix))
    case NodeItem(TypeOther) => None
  }

  /** `nodes.map(...)` over the node names: fails as soon as one node throws. */
  function NodeNames(items: seq<NodeItem>): (r: Option<seq<string>>)
    ensures r.Some? <==> forall i :: 0 <= i < |items| ==> NodeName(items[i]).Some?
    ensures r.Some? ==> |r.value| == |items|
    ensures r.Some? ==> forall i :: 0 <= i < |items| ==> r.value[i] == NodeName(items[i]).value
  {
    if |items| == 0 then Some([])
    else
      match NodeName(items[0])
      case None => None
      case Some(n) =>
        match NodeNames(items[1..])
        case None => None
        case Some(ns) => Some([n] + ns)
  }

  /** `extractNodeNames`: `None` when it throws. */
  function ExtractNodeNames(doc: Document): (r: Option<seq<string>>)
    ensures doc.NullDocument? ==> r.None?
    ensures doc.Document? && doc.nodes.None? ==> r == Some([])
    ensures doc.Document? && doc.nodes.Some? ==>
              (r.Some? <==> forall i :: 0 <= i < |doc.nodes.value| ==> NodeName(doc.nodes.value[i]).Some?)
    ensures doc.Document? && doc.nodes.Some? && r.Some? ==>
              |r.value| == |doc.nodes.value| &&
              forall i :: 0 <= i < |doc.nodes.value| ==> r.value[i] == NodeName(doc.nodes.value[i]).value
  {
    match doc
    case NullDocument => None
    case Document(None, _) => Some([])
    case Document(Some(items), _) => NodeNames(items)
  }

  /** The display name of a workflow file: the last '/' segment of its path,
      with the first ".json" in it removed, and every '-' turned into a space. */
  function DeriveName(path: string): (name: string)
    ensures '-' !in name
    ensures '/' !in name
    ensures |name| == |LastSegment(path)| || |name| + |WorkflowExtension| == |LastSegment(path)|
  {
    var segment := LastSegment(path);
    var stem := RemoveFirst(segment, WorkflowExtension);
    RemoveFirstKeepsOnlyCharsOf(segment, WorkflowExtension);
    ReplaceAllChar(stem, '-', ' ')
  }

  /** The name of any path, in terms of its last segment: with no ".json" in
      it, the segment with dashes as spaces; otherwise the segment without its
      FIRST ".json", wherever that is, with dashes as spaces. */
  lemma DeriveNameOfSegment(path: string)
    ensures var seg := LastSegment(path);
            Absent(seg, WorkflowExtension) ==> DeriveName(path) == ReplaceAllChar(seg, '-', ' ')
    ensures var seg := LastSegment(path);
            forall i: nat :: IsFirstOccurrence(seg, WorkflowExtension, i) ==>
              DeriveName(path) == ReplaceAllChar(seg[..i] + seg[i + |WorkflowExtension|..], '-', ' ')
  {
  }

  // ---------------------------------------------------------------------
  // Listing, records and the store
  // ---------------------------------------------------------------------

  /** One entry of the recursive tree listing. */
  datatype Entry = Entry(path: string, sha: string)

  /** The listing response: `NoTree` when its `tree` field is missing. */
  datatype Listing = NoTree | Tree(entries: seq<Entry>)

  /** A stored workflow, with the fields the upsert writes. */
  datatype Record = Record(name: string, filePath: string, json: Document,
                           nodes: seq<string>, githubUrl: string, sha: string)

  /** The workflow collection, as a map from `filePath` to the record. */
  type Store = map<string, Record>

  /** The collaborators the synchroniser calls per file: the raw-content
      download of a path (`None` when it throws) and whether the upsert of a
      path goes through (false when it throws). */
  datatype Remote = Remote(download: string -> Option<Document>, upsertSucceeds: string -> bool)

  predicate IsWorkflowFile(e: Entry) {
    EndsWith(e.path, WorkflowExtension)
  }

  /** `tree.filter(item => item.path.endsWith('.json'))`. */
  function JsonFiles(entries: seq<Entry>): (r: seq<Entry>)
    ensures |r| <= |entries|
    ensures forall i :: 0 <= i < |r| ==> IsWorkflowFile(r[i])
    ensures forall e :: e in r <==> e in entries && IsWorkflowFile(e)
  {
    if |entries| == 0 then []
    else if IsWorkflowFile(entries[0]) then [entries[0]] + JsonFiles(entries[1..])
    else JsonFiles(entries[1..])
  }

  /** The filter keeps a one-entry listing exactly when its path ends in
      ".json"; with `JsonFilesConcat` this fixes the order and the
      multiplicity of the kept entries. */
  lemma JsonFilesSingle(e: Entry)
    ensures JsonFiles([e]) == if IsWorkflowFile(e) then [e] else []
  {
    assert [e][1..] == [];
  }

  /** Filtering distributes over concatenation: kept entries stay in listing
      order, each as often as it occurs. */
  lemma {:induction false} JsonFilesConcat(a: seq<Entry>, b: seq<Entry>)
    ensures JsonFiles(a + b) == JsonFiles(a) + JsonFiles(b)
    decreases |a|
  {
    if |a| > 0 {
      assert (a + b)[0] == a[0];
      assert (a + b)[1..] == a[1..] + b;
      JsonFilesConcat(a[1..], b);
    } else {
      assert a + b == b;
    }
  }

  /** The set of paths that occur in a listing. */
  function Paths(entries: seq<Entry>): (ps: set<string>)
    ensures forall e :: e in entries ==> e.path in ps
  {
    if |entries| == 0 then {}
    else {entries[0].path} + Paths(entries[1..])
  }

  /** Every path in `Paths(entries)` is the path of some entry. */
  lemma {:induction false} PathWitness(entries: seq<Entry>, p: string)
    requires p in Paths(entries)
    ensures exists i :: 0 <= i < |entries| && entries[i].path == p
    decreases |entries|
  {
    if entries[0].path != p {
      PathWitness(entries[1..], p);
      var i :| 0 <= i < |entries[1..]| && entries[1..][i].path == p;
      assert entries[i + 1].path == p;
    }
  }

  /** The paths of the filtered listing all end in ".json". */
  lemma JsonPathsEndInJson(entries: seq<Entry>)
    ensures forall p :: p in Paths(JsonFiles(entries)) ==> EndsWith(p, WorkflowExtension)
  {
    var files := JsonFiles(entries);
    forall p | p in Paths(files) ensures EndsWith(p, WorkflowExtension) {
      PathWitness(files, p);
    }
  }

  /** No path occurs twice in the listing. */
  predicate UniquePaths(entries: seq<Entry>) {
    forall i, j :: 0 <= i < j < |entries| ==> entries[i].path != entries[j].path
  }

  lemma UniqueTail(entries: seq<Entry>)
    requires |entries| > 0 && UniquePaths(entries)
    ensures UniquePaths(entries[1..])
  {
    var rest := entries[1..];
    forall i, j | 0 <= i < j < |rest| ensures rest[i].path != rest[j].path {
      assert rest[i] == entries[i + 1] && rest[j] == entries[j + 1];
    }
  }

  /** The store already holds this entry's path with an equal sha. */
  predicate IsUnchanged(store: Store, e: Entry) {
    e.path in store && store[e.path].sha == e.sha
  }

  /** The record the store holds for `filePath` is the one the synchroniser
      derives from the document stored with it. */
  predicate Derived(filePath: string, rec: Record) {
    && rec.filePath == filePath
    && rec.name == DeriveName(filePath)
    && rec.githubUrl == GithubUrl(filePath)
    && ExtractNodeNames(rec.json) == Some(rec.nodes)
  }

  /** Every record in the store is keyed by its own path and derived from it. */
  ghost predicate WellFormed(store: Store) {
    forall p :: p in store ==> Derived(p, store[p])
  }

  // ---------------------------------------------------------------------
  // One iteration of the loop
  // ---------------------------------------------------------------------

  /** Download the file and build the record to upsert; `None` when the
      download or the node extraction throws. */
  function Prepare(remote: Remote, e: Entry): (r: Option<Record>)
    ensures r.Some? <==> remote.download(e.path).Some? && ExtractNodeNames(remote.download(e.path).value).Some?
    ensures r.Some? ==> Derived(e.path, r.value) && r.value.sha == e.sha
    ensures r.Some? ==> r.value.json == remote.download(e.path).value
  {
    match remote.download(e.path)
    case None => None
    case Some(doc) =>
      match ExtractNodeNames(doc)
      case None => None
      case Some(nodes) => Some(Record(DeriveName(e.path), e.path, doc, nodes, GithubUrl(e.path), e.sha))
  }

  /** What one iteration did with its entry. */
  datatype Outcome = Skipped | Added | Updated | Failed

  /** The outcome of one iteration and the store after it. */
  datatype Visit = Visit(outcome: Outcome, store: Store)

  /** The body of the loop over the `.json` entries. */
  function VisitEntry(remote: Remote, store: Store, e: Entry): (v: Visit)
    ensures v.outcome == Skipped <==> IsUnchanged(store, e)
    ensures v.outcome == Skipped || v.outcome == Failed ==> v.store == store
    ensures v.outcome == Added ==> e.path !in store
    ensures v.outcome == Updated ==> e.path in store
    ensures v.outcome == Failed <==>
              !IsUnchanged(store, e) && (Prepare(remote, e).None? || !remote.upsertSucceeds(e.path))
    ensures v.outcome == Added || v.outcome == Updated ==>
              && v.store.Keys == store.Keys + {e.path}
              && Prepare(remote, e).Some?
              && v.store[e.path] == Prepare(remote, e).value
    ensures forall p :: p != e.path ==> (p in v.store <==> p in store)
    ensures forall p :: p != e.path && p in store ==> v.store[p] == store[p]
  {
    if IsUnchanged(store, e) then Visit(Skipped, store)
    else
      match Prepare(remote, e)
      case None => Visit(Failed, store)
      case Some(rec) =>
        if !remote.upsertSucceeds(e.path) then Visit(Failed, store)
        else if e.path in store then Visit(Updated, store[e.path := rec])
        else Visit(Added, store[e.path := rec])
  }

  // ---------------------------------------------------------------------
  // The whole loop
  // ---------------------------------------------------------------------

  /** The three counters `added`, `updated` and `skipped`. */
  datatype Tally = Tally(added: nat, updated: nat, skipped: nat) {
    function Total(): nat {
      added + updated + skipped
    }

    /** Counts one outcome: a skip in `skipped`, a new record in `added`, an
        overwritten one in `updated`; a failure counts nothing. */
    function Count(o: Outcome): (t: Tally)
      ensures t.Total() == Total() + (if o == Failed then 0 else 1)
      ensures o == Skipped ==> t == this.(skipped := skipped + 1)
      ensures o == Added ==> t == this.(added := added + 1)
      ensures o == Updated ==> t == this.(updated := updated + 1)
      ensures o == Failed ==> t == this
    {
      match o
      case Skipped => this.(skipped := skipped + 1)
      case Added => this.(added := added + 1)
      case Updated => this.(updated := updated + 1)
      case Failed => this
    }
  }

  datatype RunState = RunState(tally: Tally, store: Store)

  /** The number of entries whose iteration has outcome `o`, along the run. */
  function OutcomeCount(remote: Remote, store: Store, entries: seq<Entry>, o: Outcome): nat
    decreases |entries|
  {
    if |entries| == 0 then 0
    else
      var v := VisitEntry(remote, store, entries[0]);
      (if v.outcome == o then 1 else 0) + OutcomeCount(remote, v.store, entries[1..], o)
  }

  /** The number of entries whose iteration fails, along the run. */
  function FailureCount(remote: Remote, store: Store, entries: seq<Entry>): nat {
    OutcomeCount(remote, store, entries, Failed)
  }

  /** No iteration along the run fails. */
  predicate NoFailures(remote: Remote, store: Store, entries: seq<Entry>)
    decreases |entries|
  {
    |entries| == 0 ||
    var v := VisitEntry(remote, store, entries[0]);
    v.outcome != Failed && NoFailures(remote, v.store, entries[1..])
  }

  /** The loop `for (const file of jsonFiles)`, as a fold in listing order. */
  function Run(remote: Remote, st: RunState, entries: seq<Entry>): (r: RunState)
    ensures r.tally.Total() + FailureCount(remote, st.store, entries) == st.tally.Total() + |entries|
    ensures r.tally.added == st.tally.added + OutcomeCount(remote, st.store, entries, Added)
    ensures r.tally.updated == st.tally.updated + OutcomeCount(remote, st.store, entries, Updated)
    ensures r.tally.skipped == st.tally.skipped + OutcomeCount(remote, st.store, entries, Skipped)
    ensures |r.store| == |st.store| + OutcomeCount(remote, st.store, entries, Added)
    ensures st.store.Keys <= r.store.Keys <= st.store.Keys + Paths(entries)
    ensures forall p :: p !in Paths(entries) && p in st.store ==> r.store[p] == st.store[p]
    decreases |entries|
  {
    if |entries| == 0 then st
    else
      var v := VisitEntry(remote, st.store, entries[0]);
      VisitGrowsByAdded(remote, st.store, entries[0]);
      Run(remote, RunState(st.tally.Count(v.outcome), v.store), entries[1..])
  }

  /** An iteration adds one record exactly when its outcome is `Added`. */
  lemma VisitGrowsByAdded(remote: Remote, store: Store, e: Entry)
    ensures var v := VisitEntry(remote, store, e);
            |v.store| == |store| + (if v.outcome == Added then 1 else 0)
  {
    var v := VisitEntry(remote, store, e);
    if v.outcome == Added {
      assert v.store.Keys == store.Keys + {e.path};
    } else if v.outcome == Updated {
      assert v.store.Keys == store.Keys;
    }
  }

  /** The result of a run: a fatal error, or the final counters and store. */
  datatype SyncResult = FatalError(message: string) | Completed(tally: Tally, store: Store)

  /** `syncWorkflows` without its HTTP response. */
  function Sync(remote: Remote, listing: Listing, store: Store): (r: SyncResult)
    ensures r.FatalError? <==> listing.NoTree?
    ensures r.FatalError? ==> r.message == TreeMissingMessage
    ensures r.Completed? ==>
              r.tally.Total() + FailureCount(remote, store, JsonFiles(listing.entries))
              == |JsonFiles(listing.entries)|
    ensures r.Completed? ==>
              && r.tally.added == OutcomeCount(remote, store, JsonFiles(listing.entries), Added)
              && r.tally.updated == OutcomeCount(remote, store, JsonFiles(listing.entries), Updated)
              && r.tally.skipped == OutcomeCount(remote, store, JsonFiles(listing.entries), Skipped)
    ensures r.Completed? ==> |r.store| == |store| + r.tally.added
    ensures r.Completed? ==> store.Keys <= r.store.Keys <= store.Keys + Paths(JsonFiles(listing.entries))
    ensures r.Completed? ==> forall p :: p in r.store && p !in store ==> EndsWith(p, WorkflowExtension)
    ensures r.Completed? ==>
              forall p :: p !in Paths(JsonFiles(listing.entries)) && p in store ==> r.store[p] == store[p]
  {
    match listing
    case NoTree => FatalError(TreeMissingMessage)
    case Tree(entries) =>
      var files := JsonFiles(entries);
      var final := Run(remote, RunState(Tally(0, 0, 0), store), files);
      JsonPathsEndInJson(entries);
      Completed(final.tally, final.store)
  }

  /** The HTTP response of the sync route. */
  datatype Response = SyncOk(added: nat, updated: nat) | ServerError(status: nat, error: string)

  /** The response sent back: success with the added and updated counts only,
      or status 500 with the fatal error's message. */
  function Respond(result: SyncResult): (resp: Response)
    ensures resp.ServerError? <==> result.FatalError?
    ensures resp.ServerError? ==> resp.status == 500 && resp.error == result.message
    ensures resp.SyncOk? ==> resp.added == result.tally.added && resp.updated == result.tally.updated
  {
    match result
    case FatalError(msg) => ServerError(500, msg)
    case Completed(t, _) => SyncOk(t.added, t.updated)
  }

  // ---------------------------------------------------------------------
  // Properties
  // ---------------------------------------------------------------------

  /** An unchanged entry is decided without the download or the upsert:
      the iteration is the same whatever the remote does. */
  lemma SkipNeedsNoRemote(r1: Remote, r2: Remote, store: Store, e: Entry)
    requires IsUnchanged(store, e)
    ensures VisitEntry(r1, store, e) == VisitEntry(r2, store, e) == Visit(Skipped, store)
  {
  }

  /** Two remotes that behave alike on the paths of a listing yield the same
      run: nothing outside the listing is downloaded or written. */
  lemma {:induction false} RunUsesOnlyListedPaths(r1: Remote, r2: Remote, st: RunState, entries: seq<Entry>)
    requires forall p :: p in Paths(entries) ==>
               r1.download(p) == r2.download(p) && r1.upsertSucceeds(p) == r2.upsertSucceeds(p)
    ensures Run(r1, st, entries) == Run(r2, st, entries)
    decreases |entries|
  {
    if |entries| > 0 {
      var e := entries[0];
      assert e.path in Paths(entries);
      assert Prepare(r1, e) == Prepare(r2, e);
      var v := VisitEntry(r1, st.store, e);
      assert v == VisitEntry(r2, st.store, e);
      assert forall p :: p in Paths(entries[1..]) ==> p in Paths(entries);
      RunUsesOnlyListedPaths(r1, r2, RunState(st.tally.Count(v.outcome), v.store), entries[1..]);
    }
  }

  /** Only `.json` entries are downloaded or written: a sync depends on the
      remote's behaviour at the `.json` paths of the listing alone. */
  lemma SyncUsesOnlyJsonPaths(r1: Remote, r2: Remote, entries: seq<Entry>, store: Store)
    requires forall e :: e in entries && IsWorkflowFile(e) ==>
               r1.download(e.path) == r2.download(e.path) && r1.upsertSucceeds(e.path) == r2.upsertSucceeds(e.path)
    ensures Sync(r1, Tree(entries), store) == Sync(r2, Tree(entries), store)
  {
    var files := JsonFiles(entries);
    forall p | p in Paths(files)
      ensures r1.download(p) == r2.download(p) && r1.upsertSucceeds(p) == r2.upsertSucceeds(p)
    {
      PathWitness(files, p);
      var i :| 0 <= i < |files| && files[i].path == p;
      assert files[i] in entries;
    }
    RunUsesOnlyListedPaths(r1, r2, RunState(Tally(0, 0, 0), store), files);
  }

  /** Entries that are not `.json` files have no effect on a sync: the filter
      is idempotent, so a sync over the filtered listing is the same sync. */
  lemma NonJsonEntriesIgnored(remote: Remote, entries: seq<Entry>, store: Store)
    ensures JsonFiles(JsonFiles(entries)) == JsonFiles(entries)
    ensures Sync(remote, Tree(JsonFiles(entries)), store) == Sync(remote, Tree(entries), store)
  {
    JsonFilesIdempotent(entries);
  }

  lemma {:induction false} JsonFilesIdempotent(entries: seq<Entry>)
    ensures JsonFiles(JsonFiles(entries)) == JsonFiles(entries)
    decreases |entries|
  {
    if |entries| > 0 {
      JsonFilesIdempotent(entries[1..]);
      if IsWorkflowFile(entries[0]) {
        assert ([entries[0]] + JsonFiles(entries[1..]))[1..] == JsonFiles(entries[1..]);
      }
    }
  }

  /** The counters add up to the number of `.json` files exactly when no
      iteration fails, and never exceed it. */
  lemma {:induction false} FailureCountZero(remote: Remote, store: Store, entries: seq<Entry>)
    ensures FailureCount(remote, store, entries) == 0 <==> NoFailures(remote, store, entries)
    decreases |entries|
  {
    if |entries| > 0 {
      var v := VisitEntry(remote, store, entries[0]);
      FailureCountZero(remote, v.store, entries[1..]);
    }
  }

  /** Every iteration has exactly one of the four outcomes. */
  lemma {:induction false} OutcomesPartition(remote: Remote, store: Store, entries: seq<Entry>)
    ensures OutcomeCount(remote, store, entries, Added) + OutcomeCount(remote, store, entries, Updated)
            + OutcomeCount(remote, store, entries, Skipped) + OutcomeCount(remote, store, entries, Failed)
            == |entries|
    decreases |entries|
  {
    if |entries| > 0 {
      var v := VisitEntry(remote, store, entries[0]);
      OutcomesPartition(remote, v.store, entries[1..]);
    }
  }

  /** The success response reports the number of `.json` files that became
      new records and the number whose existing record was overwritten. */
  lemma SyncResponseCounts(remote: Remote, entries: seq<Entry>, store: Store)
    ensures var files := JsonFiles(entries);
            Respond(Sync(remote, Tree(entries), store))
            == SyncOk(OutcomeCount(remote, store, files, Added), OutcomeCount(remote, store, files, Updated))
  {
  }

  lemma SyncTallyBound(remote: Remote, entries: seq<Entry>, store: Store)
    ensures Sync(remote, Tree(entries), store).tally.Total() <= |JsonFiles(entries)|
    ensures Sync(remote, Tree(entries), store).tally.Total() == |JsonFiles(entries)|
            <==> NoFailures(remote, store, JsonFiles(entries))
  {
    var files := JsonFiles(entries);
    var t := Sync(remote, Tree(entries), store).tally;
    assert t.Total() + FailureCount(remote, store, files) == |files|;
    FailureCountZero(remote, store, files);
  }

  /** A run keeps every record derived from its own path. */
  lemma {:induction false} RunPreservesWellFormed(remote: Remote, st: RunState, entries: seq<Entry>)
    requires WellFormed(st.store)
    ensures WellFormed(Run(remote, st, entries).store)
    decreases |entries|
  {
    if |entries| > 0 {
      var e := entries[0];
      var v := VisitEntry(remote, st.store, e);
      assert WellFormed(v.store) by {
        forall p | p in v.store ensures Derived(p, v.store[p]) {
          if p == e.path && (v.outcome == Added || v.outcome == Updated) {
            assert Prepare(remote, e).Some?;
            assert v.store[p] == Prepare(remote, e).value;
          }
        }
      }
      RunPreservesWellFormed(remote, RunState(st.tally.Count(v.outcome), v.store), entries[1..]);
    }
  }

  lemma SyncPreservesWellFormed(remote: Remote, listing: Listing, store: Store)
    requires WellFormed(store)
    ensures Sync(remote, listing, store).Completed? ==> WellFormed(Sync(remote, listing, store).store)
  {
    if listing.Tree? {
      var final := Run(remote, RunState(Tally(0, 0, 0), store), JsonFiles(listing.entries));
      RunPreservesWellFormed(remote, RunState(Tally(0, 0, 0), store), JsonFiles(listing.entries));
      assert Sync(remote, listing, store) == Completed(final.tally, final.store);
    }
  }

  /** Every entry of the listing is unchanged with respect to the store. */
  ghost predicate Synced(store: Store, entries: seq<Entry>) {
    forall i :: 0 <= i < |entries| ==> IsUnchanged(store, entries[i])
  }

  /** A run over entries the store already holds skips all of them and
      writes nothing. */
  lemma {:induction false} RunOverSyncedSkipsAll(remote: Remote, st: RunState, entries: seq<Entry>)
    requires Synced(st.store, entries)
    ensures Run(remote, st, entries) == RunState(st.tally.(skipped := st.tally.skipped + |entries|), st.store)
    decreases |entries|
  {
    if |entries| > 0 {
      var v := VisitEntry(remote, st.store, entries[0]);
      assert IsUnchanged(st.store, entries[0]);
      assert v == Visit(Skipped, st.store);
      assert Synced(st.store, entries[1..]) by {
        forall i | 0 <= i < |entries[1..]| ensures IsUnchanged(st.store, entries[1..][i]) {
          assert entries[1..][i] == entries[i + 1];
        }
      }
      RunOverSyncedSkipsAll(remote, RunState(st.tally.Count(Skipped), st.store), entries[1..]);
    }
  }

  lemma HeadPathNotInTail(entries: seq<Entry>)
    requires |entries| > 0 && UniquePaths(entries)
    ensures entries[0].path !in Paths(entries[1..])
  {
    if entries[0].path in Paths(entries[1..]) {
      PathWitness(entries[1..], entries[0].path);
      assert false;
    }
  }

  /** An iteration that does not fail leaves its entry unchanged. */
  lemma VisitSyncsEntry(remote: Remote, store: Store, e: Entry)
    requires VisitEntry(remote, store, e).outcome != Failed
    ensures IsUnchanged(VisitEntry(remote, store, e).store, e)
  {
    var v := VisitEntry(remote, store, e);
    if v.outcome != Skipped {
      assert v.store[e.path] == Prepare(remote, e).value;
    }
  }

  lemma SyncedCons(store: Store, entries: seq<Entry>)
    requires |entries| > 0
    requires IsUnchanged(store, entries[0]) && Synced(store, entries[1..])
    ensures Synced(store, entries)
  {
    forall i | 0 <= i < |entries| ensures IsUnchanged(store, entries[i]) {
      if i > 0 {
        assert entries[i] == entries[1..][i - 1];
      }
    }
  }

  /** A run without failures over entries with distinct paths leaves every
      entry unchanged with respect to the final store. */
  lemma {:induction false} RunWithoutFailuresSyncs(remote: Remote, st: RunState, entries: seq<Entry>)
    requires UniquePaths(entries)
    requires NoFailures(remote, st.store, entries)
    ensures Synced(Run(remote, st, entries).store, entries)
    decreases |entries|
  {
    if |entries| > 0 {
      var e := entries[0];
      var rest := entries[1..];
      var v := VisitEntry(remote, st.store, e);
      var next := RunState(st.tally.Count(v.outcome), v.store);
      VisitSyncsEntry(remote, st.store, e);
      UniqueTail(entries);
      RunWithoutFailuresSyncs(remote, next, rest);
      var final := Run(remote, next, rest);
      HeadPathNotInTail(entries);
      assert IsUnchanged(final.store, e);
      SyncedCons(final.store, entries);
    }
  }

  /** Filtering keeps the listing's paths distinct. */
  lemma {:induction false} JsonFilesKeepUniquePaths(entries: seq<Entry>)
    requires UniquePaths(entries)
    ensures UniquePaths(JsonFiles(entries))
    decreases |entries|
  {
    if |entries| > 0 {
      var rest := entries[1..];
      UniqueTail(entries);
      JsonFilesKeepUniquePaths(rest);
      if IsWorkflowFile(entries[0]) {
        var r := [entries[0]] + JsonFiles(rest);
        forall i, j | 0 <= i < j < |r| ensures r[i].path != r[j].path {
          if i == 0 {
            assert r[j] in JsonFiles(rest);
            var k :| 0 <= k < |rest| && rest[k] == r[j];
            assert entries[k + 1] == r[j];
          }
        }
      }
    }
  }

  /** Idempotence: after a sync without per-file failures over a listing with
      distinct paths, a second sync over the same listing adds and updates
      nothing, skips every `.json` file and leaves the store as it was,
      whatever the remote would answer the second time. */
  lemma SyncTwiceSkipsAll(r1: Remote, r2: Remote, entries: seq<Entry>, store: Store)
    requires UniquePaths(entries)
    requires NoFailures(r1, store, JsonFiles(entries))
    ensures var first := Sync(r1, Tree(entries), store);
            Sync(r2, Tree(entries), first.store)
            == Completed(Tally(0, 0, |JsonFiles(entries)|), first.store)
  {
    var files := JsonFiles(entries);
    JsonFilesKeepUniquePaths(entries);
    RunWithoutFailuresSyncs(r1, RunState(Tally(0, 0, 0), store), files);
    var first := Sync(r1, Tree(entries), store);
    RunOverSyncedSkipsAll(r2, RunState(Tally(0, 0, 0), first.store), files);
  }

  // ---------------------------------------------------------------------
  // Worked examples of the derivations
  // ---------------------------------------------------------------------

  /** A type that starts with the package prefix loses exactly that prefix. */
  lemma NodeNameStripsLeadingPrefix(rest: string)
    ensures NodeName(NodeItem(TypeString(NodesBasePrefix + rest))) == Some(rest)
  {
    var t := NodesBasePrefix + rest;
    ConcatParts(NodesBasePrefix, rest);
    assert IsFirstOccurrence(t, NodesBasePrefix, 0);
    assert t[..0] + t[|NodesBasePrefix|..] == rest;
  }

  /** The prefix is removed wherever it first occurs, not only at the start:
      a type with a lead in front of the prefix keeps the lead. */
  lemma NodeNameStripsInnerPrefix(lead: string, rest: string)
    requires 'n' !in lead
    ensures NodeName(NodeItem(TypeString(lead + NodesBasePrefix + rest))) == Some(lead + rest)
  {
    var p := NodesBasePrefix;
    var t := lead + p + rest;
    assert |p| == 15 && p[0] == 'n';
    assert t[..|lead|] == lead;
    assert t[|lead|..|lead| + |p|] == p;
    assert t[|lead| + |p|..] == rest;
    forall j: nat | j < |lead| ensures !OccursAt(t, p, j) {
      assert t[j] == lead[j] != p[0];
    }
    assert IsFirstOccurrence(t, p, |lead|);
    assert t[..|lead|] + t[|lead| + |p|..] == lead + rest;
  }

  /** `{"nodes": [{"type": "n8n-nodes-base.googleSheets"}]}` yields
      `["googleSheets"]`, not the "Google Sheets" a comment beside the helper
      suggests. */
  lemma ExtractNodeNamesExample()
    ensures ExtractNodeNames(Document(Some([NodeItem(TypeString("n8n-nodes-base.googleSheets"))]), ""))
            == Some(["googleSheets"])
  {
    assert "n8n-nodes-base.googleSheets" == NodesBasePrefix + "googleSheets";
    NodeNameStripsLeadingPrefix("googleSheets");
    var items := [NodeItem(TypeString("n8n-nodes-base.googleSheets"))];
    assert items[0] == NodeItem(TypeString(NodesBasePrefix + "googleSheets"));
    assert NodeName(items[0]) == Some("googleSheets");
    assert items[1..] == [];
    assert NodeNames(items[1..]) == Some([]);
    assert NodeNames(items) == Some(["googleSheets"] + []);
    assert ["googleSheets"] + [] == ["googleSheets"];
    assert ExtractNodeNames(Document(Some(items), "")) == NodeNames(items);
  }

  lemma ConcatParts(a: string, b: string)
    ensures (a + b)[..|a|] == a
    ensures (a + b)[|a|..|a| + |b|] == b
    ensures (a + b)[|a| + |b|..] == []
  {
  }

  /** The name of a file whose last segment is `base + ".json"`, where `base`
      holds neither '/' nor '.', is `base` with dashes as spaces. */
  lemma DeriveNameOfWorkflowFile(dir: string, base: string)
    requires '/' !in base && '.' !in base
    ensures DeriveName(dir + "/" + base + WorkflowExtension) == ReplaceAllChar(base, '-', ' ')
  {
    DeriveNameStripsFirstExtension(dir, base, "");
    assert dir + "/" + base + WorkflowExtension + "" == dir + "/" + base + WorkflowExtension;
    assert base + "" == base;
  }

  /** In `base + ".json" + tail` with no '.' in `base`, the first ".json"
      starts right after `base`, and cutting it out leaves `base + tail`. */
  lemma FirstExtensionAfterBase(base: string, tail: string)
    requires '.' !in base
    ensures var file := base + WorkflowExtension + tail;
            && IsFirstOccurrence(file, WorkflowExtension, |base|)
            && file[..|base|] + file[|base| + |WorkflowExtension|..] == base + tail
  {
    var ext := WorkflowExtension;
    var file := base + ext + tail;
    assert |ext| == 5 && ext[0] == '.';
    assert file[..|base|] == base;
    assert file[|base|..|base| + |ext|] == ext;
    assert file[|base| + |ext|..] == tail;
    forall j: nat | j < |base| ensures !OccursAt(file, ext, j) {
      assert file[j] == base[j] != ext[0];
    }
  }

  /** Only the FIRST ".json" of the last segment is removed, wherever it is:
      whatever follows it stays in the name. */
  lemma DeriveNameStripsFirstExtension(dir: string, base: string, tail: string)
    requires '/' !in base && '.' !in base && '/' !in tail
    ensures DeriveName(dir + "/" + base + WorkflowExtension + tail) == ReplaceAllChar(base + tail, '-', ' ')
  {
    var ext := WorkflowExtension;
    var file := base + ext + tail;
    assert '/' !in ext;
    assert '/' !in file;
    var path := dir + "/" + base + ext + tail;
    assert path == dir + "/" + file;
    LastSegmentOfJoin(dir, file);
    FirstExtensionAfterBase(base, tail);
    DeriveNameOfSegment(path);
  }

  lemma ExamplePieces()
    ensures "My-Cool-Flow" == "My" + "-" + "Cool" + "-" + "Flow"
    ensures "My" + " " + "Cool" + " " + "Flow" == "My Cool Flow"
    ensures '-' !in "My" && '-' !in "Cool" && '-' !in "Flow"
  {
  }

  /** `folder/My-Cool-Flow.json` is named `My Cool Flow`. */
  lemma DeriveNameExample()
    ensures DeriveName("folder/My-Cool-Flow.json") == "My Cool Flow"
  {
    assert WorkflowExtension == ".json";
    assert "folder/My-Cool-Flow.json" == "folder" + "/" + "My-Cool-Flow" + WorkflowExtension;
    DeriveNameOfWorkflowFile("folder", "My-Cool-Flow");
    ExamplePieces();
    var my, cool, flow := "My", "Cool", "Flow";
    ReplaceAllCharConcat(my + "-" + cool + "-", flow, '-', ' ');
    ReplaceAllCharConcat(my + "-" + cool, "-", '-', ' ');
    ReplaceAllCharConcat(my + "-", cool, '-', ' ');
    ReplaceAllCharConcat(my, "-", '-', ' ');
    ReplaceAllCharAbsent(my, '-', ' ');
    ReplaceAllCharAbsent(cool, '-', ' ');
    ReplaceAllCharAbsent(flow, '-', ' ');
    assert ReplaceAllChar("-", '-', ' ') == " ";
  }
}
