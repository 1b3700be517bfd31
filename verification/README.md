# Workflow catalogue synchroniser and talent request bodies, in Dafny

This project models the core of a small Node.js/Express backend. The backend
keeps a directory of talent profiles and a searchable catalogue of n8n
workflows mirrored from the GitHub repository `Zie619/n8n-workflows`
(branch `main`).

The main piece is `syncWorkflows`. It lists the repository tree and keeps the
entries whose path ends in `.json`. For each such entry it skips the download
when the stored record has the same `sha`. Otherwise it downloads the file,
derives a display name and the list of node types, and upserts the record
keyed by `filePath`. A failure on one file is only logged, and the loop goes
on with the next file.

The model is functional:

- the listing is a `Listing` (`NoTree` or `Tree(seq<Entry>)`);
- the workflow collection is a `Store = map<string, Record>`;
- the download and the upsert are oracles in `Remote`;
- a run is a pure fold (`Run`) that returns the three counters and the new
  store, or a fatal error (`Sync`).

The second, smaller core is the request-body preparation of the talent POST
and PUT routes. It copies the uploaded file paths into the body
(`MergeUploads`), then parses the seven JSON-encoded nested fields
(`ParseNestedFields`). `JSON.parse` is an uninterpreted partial function.

Files:

- `wrappers.dfy`: the `Option` datatype.
- `js_strings.dfy`: the JavaScript string built-ins the code relies on:
  `endsWith`, `replace` with a string pattern (first occurrence only),
  `replace(/-/g, ' ')`, and `split('/').pop()`. `IndexOf` is the
  first-occurrence search that `replace` with a string pattern performs.
- `workflow_sync.dfy`: node-name extraction, name derivation, one loop
  iteration, the run, the HTTP response, and the properties of a run.
- `talent_routes.dfy`: `parseNestedFields` and the upload merge.

The model follows the code as written:

- The code keeps no list of per-file errors. A failure is only logged
  (`controllers/workflowController.js:84`), and the response reports only the
  added and updated counts (line 91).
- The name derivation and `extractNodeNames` remove the FIRST occurrence of
  `.json` or `n8n-nodes-base.`, wherever it is. They do not strip only a
  suffix or only a leading prefix. `DeriveNameOfSegment` states this for
  every path. `DeriveNameStripsFirstExtension` shows the difference for
  names, and `NodeNameStripsInnerPrefix` shows it for node types.
- The comment above `extractNodeNames` promises `"Google Sheets"`. The code
  yields `"googleSheets"` (`ExtractNodeNamesExample`).
- A per-file failure also covers a node-extraction exception (a `null`
  document or node, or a truthy non-string `type`) and a failed upsert. Both
  sit inside the same inner `try`.

## Model

| member | source | states |
|---|---|---|
| JsStrings.EndsWith | controllers/workflowController.js:32 | `endsWith` holds exactly when the string is at least as long as the suffix and its last characters match the suffix one by one |
| JsStrings.EndsWithIffConcat | controllers/workflowController.js:32 | a string ends with a suffix exactly when it is some prefix followed by that suffix |
| JsStrings.IndexOf | controllers/workflowController.js:58 | the index found is the first occurrence of the pattern; `None` only when the pattern occurs nowhere |
| JsStrings.RemoveFirst | controllers/workflowController.js:58 | `replace(pat, '')` with a string pattern removes exactly the first occurrence, leaves the string alone when there is none, and shortens it by the pattern's length or not at all |
| JsStrings.ReplaceAllChar | controllers/workflowController.js:58 | the global `-` replacement keeps the length, changes exactly the matching characters, and leaves no `-` behind |
| JsStrings.LastSegment | controllers/workflowController.js:58 | `split('/').pop()` is the longest '/'-free suffix: it holds no '/' and is the whole path or is preceded by a '/' |
| JsStrings.LastSegmentOfJoin | controllers/workflowController.js:58 | the last segment of `dir + "/" + file` is `file` when `file` holds no '/' |
| WorkflowSync.NodeName | controllers/workflowController.js:13-14 | a missing or falsy type gives "", a string without the package prefix is kept, one with it loses its first occurrence, and a null node or truthy non-string type throws |
| WorkflowSync.NodeNames | controllers/workflowController.js:12-15 | the map over the nodes succeeds exactly when no node throws, and then has one name per node, in order |
| WorkflowSync.ExtractNodeNames | controllers/workflowController.js:10-16 | a missing, falsy or non-array `nodes` gives `[]`, a null document throws, and otherwise the result is the per-node map |
| WorkflowSync.NodeNameStripsLeadingPrefix | controllers/workflowController.js:14 | a type `n8n-nodes-base.X` becomes `X` |
| WorkflowSync.NodeNameStripsInnerPrefix | controllers/workflowController.js:14 | the prefix is removed where it first occurs even when it is not at the start |
| WorkflowSync.ExtractNodeNamesExample | controllers/workflowController.js:9-14 | `[{"type": "n8n-nodes-base.googleSheets"}]` yields `["googleSheets"]` |
| WorkflowSync.DeriveName | controllers/workflowController.js:58 | the display name holds no '-' and no '/', and is the last segment's length or that less the length of ".json" |
| WorkflowSync.DeriveNameOfSegment | controllers/workflowController.js:58 | for every path, the name is the last '/' segment with its first ".json" cut out wherever it occurs, or the whole segment when it holds none, with every '-' turned into a space |
| WorkflowSync.DeriveNameOfWorkflowFile | controllers/workflowController.js:58 | for `dir/base.json` with no '/' or '.' in `base`, the name is `base` with every '-' turned into a space |
| WorkflowSync.DeriveNameStripsFirstExtension | controllers/workflowController.js:58 | for `dir/base.jsonTAIL` with no '/' in `base` or `tail` and no '.' in `base`, only the first ".json" is removed and the text after it stays in the name, with dashes as spaces |
| WorkflowSync.DeriveNameExample | controllers/workflowController.js:58 | `folder/My-Cool-Flow.json` is named `My Cool Flow` |
| WorkflowSync.GithubUrl | controllers/workflowController.js:69 | the stored address is the blob address of `Zie619/n8n-workflows` on `main` followed by the path, which can be read back from it |
| WorkflowSync.GithubUrlInjective | controllers/workflowController.js:69 | two paths get the same address exactly when they are equal |
| WorkflowSync.JsonFiles | controllers/workflowController.js:32 | the filter keeps exactly the entries whose path ends in `.json` |
| WorkflowSync.JsonFilesSingle | controllers/workflowController.js:32 | a one-entry listing is kept exactly when its path ends in `.json` |
| WorkflowSync.JsonFilesConcat | controllers/workflowController.js:32 | filtering distributes over concatenation, so kept entries stay in listing order and keep their multiplicity |
| WorkflowSync.Prepare | controllers/workflowController.js:53-59 | preparing succeeds exactly when the download and the node extraction do, and the record holds the downloaded document, the entry's sha, the derived name and nodes, and the GitHub URL of the path |
| WorkflowSync.VisitEntry | controllers/workflowController.js:42-85 | an entry is skipped exactly when the stored sha is equal; a failure or a skip changes no record; otherwise exactly the entry's path is written with the prepared record, counted as updated if it existed and as added if not; no other key changes |
| WorkflowSync.Tally.Count | controllers/workflowController.js:44-76 | a skip increments only `skipped`, a write to a new path only `added`, a write over an existing record only `updated`, and a failure nothing |
| WorkflowSync.VisitGrowsByAdded | controllers/workflowController.js:62-76 | an iteration adds one record to the store exactly when it is counted as added, and none otherwise |
| WorkflowSync.Run | controllers/workflowController.js:35-86 | `added`, `updated` and `skipped` each grow by the number of iterations with that outcome, and their sum by the entries less the failures; the store grows by exactly the `added` count; no record is deleted; new keys are paths of the listing; records for paths outside the listing keep their values |
| WorkflowSync.Sync | controllers/workflowController.js:29-86 | a listing without `tree` is fatal with "Could not fetch repository tree" and writes nothing; otherwise each counter is the number of `.json` files with that outcome, the counters plus the failures equal the number of `.json` files, the store gains exactly `added` records, every new key is a `.json` path of the listing, and records for other paths are untouched |
| WorkflowSync.OutcomesPartition | controllers/workflowController.js:44-85 | every iteration is exactly one of skipped, added, updated or failed |
| WorkflowSync.SyncResponseCounts | controllers/workflowController.js:75-91 | the success response carries the number of `.json` files that became new records and the number whose record was overwritten |
| WorkflowSync.Respond | controllers/workflowController.js:90-96 | success reports only the added and updated counts; a fatal error is a 500 carrying its message |
| WorkflowSync.SkipNeedsNoRemote | controllers/workflowController.js:42-47 | an entry with an equal stored sha is skipped with no download and no write, whatever the remote would answer |
| WorkflowSync.RunUsesOnlyListedPaths | controllers/workflowController.js:40-73 | a run depends on the download and the upsert only at the paths of its entries |
| WorkflowSync.SyncUsesOnlyJsonPaths | controllers/workflowController.js:32-53 | a sync depends on the remote only at the `.json` paths of the listing, so nothing else is downloaded or written |
| WorkflowSync.NonJsonEntriesIgnored | controllers/workflowController.js:32 | filtering a filtered listing changes nothing, so a sync over the listing's `.json` entries alone is the same sync |
| WorkflowSync.JsonFilesIdempotent | controllers/workflowController.js:32 | filtering an already filtered listing changes nothing |
| WorkflowSync.FailureCountZero | controllers/workflowController.js:83-85 | no iteration fails exactly when the failure count along the run is zero |
| WorkflowSync.SyncTallyBound | controllers/workflowController.js:44-85 | added + updated + skipped is at most the number of `.json` files, with equality exactly when no file fails |
| WorkflowSync.VisitSyncsEntry | controllers/workflowController.js:62-76 | an iteration that does not fail leaves its path stored with the entry's sha |
| WorkflowSync.RunPreservesWellFormed | controllers/workflowController.js:62-73 | a run keeps every record keyed by its own `filePath`, named from it, with its GitHub URL, and with the node names of its stored document |
| WorkflowSync.SyncPreservesWellFormed | controllers/workflowController.js:62-73 | a completed sync keeps every record derived from its own path and document |
| WorkflowSync.RunOverSyncedSkipsAll | controllers/workflowController.js:44-47 | a run over entries the store already holds with equal shas skips them all and writes nothing |
| WorkflowSync.RunWithoutFailuresSyncs | controllers/workflowController.js:62-70 | after a run without failures over distinct paths, every entry's path is stored with that entry's sha |
| WorkflowSync.JsonFilesKeepUniquePaths | controllers/workflowController.js:32 | filtering keeps the listing's paths distinct |
| WorkflowSync.SyncTwiceSkipsAll | controllers/workflowController.js:44-47 | after a sync without failures over a listing with distinct paths, a second sync over the same listing adds 0, updates 0, skips every `.json` file, and leaves the store unchanged |
| TalentRoutes.ParseField | routes/talentRoutes.js:106-112 | one field is replaced by its parse when it holds a non-empty string and the parse succeeds, and kept otherwise; no other key changes |
| TalentRoutes.ParseFields | routes/talentRoutes.js:104-113 | over distinct fields, each listed key ends with its parsed value and every other key is unchanged, with the same key set |
| TalentRoutes.ParseNestedFields | routes/talentRoutes.js:103-114 | only the seven nested keys can change; an absent, empty or non-string value is kept; a string that parses is replaced by the parse; a string that fails keeps its text while the other keys are still processed |
| TalentRoutes.MergeUpload | routes/talentRoutes.js:19-20 | a present upload field sets the body key to its first file's path, an absent one leaves the body as it is, and a present field with no file throws |
| TalentRoutes.MergeUploads | routes/talentRoutes.js:18-21 | without `req.files` the body is unchanged; `profileImage` and `resume` take the first uploaded path when that field is present and keep the body's value otherwise; no other key changes |
| TalentRoutes.PrepareTalentData | routes/talentRoutes.js:15-24 | the prepared body fails exactly when the upload merge does and keeps the merged key set; every nested field in the request ends with its parsed value; every key that is neither nested nor an upload field passes through unchanged |
| TalentRoutes.ParsePassesOtherKeys | routes/talentRoutes.js:18-24 | after the merge, parsing gives each nested key the parse of the request's own value and leaves every other non-upload key as the request sent it |
| TalentRoutes.UploadedPathsSurviveParsing | routes/talentRoutes.js:50-56 | after the merge and the parse, `profileImage` and `resume` hold the uploaded path when one was sent and the body's own value otherwise |

## Left out

- HTTP calls (the tree listing and the raw download) become the `Listing`
  input and the `Remote.download` oracle. Rate limits, retries, status codes
  and network behaviour are not modelled.
- Database internals: `findOne` is a map lookup and `findOneAndUpdate` with
  `upsert` is a map update. The outcome of each upsert is the
  `Remote.upsertSucceeds` oracle. The `_id`, `createdAt` and `updatedAt`
  fields are not modelled.
- An exception from the lookup at `controllers/workflowController.js:42`
  would abort the whole run, because it sits outside the inner `try`. Lookups
  are taken to be total, so this case is not modelled.
- A listing entry without a `path`, which would make `endsWith` throw and
  abort the run, is not modelled: every `Entry` has a path.
- Console logging is not modelled. That includes the progress line every 50
  files (lines 79-81) and the error messages of failed files.
- Concurrent runs of the sync are not modelled. The code has no locking.
- `JSON.parse` and the JSON value model are abstract. A workflow document
  keeps only its `nodes` array and an opaque rest. A request-body value is a
  small JavaScript value type whose numbers are integers, because only their
  truthiness matters.
- `getWorkflows` is not modelled: its regex search and sort run inside the
  database, and its page arithmetic relies on `parseInt` and floating-point
  `Math.ceil`.
- `getWorkflowById`, the `Talent.save` and `findByIdAndUpdate` calls, and the
  list and profile routes are not modelled. They are persistence plumbing.
- models/Talent.js, config/cloudinary.js, server.js and
  routes/workflowRoutes.js are not part of this model. They hold a schema,
  third-party upload configuration, the server bootstrap and a route table.
- The response is sent only when `syncWorkflows` is given one
  (`controllers/workflowController.js:90` and 96). A run without a response
  object, such as a scheduled one, sends nothing. `Respond` describes the
  response for the case where one exists.
