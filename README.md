# File record manager: a Dafny model

This project models the file controller of a small file-management
application. The controller keeps two stores in step:

- a blob store, the SFTP disk, holding one blob per upload at the path
  `PSTO-SDN-FMS/<filename>`;
- a metadata table of file records with an id and four columns: filename,
  uploader, category and date.

The model has three modules:

- `Storage` (`storage.dfy`): the blob store as a map from path to bytes;
  canonical paths; the listing of the root directory; size totals.
- `Requests` (`requests.dfy`): the validation rules of the store and update
  requests, which report every violated field.
- `Files` (`files.dfy`): the class `FileController`. Its fields are the
  blob map, the record map and the next id the table will hand out. Its
  methods are `Store`, `Update`, `Destroy` and `GetStorageStats`; the
  reads `Index` and `Show` are functions.

Each mutating method probes before it writes:

1. the id lookup (update and destroy only), which refuses an unknown id;
2. validation (store and update);
3. the blob existence probe (store, and update with a file);
4. the duplicate-record probe (store only);
5. the blob write (store, and update with a file);
6. the record write.

Each method ends early, leaving both stores unchanged, at the first probe
that fails. Every method's contract states the whole new state for every
branch.

All three methods preserve the predicate `Files.Consistent`. It says that
every record's blob exists and that no two records share a filename. Under
it, the duplicate-record probe of `store` can never fire: a duplicate
record's blob always exists, so the blob probe refuses first
(`Files.DuplicateHasBlob`). That probe matters only once a blob has been
removed outside the controller.

Inputs that the controller receives from outside are parameters:

- `putOk`: the boolean result of the blob write.
- `deleteOk`: whether a blob delete took effect. The controller ignores this
  result.
- `isDate`: the framework's date parser.
- `listing`: the paths the disk's recursive listing of the root returned.
- The type check of an upload uses the extension the framework guessed from
  its contents (`Upload.extension`).

Consider storing the same file twice with identical details. One might
expect the second store to be refused as a duplicate record
(`RecordExists`). The controller's code checks blob existence before the
duplicate-record query, so the second store fails as "file already exists
on the server" (`BlobExists`) instead. The
model follows the code. `Files.ReportScenario` shows this through the
contracts alone.

## Model

| member | source | states |
|---|---|---|
| `Storage.CanonicalPath` | app/Http/Controllers/FileController.php:80 | the path of an upload is the root, a slash and the client's filename, and the filename can be read back from it |
| `Storage.CanonicalPathInjective` | app/Http/Controllers/FileController.php:80 | two filenames share a path exactly when they are equal, so the path namespace is flat and keyed by filename |
| `Storage.CanonicalPathUnderRoot` | app/Http/Controllers/FileController.php:80 | every upload path lies under the root directory that the statistics list |
| `Storage.PutUnderRoot` | app/Http/Controllers/FileController.php:102 | writing an upload adds exactly its path to the listing of the root |
| `Storage.DiskUsageRemove` | app/Http/Controllers/FileController.php:45-48 | the total size of a set of blobs does not depend on which blob is counted first |
| `Storage.ListingTotals` | app/Http/Controllers/FileController.php:42-48 | for a duplicate-free listing, the count is the number of distinct paths and the running sum is their total size, whatever the order |
| `Storage.RootListingTotals` | app/Http/Controllers/FileController.php:42-48 | a listing of the root gives file count = number of blobs under the root and byte sum = their total size |
| `Requests.DetailViolations` | app/Http/Controllers/FileController.php:70-72 | uploader and category are rejected unless non-empty and at most 255 characters; date is rejected unless non-empty and parseable |
| `Requests.StoreViolations` | app/Http/Controllers/FileController.php:68-73 | the store rules: the file field is rejected unless a file is present, its type is in the ten-extension allowlist and it is at most 10240 KB; every violated field is reported |
| `Requests.UpdateViolations` | app/Http/Controllers/FileController.php:144-149 | the update rules: a missing file is accepted, a present file is rejected only when over 10240 KB, there is no type check, and the other fields follow the store rules |
| `Requests.UpdateRulesWeaker` | app/Http/Controllers/FileController.php:144-149 | any request that passes the store rules passes the update rules; they differ only on the file field, when the file is missing or its type is outside the allowlist |
| `Files.DuplicateHasBlob` | app/Http/Controllers/FileController.php:89-100 | in consistent stores, a record matching all four columns always has its blob, so the duplicate-record probe is shadowed by the blob probe |
| `Files.ReplaceBlobAsWritten` | app/Http/Controllers/FileController.php:164-174 | the blob steps of an update as written: with different paths, the new path holds the new contents and the old path is removed exactly when the delete takes effect; with equal paths, the new blob survives only when the delete fails; every other blob is unchanged |
| `Files.ReplaceBlobAsWrittenLosesUpload` | app/Http/Controllers/FileController.php:170-174 | as written, when the old and new paths coincide and the delete succeeds, the blob just uploaded is gone |
| `Files.ReplaceBlob` | app/Http/Controllers/FileController.php:164-177 | the intended blob steps of an update: the new path holds the new contents; a different old path is removed exactly when the delete succeeds; every other blob is unchanged |
| `Files.ReplaceBlobDiffersOnlyOnSamePath` | app/Http/Controllers/FileController.php:170-174 | the intended and written blob steps agree whenever the old and new paths differ |
| `Files.FileController.constructor` | app/Http/Controllers/FileController.php:41 | a controller starts over a given disk with an empty table whose first id is 1 |
| `Files.FileController.Index` | app/Http/Controllers/FileController.php:17-22 | the listing holds one row per record with its id and four columns, and no other row |
| `Files.FileController.Show` | app/Http/Controllers/FileController.php:127-130 | a known id gives its record; an unknown id gives nothing |
| `Files.FileController.GetStorageStats` | app/Http/Controllers/FileController.php:39-58 | the file count is the listing's length and the byte total is the sum of the listed sizes; for a listing of the root these are the number and total size of blobs under the root; the reported path is the root |
| `Files.FileController.Store` | app/Http/Controllers/FileController.php:66-119 | each failure leaves both stores unchanged: invalid request, existing blob at the path, an exact four-column duplicate (a filename match alone does not block), failed put; on success the path holds the upload's bytes and exactly one record is added under a fresh id, everything else unchanged; consistency is preserved |
| `Files.FileController.Update` | app/Http/Controllers/FileController.php:139-191 | unknown id, invalid request, existing blob at the new path (including the current name) and failed put leave both stores unchanged; without a file the blobs are untouched and only uploader, category and date change; with a file the blobs change as `ReplaceBlob` says and the record is renamed; other records are unchanged; consistency is preserved |
| `Files.FileController.Destroy` | app/Http/Controllers/FileController.php:200-212 | unknown id changes nothing; otherwise the record is always removed, the blob at its path is removed when the delete takes effect, nothing else changes, and consistency is preserved |

## Findings

| source | as written | input that shows it | evidently intended | confidence | as-written member | corrected member |
|---|---|---|---|---|---|---|
| app/Http/Controllers/FileController.php:170-174 | after writing the new blob, the update deletes the old path whenever it exists at that moment, also when it is the path just written | a record named `report.pdf` whose blob was removed from the disk, updated with a new file also named `report.pdf`: the probe passes, the put writes the blob, the clean-up deletes it, and the record names a missing blob | delete the old blob only when its path differs from the new one | medium, not executed | `Files.ReplaceBlobAsWritten` | `Files.ReplaceBlob` |

`Files.FileController.Update` uses the corrected steps. In consistent stores
both versions behave the same: the current name's blob exists, so the
probe refuses an update to the same name.

## Left out

- HTTP responses, JSON bodies and status codes: outcomes are the `Outcome` datatype. The `id` in `Created` and the record in `Updated` are model conveniences.
- The final `return` of `store` (line 118) cannot be reached: validation throws on failure and otherwise returns a non-empty array. The model has no branch for it.
- The placeholder `create` endpoint (line 29) does nothing to either store.
- The framework's validation internals: MIME sniffing is the upload's `extension` field; date parsing is the `isDate` parameter; whitespace trimming of inputs is not modelled, so values are taken as the framework hands them over.
- The conversion of the byte total to gigabytes rounded to two decimals (line 51) is floating point; the model keeps the integer byte sum.
- The SFTP transport is an in-memory map. The listing order of `allFiles` is not modelled: `listing` is a parameter, with any order.
- `Files.FileController.GetStorageStats`: requires every listed path to exist, because the disk's size query fails on a missing path. A blob removed in the middle of the walk is not modelled.
- Exceptions thrown by the record table on insert or update are not modelled. The code does not handle them, so it has no orphan-reporting path.
- The race between the existence probe and the put across concurrent requests is not modelled (concurrency).
- Record timestamps and ORM mechanics are not modelled: route-model binding is an id lookup, and ids come from an auto-increment counter.
- `Files.FileController.Index`: returns the rows as a set. The order in which the table lists them is not specified.
- The duplicate-record query compares all four columns by exact string equality. A case-insensitive collation, or a date column that normalises its values, would match more rows; the statement that this probe is shadowed by the blob probe relies on exact equality.
- Filenames are taken as opaque strings: path traversal through `..` or `/` in a client filename is not modelled.
