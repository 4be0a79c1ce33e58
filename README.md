# Legacy content storage handler, in Dafny

This project models the content handler of the legacy storage engine of
eZ Publish. The handler stores versioned, multi-language content in relational
tables: content rows, version rows keyed by (contentId, versionNo), field rows,
name rows, relations, node assignments and locations. Its main operations are:

- create a content;
- publish a version, which materialises the version's pending node assignments
  into locations;
- create a draft from an existing version, numbered one above the last version;
- load a content, its content info or its version info;
- update the metadata or the version data;
- delete a version, or delete a content's raw rows;
- hand a content's locations over for subtree removal;
- copy a content, with either one version or its whole history.

The project also models the policy update struct of the repository layer, in
which adding a limitation replaces any limitation with the same identifier.

Modules:

- `Results` holds `Option`, `Result` and the two error kinds (`NotFound`, `NotImplemented`).
- `ContentTypes` holds the value entities: content info, version row and version info, field, node assignment, location, relation, and the create, update and metadata-update structs.
- `Mapper` holds the pure transformations between structs and entities.
- `Gateway` holds the table operations of the content gateway, the location gateway and the field handler, written as functions over maps and sequences.
- `LegacyContentHandler` holds the class `Handler`. Its fields are the tables, its methods update them in place, and its functions read them.
- `PolicyUpdate` holds the class `PolicyUpdateStruct` and the map functions its contract uses.

`Handler.Valid()` states that every content id in any table has already been
handed out. Every operation keeps it, except `UpdateContent` on a content id
that has not been handed out yet (see below). `Handler.NoOrphanRows()` states
that no field or name row exists without its version row. Every operation keeps
it, except `UpdateContent` on a missing version.

## Model

| member | source | states |
|---|---|---|
| LegacyContentHandler.Handler.Create | eZ/Publish/Core/Persistence/Legacy/Content/Handler.php:98-146 | Takes a fresh content id (the next one), stores a DRAFT version with the given number (1 when none is given), the struct's metadata, fields and names, dated at the struct's modification date. Appends one CREATE node assignment per requested location, in order. Touches no other content's rows. The new content loads back as the returned value. |
| LegacyContentHandler.Handler.InsertContentRows | eZ/Publish/Core/Persistence/Legacy/Content/Handler.php:100-121 | The content row goes under the next free id, which then advances. The version row and the field rows of the new version are stored. Nothing else in these tables changes. |
| LegacyContentHandler.Handler.InsertContentObject | eZ/Publish/Core/Persistence/Legacy/Content/Handler.php:100-108 | The mapped content row is stored under the next free id, and that id advances by one. |
| LegacyContentHandler.Handler.InsertVersion | eZ/Publish/Core/Persistence/Legacy/Content/Handler.php:115-119 | Exactly the version row of (contentId, versionNo) is written. |
| LegacyContentHandler.Handler.CreateNewFields | eZ/Publish/Core/Persistence/Legacy/Content/Handler.php:121 | The content's fields are appended to its version's field rows. Every other key is unchanged. |
| LegacyContentHandler.Handler.CreateAssignmentsAndNames | eZ/Publish/Core/Persistence/Legacy/Content/Handler.php:123-143 | The node assignments for the struct's locations are appended and its names are written, keeping every id below the next free one. |
| LegacyContentHandler.Handler.CreateNodeAssignments | eZ/Publish/Core/Persistence/Legacy/Content/Handler.php:124-133 | The old assignments are a prefix of the new ones. After them comes exactly one CREATE assignment per location, in order, under that location's parent. |
| LegacyContentHandler.Handler.WriteNames | eZ/Publish/Core/Persistence/Legacy/Content/Handler.php:136-143 | After the setName loop, the names of (c, v) are the old names overridden by the given ones. No other version's names change. The row exists exactly when it existed before or some name was given. |
| LegacyContentHandler.Handler.AppendedAssignmentsValid | eZ/Publish/Core/Persistence/Legacy/Content/Handler.php:124-133 | Assignments appended for an already handed-out content id keep the id invariant. |
| LegacyContentHandler.Handler.LoadOfStored | eZ/Publish/Core/Persistence/Legacy/Content/Handler.php:249-262 | When a content's rows are stored, load returns exactly that content. This is the create-then-load round trip. |
| LegacyContentHandler.Handler.Publish | eZ/Publish/Core/Persistence/Legacy/Content/Handler.php:164-174 | In the source's order: the metadata update is applied; the pending CREATE assignments of (c, v) become locations, and no assignment of (c, v) is left pending; the version status becomes PUBLISHED, and the content is marked published with v as its current version, from which a copy without a version number then starts. Fields, names and relations are untouched. The result is load of (c, v); it succeeds exactly when the content row and the version existed. |
| LegacyContentHandler.Handler.CreateLocationsFromNodeAssignments | eZ/Publish/Core/Persistence/Legacy/Content/Handler.php:167-170 | The new tables are exactly the materialisation of the old ones (see `Gateway.Materialize`). The id invariant is kept. |
| LegacyContentHandler.Handler.SetStatus | eZ/Publish/Core/Persistence/Legacy/Content/Handler.php:316-319 | An unconditional write of the status of (c, v). The result is true exactly when that version row exists. No other version changes, so no other version is archived. PUBLISHED also marks the content row published and makes v its current version. |
| LegacyContentHandler.Handler.UpdateContentRow | eZ/Publish/Core/Persistence/Legacy/Content/Handler.php:328-332 | The content row of c, if there is one, takes the present entries of the metadata update. Every other content row stays. |
| LegacyContentHandler.Handler.CreateDraftFromVersion | eZ/Publish/Core/Persistence/Legacy/Content/Handler.php:190-231 | Fails with NotFound, changing nothing, exactly when the source version cannot be loaded. Otherwise the new version is numbered one above the largest existing number, so it is above every existing number. It is a DRAFT by the owner, dated now, with the source's names. Its fields are the source's fields, cloned in order with their version number set to the new one. No other version's rows change. When no orphan field or name row existed before, the draft loads back as the returned value. |
| LegacyContentHandler.Handler.CloneFields | eZ/Publish/Core/Persistence/Legacy/Content/Handler.php:209-216 | The same fields in the same order, each stamped with the new version number. |
| LegacyContentHandler.Handler.GetLastVersionNumber | eZ/Publish/Core/Persistence/Legacy/Content/Handler.php:199 | Returns an upper bound of c's version numbers that is itself a version of c, or 0 when c has no version. |
| LegacyContentHandler.Handler.StoreDraft | eZ/Publish/Core/Persistence/Legacy/Content/Handler.php:203-228 | Writes the new version's row, its fields and its names, and only those. When no orphan field or name row existed before, the draft loads back as itself. |
| LegacyContentHandler.Handler.StoreVersion | eZ/Publish/Core/Persistence/Legacy/Content/Handler.php:203-228 | The version row, the field rows and the name rows of (c, n) are written. No other key changes. Both invariants are kept. |
| LegacyContentHandler.Handler.Load | eZ/Publish/Core/Persistence/Legacy/Content/Handler.php:249-262 | Fails with NotFound exactly when the gateway finds no rows. Otherwise returns the content row, the version with its names, and the version's fields restricted to the requested languages (all fields when none are listed). |
| LegacyContentHandler.Handler.LoadContentInfo | eZ/Publish/Core/Persistence/Legacy/Content/Handler.php:270-276 | Returns the content row of c, whose id is c, or NotFound exactly when there is none. |
| LegacyContentHandler.Handler.LoadVersionInfo | eZ/Publish/Core/Persistence/Legacy/Content/Handler.php:284-290 | Returns the row and names of version (c, v), or NotFound exactly when the row is missing. |
| LegacyContentHandler.Handler.LoadDraftsForUser | eZ/Publish/Core/Persistence/Legacy/Content/Handler.php:298-303 | Returns every DRAFT version created by the user, and only those. |
| LegacyContentHandler.Handler.ListVersions | eZ/Publish/Core/Persistence/Legacy/Content/Handler.php:414-419 | Returns every version of c, each once, in ascending version number, each as stored. |
| LegacyContentHandler.Handler.UpdateMetadata | eZ/Publish/Core/Persistence/Legacy/Content/Handler.php:328-332 | The content row takes the present entries of the update and is loaded back. NotFound exactly when c has no row. |
| LegacyContentHandler.Handler.UpdateContent | eZ/Publish/Core/Persistence/Legacy/Content/Handler.php:342-357 | The version row takes the update's creator, modification date and initial language; its status and number stay. The update's fields are written over the stored ones, and untouched fields stay. The update's names are set. No other version changes. The result is load of (c, v). |
| LegacyContentHandler.Handler.UpdateVersion | eZ/Publish/Core/Persistence/Legacy/Content/Handler.php:344 | The version table becomes `Gateway.UpdateVersionRow` of the old one. |
| LegacyContentHandler.Handler.UpdateFieldsOf | eZ/Publish/Core/Persistence/Legacy/Content/Handler.php:345 | The field table becomes `Gateway.UpdateFieldRows` of the old one. |
| LegacyContentHandler.Handler.GetAllLocationIds | eZ/Publish/Core/Persistence/Legacy/Content/Handler.php:369 | An id is listed exactly when it is the id of a location of c. The ids are strictly ascending. |
| LegacyContentHandler.Handler.DeleteContent | eZ/Publish/Core/Persistence/Legacy/Content/Handler.php:367-373 | Every location id of c is handed over for subtree removal, in order, and nothing else is changed. |
| LegacyContentHandler.Handler.RemoveRawContent | eZ/Publish/Core/Persistence/Legacy/Content/Handler.php:380-387 | No field, version or name row of c remains, and every other content's rows stay. The relations whose source is c are deleted. The content row goes, so loadContentInfo then fails. |
| LegacyContentHandler.Handler.DeleteVersion | eZ/Publish/Core/Persistence/Legacy/Content/Handler.php:399-406 | The node assignments, fields, relations, version row and names of exactly (c, v) are deleted. Every other version of c keeps all its rows. Loading (c, v) then fails. |
| LegacyContentHandler.Handler.AddRelation | eZ/Publish/Core/Persistence/Legacy/Content/Handler.php:497-500 | Always fails with NotImplemented. |
| LegacyContentHandler.Handler.RemoveRelation | eZ/Publish/Core/Persistence/Legacy/Content/Handler.php:509-512 | Always fails with NotImplemented. |
| LegacyContentHandler.Handler.LoadRelations | eZ/Publish/Core/Persistence/Legacy/Content/Handler.php:525-528 | Always fails with NotImplemented. |
| LegacyContentHandler.Handler.LoadReverseRelations | eZ/Publish/Core/Persistence/Legacy/Content/Handler.php:542-545 | Always fails with NotImplemented. |
| LegacyContentHandler.Handler.Copy | eZ/Publish/Core/Persistence/Legacy/Content/Handler.php:436-486 | Fails with NotFound, changing nothing, exactly when the content row or the starting version (given, or else current) is missing. Otherwise the result is a new content under a fresh id, holding the starting version under the same number, as a DRAFT of the owner dated now, with the source's fields and names. When no version was given, it also holds every other source version under its own number, with its fields, names, status and creator, dated now. The source and every other content keep their rows. Every field or name row of the new content has its version row. Relations and node assignments are not copied. |
| LegacyContentHandler.Handler.CopyFirstVersion | eZ/Publish/Core/Persistence/Legacy/Content/Handler.php:438-449 | The loaded starting version is turned into a create struct and created under a fresh id with its number kept. The new content holds only that version. |
| LegacyContentHandler.Handler.CopyRest | eZ/Publish/Core/Persistence/Legacy/Content/Handler.php:452-482 | The new content gets a version w other than the starting one exactly when the source has version w. Each such copy has the source's row (dated now), fields and names. The first copied version is unchanged. |
| LegacyContentHandler.Handler.CopyOtherVersions | eZ/Publish/Core/Persistence/Legacy/Content/Handler.php:454-481 | After the loop over the listed versions, every listed version except the starting one has been stored again under the new content id with the same number. No other row was touched. |
| LegacyContentHandler.Handler.CopyVersion | eZ/Publish/Core/Persistence/Legacy/Content/Handler.php:456-480 | One round of the loop: version w of the source is stored as version w of the target, with its row dated `date`, its fields and its names. Nothing else changes. |
| LegacyContentHandler.LocationIdsFrom | eZ/Publish/Core/Persistence/Legacy/Content/Handler.php:369 | The ids at or above `from` whose location belongs to c, ascending. |
| Gateway.Materialize | eZ/Publish/Core/Persistence/Legacy/Content/Handler.php:167-170 | Each pending CREATE assignment of (c, v) yields one new location of c under its parent, in order, and becomes executed. No assignment of (c, v) is pending afterwards. Every other assignment is kept at its place. |
| Gateway.MaterializeAgain | eZ/Publish/Core/Persistence/Legacy/Content/Handler.php:167-170 | Materialising a second time creates no location and changes no assignment. |
| Gateway.RemoveAssignments | eZ/Publish/Core/Persistence/Legacy/Content/Handler.php:401 | Keeps exactly the assignments that do not belong to (c, v). |
| Gateway.Pending | eZ/Publish/Core/Persistence/Legacy/Content/Handler.php:167-170 | Exactly the pending CREATE assignments of (c, v). |
| Gateway.PendingCount | eZ/Publish/Core/Persistence/Legacy/Content/Handler.php:167-170 | Each pending CREATE assignment of (c, v) is listed as often as it occurs, so materialising creates one location per occurrence. |
| Gateway.RemoveAssignmentsCount | eZ/Publish/Core/Persistence/Legacy/Content/Handler.php:401 | Deleting the assignments of (c, v) keeps every other assignment as often as it occurred. |
| Gateway.InsertFields | eZ/Publish/Core/Persistence/Legacy/Content/Handler.php:121 | The new fields are appended to those of (c, v), and no other key changes. |
| Gateway.SetName | eZ/Publish/Core/Persistence/Legacy/Content/Handler.php:138-142 | Only the name of (c, v) in that language changes. |
| Gateway.RemoveVersion | eZ/Publish/Core/Persistence/Legacy/Content/Handler.php:402-405 | The row of (c, v) is gone, and every other key is unchanged. |
| Gateway.RemoveContent | eZ/Publish/Core/Persistence/Legacy/Content/Handler.php:382-385 | No row of c is left, and the rows of every other content are unchanged. |
| Gateway.DeleteRelations | eZ/Publish/Core/Persistence/Legacy/Content/Handler.php:380-387 | A relation is kept exactly when its source is not c (or not version v of c, when a version is given). |
| Gateway.ApplyMetadata | eZ/Publish/Core/Persistence/Legacy/Content/Handler.php:328-332 | Each entry present in the update is written. An update with no entry leaves the row as it is. The id, type, section, current version and published flag never change. |
| Gateway.ApplyMetadataTwice | eZ/Publish/Core/Persistence/Legacy/Content/Handler.php:328-332 | Two updates in a row are one update in which the second's entries override the first's. |
| Gateway.ApplyMetadataIdempotent | eZ/Publish/Core/Persistence/Legacy/Content/Handler.php:328-332 | Applying the same metadata update twice is the same as applying it once. |
| Gateway.UpsertField | eZ/Publish/Core/Persistence/Legacy/Content/Handler.php:345 | A field overwrites the rows in its slot (definition and language), or is appended when its slot is empty. |
| Gateway.UpdateFields | eZ/Publish/Core/Persistence/Legacy/Content/Handler.php:345 | updateFields never drops a row and adds at most one row per update. An empty update changes nothing. |
| Gateway.UpdateFieldsKeepsUntouched | eZ/Publish/Core/Persistence/Legacy/Content/Handler.php:345 | updateFields never drops a row, and keeps every row no update touches at its place. |
| Gateway.UpdateFieldsWritesLast | eZ/Publish/Core/Persistence/Legacy/Content/Handler.php:345 | After updateFields, the slot of each update holds a row, and every row in that slot carries the last update for that slot. |
| Gateway.UpdateFieldsSlotOrigin | eZ/Publish/Core/Persistence/Legacy/Content/Handler.php:345 | A slot that no update touches and whose rows all equal u still has only rows equal to u. |
| Gateway.UpdateFieldRows | eZ/Publish/Core/Persistence/Legacy/Content/Handler.php:345 | Updates the fields of (c, v) only. An empty update leaves the table as it is. |
| Gateway.UpdateVersionRow | eZ/Publish/Core/Persistence/Legacy/Content/Handler.php:344 | The row of (c, v), if there is one, takes the update's creator, modification date and initial language. It keeps its status, creation date and languages. No other row and no key changes. |
| Gateway.FilterLanguages | eZ/Publish/Core/Persistence/Legacy/Content/Handler.php:249-251 | Keeps exactly the fields in the listed languages, or all of them when none are listed. |
| Gateway.FilterLanguagesCount | eZ/Publish/Core/Persistence/Legacy/Content/Handler.php:249-251 | Each field of a listed language is kept as often as it occurs, and no other field is kept. |
| LegacyContentHandler.Handler.HasRows | eZ/Publish/Core/Persistence/Legacy/Content/Handler.php:251-253 | Rows found imply that the content row and the version row exist. Without a language filter, rows are found exactly when both exist. |
| LegacyContentHandler.Handler.LoadExternalFieldData | eZ/Publish/Core/Persistence/Legacy/Content/Handler.php:259 | Assumed to be the identity, because no external field storage is modelled. |
| LegacyContentHandler.Handler.CopySourceVersion | eZ/Publish/Core/Persistence/Legacy/Content/Handler.php:438-440 | The given version number, or else the current version number that loadContentInfo reports. |
| LegacyContentHandler.Handler.CanCopy | eZ/Publish/Core/Persistence/Legacy/Content/Handler.php:438-445 | Copy can start exactly when loadContentInfo succeeds and the starting version loads. |
| Mapper.CopyStructKeepsMetadata | eZ/Publish/Core/Persistence/Legacy/Content/Handler.php:443-450 | The content row created from the create struct of a loaded content keeps its type, section, owner and availability. It takes the version's initial language as its main language, the fresh remote id and the date now, numbered with the given version, and is not published. |
| Mapper.CreateVersionInfoForContent | eZ/Publish/Core/Persistence/Legacy/Content/Handler.php:197-202 | The new version's languages are exactly the languages of its fields. |
| PolicyUpdate.PolicyUpdateStruct.constructor | eZ/Publish/Core/Repository/Values/User/PolicyUpdateStruct.php:17 | A new struct holds no limitation. |
| PolicyUpdate.PolicyUpdateStruct.AddLimitation | eZ/Publish/Core/Repository/Values/User/PolicyUpdateStruct.php:29-39 | The limitation is stored under its identifier, replacing any stored there, and every other limitation stays. A new identifier goes last and a known one keeps its place. The count grows by one exactly when the identifier is new. |
| PolicyUpdate.PolicyUpdateStruct.GetLimitations | eZ/Publish/Core/Repository/Values/User/PolicyUpdateStruct.php:24-27 | Returns every stored limitation once, in the order its identifier first came, with as many entries as distinct identifiers. |
| PolicyUpdate.WithLimitation | eZ/Publish/Core/Repository/Values/User/PolicyUpdateStruct.php:37-38 | The identifier maps to the new limitation. Every other identifier keeps its entry. |
| PolicyUpdate.LimitationCount | eZ/Publish/Core/Repository/Values/User/PolicyUpdateStruct.php:29-31 | A limitation with a known identifier replaces one (the size stays). A new identifier adds one. |
| PolicyUpdate.SecondLimitationWins | eZ/Publish/Core/Repository/Values/User/PolicyUpdateStruct.php:29-31 | Adding two limitations with the same identifier equals adding only the second, both in the map and in the order. |
| PolicyUpdate.DifferentLimitationsCommute | eZ/Publish/Core/Repository/Values/User/PolicyUpdateStruct.php:35-39 | Limitations with different identifiers give the same map in either order. |
| PolicyUpdate.InOrder | eZ/Publish/Core/Repository/Values/User/PolicyUpdateStruct.php:24-27 | The entries at the listed identifiers, in that order. |
| PolicyUpdate.DistinctCardinality | eZ/Publish/Core/Repository/Values/User/PolicyUpdateStruct.php:24-27 | A list of distinct identifiers naming exactly a map's keys is as long as the map is large. |

### Where the design and the code differ

The model follows the code:

- **Single PUBLISHED version.** Nothing in the handler archives the previously published version. `SetStatus` writes one row unconditionally, and `Publish` changes only the status of (c, v). The model therefore proves no "exactly one PUBLISHED version" invariant.
- **Orphan rows.** `UpdateContent` does not check that the version exists. On a missing version it still writes field and name rows, which then have no version row. The model keeps `NoOrphanRows` only when the version row exists, and keeps the id invariant only for an already handed-out content id.
- **Version numbers.** A new draft is numbered one above the *current* largest number. After the last version is deleted, that number can be handed out again. The model proves only that the new number exceeds every existing one.
- **Copy.** The first copied version is re-created through create, so it becomes a DRAFT by the owner, dated now. The other copied versions keep their own status and creator, and only their dates become now.

## Left out

- Transactions, concurrency and I/O: every operation is one atomic, sequential step over in-memory tables. Storage failures are not modelled.
- The mapper, the field handler, the content gateway and the location gateway are outside this model. Their effect on the tables is written out in `Mapper` and `Gateway`. Where Handler.php's calls do not fix that effect, the model assumes it:
  - `createVersionInfoForContent` carries the given names into the new version (the draft names loop at Handler.php:220 iterates them). It makes the content's owner the creator, dated now, in the languages of the fields.
  - `createContentFromCreateStruct` copies the struct's metadata into the content row, not yet published.
  - `createCreateStructFromContent` keeps the content's type, section, owner, availability, names and fields, and takes the version's initial language. It dates the struct now for both publication and modification, gives it a fresh remote id, and gives it no locations.
  - `updateVersion` writes the creator, modification date and initial language, and leaves the version's language list as it is.
  - `updateFields` matches stored rows to the update by field definition and language (`Gateway.UpsertField`).
  - The gateway's `setStatus` with PUBLISHED marks the content row published, with the version as its current version. It does so even when that version row does not exist. Copy without a version number therefore starts from the last published version, or else from the number the content was created with.
  - `loadContentInfo` and `loadVersionInfo` fail with NotFound when the row is missing. Handler.php:270-290 raises nothing itself; the error comes from the gateway or the mapper.
  - The gateway's `listVersions` and `getAllLocationIds` are taken to return ascending order. Handler.php:369 and 417 show no order.
- The location handler's subtree removal: `DeleteContent` only records the ids it hands over.
- The external storage of field data: `LoadExternalFieldData` returns the content unchanged.
- The clock and remote id generation: `now` and `remoteId` are parameters of `CreateDraftFromVersion` and `Copy`.
- Version row ids returned by `insertVersion`, and the always-available mask bit: no operation here reads them back.
- Content type, section and field type semantics: a field value is an opaque string.
- Field row identities are not modelled. Cloning in draft creation is shown by the new version number on every cloned field.
- LegacyContentHandler.Handler.UpdateContent: keeps `Valid()` only when `c` has been handed out, and `NoOrphanRows()` only when the version row exists. This follows the code, which writes before checking. After an update of a content id that was never handed out, `Valid()` no longer holds, and every other operation, which requires it, can no longer be called in the model.
- LegacyContentHandler.Handler.Create: the `contentId` and `contentVersion` that create writes back into the caller's location structs (Handler.php:126-127) are not modelled. The model builds the node assignments from the parent ids alone, so the caller's structs are not updated in place.
- LegacyContentHandler.Handler.LoadDraftsForUser: returns a set of versions, where the source returns an array. The order and any repetition of the gateway's rows are not captured.
- LegacyContentHandler.Handler.GetLastVersionNumber: the gateway's SQL `MAX` is modelled as a loop over the version keys.
- PolicyUpdate.PolicyUpdateStruct.GetLimitations: returns the values of the keyed array in insertion order, without the keys. Each key is the identifier of its value.
- The handler's constructor (dependency injection of the gateways, the mapper and the field handler) is not modelled. `Handler.constructor` starts from empty tables.
- The dependency-injection compiler passes, the signal slots, the XmlText value, the block matcher factory, the configured location controller provider, the legacy configurator and the REST exception visitor test are context, not part of this model.
