# Komodo core, modelled in Dafny

This project models the sequential logic at the heart of Komodo, the Teiid data-virtualization
tooling server. It covers:

- **Schema tree** (`KomodoMetadataService`): how the fully-qualified-name option of every table
  of a connection (`schema=public/table=customer`) is folded into an ordered forest of schema
  nodes. The builder works on node objects updated in place (`SchemaBuilder`). It is proved
  against a value-level specification of the forest (`SchemaTree`, `SchemaPaths`).
- **Small metadata rules** from the same service (`MetadataRules`): connection-VDB naming,
  the path-value extraction, the schema-status rule, and the import reconciliation of the
  preview VDB.
- **Transactions** of the Syndesis connection synchronizer (`ConnectionSync`): naming a
  unit of work, classifying a commit, and rolling back on failure.
- **Workspace store** (`Workspace`): source schemas, data virtualizations and view
  definitions kept in maps that the manager updates in place.
- **Data service** child view (`Dataservices`): at most one service-VDB entry, the accessors
  over it, and `setServiceVdb`.
- **Command lines**:
  - the Komodo shell's property arguments and its choice of command reader (`ShellReaders`);
  - the language server's `--name=value` parameters and the websocket defaults (`LspRunner`).
- **Open-document table** of the Teiid DDL language server (`TextDocuments`).

Java's string operations are written out in `JavaStrings`:

- `String.split` on one character, which drops trailing empty strings;
- `trim`, which removes every character up to `' '`;
- ASCII `toLowerCase`;
- `Integer.parseInt` over ASCII decimal digits, and `Integer.toString`, over the 32-bit range.

A Java `null` is `None`. An exception the source throws is an `Err` of a `Result`.

One segment without a type or a name throws out of `generateSourceSchema`, so the whole
build fails (`SchemaTree.BuildAborts`).

## Model

| member | source | states |
|---|---|---|
| JavaStrings.IndexOfConcat | server/komodo-server/src/main/java/org/komodo/rest/service/KomodoMetadataService.java:1039 | the first occurrence of a separator is found right after a prefix that does not contain it |
| JavaStrings.JoinSplitAll | server/komodo-server/src/main/java/org/komodo/rest/service/KomodoMetadataService.java:914 | joining the pieces of a split (empty ones kept) with the separator gives back the original string |
| JavaStrings.SplitAllJoin | server/komodo-server/src/main/java/org/komodo/rest/service/KomodoMetadataService.java:914 | splitting pieces joined by a separator they do not contain gives back the pieces |
| JavaStrings.JoinJavaSplit | server/komodo-server/src/main/java/org/komodo/rest/service/KomodoMetadataService.java:914 | Java's split loses only the trailing separators: joining its pieces gives the string without them |
| JavaStrings.JavaSplitJoin | server/komodo-server/src/main/java/org/komodo/rest/service/KomodoMetadataService.java:914 | Java's split of at least two pieces joined by a separator (the last one non-empty) gives back the pieces |
| JavaStrings.TrimSpec | server/komodo-server/src/main/java/org/komodo/rest/service/KomodoMetadataService.java:1040 | `trim` keeps a contiguous slice of the string whose ends are above `' '`, and everything cut off at either end is at most `' '` |
| JavaStrings.ToLower | server/komodo-server/src/main/java/org/komodo/rest/service/KomodoMetadataService.java:889 | lower-casing keeps the length and maps each ASCII capital to its small letter, leaving every other character alone |
| JavaStrings.ToLowerIdempotent | server/komodo-server/src/main/java/org/komodo/rest/service/KomodoMetadataService.java:889 | lower-casing twice is lower-casing once |
| JavaStrings.NatToStringRoundTrip | server/komodo-server/src/main/java/org/komodo/rest/SyndesisConnectionSynchronizer.java:228 | the decimal text of a clock reading reads back as the same number |
| JavaStrings.JavaParseInt | komodo-server/src/main/java/org/komodo/lsp/TeiidDdlLanguageServerRunner.java:64 | a text parses exactly when, after an optional `+` or `-`, it is one or more decimal digits whose signed value fits in 32 bits; the result is that signed value |
| JavaStrings.ParseIntRoundTrip | komodo-server/src/main/java/org/komodo/lsp/TeiidDdlLanguageServerRunner.java:64 | every 32-bit integer written in decimal parses back to itself |
| JavaStrings.ParseIntLeadingZeroOrPlus | komodo-server/src/main/java/org/komodo/lsp/TeiidDdlLanguageServerRunner.java:64 | a leading `0` or a leading `+` before the digits of a 32-bit value reads the same value |
| JavaStrings.ParseIntOutOfRange | komodo-server/src/main/java/org/komodo/lsp/TeiidDdlLanguageServerRunner.java:64 | digits whose signed value lies outside the 32-bit range do not parse |
| SchemaTree.SegmentType | server/komodo-server/src/main/java/org/komodo/rest/service/KomodoMetadataService.java:1048-1051 | the type lookup fails only with an index-0 out-of-bounds error |
| SchemaTree.SegmentName | server/komodo-server/src/main/java/org/komodo/rest/service/KomodoMetadataService.java:1038-1041 | the name lookup fails only with an index-1 out-of-bounds error |
| SchemaTree.SegmentParseNoEquals | server/komodo-server/src/main/java/org/komodo/rest/service/KomodoMetadataService.java:1038-1041 | a segment without `=` has no name, and asking for it fails |
| SchemaTree.SegmentParseWithName | server/komodo-server/src/main/java/org/komodo/rest/service/KomodoMetadataService.java:1038-1051 | when some character after the first `=` is not `=`, the type is the trimmed text before the first `=` and the name the trimmed text between the first and the second `=` |
| SchemaTree.SegmentParseWithoutName | server/komodo-server/src/main/java/org/komodo/rest/service/KomodoMetadataService.java:1038-1051 | when only `=` follows the first `=`, the segment fails: on the type if it is made of `=` only, otherwise on the name |
| SchemaTree.SplitAllBlank | server/komodo-server/src/main/java/org/komodo/rest/service/KomodoMetadataService.java:1049 | every piece of a split is empty exactly when the text consists of separators only |
| SchemaTree.ParseAllPrefixErr | server/komodo-server/src/main/java/org/komodo/rest/service/KomodoMetadataService.java:951-953 | once a segment fails, the walk over the fqn fails with that error whatever follows |
| SchemaTree.ParseAllFails | server/komodo-server/src/main/java/org/komodo/rest/service/KomodoMetadataService.java:951-953 | any segment that does not parse makes the whole fqn fail |
| SchemaTree.ParseAllSegment | server/komodo-server/src/main/java/org/komodo/rest/service/KomodoMetadataService.java:951-953 | when a fqn parses, its i-th parsed segment is the parse of its i-th raw segment |
| SchemaTree.NodePathStep | server/komodo-server/src/main/java/org/komodo/rest/service/KomodoMetadataService.java:999-1012 | a node's path is its parent's path, a `/` and its own segment |
| SchemaTree.NodePathPrefix | server/komodo-server/src/main/java/org/komodo/rest/service/KomodoMetadataService.java:999-1012 | every node's path starts with each ancestor's path followed by `/` |
| SchemaTree.LeafPathIsFqn | server/komodo-server/src/main/java/org/komodo/rest/service/KomodoMetadataService.java:914-924 | the leaf's path is the whole fqn, less any trailing `/` that the split dropped |
| SchemaTree.MatchIndex | server/komodo-server/src/main/java/org/komodo/rest/service/KomodoMetadataService.java:1022-1031 | the index found matches connection, name and type exactly, and no earlier node does; -1 means no node of the level matches |
| SchemaTree.Locate | server/komodo-server/src/main/java/org/komodo/rest/service/KomodoMetadataService.java:955-983 | a level search keeps the level as a prefix and yields the first matching node; a new container is appended at the end only when nothing matched |
| SchemaTree.LocateAgain | server/komodo-server/src/main/java/org/komodo/rest/service/KomodoMetadataService.java:955-963 | searching for the same segment again finds the same node and changes nothing |
| SchemaTree.LocateExtends | server/komodo-server/src/main/java/org/komodo/rest/service/KomodoMetadataService.java:955-983 | a level search keeps every existing node, with its fields, at its place |
| SchemaTree.LocateKeepsCount | server/komodo-server/src/main/java/org/komodo/rest/service/KomodoMetadataService.java:959-979 | a level search adds no queryable node: new containers are not queryable |
| SchemaTree.DescendGrows | server/komodo-server/src/main/java/org/komodo/rest/service/KomodoMetadataService.java:943-991 | placing a multi-segment fqn keeps every existing node in place and adds exactly one queryable node |
| SchemaTree.DescendAllFrom | server/komodo-server/src/main/java/org/komodo/rest/service/KomodoMetadataService.java:943-991 | every node created carries the connection name it was built for |
| SchemaTree.DescendPlacesLeaf | server/komodo-server/src/main/java/org/komodo/rest/service/KomodoMetadataService.java:919-926 | the queryable leaf for the last segment, with the whole fqn as its path, sits one level below the containers of the other segments |
| SchemaTree.DescendMatchesSegments | server/komodo-server/src/main/java/org/komodo/rest/service/KomodoMetadataService.java:951-988 | the nodes on the way to the leaf match the segments before the last one, level by level |
| SchemaTree.InsertFqnGrows | server/komodo-server/src/main/java/org/komodo/rest/service/KomodoMetadataService.java:909-927 | a fqn with several segments keeps the forest and adds exactly one queryable node |
| SchemaTree.RepeatedFqnAddsTwoLeaves | server/komodo-server/src/main/java/org/komodo/rest/service/KomodoMetadataService.java:919-926 | leaves are not deduplicated: the same multi-segment fqn twice adds two queryable leaves |
| SchemaTree.MarkRootShape | server/komodo-server/src/main/java/org/komodo/rest/service/KomodoMetadataService.java:955-967 | for a one-segment fqn, the first matching root (or a new one at the end) becomes queryable, every other root is unchanged, and doing it again changes nothing |
| SchemaTree.SingleSegment | server/komodo-server/src/main/java/org/komodo/rest/service/KomodoMetadataService.java:948-967 | a one-segment fqn that parses only marks its root, adds no leaf, and is idempotent |
| SchemaTree.InsertFqnAllFrom | server/komodo-server/src/main/java/org/komodo/rest/service/KomodoMetadataService.java:909-927 | one table keeps every node belonging to the connection |
| SchemaTree.BuildAllFrom | server/komodo-server/src/main/java/org/komodo/rest/service/KomodoMetadataService.java:906-932 | every node of a built forest belongs to the connection it was built for |
| SchemaTree.BuildAborts | server/komodo-server/src/main/java/org/komodo/rest/service/KomodoMetadataService.java:906-932 | one fqn with a bad segment fails the whole build, whatever tables follow |
| SchemaTree.BuildSnoc | server/komodo-server/src/main/java/org/komodo/rest/service/KomodoMetadataService.java:909-916 | the tables are folded in order, each fqn split on `/` |
| SchemaTree.BuildNext | server/komodo-server/src/main/java/org/komodo/rest/service/KomodoMetadataService.java:911-912 | a table without the fqn option is skipped; one with it is inserted |
| SchemaTree.BuildPrefixErr | server/komodo-server/src/main/java/org/komodo/rest/service/KomodoMetadataService.java:906-932 | the first failing prefix of the tables decides the result of the build |
| SchemaPaths.AppendAtNew | server/komodo-server/src/main/java/org/komodo/rest/service/KomodoMetadataService.java:962-982 | an appended node lands one index past the last existing node of its level |
| SchemaPaths.MarkRootKeeps | server/komodo-server/src/main/java/org/komodo/rest/service/KomodoMetadataService.java:966 | marking a root queryable changes that root's flag and no other node |
| SchemaBuilder.SchemaForest.AddRoot | server/komodo-server/src/main/java/org/komodo/rest/service/KomodoMetadataService.java:962 | appending a root keeps the forest invariant and appends the node's value at the end of the root level |
| SchemaBuilder.SchemaForest.AddChild | server/komodo-server/src/main/java/org/komodo/rest/service/KomodoMetadataService.java:975-983 | appending a child to a node in place keeps the invariant and appends the child's value at the end of that node's level |
| SchemaBuilder.SchemaForest.MarkQueryable | server/komodo-server/src/main/java/org/komodo/rest/service/KomodoMetadataService.java:966 | setting a root queryable in place keeps the invariant and changes only that root's flag in the forest value |
| SchemaBuilder.GetMatchingNode | server/komodo-server/src/main/java/org/komodo/rest/service/KomodoMetadataService.java:1022-1031 | the loop returns the first node of the list that matches connection, name and type exactly, or null when none does |
| SchemaBuilder.CreateSchemaNodePath | server/komodo-server/src/main/java/org/komodo/rest/service/KomodoMetadataService.java:999-1012 | the StringBuilder loop produces the first `iPosn + 1` segments joined by `/` |
| SchemaBuilder.TerminatedJoin | server/komodo-server/src/main/java/org/komodo/rest/service/KomodoMetadataService.java:1003-1006 | segments each followed by `/` and then one more segment are the join of them all |
| SchemaBuilder.LocateNode | server/komodo-server/src/main/java/org/komodo/rest/service/KomodoMetadataService.java:955-983 | one level of the walk, on node objects, is the level search of the specification |
| SchemaBuilder.GetLeafNodeParent | server/komodo-server/src/main/java/org/komodo/rest/service/KomodoMetadataService.java:943-991 | the walk returns null for a one-segment fqn (its root marked), otherwise the leaf's parent below which the leaf completes the insertion; a bad segment is the insertion's error |
| SchemaBuilder.AddLeafNode | server/komodo-server/src/main/java/org/komodo/rest/service/KomodoMetadataService.java:919-927 | the leaf added under the parent is the specification's leaf step, or its error |
| SchemaBuilder.AddTable | server/komodo-server/src/main/java/org/komodo/rest/service/KomodoMetadataService.java:912-928 | one table changes the node graph exactly as the specification's insertion of its split fqn |
| SchemaBuilder.GenerateSourceSchema | server/komodo-server/src/main/java/org/komodo/rest/service/KomodoMetadataService.java:906-932 | the forest of node objects built over all tables is the specification's build, and its error is the build's error |
| MetadataRules.SourceVdbName | server/komodo-server/src/main/java/org/komodo/rest/service/KomodoMetadataService.java:888-890 | the connection VDB name is the lower-cased source name followed by `btlconn` |
| MetadataRules.SourceVdbNameCaseBlind | server/komodo-server/src/main/java/org/komodo/rest/service/KomodoMetadataService.java:888-890 | source names that differ only in ASCII case share a connection VDB name |
| MetadataRules.SchemaModelName | server/komodo-server/src/main/java/org/komodo/rest/service/KomodoMetadataService.java:895-897 | the schema model name is the source name itself |
| MetadataRules.Tokens | server/komodo-server/src/main/java/org/komodo/rest/service/KomodoMetadataService.java:1088 | the tokenizer's tokens are non-empty and free of the delimiter |
| MetadataRules.PathValue | server/komodo-server/src/main/java/org/komodo/rest/service/KomodoMetadataService.java:1084-1091 | the path value exists exactly when there are two tokens, and it is non-empty and has no `=` |
| MetadataRules.PathValueOfPair | server/komodo-server/src/main/java/org/komodo/rest/service/KomodoMetadataService.java:1084-1091 | the path value of `key=value` is `value` |
| MetadataRules.PathValueIsSecondPiece | server/komodo-server/src/main/java/org/komodo/rest/service/KomodoMetadataService.java:1084-1091 | when the first two `=`-pieces are non-empty, the path value is the second piece, as with `split` |
| MetadataRules.SchemaStatusOf | server/komodo-server/src/main/java/org/komodo/rest/service/KomodoMetadataService.java:1058-1068 | the status carries the schema id and is ACTIVE exactly when the schema exists with DDL, MISSING otherwise |
| MetadataRules.StatusAfterUpsert | server/komodo-server/src/main/java/org/komodo/rest/service/KomodoMetadataService.java:1058-1068 | after a successful upsert the schema is ACTIVE exactly when DDL was given |
| MetadataRules.ConnectionVdbNamesSpec | server/komodo-server/src/main/java/org/komodo/rest/service/KomodoMetadataService.java:152-159 | the connection VDBs are exactly the deployed VDBs whose name ends in `btlconn` |
| MetadataRules.MissingFromSpec | server/komodo-server/src/main/java/org/komodo/rest/service/KomodoMetadataService.java:161-171 | the imports added are exactly the connection VDBs that are not yet imported |
| MetadataRules.CollectConnectionVdbNames | server/komodo-server/src/main/java/org/komodo/rest/service/KomodoMetadataService.java:152-159 | the loop collects the connection VDB names, in order |
| MetadataRules.AddMissingImports | server/komodo-server/src/main/java/org/komodo/rest/service/KomodoMetadataService.java:161-171 | the loop adds the missing imports, in order, and flags an addition exactly when one was made |
| MetadataRules.FindStaleImport | server/komodo-server/src/main/java/org/komodo/rest/service/KomodoMetadataService.java:173-180 | the loop with break reports a removal exactly when some import is not a connection VDB |
| MetadataRules.RefreshPreviewImports | server/komodo-server/src/main/java/org/komodo/rest/service/KomodoMetadataService.java:145-186 | the working copy holds only the newly added imports, and the VDB is deployed exactly when it is not yet deployed, an import was added, or a stale import exists |
| MetadataRules.PreviewInSync | server/komodo-server/src/main/java/org/komodo/rest/service/KomodoMetadataService.java:161-186 | a deployed preview VDB is left alone exactly when its imports hold the same names as the connection VDBs |
| MetadataRules.PreviewDropsKeptImport | server/komodo-server/src/main/java/org/komodo/rest/service/KomodoMetadataService.java:161-186 | with `abtlconn` already imported and `bbtlconn` new, the working copy that is deployed holds `bbtlconn` only |
| MetadataRules.KeptImportsSpec | server/komodo-server/src/main/java/org/komodo/rest/service/KomodoMetadataService.java:173-180 | the imports kept are exactly the current imports that are still connection VDBs |
| MetadataRules.IntendedPreviewImportsSpec | server/komodo-server/src/main/java/org/komodo/rest/service/KomodoMetadataService.java:161-186 | the intended imports are exactly the connection VDBs, and they end with the working copy the code computes |
| MetadataRules.IntendedPreviewKeepsImport | server/komodo-server/src/main/java/org/komodo/rest/service/KomodoMetadataService.java:161-186 | on the example above the intended imports keep `abtlconn` and add `bbtlconn` |
| ConnectionSync.TransactionName | server/komodo-server/src/main/java/org/komodo/rest/SyndesisConnectionSynchronizer.java:225-231 | the transaction name starts with the class name and a colon |
| ConnectionSync.TransactionNameParts | server/komodo-server/src/main/java/org/komodo/rest/SyndesisConnectionSynchronizer.java:228-229 | for a name without colons, the transaction name splits back into class name, name and clock reading |
| ConnectionSync.CreateTransaction | server/komodo-server/src/main/java/org/komodo/rest/SyndesisConnectionSynchronizer.java:225-231 | a new unit of work for user `user`, named as above, with the given rollback flag, not started and with both error slots empty |
| ConnectionSync.CommitSucceedsIff | server/komodo-server/src/main/java/org/komodo/rest/SyndesisConnectionSynchronizer.java:242-259 | a commit succeeds exactly when the wait completed and both error slots are empty |
| ConnectionSync.CommitTimeoutIgnoresSlots | server/komodo-server/src/main/java/org/komodo/rest/SyndesisConnectionSynchronizer.java:242-246 | a wait that does not complete gives the timeout error naming the transaction, 30 and seconds, whatever the error slots hold |
| ConnectionSync.CommitTransactionErrorFirst | server/komodo-server/src/main/java/org/komodo/rest/SyndesisConnectionSynchronizer.java:248-252 | after the wait, the transaction's error wins over the callback's |
| ConnectionSync.CommitCallbackErrorOnly | server/komodo-server/src/main/java/org/komodo/rest/SyndesisConnectionSynchronizer.java:254-258 | the callback's error surfaces only when the transaction has none |
| ConnectionSync.Commit | server/komodo-server/src/main/java/org/komodo/rest/SyndesisConnectionSynchronizer.java:234-259 | the commit is requested before the 30-second wait; the outcome is the classification above, applied to the error slots as the commit processing left them |
| ConnectionSync.RefreshSchemaFailed | server/komodo-server/src/main/java/org/komodo/rest/SyndesisConnectionSynchronizer.java:195-200 | an existing unit of work ends rolled back, with a rollback requested only if it was not already rolled back, and the cause is rethrown wrapped |
| Workspace.UpsertRejectsRename | server/komodo-core/src/main/java/org/komodo/repository/WorkspaceManagerImpl.java:59-63 | asking for another name for an existing schema is an error |
| Workspace.UpsertStores | server/komodo-core/src/main/java/org/komodo/repository/WorkspaceManagerImpl.java:64-72 | otherwise the schema under the id has the given name and DDL and every other id is unchanged |
| Workspace.UpsertSameNoop | server/komodo-core/src/main/java/org/komodo/repository/WorkspaceManagerImpl.java:64-66 | upserting what is stored changes nothing |
| Workspace.UpsertIdempotent | server/komodo-core/src/main/java/org/komodo/repository/WorkspaceManagerImpl.java:58-73 | upserting twice is upserting once |
| Workspace.WorkspaceManager.FindSchema | server/komodo-core/src/main/java/org/komodo/repository/WorkspaceManagerImpl.java:42-44 | a schema is found exactly when its id is stored, and it is the stored one |
| Workspace.WorkspaceManager.FindViewDefinition | server/komodo-core/src/main/java/org/komodo/repository/WorkspaceManagerImpl.java:140-142 | a view definition is found exactly when its id is stored, and it is the stored one |
| Workspace.WorkspaceManager.DeleteSchema | server/komodo-core/src/main/java/org/komodo/repository/WorkspaceManagerImpl.java:47-55 | true exactly when the id was stored; the id is gone afterwards and nothing else changes |
| Workspace.WorkspaceManager.CreateOrUpdateSchema | server/komodo-core/src/main/java/org/komodo/repository/WorkspaceManagerImpl.java:58-73 | the schema repository becomes the upsert's result, or stays as it was on a rename error; the other repositories are untouched |
| Workspace.WorkspaceManager.DeleteDataVirtualization | server/komodo-core/src/main/java/org/komodo/repository/WorkspaceManagerImpl.java:102-110 | true exactly when a virtualization of that name existed; it is gone afterwards and nothing else changes |
| Workspace.WorkspaceManager.DeleteViewDefinition | server/komodo-core/src/main/java/org/komodo/repository/WorkspaceManagerImpl.java:129-137 | true exactly when the id was stored; the id is gone afterwards and nothing else changes |
| Dataservices.CheckTransaction | server/komodo-core/src/main/java/org/komodo/relational/dataservice/internal/DataserviceImpl.java:186-189 | the transaction check passes exactly for a transaction in state NOT_STARTED |
| Dataservices.ResolveReference | server/komodo-core/src/main/java/org/komodo/relational/dataservice/internal/DataserviceImpl.java:306-309 | the service VDB is the VDB the entry's reference names, when there is one |
| Dataservices.EntryForRoundTrip | server/komodo-core/src/main/java/org/komodo/relational/dataservice/internal/DataserviceImpl.java:445-476 | the entry written for a VDB has the VDB's name and version text, and resolves back to that VDB |
| Dataservices.FirstVirtualSpec | server/komodo-core/src/main/java/org/komodo/relational/dataservice/internal/DataserviceImpl.java:323-339 | the view model is the first VIRTUAL model, and there is none exactly when no model is VIRTUAL |
| Dataservices.Dataservice.ServiceVdbEntryOf | server/komodo-core/src/main/java/org/komodo/relational/dataservice/internal/DataserviceImpl.java:386-397 | the entry is returned exactly under a NOT_STARTED transaction |
| Dataservices.Dataservice.GetChild | server/komodo-core/src/main/java/org/komodo/relational/dataservice/internal/DataserviceImpl.java:161-174 | the child is the entry exactly when it exists with that name; otherwise CHILD_NOT_FOUND |
| Dataservices.Dataservice.GetChildOfType | server/komodo-core/src/main/java/org/komodo/relational/dataservice/internal/DataserviceImpl.java:183-199 | for the entry type the entry, possibly absent, is returned without comparing names; other types are not found |
| Dataservices.Dataservice.GetChildren | server/komodo-core/src/main/java/org/komodo/relational/dataservice/internal/DataserviceImpl.java:208-222 | the children are the entry when present, otherwise none |
| Dataservices.Dataservice.GetChildrenOfType | server/komodo-core/src/main/java/org/komodo/relational/dataservice/internal/DataserviceImpl.java:231-248 | the children of a type are the entry only for the entry type with the entry present |
| Dataservices.Dataservice.HasChild | server/komodo-core/src/main/java/org/komodo/relational/dataservice/internal/DataserviceImpl.java:257-265 | a child of that name exists exactly when the entry has it |
| Dataservices.Dataservice.HasChildOfType | server/komodo-core/src/main/java/org/komodo/relational/dataservice/internal/DataserviceImpl.java:274-288 | as `HasChild`, and the type must also be the entry type |
| Dataservices.Dataservice.HasChildren | server/komodo-core/src/main/java/org/komodo/relational/dataservice/internal/DataserviceImpl.java:296-298 | there are children exactly when the entry exists |
| Dataservices.Dataservice.GetServiceVdb | server/komodo-core/src/main/java/org/komodo/relational/dataservice/internal/DataserviceImpl.java:306-309 | the service VDB is the one the entry references |
| Dataservices.Dataservice.GetServiceViewModelName | server/komodo-core/src/main/java/org/komodo/relational/dataservice/internal/DataserviceImpl.java:323-339 | the loop with break returns the first VIRTUAL model's name of the service VDB, or nothing |
| Dataservices.Dataservice.SetServiceVdb | server/komodo-core/src/main/java/org/komodo/relational/dataservice/internal/DataserviceImpl.java:445-476 | the old entry is replaced by one for the new VDB (or none), and the VDB the old entry referenced is returned |
| Dataservices.AccessorsCheckTransaction | server/komodo-core/src/main/java/org/komodo/relational/dataservice/internal/DataserviceImpl.java:161-309 | every accessor fails with an illegal-argument error unless the transaction is NOT_STARTED |
| Dataservices.ChildViewsAgree | server/komodo-core/src/main/java/org/komodo/relational/dataservice/internal/DataserviceImpl.java:161-298 | `hasChild` agrees with `getChild`, the typed forms for the entry type with the untyped ones, and `hasChildren` with `getChildren` |
| Dataservices.GetChildOfTypeIgnoresName | server/komodo-core/src/main/java/org/komodo/relational/dataservice/internal/DataserviceImpl.java:191-198 | the typed `getChild` for the entry type gives the same answer for every name |
| ShellReaders.DefinitionKey | komodo-shell/src/main/java/org/komodo/shell/ShellCommandReaderFactory.java:94 | the key of `-Dk=v` contains no `=` |
| ShellReaders.DefinitionSplit | komodo-shell/src/main/java/org/komodo/shell/ShellCommandReaderFactory.java:92-96 | a definition argument is `-D`, its key, `=` and its value |
| ShellReaders.DefinitionRoundTrip | komodo-shell/src/main/java/org/komodo/shell/ShellCommandReaderFactory.java:92-96 | `-Dk=v` with a key without `=` yields key `k` and value `v`, even when `v` contains `=` |
| ShellReaders.GetProperties | komodo-shell/src/main/java/org/komodo/shell/ShellCommandReaderFactory.java:86-123 | the loop with its file flag computes the properties the argument list defines, or the error of the first bad argument |
| ShellReaders.DefinitionDefines | komodo-shell/src/main/java/org/komodo/shell/ShellCommandReaderFactory.java:92-96 | one definition gives a one-entry property map |
| ShellReaders.LaterDefinitionWins | komodo-shell/src/main/java/org/komodo/shell/ShellCommandReaderFactory.java:96 | a later definition of the same key overwrites an earlier one |
| ShellReaders.DefinitionWithoutEqualsFails | komodo-shell/src/main/java/org/komodo/shell/ShellCommandReaderFactory.java:97-104 | a `-D` argument without `=` fails, naming the argument and its index |
| ShellReaders.ArgumentAfterFlagIsFile | komodo-shell/src/main/java/org/komodo/shell/ShellCommandReaderFactory.java:107-118 | the argument after `-propertiesFile` is read as a file, even one starting with `-D`, and the flag resets |
| ShellReaders.OtherArgumentIgnored | komodo-shell/src/main/java/org/komodo/shell/ShellCommandReaderFactory.java:90-107 | an argument that is neither a definition nor the file flag is skipped |
| ShellReaders.IgnoresArgumentsBefore | komodo-shell/src/main/java/org/komodo/shell/ShellCommandReaderFactory.java:89 | arguments before the start index make no difference |
| ShellReaders.CreateCommandReader | komodo-shell/src/main/java/org/komodo/shell/ShellCommandReaderFactory.java:51-77 | no arguments give an interactive or stdin reader by console; `-simple` gives a console or stdin reader with the properties from index 1; `-f path` a file reader with those from index 2; anything else none |
| LspRunner.WebsocketMode | komodo-server/src/main/java/org/komodo/lsp/TeiidDdlLanguageServerRunner.java:29 | websocket mode is chosen exactly when some argument is `--websocket` |
| LspRunner.FirstStarting | komodo-server/src/main/java/org/komodo/lsp/TeiidDdlLanguageServerRunner.java:51-55 | the search stops at the first argument starting with the prefix, and none before it does |
| LspRunner.ExtractParameterValue | komodo-server/src/main/java/org/komodo/lsp/TeiidDdlLanguageServerRunner.java:50-57 | no value exactly when no argument starts with the prefix; otherwise the first such argument is the prefix followed by the value |
| LspRunner.ExtractHostname | komodo-server/src/main/java/org/komodo/lsp/TeiidDdlLanguageServerRunner.java:46-48 | as above, for `--hostname=` |
| LspRunner.ExtractContextPath | komodo-server/src/main/java/org/komodo/lsp/TeiidDdlLanguageServerRunner.java:42-44 | as above, for `--contextPath=` |
| LspRunner.ExtractPort | komodo-server/src/main/java/org/komodo/lsp/TeiidDdlLanguageServerRunner.java:59-71 | a port found is a 32-bit integer; the only failure is the invalid-port error |
| LspRunner.ExtractPortAbsent | komodo-server/src/main/java/org/komodo/lsp/TeiidDdlLanguageServerRunner.java:70 | without a `--port=` argument the port is -1 |
| LspRunner.ExtractPortFirstOnly | komodo-server/src/main/java/org/komodo/lsp/TeiidDdlLanguageServerRunner.java:60-67 | only the first `--port=` argument counts: it decides the port or the error, whatever follows |
| LspRunner.FirstStartingPast | komodo-server/src/main/java/org/komodo/lsp/TeiidDdlLanguageServerRunner.java:60-61 | a search that passes over arguments not starting with the prefix stops at the next one that does |
| LspRunner.ExtractPortRoundTrip | komodo-server/src/main/java/org/komodo/lsp/TeiidDdlLanguageServerRunner.java:60-64 | every 32-bit port written in decimal is read back |
| LspRunner.ExtractPortInvalid | komodo-server/src/main/java/org/komodo/lsp/TeiidDdlLanguageServerRunner.java:65-67 | a port text that is not a decimal `int` gives "The provided port is invalid." |
| LspRunner.ExtractPortOutOfRange | komodo-server/src/main/java/org/komodo/lsp/TeiidDdlLanguageServerRunner.java:63-67 | a port of decimal digits beyond the 32-bit range gives "The provided port is invalid." rather than a truncated port |
| LspRunner.ExtractPortLeadingZeroOrPlus | komodo-server/src/main/java/org/komodo/lsp/TeiidDdlLanguageServerRunner.java:60-64 | `--port=+n` and `--port=0n` give the port `n` |
| LspRunner.ResolveSettings | komodo-server/src/main/java/org/komodo/lsp/websocket/TeiidDdlWebSocketRunner.java:15-22 | a missing hostname becomes `localhost`, port -1 becomes 8025, a missing context path becomes `/`; every other value, other negative ports included, is kept |
| LspRunner.WebsocketDefaults | komodo-server/src/main/java/org/komodo/lsp/websocket/TeiidDdlWebSocketRunner.java:20-22 | with no parameters the server starts on `localhost`, port 8025, context path `/` |
| LspRunner.ExplicitMinusOneIsDefault | komodo-server/src/main/java/org/komodo/lsp/websocket/TeiidDdlWebSocketRunner.java:21 | an explicit `--port=-1` is the same as no port, and gives port 8025 |
| TextDocuments.Completion | komodo-server/src/main/java/org/komodo/lsp/TeiidDdlTextDocumentService.java:69-85 | the same seven completion items, in a fixed order |
| TextDocuments.CompletionConstant | komodo-server/src/main/java/org/komodo/lsp/TeiidDdlTextDocumentService.java:76-84 | the completion items do not depend on the request |
| TextDocuments.ResolveCompletionItem | komodo-server/src/main/java/org/komodo/lsp/TeiidDdlTextDocumentService.java:88-90 | an item resolves to itself |
| TextDocuments.QueryAnswer | komodo-server/src/main/java/org/komodo/lsp/TeiidDdlTextDocumentService.java:92-159 | references, highlights, symbols, code actions, code lenses and the formattings answer an empty list; the other requests answer null |
| TextDocuments.TextDocumentService.GetOpenedDocument | komodo-server/src/main/java/org/komodo/lsp/TeiidDdlTextDocumentService.java:190-192 | the stored item for a URI, or nothing exactly when none is stored |
| TextDocuments.TextDocumentService.GetAllOpenedDocuments | komodo-server/src/main/java/org/komodo/lsp/TeiidDdlTextDocumentService.java:194-196 | every stored item, and only stored items |
| TextDocuments.TextDocumentService.DidOpen | komodo-server/src/main/java/org/komodo/lsp/TeiidDdlTextDocumentService.java:162-166 | the item is stored under its URI, replacing any earlier one |
| TextDocuments.TextDocumentService.DidChange | komodo-server/src/main/java/org/komodo/lsp/TeiidDdlTextDocumentService.java:169-176 | with changes, the stored item takes the first change's text; with none nothing changes; changes for a URI never opened fail |
| TextDocuments.TextDocumentService.DidClose | komodo-server/src/main/java/org/komodo/lsp/TeiidDdlTextDocumentService.java:179-183 | only that URI's entry is removed |

## Left out

- The REST endpoints, `runInTransaction`, the OpenShift client and the metadata instance's
  `deploy`, `query` and `getSchema` are not part of this model. The list of deployed VDB names,
  whether the preview VDB is deployed, and the tables with their fqn options are parameters.
- The repository's commit processing on another thread is not modelled. Whether the 30-second
  wait completed, and what the processing left in the two error slots, are inputs of
  `ConnectionSync.Commit`, stored by `UnitOfWork.Await`. The unit of work's
  state changes inside the repository are not modelled either.
- The clock is a parameter: `System.currentTimeMillis()` is the `millis` argument of
  `ConnectionSync.CreateTransaction`.
- The three-argument `createTransaction` (SyndesisConnectionSynchronizer.java:210-217) differs
  only by taking the callback as an argument. Callbacks are not modelled beyond their error slot.
- `handleConnectionEvent` (SyndesisConnectionSynchronizer.java:62-97) only logs, so it has no
  state to model.
- `refreshSchema` is modelled by its catch block only. Its body calls the metadata instance and
  the repository.
- `getPropertiesFromFile` is file I/O. The properties each file holds are a given map, and a
  file that is missing from the map fails.
- The text of the exception messages built with `I18n.bind` and `Messages.getString` is not
  modelled. The errors carry their arguments (argument and index, transaction name, timeout
  and unit) instead.
- `ConnectionSync.TransactionName`: the ensures states only the class-name prefix. The full
  layout is stated by `TransactionNameParts`, for names without a colon.
- `JavaStrings.JavaParseInt`: accepts ASCII digits `0`-`9` only. Java's `Integer.parseInt`
  also accepts the other Unicode decimal digits (fullwidth `８０２５` reads as 8025), which
  the model rejects; a port written that way is reported invalid here.
- `toLowerCase` is ASCII lower-casing. Locale-specific case mapping is not modelled.
- The system console is a boolean input of `ShellReaders.CreateCommandReader`. Reader objects
  are values carrying their properties and file path.
- `DataserviceImpl`:
  - The repository is abstracted to an optional service-VDB entry. The VDBs are a map from
    reference to VDB.
  - `getReference` is taken to name the VDB by its id.
  - The type-name value of a service-VDB entry comes from the repository's lexicon, which is
    not part of this model. It is a field of the data service.
  - The `ArgCheck` failures are modelled as the illegal-argument error, without their messages.
  - `getViewDefnNames`, the description, modified-by and last-modified accessors and the type
    resolvers are not modelled: they read repository properties or profile singletons.
- `didSave` only logs, so it is not modelled.
- The websocket server start and the stdin/stdout launcher of the language server are I/O.
- The other files of the repository are not part of this model: the serializers, the REST
  DTOs, the Teiid and Spring wrappers, the websocket glue, the interfaces and the message
  bundle.
- The schema nodes of the builder are objects reached only through the forest. The model
  proves that the node graph mirrors the forest value. The JSON shape of `RestSchemaNode` is
  not modelled.

## Findings

| source | as written | input that shows it | evidently intended | confidence | as-written member | corrected member |
|---|---|---|---|---|---|---|
| server/komodo-server/src/main/java/org/komodo/rest/service/KomodoMetadataService.java:161-186 | the working copy that is deployed receives only the imports that were missing; imports the preview VDB already had and that are still valid are not in it | preview imports `abtlconn`, deployed VDBs `abtlconn` and `bbtlconn`: the deployed working copy imports `bbtlconn` only | the deployed VDB imports every connection VDB: the valid imports it had plus the missing ones | not executed | MetadataRules.PreviewDropsKeptImport | MetadataRules.IntendedPreviewImportsSpec |
