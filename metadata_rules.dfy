/**
 * The small rules of the metadata service besides the schema tree: the names it derives
 * for a source, `getPathValue`, the schema status of a source and the import
 * reconciliation of `refreshPreviewVdb`.
 */
module MetadataRules {
  import opened Results
  import opened JavaStrings
  import opened Workspace

  /** Every connection VDB's name ends with this. */
  const CONNECTION_VDB_SUFFIX: string := "btlconn"

  // ---------------------------------------------------------------- names

  /** `getWorkspaceSourceVdbName`: the source name in lower case, then the suffix. */
  function SourceVdbName(sourceName: string): (r: string)
    ensures |r| == |sourceName| + |CONNECTION_VDB_SUFFIX|
    ensures r[..|sourceName|] == ToLower(sourceName)
    ensures EndsWith(r, CONNECTION_VDB_SUFFIX)
  {
    var r := ToLower(sourceName) + CONNECTION_VDB_SUFFIX;
    assert r[|r| - |CONNECTION_VDB_SUFFIX|..] == CONNECTION_VDB_SUFFIX;
    r
  }

  /** Sources whose names differ only in the case of ASCII letters share one VDB. */
  lemma SourceVdbNameCaseBlind(a: string, b: string)
    requires ToLower(a) == ToLower(b)
    ensures SourceVdbName(a) == SourceVdbName(b)
  {
  }

  /** `getSchemaModelName`: the source name itself. */
  function SchemaModelName(sourceName: string): (r: string)
    ensures r == sourceName
  {
    sourceName
  }

  // ---------------------------------------------------------------- getPathValue

  /** The non-empty strings of `parts`, in order. */
  function NonEmpty(parts: seq<string>): (r: seq<string>)
    ensures forall k :: 0 <= k < |r| ==> r[k] != "" && r[k] in parts
    ensures forall x :: x in r <==> x in parts && x != ""
  {
    if parts == [] then []
    else if parts[0] == "" then NonEmpty(parts[1..])
    else [parts[0]] + NonEmpty(parts[1..])
  }

  /**
   * The tokens a `StringTokenizer` with delimiter `c` returns: the maximal runs of
   * characters other than `c`.
   */
  function Tokens(s: string, c: char): (r: seq<string>)
    ensures forall k :: 0 <= k < |r| ==> r[k] != "" && c !in r[k]
  {
    NonEmpty(SplitAll(s, c))
  }

  /** `nextToken` past the end of the tokens. */
  datatype TokenError = NoSuchElement

  /** `getPathValue`: the second `=`-delimited token of the segment. */
  function PathValue(pathSegment: string): (r: Result<string, TokenError>)
    ensures r.Ok? <==> |Tokens(pathSegment, EQUALS_SIGN)| >= 2
    ensures r.Ok? ==> r.value != "" && EQUALS_SIGN !in r.value
  {
    var tokens := Tokens(pathSegment, EQUALS_SIGN);
    if |tokens| < 2 then Err(NoSuchElement) else Ok(tokens[1])
  }

  const EQUALS_SIGN: char := '='

  /** `getPathValue` of `key=value` is `value`, for a key and a value without `=`. */
  lemma PathValueOfPair(key: string, value: string)
    requires key != "" && value != "" && EQUALS_SIGN !in key && EQUALS_SIGN !in value
    ensures PathValue(key + [EQUALS_SIGN] + value) == Ok(value)
  {
    var parts := [key, value];
    assert Join(parts[1..], EQUALS_SIGN) == value;
    assert Join(parts, EQUALS_SIGN) == key + [EQUALS_SIGN] + value;
    SplitAllJoin(parts, EQUALS_SIGN);
    assert NonEmpty(parts[1..]) == [value] + NonEmpty(parts[1..][1..]);
    assert NonEmpty(parts) == [key] + NonEmpty(parts[1..]);
  }

  /**
   * Where the first two `=`-pieces of a segment are both non-empty, `getPathValue` returns
   * the piece that `split` puts second, that is the name text before trimming.
   */
  lemma PathValueIsSecondPiece(s: string)
    requires |SplitAll(s, EQUALS_SIGN)| >= 2
    requires SplitAll(s, EQUALS_SIGN)[0] != "" && SplitAll(s, EQUALS_SIGN)[1] != ""
    ensures PathValue(s) == Ok(SplitAll(s, EQUALS_SIGN)[1])
    ensures |JavaSplit(s, EQUALS_SIGN)| >= 2 && JavaSplit(s, EQUALS_SIGN)[1] == SplitAll(s, EQUALS_SIGN)[1]
  {
    var all := SplitAll(s, EQUALS_SIGN);
    assert all == [all[0]] + all[1..];
    assert all[1..] == [all[1]] + all[2..];
    assert NonEmpty(all[1..]) == [all[1]] + NonEmpty(all[2..]);
    assert NonEmpty(all) == [all[0]] + NonEmpty(all[1..]);
  }

  // ---------------------------------------------------------------- schema status

  datatype EntityState = Active | Missing

  /** The two fields `setSchemaStatus` writes into the status object. */
  datatype SchemaStatus = SchemaStatus(id: string, schemaState: EntityState)

  /**
   * `setSchemaStatus`: the status carries the schema id, and is active exactly when the
   * workspace holds a schema under that id with its DDL set.
   */
  function SchemaStatusOf(schemas: map<string, SourceSchema>, schemaId: string): (r: SchemaStatus)
    ensures r.id == schemaId
    ensures r.schemaState == Active <==> schemaId in schemas && schemas[schemaId].ddl.Some?
  {
    var schema := if schemaId in schemas then Some(schemas[schemaId]) else None;
    SchemaStatus(schemaId, if schema.Some? && schema.value.ddl.Some? then Active else Missing)
  }

  /** After `createOrUpdateSchema` succeeds the schema is active exactly when DDL was given. */
  lemma StatusAfterUpsert(schemas: map<string, SourceSchema>, id: string, name: string, contents: Option<string>)
    requires UpsertSchema(schemas, id, name, contents).Ok?
    ensures SchemaStatusOf(UpsertSchema(schemas, id, name, contents).value, id).schemaState ==
            if contents.Some? then Active else Missing
  {
    UpsertStores(schemas, id, name, contents);
  }

  // ---------------------------------------------------------------- preview reconciliation

  /** The names that end with the connection suffix, in order. */
  function ConnectionVdbNames(vdbNames: seq<string>): seq<string>
  {
    if vdbNames == [] then []
    else
      var last := vdbNames[|vdbNames| - 1];
      var init := vdbNames[..|vdbNames| - 1];
      assert vdbNames == init + [last];
      ConnectionVdbNames(init) + if EndsWith(last, CONNECTION_VDB_SUFFIX) then [last] else []
  }

  /** The names of `names` that `present` lacks, in order. */
  function MissingFrom(names: seq<string>, present: seq<string>): seq<string>
  {
    if names == [] then []
    else
      var last := names[|names| - 1];
      var init := names[..|names| - 1];
      assert names == init + [last];
      MissingFrom(init, present) + if last !in present then [last] else []
  }

  /** The connection VDB names are exactly the names that carry the suffix. */
  lemma {:induction false} ConnectionVdbNamesSpec(vdbNames: seq<string>)
    ensures forall x :: x in ConnectionVdbNames(vdbNames) <==> x in vdbNames && EndsWith(x, CONNECTION_VDB_SUFFIX)
  {
    if vdbNames != [] {
      var init := vdbNames[..|vdbNames| - 1];
      assert vdbNames == init + [vdbNames[|vdbNames| - 1]];
      ConnectionVdbNamesSpec(init);
    }
  }

  /** The missing names are exactly those of `names` not in `present`. */
  lemma {:induction false} MissingFromSpec(names: seq<string>, present: seq<string>)
    ensures forall x :: x in MissingFrom(names, present) <==> x in names && x !in present
  {
    if names != [] {
      var init := names[..|names| - 1];
      assert names == init + [names[|names| - 1]];
      MissingFromSpec(init, present);
    }
  }

  /** Whether some name of `imports` is not among `connectionVdbs`. */
  predicate HasStale(imports: seq<string>, connectionVdbs: seq<string>)
  {
    exists x :: x in imports && x !in connectionVdbs
  }

  /** The first loop of the reconciliation: the VDB names that carry the suffix. */
  method CollectConnectionVdbNames(vdbNames: seq<string>) returns (connectionVdbNames: seq<string>)
    ensures connectionVdbNames == ConnectionVdbNames(vdbNames)
  {
    connectionVdbNames := [];
    var i := 0;
    while i < |vdbNames|
      invariant 0 <= i <= |vdbNames|
      invariant connectionVdbNames == ConnectionVdbNames(vdbNames[..i])
    {
      assert vdbNames[..i + 1][..i] == vdbNames[..i];
      if EndsWith(vdbNames[i], CONNECTION_VDB_SUFFIX) {
        connectionVdbNames := connectionVdbNames + [vdbNames[i]];
      }
      i := i + 1;
    }
    assert vdbNames[..i] == vdbNames;
  }

  /**
   * The second loop: an import in the working copy for each connection VDB the preview
   * lacks, and whether there was any.
   */
  method AddMissingImports(connectionVdbNames: seq<string>, currentVdbImportNames: seq<string>)
    returns (importAdded: bool, workingCopy: seq<string>)
    ensures workingCopy == MissingFrom(connectionVdbNames, currentVdbImportNames)
    ensures importAdded <==> workingCopy != []
  {
    importAdded := false;
    workingCopy := [];
    var j := 0;
    while j < |connectionVdbNames|
      invariant 0 <= j <= |connectionVdbNames|
      invariant workingCopy == MissingFrom(connectionVdbNames[..j], currentVdbImportNames)
      invariant importAdded <==> workingCopy != []
    {
      assert connectionVdbNames[..j + 1][..j] == connectionVdbNames[..j];
      if connectionVdbNames[j] !in currentVdbImportNames {
        workingCopy := workingCopy + [connectionVdbNames[j]];
        importAdded := true;
      }
      j := j + 1;
    }
    assert connectionVdbNames[..j] == connectionVdbNames;
  }

  /** The third loop: whether some import is not a connection VDB, stopping at the first. */
  method FindStaleImport(currentVdbImportNames: seq<string>, connectionVdbNames: seq<string>)
    returns (importRemoved: bool)
    ensures importRemoved == HasStale(currentVdbImportNames, connectionVdbNames)
  {
    importRemoved := false;
    var k := 0;
    while k < |currentVdbImportNames|
      invariant 0 <= k <= |currentVdbImportNames|
      invariant importRemoved == HasStale(currentVdbImportNames[..k], connectionVdbNames)
      invariant importRemoved ==> HasStale(currentVdbImportNames, connectionVdbNames)
    {
      if currentVdbImportNames[k] !in connectionVdbNames {
        assert currentVdbImportNames[k] in currentVdbImportNames;
        importRemoved := true;
        break;
      }
      assert currentVdbImportNames[..k + 1] == currentVdbImportNames[..k] + [currentVdbImportNames[k]];
      k := k + 1;
    }
    assert !importRemoved ==> currentVdbImportNames[..k] == currentVdbImportNames;
  }

  /**
   * The import reconciliation of `refreshPreviewVdb`. `preview` holds the import names of
   * the deployed preview VDB, or nothing when it is not deployed; `vdbNames` are the VDBs of
   * the instance. The working copy receives an import for every connection VDB that the
   * preview lacks, and the VDB is (re)deployed when it is not deployed, when an import was
   * added, or when one of its imports is not a connection VDB.
   */
  method RefreshPreviewImports(preview: Option<seq<string>>, vdbNames: seq<string>)
    returns (deploy: bool, workingCopy: seq<string>)
    ensures var current := if preview.Some? then preview.value else [];
            workingCopy == MissingFrom(ConnectionVdbNames(vdbNames), current)
    ensures var current := if preview.Some? then preview.value else [];
            deploy <==> preview.None? || workingCopy != [] || HasStale(current, ConnectionVdbNames(vdbNames))
  {
    var currentVdbImportNames := if preview.Some? then preview.value else [];
    var connectionVdbNames := CollectConnectionVdbNames(vdbNames);
    var importAdded;
    importAdded, workingCopy := AddMissingImports(connectionVdbNames, currentVdbImportNames);
    var importRemoved := FindStaleImport(currentVdbImportNames, connectionVdbNames);
    deploy := preview.None? || importAdded || importRemoved;
  }

  /**
   * A deployed preview is left alone exactly when its imports are, as a set, the connection
   * VDBs of the instance.
   */
  lemma PreviewInSync(current: seq<string>, vdbNames: seq<string>)
    ensures var conn := ConnectionVdbNames(vdbNames);
            (MissingFrom(conn, current) == [] && !HasStale(current, conn)) <==>
            (forall x :: x in current <==> x in vdbNames && EndsWith(x, CONNECTION_VDB_SUFFIX))
  {
    var conn := ConnectionVdbNames(vdbNames);
    ConnectionVdbNamesSpec(vdbNames);
    MissingFromSpec(conn, current);
    if MissingFrom(conn, current) != [] {
      assert MissingFrom(conn, current)[0] in MissingFrom(conn, current);
    }
  }

  /**
   * The working copy that is deployed lacks the imports the preview already had: with one
   * connection VDB imported and a second one new, the deployed VDB imports only the new one.
   */
  lemma PreviewDropsKeptImport()
    ensures var vdbNames := ["abtlconn", "bbtlconn"];
            var current := ["abtlconn"];
            ConnectionVdbNames(vdbNames) == vdbNames &&
            MissingFrom(ConnectionVdbNames(vdbNames), current) == ["bbtlconn"] &&
            "abtlconn" in current && "abtlconn" in vdbNames && EndsWith("abtlconn", CONNECTION_VDB_SUFFIX)
  {
    var vdbNames := ["abtlconn", "bbtlconn"];
    assert EndsWith("abtlconn", CONNECTION_VDB_SUFFIX) && EndsWith("bbtlconn", CONNECTION_VDB_SUFFIX);
    assert vdbNames[..1] == ["abtlconn"] && vdbNames[..1][..0] == [];
    assert ConnectionVdbNames(vdbNames) == vdbNames;
    assert "bbtlconn" != "abtlconn";
  }

  /** The names of `imports` that are among `connectionVdbs`, in order. */
  function KeptImports(imports: seq<string>, connectionVdbs: seq<string>): seq<string>
  {
    if imports == [] then []
    else
      var last := imports[|imports| - 1];
      var init := imports[..|imports| - 1];
      KeptImports(init, connectionVdbs) + if last in connectionVdbs then [last] else []
  }

  lemma {:induction false} KeptImportsSpec(imports: seq<string>, connectionVdbs: seq<string>)
    ensures forall x :: x in KeptImports(imports, connectionVdbs) <==> x in imports && x in connectionVdbs
  {
    if imports != [] {
      var init := imports[..|imports| - 1];
      assert imports == init + [imports[|imports| - 1]];
      KeptImportsSpec(init, connectionVdbs);
    }
  }

  /**
   * The imports the refreshed preview is evidently meant to hold: those it had that are
   * still connection VDBs, in their order, then the working copy's additions.
   */
  function IntendedPreviewImports(preview: Option<seq<string>>, vdbNames: seq<string>): seq<string>
  {
    var current := if preview.Some? then preview.value else [];
    var conn := ConnectionVdbNames(vdbNames);
    KeptImports(current, conn) + MissingFrom(conn, current)
  }

  /**
   * The intended imports are exactly the connection VDBs of the instance, one import each
   * whether the preview had it already or not, and they extend the imports that
   * `RefreshPreviewImports` puts in the working copy.
   */
  lemma IntendedPreviewImportsSpec(preview: Option<seq<string>>, vdbNames: seq<string>)
    ensures forall x :: x in IntendedPreviewImports(preview, vdbNames) <==>
              x in vdbNames && EndsWith(x, CONNECTION_VDB_SUFFIX)
    ensures var current := if preview.Some? then preview.value else [];
            var r := IntendedPreviewImports(preview, vdbNames);
            var added := MissingFrom(ConnectionVdbNames(vdbNames), current);
            |added| <= |r| && r[|r| - |added|..] == added
  {
    var current := if preview.Some? then preview.value else [];
    var conn := ConnectionVdbNames(vdbNames);
    ConnectionVdbNamesSpec(vdbNames);
    KeptImportsSpec(current, conn);
    MissingFromSpec(conn, current);
  }

  /** On the inputs of `PreviewDropsKeptImport` the intended imports keep both connection VDBs. */
  lemma IntendedPreviewKeepsImport()
    ensures IntendedPreviewImports(Some(["abtlconn"]), ["abtlconn", "bbtlconn"]) == ["abtlconn", "bbtlconn"]
  {
    PreviewDropsKeptImport();
    var current := ["abtlconn"];
    assert current[..0] == [];
    assert KeptImports(current, ["abtlconn", "bbtlconn"]) == ["abtlconn"];
  }
}
