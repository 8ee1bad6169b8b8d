/**
 * The child view of a data service in `DataserviceImpl`. A data service has at most one
 * child, its service-VDB entry, and every accessor first checks the transaction it is
 * given. The repository node behind the data service becomes the `entry` field; the
 * repository's VDBs, looked up by id, are a map handed to the operations that need them.
 */
module Dataservices {
  import opened Results
  import opened JavaStrings
  import opened ConnectionSync

  datatype ModelType = Physical | Virtual

  datatype Model = Model(name: string, modelType: ModelType)

  /** A VDB of the repository, with the id other nodes reference it by. */
  datatype Vdb = Vdb(id: string, name: string, version: int, models: seq<Model>)

  /**
   * The service-VDB entry: its node name, the VDB name and version properties (version as
   * text) and the id of the VDB it references; each property may be unset.
   */
  datatype ServiceVdbEntry = ServiceVdbEntry(name: string, vdbName: Option<string>, vdbVersion: Option<string>,
                                             reference: Option<string>)

  /** A failed argument check with its message, or the "child not found" `KException`. */
  datatype DataserviceError = IllegalArgument(message: string) | ChildNotFound(name: string, parentPath: string)

  /** The two wordings of the transaction-state check. */
  const MUST_BE_NOT_STARTED: string := "transaction state must be NOT_STARTED"
  const IS_NOT_NOT_STARTED: string := "transaction state is not NOT_STARTED"

  /**
   * The argument checks on the transaction: it must be given (`None` stands for `null`) and
   * not yet started.
   */
  function CheckTransaction(tx: Option<TxState>, stateMessage: string): (r: Option<DataserviceError>)
    ensures r.None? <==> tx == Some(NotStarted)
    ensures tx.Some? && r.Some? ==> r.value == IllegalArgument(stateMessage)
  {
    if tx.None? then Some(IllegalArgument("transaction"))
    else if tx.value != NotStarted then Some(IllegalArgument(stateMessage))
    else None
  }

  /** The VDB an entry references, when it has a reference and the repository holds that id. */
  function ResolveReference(entry: Option<ServiceVdbEntry>, vdbs: map<string, Vdb>): (r: Option<Vdb>)
    ensures r.Some? <==> entry.Some? && entry.value.reference.Some? && entry.value.reference.value in vdbs
    ensures r.Some? ==> r.value == vdbs[entry.value.reference.value]
  {
    if entry.Some? && entry.value.reference.Some? && entry.value.reference.value in vdbs
    then Some(vdbs[entry.value.reference.value])
    else None
  }

  /** The entry `setServiceVdb` creates for a VDB, or none when it is given none. */
  function EntryFor(serviceVdb: Option<Vdb>): Option<ServiceVdbEntry>
  {
    if serviceVdb.None? then None
    else
      var v := serviceVdb.value;
      Some(ServiceVdbEntry(v.name, Some(v.name), Some(IntToString(v.version)), Some(v.id)))
  }

  /**
   * The entry made for a VDB is named after it, records its name and its version as text
   * that parses back to the version, and references the VDB, so that resolving it gives the
   * VDB back; no VDB gives no entry.
   */
  lemma EntryForRoundTrip(serviceVdb: Option<Vdb>, vdbs: map<string, Vdb>)
    requires serviceVdb.Some? ==> IsInt32(serviceVdb.value.version)
    requires serviceVdb.Some? ==> serviceVdb.value.id in vdbs && vdbs[serviceVdb.value.id] == serviceVdb.value
    ensures EntryFor(serviceVdb).Some? <==> serviceVdb.Some?
    ensures serviceVdb.Some? ==>
              var e := EntryFor(serviceVdb).value;
              e.name == serviceVdb.value.name && e.vdbName == Some(serviceVdb.value.name) &&
              e.vdbVersion.Some? && JavaParseInt(e.vdbVersion.value) == Some(serviceVdb.value.version)
    ensures ResolveReference(EntryFor(serviceVdb), vdbs) == serviceVdb
  {
    if serviceVdb.Some? {
      ParseIntRoundTrip(serviceVdb.value.version);
    }
  }

  /** The name of the first virtual model, if any. */
  function FirstVirtual(models: seq<Model>): Option<string>
  {
    if models == [] then None
    else if models[0].modelType == Virtual then Some(models[0].name)
    else FirstVirtual(models[1..])
  }

  /**
   * `FirstVirtual` finds nothing exactly when no model is virtual, and otherwise the name of
   * a virtual model that only non-virtual models precede.
   */
  lemma {:induction false} FirstVirtualSpec(models: seq<Model>)
    ensures var r := FirstVirtual(models);
            r.None? <==> forall k :: 0 <= k < |models| ==> models[k].modelType != Virtual
    ensures var r := FirstVirtual(models);
            r.Some? ==> exists k :: 0 <= k < |models| && models[k].modelType == Virtual && models[k].name == r.value &&
                                    forall j :: 0 <= j < k ==> models[j].modelType != Virtual
  {
    if models != [] && models[0].modelType != Virtual {
      var rest := models[1..];
      FirstVirtualSpec(rest);
      assert forall k :: 1 <= k < |models| ==> models[k] == rest[k - 1];
      var r := FirstVirtual(rest);
      if r.Some? {
        var k :| 0 <= k < |rest| && rest[k].modelType == Virtual && rest[k].name == r.value &&
                 forall j :: 0 <= j < k ==> rest[j].modelType != Virtual;
        assert models[k + 1] == rest[k];
      }
    }
  }

  /** A data service and its one possible child. */
  class Dataservice {
    /** The absolute path of the data service's node. */
    const path: string
    /** The node type of service-VDB entries, a lexicon constant not part of this model. */
    const serviceVdbEntryType: string
    var entry: Option<ServiceVdbEntry>

    constructor (path: string, serviceVdbEntryType: string, entry: Option<ServiceVdbEntry>)
      ensures this.path == path && this.serviceVdbEntryType == serviceVdbEntryType && this.entry == entry
    {
      this.path := path;
      this.serviceVdbEntryType := serviceVdbEntryType;
      this.entry := entry;
    }

    /** `getServiceVdbEntry`: the entry, once the transaction passes its checks. */
    function ServiceVdbEntryOf(tx: Option<TxState>): (r: Result<Option<ServiceVdbEntry>, DataserviceError>)
      reads this
      ensures r.Ok? <==> tx == Some(NotStarted)
      ensures r.Ok? ==> r.value == entry
      ensures r.Err? ==> r.error.IllegalArgument?
    {
      var failed := CheckTransaction(tx, IS_NOT_NOT_STARTED);
      if failed.Some? then Err(failed.value) else Ok(entry)
    }

    /** `getChild(name)`: the entry when it is there and has that name, else "child not found". */
    function GetChild(tx: Option<TxState>, name: string): (r: Result<ServiceVdbEntry, DataserviceError>)
      reads this
      ensures r.Ok? <==> tx == Some(NotStarted) && entry.Some? && entry.value.name == name
      ensures r.Ok? ==> r.value == entry.value
      ensures tx == Some(NotStarted) && r.Err? ==> r.error == ChildNotFound(name, path)
    {
      var e := ServiceVdbEntryOf(tx);
      if e.Err? then Err(e.error)
      else if e.value.Some? && name == e.value.value.name then Ok(e.value.value)
      else Err(ChildNotFound(name, path))
    }

    /**
     * `getChild(name, typeName)`: for the entry type, the entry or nothing, whatever its name;
     * for any other type, "child not found".
     */
    function GetChildOfType(tx: Option<TxState>, name: string, typeName: string)
      : (r: Result<Option<ServiceVdbEntry>, DataserviceError>)
      reads this
      ensures r.Ok? <==> tx == Some(NotStarted) && name != "" && typeName != "" && typeName == serviceVdbEntryType
      ensures r.Ok? ==> r.value == entry
      ensures tx == Some(NotStarted) && name != "" && typeName != "" && typeName != serviceVdbEntryType ==>
                r == Err(ChildNotFound(name, path))
    {
      var failed := CheckTransaction(tx, MUST_BE_NOT_STARTED);
      if failed.Some? then Err(failed.value)
      else if name == "" then Err(IllegalArgument("name"))
      else if typeName == "" then Err(IllegalArgument("typeName"))
      else if typeName == serviceVdbEntryType then ServiceVdbEntryOf(tx)
      else Err(ChildNotFound(name, path))
    }

    /** `getChildren`: the entry alone, or nothing. */
    function GetChildren(tx: Option<TxState>): (r: Result<seq<ServiceVdbEntry>, DataserviceError>)
      reads this
      ensures r.Ok? <==> tx == Some(NotStarted)
      ensures r.Ok? ==> |r.value| <= 1 && forall e :: e in r.value <==> entry == Some(e)
    {
      var failed := CheckTransaction(tx, IS_NOT_NOT_STARTED);
      if failed.Some? then Err(failed.value)
      else if entry.None? then Ok([])
      else Ok([entry.value])
    }

    /** `getChildrenOfType`: the entry alone for the entry type, otherwise nothing. */
    function GetChildrenOfType(tx: Option<TxState>, typeName: string): (r: Result<seq<ServiceVdbEntry>, DataserviceError>)
      reads this
      ensures r.Ok? <==> tx == Some(NotStarted)
      ensures r.Ok? ==> |r.value| <= 1 && forall e :: e in r.value <==> typeName == serviceVdbEntryType && entry == Some(e)
    {
      var failed := CheckTransaction(tx, IS_NOT_NOT_STARTED);
      if failed.Some? then Err(failed.value)
      else if typeName == serviceVdbEntryType then
        var e := ServiceVdbEntryOf(tx);
        if e.value.None? then Ok([]) else Ok([e.value.value])
      else Ok([])
    }

    /** `hasChild(name)`: whether the entry is there with that name. */
    function HasChild(tx: Option<TxState>, name: string): (r: Result<bool, DataserviceError>)
      reads this
      ensures r.Ok? <==> tx == Some(NotStarted) && name != ""
      ensures r.Ok? ==> (r.value <==> entry.Some? && entry.value.name == name)
    {
      var failed := CheckTransaction(tx, MUST_BE_NOT_STARTED);
      if failed.Some? then Err(failed.value)
      else if name == "" then Err(IllegalArgument("name"))
      else
        var e := ServiceVdbEntryOf(tx);
        Ok(e.value.Some? && name == e.value.value.name)
    }

    /** `hasChild(name, typeName)`: as `hasChild(name)` for the entry type, false for any other. */
    function HasChildOfType(tx: Option<TxState>, name: string, typeName: string): (r: Result<bool, DataserviceError>)
      reads this
      ensures r.Ok? <==> tx == Some(NotStarted) && name != "" && typeName != ""
      ensures r.Ok? ==> (r.value <==> typeName == serviceVdbEntryType && entry.Some? && entry.value.name == name)
    {
      var failed := CheckTransaction(tx, MUST_BE_NOT_STARTED);
      if failed.Some? then Err(failed.value)
      else if name == "" then Err(IllegalArgument("name"))
      else if typeName == "" then Err(IllegalArgument("typeName"))
      else if typeName == serviceVdbEntryType then
        var e := ServiceVdbEntryOf(tx);
        Ok(e.value.Some? && name == e.value.value.name)
      else Ok(false)
    }

    /** `hasChildren`: whether the entry is there. */
    function HasChildren(tx: Option<TxState>): (r: Result<bool, DataserviceError>)
      reads this
      ensures r.Ok? <==> tx == Some(NotStarted)
      ensures r.Ok? ==> (r.value <==> entry.Some?)
    {
      var e := ServiceVdbEntryOf(tx);
      if e.Err? then Err(e.error) else Ok(e.value.Some?)
    }

    /** `getServiceVdb`: the VDB the entry references, if any. */
    function GetServiceVdb(tx: Option<TxState>, vdbs: map<string, Vdb>): (r: Result<Option<Vdb>, DataserviceError>)
      reads this
      ensures r.Ok? <==> tx == Some(NotStarted)
      ensures r.Ok? ==> r.value == ResolveReference(entry, vdbs)
    {
      var e := ServiceVdbEntryOf(tx);
      if e.Err? then Err(e.error) else Ok(ResolveReference(e.value, vdbs))
    }

    /**
     * `getServiceViewModelName`: the name of the first virtual model of the service VDB, or
     * nothing when there is no service VDB or it has no virtual model.
     */
    method GetServiceViewModelName(tx: Option<TxState>, vdbs: map<string, Vdb>) returns (r: Result<Option<string>, DataserviceError>)
      ensures r.Ok? <==> tx == Some(NotStarted)
      ensures r.Ok? ==> var vdb := ResolveReference(entry, vdbs);
                        r.value == if vdb.Some? then FirstVirtual(vdb.value.models) else None
    {
      var viewModelName: Option<string> := None;
      var serviceVdb := GetServiceVdb(tx, vdbs);
      if serviceVdb.Err? {
        return Err(serviceVdb.error);
      }
      if serviceVdb.value.Some? {
        var models := serviceVdb.value.value.models;
        var i := 0;
        while i < |models|
          invariant 0 <= i <= |models|
          invariant viewModelName.None? && FirstVirtual(models[i..]) == FirstVirtual(models)
        {
          if models[i].modelType == Virtual {
            viewModelName := Some(models[i].name);
            break;
          }
          assert models[i..][1..] == models[i + 1..];
          i := i + 1;
        }
      }
      return Ok(viewModelName);
    }

    /**
     * `setServiceVdb`: removes the current entry, adds one for the new VDB when there is one,
     * and returns the VDB the removed entry referenced.
     */
    method SetServiceVdb(tx: Option<TxState>, serviceVdb: Option<Vdb>, vdbs: map<string, Vdb>)
      returns (r: Result<Option<Vdb>, DataserviceError>)
      modifies this
      ensures r.Ok? <==> tx == Some(NotStarted)
      ensures r.Ok? ==> r.value == ResolveReference(old(entry), vdbs) && entry == EntryFor(serviceVdb)
      ensures r.Err? ==> entry == old(entry)
    {
      var oldServiceVdb: Option<Vdb> := None;
      var kobjects := GetChildrenOfType(tx, serviceVdbEntryType);
      if kobjects.Err? {
        return Err(kobjects.error);
      }
      if |kobjects.value| != 0 {
        var current := kobjects.value[0];
        assert entry == Some(current);
        if current.reference.Some? && current.reference.value in vdbs {
          oldServiceVdb := Some(vdbs[current.reference.value]);
        }
        entry := None;
      }
      if serviceVdb.Some? {
        var v := serviceVdb.value;
        entry := Some(ServiceVdbEntry(v.name, None, None, None));
        entry := Some(entry.value.(vdbName := Some(v.name)));
        entry := Some(entry.value.(vdbVersion := Some(IntToString(v.version))));
        entry := Some(entry.value.(reference := Some(v.id)));
      }
      return Ok(oldServiceVdb);
    }
  }

  /** Every accessor fails with an argument error unless the transaction is given and not started. */
  lemma AccessorsCheckTransaction(ds: Dataservice, tx: Option<TxState>, name: string, typeName: string,
                                  vdbs: map<string, Vdb>)
    requires tx != Some(NotStarted)
    ensures ds.ServiceVdbEntryOf(tx).Err? && ds.ServiceVdbEntryOf(tx).error.IllegalArgument?
    ensures ds.GetChild(tx, name).Err? && ds.GetChild(tx, name).error.IllegalArgument?
    ensures ds.GetChildOfType(tx, name, typeName).Err? && ds.GetChildOfType(tx, name, typeName).error.IllegalArgument?
    ensures ds.GetChildren(tx).Err? && ds.GetChildren(tx).error.IllegalArgument?
    ensures ds.GetChildrenOfType(tx, typeName).Err? && ds.GetChildrenOfType(tx, typeName).error.IllegalArgument?
    ensures ds.HasChild(tx, name).Err? && ds.HasChild(tx, name).error.IllegalArgument?
    ensures ds.HasChildOfType(tx, name, typeName).Err? && ds.HasChildOfType(tx, name, typeName).error.IllegalArgument?
    ensures ds.HasChildren(tx).Err? && ds.HasChildren(tx).error.IllegalArgument?
    ensures ds.GetServiceVdb(tx, vdbs).Err? && ds.GetServiceVdb(tx, vdbs).error.IllegalArgument?
  {
  }

  /**
   * With a usable transaction the accessors agree: `hasChild` holds exactly when `getChild`
   * finds the child, the typed forms for the entry type give what the untyped ones give,
   * and `hasChildren` holds exactly when `getChildren` is non-empty.
   */
  lemma ChildViewsAgree(ds: Dataservice, name: string)
    requires name != "" && ds.serviceVdbEntryType != ""
    ensures var tx := Some(NotStarted);
            ds.HasChild(tx, name) == Ok(ds.GetChild(tx, name).Ok?) &&
            ds.HasChildOfType(tx, name, ds.serviceVdbEntryType) == ds.HasChild(tx, name) &&
            ds.GetChildrenOfType(tx, ds.serviceVdbEntryType) == ds.GetChildren(tx) &&
            ds.HasChildren(tx) == Ok(|ds.GetChildren(tx).value| > 0)
  {
  }

  /** The typed `getChild` for the entry type does not look at the name it is given. */
  lemma GetChildOfTypeIgnoresName(ds: Dataservice, name: string, name': string)
    requires name != "" && name' != "" && ds.serviceVdbEntryType != ""
    ensures var tx := Some(NotStarted);
            ds.GetChildOfType(tx, name, ds.serviceVdbEntryType) == ds.GetChildOfType(tx, name', ds.serviceVdbEntryType)
  {
  }
}
