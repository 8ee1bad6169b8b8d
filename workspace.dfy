/**
 * The workspace store of `WorkspaceManagerImpl`: source schemas by id, data
 * virtualizations by name and view definitions by id. Each repository is a map the manager
 * reads and changes in place; `save`, `delete` and `flush` become map updates.
 */
module Workspace {
  import opened Results

  /** A stored source schema; its id is the key it is stored under. The DDL may be unset. */
  datatype SourceSchema = SourceSchema(name: string, ddl: Option<string>)

  datatype DataVirtualization = DataVirtualization(name: string)

  datatype ViewDefinition = ViewDefinition(dvName: string, viewName: string)

  /** `IllegalArgumentException` and its message. */
  datatype StoreError = IllegalArgument(message: string)

  const RENAME_MESSAGE: string := "Cannot change the name of an existing schema"

  /**
   * What `createOrUpdateSchema` makes of the schema repository: an existing schema keeps
   * its name (asking for another name is an error that changes nothing) and takes the new
   * DDL; an absent one is stored with the given name and DDL.
   */
  function UpsertSchema(schemas: map<string, SourceSchema>, id: string, name: string, contents: Option<string>)
    : Result<map<string, SourceSchema>, StoreError>
  {
    if id in schemas then
      if name != schemas[id].name then Err(IllegalArgument(RENAME_MESSAGE))
      else if contents == schemas[id].ddl then Ok(schemas)
      else Ok(schemas[id := schemas[id].(ddl := contents)])
    else Ok(schemas[id := SourceSchema(name, contents)])
  }

  /** Asking to rename an existing schema fails, whatever the DDL. */
  lemma UpsertRejectsRename(schemas: map<string, SourceSchema>, id: string, name: string, contents: Option<string>)
    requires id in schemas && schemas[id].name != name
    ensures UpsertSchema(schemas, id, name, contents) == Err(IllegalArgument(RENAME_MESSAGE))
  {
  }

  /**
   * Any other call succeeds, and afterwards the schema under `id` has the given name and
   * DDL while every other id keeps its schema.
   */
  lemma UpsertStores(schemas: map<string, SourceSchema>, id: string, name: string, contents: Option<string>)
    requires id !in schemas || schemas[id].name == name
    ensures var r := UpsertSchema(schemas, id, name, contents);
            r.Ok? && r.value.Keys == schemas.Keys + {id} &&
            r.value[id] == SourceSchema(name, contents) &&
            forall k :: k in schemas && k != id ==> r.value[k] == schemas[k]
  {
  }

  /** Upserting what is already stored changes nothing. */
  lemma UpsertSameNoop(schemas: map<string, SourceSchema>, id: string)
    requires id in schemas
    ensures UpsertSchema(schemas, id, schemas[id].name, schemas[id].ddl) == Ok(schemas)
  {
  }

  /** Upserting twice with the same arguments leaves what upserting once left. */
  lemma UpsertIdempotent(schemas: map<string, SourceSchema>, id: string, name: string, contents: Option<string>)
    ensures var r := UpsertSchema(schemas, id, name, contents);
            r.Ok? ==> UpsertSchema(r.value, id, name, contents) == r
  {
    var r := UpsertSchema(schemas, id, name, contents);
    if r.Ok? {
      UpsertStores(schemas, id, name, contents);
      UpsertSameNoop(r.value, id);
    }
  }

  /** `WorkspaceManagerImpl` over its three repositories. */
  class WorkspaceManager {
    var schemas: map<string, SourceSchema>
    var virtualizations: map<string, DataVirtualization>
    var viewDefinitions: map<string, ViewDefinition>

    constructor (schemas: map<string, SourceSchema>, virtualizations: map<string, DataVirtualization>,
                 viewDefinitions: map<string, ViewDefinition>)
      ensures this.schemas == schemas && this.virtualizations == virtualizations
      ensures this.viewDefinitions == viewDefinitions
    {
      this.schemas := schemas;
      this.virtualizations := virtualizations;
      this.viewDefinitions := viewDefinitions;
    }

    /** `findSchema`: the schema stored under `id`, or none. */
    function FindSchema(id: string): (r: Option<SourceSchema>)
      reads this
      ensures r.Some? <==> id in schemas
      ensures r.Some? ==> r.value == schemas[id]
    {
      if id in schemas then Some(schemas[id]) else None
    }

    /** `findViewDefinition`: the view definition stored under `id`, or none. */
    function FindViewDefinition(id: string): (r: Option<ViewDefinition>)
      reads this
      ensures r.Some? <==> id in viewDefinitions
      ensures r.Some? ==> r.value == viewDefinitions[id]
    {
      if id in viewDefinitions then Some(viewDefinitions[id]) else None
    }

    /**
     * `deleteSchema`: removes the schema under `id`; the repository's "no such entity"
     * failure on an absent id becomes `false`.
     */
    method DeleteSchema(id: string) returns (deleted: bool)
      modifies this
      ensures deleted <==> id in old(schemas)
      ensures schemas == old(schemas) - {id}
      ensures virtualizations == old(virtualizations) && viewDefinitions == old(viewDefinitions)
    {
      if id !in schemas {
        return false;
      }
      schemas := schemas - {id};
      return true;
    }

    /** `createOrUpdateSchema`, as `UpsertSchema` says; the other repositories are untouched. */
    method CreateOrUpdateSchema(id: string, name: string, contents: Option<string>) returns (r: Result<(), StoreError>)
      modifies this
      ensures UpsertSchema(old(schemas), id, name, contents) == if r.Ok? then Ok(schemas) else Err(r.error)
      ensures virtualizations == old(virtualizations) && viewDefinitions == old(viewDefinitions)
    {
      var schema := FindSchema(id);
      if schema.Some? {
        if name != schema.value.name {
          return Err(IllegalArgument(RENAME_MESSAGE));
        }
        if contents != schema.value.ddl {
          schemas := schemas[id := schema.value.(ddl := contents)];
        }
      } else {
        schemas := schemas[id := SourceSchema(name, contents)];
      }
      return Ok(());
    }

    /** `deleteDataVirtualization`: looks the virtualization up by name and removes it if found. */
    method DeleteDataVirtualization(serviceName: string) returns (deleted: bool)
      modifies this
      ensures deleted <==> serviceName in old(virtualizations)
      ensures virtualizations == old(virtualizations) - {serviceName}
      ensures schemas == old(schemas) && viewDefinitions == old(viewDefinitions)
    {
      if serviceName !in virtualizations {
        return false;
      }
      virtualizations := virtualizations - {serviceName};
      return true;
    }

    /** `deleteViewDefinition`: as `deleteSchema`, for view definitions. */
    method DeleteViewDefinition(id: string) returns (deleted: bool)
      modifies this
      ensures deleted <==> id in old(viewDefinitions)
      ensures viewDefinitions == old(viewDefinitions) - {id}
      ensures schemas == old(schemas) && virtualizations == old(virtualizations)
    {
      if id !in viewDefinitions {
        return false;
      }
      viewDefinitions := viewDefinitions - {id};
      return true;
    }
  }
}
