/** The schema registry that encoders and decoders own. */
module Registry {
  import opened Bytes
  import opened Frames
  import opened EncoderSpec
  import opened Resume

  class SchemaRegistry {
    var schemas: map<nat, SchemaEntry>
    var nextId: u16

    constructor ()
      ensures schemas == map[] && nextId == STATIC_WIRE_ID_LIMIT
    {
      schemas, nextId := map[], STATIC_WIRE_ID_LIMIT;
    }

    method Clear()
      modifies this
      ensures schemas == map[] && nextId == STATIC_WIRE_ID_LIMIT
    {
      nextId := STATIC_WIRE_ID_LIMIT;
      schemas := map[];
    }

    /** Accepts a new id or the very same entry; changes nothing otherwise. */
    method Register(id: nat, entry: SchemaEntry) returns (ok: bool)
      modifies this`schemas
      ensures ok <==> id !in old(schemas) || old(schemas)[id] == entry
      ensures schemas == if id in old(schemas) then old(schemas) else old(schemas)[id := entry]
    {
      if id in schemas { return schemas[id] == entry; }
      schemas := schemas[id := entry];
      return true;
    }

    /** The next id must be left over, `next_id += 1` would overflow otherwise. */
    method NextTypeId() returns (id: u16)
      requires nextId < 0xFFFF
      modifies this`nextId
      ensures id == old(nextId) && nextId == id + 1
    {
      id := nextId;
      nextId := nextId + 1;
    }

    /** Past every registered id, whatever order the map is walked in. */
    method SyncNextId()
      requires forall id :: id in schemas ==> id < 0xFFFF
      modifies this`nextId
      ensures NextFrom(schemas, nextId)
    {
      nextId := STATIC_WIRE_ID_LIMIT;
      var todo := schemas.Keys;
      while todo != {}
        invariant todo <= schemas.Keys && STATIC_WIRE_ID_LIMIT <= nextId
        invariant forall id :: id in schemas && id !in todo ==> id < nextId
        invariant nextId == STATIC_WIRE_ID_LIMIT || (nextId - 1) in schemas
        decreases todo
      {
        var id: nat :| id in todo;
        if id >= nextId { nextId := id + 1; }
        todo := todo - {id};
      }
    }
  }
}
