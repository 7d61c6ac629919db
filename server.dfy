/** The notes API as one process (backend/routes.js): the database state and
    the one `sseClients` registry that every mutation route broadcasts to.
    Each route method applies its rule from `Routes` to the store and hands
    the rule's event, if there is one, to `broadcastNoteChange`. */
module Server {
  import opened Wrappers
  import opened Routes
  import Sse

  class Service {
    var store: Store
    const registry: Sse.Registry

    /** The table is valid and so is the registry. */
    predicate Valid()
      reads this, registry, registry.clients
    {
      StoreValid(store) && registry.Valid()
    }

    /** The server starts with an empty table and no client. */
    constructor (stringify: ServerEvent -> string)
      ensures store == EmptyStore && registry.clients == {} && registry.stringify == stringify
      ensures Valid()
    {
      store := EmptyStore;
      registry := new Sse.Registry(stringify);
    }

    /** Broadcasts `event` when there is one. */
    method Publish(event: Option<ServerEvent>)
      modifies registry.clients
      ensures forall r :: r in registry.clients ==>
        r.written == old(r.written) + (if event.Some? then [Sse.Frame(registry.stringify(event.value))] else [])
      ensures forall r :: r in registry.clients ==> r.keepAlive == old(r.keepAlive)
      ensures old(registry.Valid()) ==> registry.Valid()
    {
      if event.Some? {
        registry.BroadcastNoteChange(event.value);
      }
    }

    /** `POST /notes`: the store becomes what the rule says, and its event,
        if any, reaches every registered client once. */
    method Post(body: NoteBody, db: DbHealth, dbNow: int, now: int) returns (reply: Reply)
      modifies this`store, registry.clients
      ensures var o := HandlePost(old(store), body, db, dbNow, now);
        && reply == o.reply && store == o.store
        && forall r :: r in registry.clients ==>
             r.written == old(r.written) + (if o.event.Some? then [Sse.Frame(registry.stringify(o.event.value))] else [])
      ensures old(Valid()) ==> Valid()
    {
      var o := HandlePost(store, body, db, dbNow, now);
      if StoreValid(store) {
        PostInsertsFreshRow(store, body, db, dbNow, now);
      }
      store := o.store;
      Publish(o.event);
      reply := o.reply;
    }

    /** `PUT /notes/:id`. */
    method Put(idParam: string, body: NoteBody, db: DbHealth, dbNow: int, now: int) returns (reply: Reply)
      modifies this`store, registry.clients
      ensures var o := HandlePut(old(store), idParam, body, db, dbNow, now);
        && reply == o.reply && store == o.store
        && forall r :: r in registry.clients ==>
             r.written == old(r.written) + (if o.event.Some? then [Sse.Frame(registry.stringify(o.event.value))] else [])
      ensures old(Valid()) ==> Valid()
    {
      var o := HandlePut(store, idParam, body, db, dbNow, now);
      if StoreValid(store) {
        PutKeepsOtherRows(store, idParam, body, db, dbNow, now);
      }
      store := o.store;
      Publish(o.event);
      reply := o.reply;
    }

    /** `DELETE /notes/:id`. */
    method Delete(idParam: string, db: DbHealth, now: int) returns (reply: Reply)
      modifies this`store, registry.clients
      ensures var o := HandleDelete(old(store), idParam, db, now);
        && reply == o.reply && store == o.store
        && forall r :: r in registry.clients ==>
             r.written == old(r.written) + (if o.event.Some? then [Sse.Frame(registry.stringify(o.event.value))] else [])
      ensures old(Valid()) ==> Valid()
    {
      var o := HandleDelete(store, idParam, db, now);
      if StoreValid(store) {
        DeleteRemovesOnlyItsRow(store, idParam, db, now);
      }
      store := o.store;
      Publish(o.event);
      reply := o.reply;
    }
  }
}
