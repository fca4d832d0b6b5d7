/** The part of the extension client that the reconciler uses, over a store of
    notification templates held as a map from name to template. */
module Client {
  import opened Templates

  class ExtensionClient {
    var store: Store

    ghost predicate Valid()
      reads this
    {
      WellKeyed(store)
    }

    constructor (initial: Store)
      requires WellKeyed(initial)
      ensures Valid() && store == initial
    {
      store := initial;
    }

    /** `fetch`: the template stored under `name`, if any (tombstones included). */
    method Fetch(name: string) returns (t: Option<Template>)
      requires Valid()
      ensures t.Some? <==> name in store
      ensures t.Some? ==> t.value == store[name] && t.value.name == name
    {
      if name in store {
        t := Some(store[name]);
      } else {
        t := None;
      }
    }

    /** `update`: writes `t` back under its name. */
    method Update(t: Template)
      requires Valid()
      modifies this
      ensures Valid()
      ensures store == old(store)[t.name := t]
    {
      store := store[t.name := t];
    }

    /** `create`: stores `t` under its name; the store stamps the new record
        with the current instant `now` as its creation time, which is later
        than that of every stored template. */
    method Create(t: Template, now: int)
      requires Valid() && CreatedBefore(store, now)
      modifies this
      ensures Valid()
      ensures store == old(store)[t.name := t.(creation := now)]
      ensures t.name in store && forall u :: u in old(store).Values ==> u.creation < store[t.name].creation
    {
      store := store[t.name := t.(creation := now)];
    }

    /** `delete`: marks the stored record of `t` as deleted (a tombstone); a name
        that is not stored is left alone. */
    method Delete(t: Template)
      requires Valid()
      modifies this
      ensures Valid()
      ensures store.Keys == old(store).Keys
      ensures t.name in store ==> store == old(store)[t.name := old(store)[t.name].(deleted := true)]
      ensures t.name !in store ==> store == old(store)
    {
      if t.name in store {
        store := store[t.name := store[t.name].(deleted := true)];
      }
    }

    /** `listAll` of the live templates of reason type `r` sorted by ascending
        creation time, followed by taking element 0: None when the listing is
        empty, otherwise some template of least creation time. */
    method EarliestListed(r: string) returns (e: Option<Template>)
      ensures e.None? <==> forall u :: u in store.Values ==> !Listed(u, r)
      ensures e.Some? ==> IsEarliestListed(store, r, e.value)
    {
      if exists u :: u in store.Values && Listed(u, r) {
        EarliestListedExists(store, r);
        var first :| IsEarliestListed(store, r, first);
        e := Some(first);
      } else {
        e := None;
      }
    }
  }
}
