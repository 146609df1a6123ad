/**
 * The client store (js/clients/clients-service.js): the list of client
 * records kept in browser storage, with search, create (newest first),
 * update by id (a field-wise merge) and remove by id.
 *
 * Each operation of the source reads the whole list, changes it and writes
 * it back; here the list is a field of a `ClientStore` object.
 */
module ClientsService {
  import opened Common

  /** A value as `JSON.parse` returns it (numbers restricted to integers). */
  datatype Value = Null | Bool(b: bool) | Num(n: int) | Str(s: string) | Arr(items: seq<Value>) | Obj(fields: map<string, Value>)

  /** A stored client: whatever fields the form's payload carried. */
  type Record = map<string, Value>

  /** `x.id === id`. */
  predicate HasId(rec: Record, id: string) {
    "id" in rec && rec["id"] == Str(id)
  }

  /** `(c.field || '')` for a text field. */
  function TextField(rec: Record, key: string): string {
    if key in rec && rec[key].Str? then rec[key].s else ""
  }

  /** The lower-cased name, user or phone contains the lower-cased query. */
  predicate Matches(rec: Record, needle: string) {
    || Contains(Lower(TextField(rec, "name")), needle)
    || Contains(Lower(TextField(rec, "user")), needle)
    || Contains(Lower(TextField(rec, "phone")), needle)
  }

  function Matcher(needle: string): Record -> bool {
    rec => Matches(rec, needle)
  }

  function Keeper(id: string): Record -> bool {
    rec => !HasId(rec, id)
  }

  /** `{ id, ...payload }`: the new id first, then every payload field over it. */
  function Stamped(id: string, payload: Record): (r: Record)
    ensures r.Keys == payload.Keys + {"id"}
    ensures forall k :: k in payload ==> r[k] == payload[k]
    ensures "id" !in payload ==> HasId(r, id)
  {
    map["id" := Str(id)] + payload
  }

  /** `{ ...old, ...payload }`: payload fields replace, the others stay. */
  function Merged(base: Record, payload: Record): (r: Record)
    ensures r.Keys == base.Keys + payload.Keys
    ensures forall k :: k in payload ==> r[k] == payload[k]
    ensures forall k :: k in base && k !in payload ==> r[k] == base[k]
  {
    base + payload
  }

  /** `findIndex(x => x.id === id)`: the first record with that id. */
  function FindIndexById(list: seq<Record>, id: string): (r: Option<nat>)
    ensures r.Some? ==> r.value < |list| && HasId(list[r.value], id)
    ensures r.Some? ==> forall j :: 0 <= j < r.value ==> !HasId(list[j], id)
    ensures r.None? ==> forall j :: 0 <= j < |list| ==> !HasId(list[j], id)
  {
    if list == [] then None
    else if HasId(list[0], id) then Some(0)
    else match FindIndexById(list[1..], id)
      case None => None
      case Some(k) => Some(k + 1)
  }

  /** `filter(x => x.id !== id)`. */
  function WithoutId(list: seq<Record>, id: string): (r: seq<Record>)
    ensures forall i :: 0 <= i < |r| ==> !HasId(r[i], id)
    ensures IsSubsequence(r, list)
  {
    FilterSatisfies(list, Keeper(id));
    FilterIsSubsequence(list, Keeper(id));
    Filter(list, Keeper(id))
  }

  /** Removal drops every record with the id and keeps all others, in order. */
  lemma WithoutIdExact(list: seq<Record>, id: string)
    ensures forall i :: 0 <= i < |WithoutId(list, id)| ==> !HasId(WithoutId(list, id)[i], id)
    ensures IsSubsequence(WithoutId(list, id), list)
    ensures forall c :: !HasId(c, id) ==> multiset(WithoutId(list, id))[c] == multiset(list)[c]
  {
    FilterSatisfies(list, Keeper(id));
    FilterIsSubsequence(list, Keeper(id));
    FilterCounts(list, Keeper(id));
  }

  /** Removing twice is removing once. */
  lemma WithoutIdIdempotent(list: seq<Record>, id: string)
    ensures WithoutId(WithoutId(list, id), id) == WithoutId(list, id)
  {
    FilterIdempotent(list, Keeper(id));
  }

  /** Removing an id the list does not hold changes nothing. */
  lemma WithoutAbsentId(list: seq<Record>, id: string)
    requires FindIndexById(list, id).None?
    ensures WithoutId(list, id) == list
  {
    FilterKeepsAll(list, Keeper(id));
  }

  /** After a removal, an update of the same id finds nothing. */
  lemma NotFoundAfterRemoval(list: seq<Record>, id: string)
    ensures FindIndexById(WithoutId(list, id), id).None?
  {
    WithoutIdExact(list, id);
  }

  /** A created record is the first one an update of its id finds, unless the payload brought its own id. */
  lemma CreatedFoundFirst(list: seq<Record>, id: string, payload: Record)
    ensures "id" !in payload ==> FindIndexById([Stamped(id, payload)] + list, id) == Some(0)
    ensures "id" in payload ==> Stamped(id, payload)["id"] == payload["id"]
  {
  }

  /** Removing the id of a just-created record (whose payload had no id) undoes the creation's effect on the others. */
  lemma RemoveAfterCreate(list: seq<Record>, id: string, payload: Record)
    requires "id" !in payload
    ensures WithoutId([Stamped(id, payload)] + list, id) == WithoutId(list, id)
  {
    var all := [Stamped(id, payload)] + list;
    assert all[0] == Stamped(id, payload) && all[1..] == list;
  }

  /** The records that match a search. */
  function Search(all: seq<Record>, query: Option<string>): (r: seq<Record>)
    ensures !Present(query) ==> r == all
    ensures IsSubsequence(r, all)
    ensures Present(query) ==> forall i :: 0 <= i < |r| ==> Matches(r[i], Lower(query.value))
  {
    if !Present(query) then
      SubsequenceRefl(all);
      all
    else
      var matcher := Matcher(Lower(query.value));
      FilterSatisfies(all, matcher);
      FilterIsSubsequence(all, matcher);
      Filter(all, matcher)
  }

  class ClientStore {
    /** The stored list, newest first. */
    var clients: seq<Record>

    /** The store as `_readAll` finds it. */
    constructor (stored: seq<Record>)
      ensures clients == stored
    {
      clients := stored;
    }

    /**
     * `listClients`: with no query, the whole list; otherwise, in stored
     * order, exactly the records whose name, user or phone contains it.
     */
    method List(query: Option<string>) returns (r: seq<Record>)
      ensures r == Search(clients, query)
      ensures !Present(query) ==> r == clients
      ensures Present(query) ==> IsSubsequence(r, clients)
      ensures Present(query) ==>
        forall c :: multiset(r)[c] == if Matches(c, Lower(query.value)) then multiset(clients)[c] else 0
    {
      if !Present(query) {
        r := clients;
      } else {
        var matcher := Matcher(Lower(query.value));
        r := Filter(clients, matcher);
        FilterIsSubsequence(clients, matcher);
        FilterCounts(clients, matcher);
      }
    }

    /** `createClient`: stamp the payload with the id and put it first. */
    method Create(id: string, payload: Record) returns (item: Record)
      modifies this
      ensures item == Stamped(id, payload)
      ensures clients == [item] + old(clients)
    {
      item := Stamped(id, payload);
      clients := [item] + clients;
    }

    /**
     * `updateClient`: merge the payload into the first record with the id and
     * return the result; with no such record, fail with "Not found" and leave
     * the list as it was.
     */
    method Update(id: string, payload: Record) returns (r: Result<Record>)
      modifies this
      ensures FindIndexById(old(clients), id).None? ==> r == Failure("Not found") && clients == old(clients)
      ensures FindIndexById(old(clients), id).Some? ==>
        var idx := FindIndexById(old(clients), id).value;
        && |clients| == |old(clients)|
        && clients[idx] == Merged(old(clients)[idx], payload)
        && (forall j :: 0 <= j < |clients| && j != idx ==> clients[j] == old(clients)[j])
        && r == Success(clients[idx])
    {
      var found := FindIndexById(clients, id);
      if found.None? {
        return Failure("Not found");
      }
      var idx := found.value;
      clients := clients[idx := Merged(clients[idx], payload)];
      r := Success(clients[idx]);
    }

    /** `removeClient`: drop every record with the id; always reports true. */
    method Remove(id: string) returns (ok: bool)
      modifies this
      ensures ok
      ensures clients == WithoutId(old(clients), id)
    {
      clients := WithoutId(clients, id);
      ok := true;
    }
  }
}
