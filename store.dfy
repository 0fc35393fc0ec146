/** The in-memory Todo store and its five operations: create, list with
    offset and limit, get by id, full replace by id, and delete by id. */
module Store {
  import opened TodoModel
  import opened InsertionOrder

  /** Outcome of a lookup by id; NotFound stands for the 404 "Todo not found" error. */
  datatype Result<T> = Ok(value: T) | NotFound

  /** Query defaults of the listing operation. */
  const DefaultSkip: nat := 0
  const DefaultLimit: nat := 100

  /** The module-level dictionary from id to record. Python dictionaries keep
      keys in insertion order, and assigning to a present key does not move
      it, so the key order is kept beside the map. */
  class TodoStore {
    var todos: map<string, Todo>
    var order: seq<string>

    /** The order lists each stored id exactly once, and every record is filed
        under its own id. */
    ghost predicate Valid()
      reads this
    {
      && NoDuplicates(order)
      && (forall k :: k in order <==> k in todos)
      && (forall k :: k in todos ==> todos[k].id == k)
    }

    /** Every record was created no later than its last update, and that
        update happened no later than `clock`. */
    ghost predicate StampedBy(clock: int)
      reads this
    {
      forall k :: k in todos ==> todos[k].createdAt <= todos[k].updatedAt <= clock
    }

    /** The store as the process starts: empty. */
    constructor ()
      ensures Valid()
      ensures todos == map[] && order == []
    {
      todos := map[];
      order := [];
    }

    /** All records in insertion order, `list(todos.values())`. Ids in the
        listing are pairwise distinct. */
    function Listing(): (r: seq<Todo>)
      reads this
      requires Valid()
      ensures |r| == |order|
      ensures forall i :: 0 <= i < |r| ==> r[i] == todos[order[i]] && r[i].id == order[i]
      ensures forall i, j :: 0 <= i < j < |r| ==> r[i].id != r[j].id
    {
      ValuesAt(todos, order);
      Values(todos, order)
    }

    /** `read_todos`: the records at positions skip .. skip + limit of the
        listing, clipped to the number of records. */
    function ReadTodos(skip: nat, limit: nat): (r: seq<Todo>)
      reads this
      requires Valid()
      ensures |r| == if skip >= |order| then 0 else Min(limit, |order| - skip)
      ensures forall i :: 0 <= i < |r| ==> r[i] == todos[order[skip + i]]
      ensures r == [] <==> skip >= |order| || limit == 0
    {
      Page(Listing(), skip, limit)
    }

    /** `read_todo`: the stored record when the id is present, NotFound otherwise. */
    function ReadTodo(id: string): (r: Result<Todo>)
      reads this
      requires Valid()
      ensures r.Ok? <==> id in order
      ensures r.Ok? ==> r.value == todos[id] && r.value.id == id
    {
      if id !in todos then NotFound else Ok(todos[id])
    }

    /** `todos[id] = t`: a new id goes to the end of the order; a present id
        keeps its position and only its record is replaced. */
    method Assign(id: string, t: Todo)
      requires Valid() && t.id == id
      modifies this
      ensures Valid()
      ensures todos == old(todos)[id := t]
      ensures order == if id in old(todos) then old(order) else old(order) + [id]
      ensures id !in old(todos) ==> Listing() == old(Listing()) + [t]
      ensures id in old(todos) ==> |Listing()| == |old(Listing())|
      ensures id in old(todos) ==> forall i :: 0 <= i < |order| ==>
        Listing()[i] == if order[i] == id then t else old(Listing())[i]
    {
      if id !in todos {
        forall i, j | 0 <= i < j < |order + [id]|
          ensures (order + [id])[i] != (order + [id])[j]
        {
          if j == |order| {
            assert order[i] in order;
          }
        }
        order := order + [id];
      }
      todos := todos[id := t];
    }

    /** `create_todo`: stores the body under the fresh id with both timestamps
        set to `now`, and returns the stored record. */
    method CreateTodo(input: TodoCreate, id: string, now: int) returns (t: Todo)
      requires Valid()
      modifies this
      ensures Valid()
      ensures t.Base() == input && t.id == id
      ensures t.createdAt == now && t.updatedAt == now
      ensures todos == old(todos)[id := t]
      ensures id !in old(todos) ==> order == old(order) + [id]
      ensures id !in old(todos) ==> Listing() == old(Listing()) + [t]
      ensures id in old(todos) ==> order == old(order)
      ensures ReadTodo(id) == Ok(t)
      ensures old(StampedBy(now)) ==> StampedBy(now)
    {
      t := Stamp(input, id, now, now);
      Assign(id, t);
    }

    /** `update_todo`: a full replace of title, description and completed that
        keeps the id, the creation time and the position in the listing. No
        record is created for an absent id. */
    method UpdateTodo(id: string, input: TodoCreate, now: int) returns (r: Result<Todo>)
      requires Valid()
      modifies this
      ensures Valid()
      ensures r.Ok? <==> id in old(todos)
      ensures r == NotFound ==> todos == old(todos) && order == old(order)
      ensures r.Ok? ==> r.value.Base() == input && r.value.id == id
      ensures r.Ok? ==> r.value.createdAt == old(todos[id].createdAt) && r.value.updatedAt == now
      ensures r.Ok? ==> todos == old(todos)[id := r.value] && order == old(order)
      ensures r.Ok? ==> forall i :: 0 <= i < |order| ==>
        Listing()[i] == if order[i] == id then r.value else old(Listing())[i]
      ensures r.Ok? ==> ReadTodo(id) == r
      ensures old(StampedBy(now)) ==> StampedBy(now)
      ensures old(StampedBy(now)) && r.Ok? ==> r.value.updatedAt >= old(todos[id].updatedAt)
    {
      if id !in todos {
        return NotFound;
      }
      var t := Stamp(input, id, todos[id].createdAt, now);
      Assign(id, t);
      r := Ok(t);
    }

    /** `delete_todo`: removes the record and its id from the order; the other
        records keep their relative order. */
    method DeleteTodo(id: string) returns (r: Result<()>)
      requires Valid()
      modifies this
      ensures Valid()
      ensures r.Ok? <==> id in old(todos)
      ensures r == NotFound ==> todos == old(todos) && order == old(order)
      ensures r.Ok? ==> todos == old(todos) - {id} && order == Without(old(order), id)
      ensures r.Ok? ==> var i := IndexOf(old(order), id);
        Listing() == old(Listing())[..i] + old(Listing())[i + 1..]
      ensures ReadTodo(id) == NotFound
      ensures forall k :: k != id ==> ReadTodo(k) == old(ReadTodo(k))
      ensures forall c :: old(StampedBy(c)) ==> StampedBy(c)
    {
      if id !in todos {
        return NotFound;
      }
      ValuesWithout(todos, order, IndexOf(order, id));
      todos := todos - {id};
      order := Without(order, id);
      r := Ok(());
    }
  }

  /** A client sequence of calls covering the whole lifecycle of one record: create with defaults,
      list, get, replace at a later instant, delete, and the lookups that
      must fail afterwards. */
  method LifecycleScenario(id: string, t0: int, t1: int)
    requires t0 < t1
  {
    var store := new TodoStore();
    var created := store.CreateTodo(WithDefaults("Test Todo", Omitted, Omitted), id, t0);
    assert created.title == "Test Todo" && created.description == None && !created.completed;
    assert created.createdAt == created.updatedAt;
    assert store.ReadTodos(DefaultSkip, DefaultLimit) == [created];
    assert store.ReadTodo(id) == Ok(created);

    var updated := store.UpdateTodo(id, WithDefaults("Updated Title", Given(Some("Updated description")), Given(true)), t1);
    assert updated.Ok? && updated.value.id == id && updated.value.completed;
    assert updated.value.title == "Updated Title" && updated.value.description == Some("Updated description");
    assert updated.value.createdAt == created.createdAt;
    assert updated.value.updatedAt > created.updatedAt;

    assert id in store.todos;
    var deleted := store.DeleteTodo(id);
    assert deleted.Ok?;
    assert store.ReadTodo(id) == NotFound;
    var replacedAgain := store.UpdateTodo(id, WithDefaults("Updated Title", Omitted, Omitted), t1);
    assert replacedAgain == NotFound;
    var deletedAgain := store.DeleteTodo(id);
    assert deletedAgain == NotFound;
    assert store.ReadTodos(DefaultSkip, DefaultLimit) == [];
  }

  /** One create with default fields under an id not yet stored. */
  method CreateTitled(store: TodoStore, title: string, id: string, now: int) returns (t: Todo)
    requires store.Valid() && id !in store.order
    modifies store
    ensures store.Valid() && store.order == old(store.order) + [id]
    ensures store.todos == old(store.todos)[id := t] && t.title == title
  {
    t := store.CreateTodo(WithDefaults(title, Omitted, Omitted), id, now);
  }

  /** The store holds exactly the first k ids, in order, and the record under
      id j carries title j. */
  ghost predicate FilledUpTo(store: TodoStore, titles: seq<string>, ids: seq<string>, k: nat)
    reads store
  {
    && k <= |titles| == |ids|
    && store.Valid() && store.order == ids[..k]
    && forall j :: 0 <= j < k ==> ids[j] in store.todos && store.todos[ids[j]].title == titles[j]
  }

  /** The create of the next title under the next id. */
  method CreateNext(store: TodoStore, titles: seq<string>, ids: seq<string>, k: nat, now: int)
    requires NoDuplicates(ids) && k < |ids| && FilledUpTo(store, titles, ids, k)
    modifies store
    ensures FilledUpTo(store, titles, ids, k + 1)
  {
    OnlyAt(ids, k);
    var t := CreateTitled(store, titles[k], ids[k], now);
    assert forall j :: 0 <= j < k ==> ids[j] != ids[k];
    assert ids[..k + 1] == ids[..k] + [ids[k]];
  }

  /** A fresh store filled by one create per title, under distinct ids, in order. */
  method CreateAll(titles: seq<string>, ids: seq<string>, now: int) returns (store: TodoStore)
    requires |titles| == |ids| && NoDuplicates(ids)
    ensures fresh(store) && store.Valid() && store.order == ids
    ensures forall j :: 0 <= j < |ids| ==> store.todos[ids[j]].title == titles[j]
  {
    store := new TodoStore();
    for k := 0 to |ids|
      invariant FilledUpTo(store, titles, ids, k)
    {
      CreateNext(store, titles, ids, k, now);
    }
    assert ids[..|ids|] == ids;
  }

  /** A client sequence of calls covering pagination over five records created with distinct ids. */
  method PaginationScenario(ids: seq<string>, now: int)
    requires |ids| == 5 && NoDuplicates(ids)
  {
    var titles := ["Test Todo 0", "Test Todo 1", "Test Todo 2", "Test Todo 3", "Test Todo 4"];
    var store := CreateAll(titles, ids, now);
    var all := store.Listing();
    PageOfFive(all);
    assert store.ReadTodos(2, DefaultLimit) == all[2..] && |all[2..]| == 3;
    assert store.ReadTodos(DefaultSkip, 2) == [all[0], all[1]];
    assert store.ReadTodos(1, 2) == [all[1], all[2]];
    assert store.ReadTodos(1, 2)[0].title == "Test Todo 1";
  }

  /** Lookups of an id nobody created fail, and change nothing. */
  method NotFoundScenario(id: string, input: TodoCreate, now: int)
  {
    var store := new TodoStore();
    assert store.ReadTodo("invalid-id") == NotFound;
    var replaced := store.UpdateTodo(id, input, now);
    var deleted := store.DeleteTodo(id);
    assert replaced == NotFound && deleted == NotFound;
    assert store.todos == map[] && store.order == [];
  }
}
