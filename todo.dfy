/** Record shapes of the Todo service: the request body (TodoBase / TodoCreate)
    with its field defaults, and the stored Todo with identity and timestamps. */
module TodoModel {

  datatype Option<T> = None | Some(value: T)

  /** Whether a request body carried a key at all, before defaults are applied. */
  datatype Field<T> = Omitted | Given(value: T)

  /** The body accepted by create and by replace: a title, an optional
      description and a completion flag. Any title is accepted, the empty one included. */
  datatype TodoCreate = TodoCreate(title: string, description: Option<string>, completed: bool)

  /** A stored record. Timestamps are instants on an integer clock. */
  datatype Todo = Todo(
    id: string,
    title: string,
    description: Option<string>,
    completed: bool,
    createdAt: int,
    updatedAt: int)
  {
    /** The request-body part of a stored record. */
    function Base(): (b: TodoCreate) {
      TodoCreate(title, description, completed)
    }
  }

  /** Builds a TodoCreate from the keys a request body carried: an omitted
      `description` becomes None and an omitted `completed` becomes false;
      a given value, an explicit null description included, is kept. */
  function WithDefaults(title: string, description: Field<Option<string>>, completed: Field<bool>): (r: TodoCreate)
    ensures r.title == title
    ensures r.completed <==> completed == Given(true)
    ensures r.description.Some? <==> description.Given? && description.value.Some?
    ensures description.Given? ==> r.description == description.value
  {
    TodoCreate(
      title,
      if description.Given? then description.value else None,
      if completed.Given? then completed.value else false)
  }

  /** The record stored by create and replace: the body's fields extended with
      the id and both timestamps. */
  function Stamp(input: TodoCreate, id: string, createdAt: int, updatedAt: int): (t: Todo)
    ensures t.Base() == input
    ensures t.id == id && t.createdAt == createdAt && t.updatedAt == updatedAt
  {
    Todo(id, input.title, input.description, input.completed, createdAt, updatedAt)
  }
}
