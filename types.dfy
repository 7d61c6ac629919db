/** The client's record of a note, as the browser receives it as JSON. Every
    field but `name` may be `undefined` or `null` (both `None` here). */
module Types {
  import opened Wrappers

  datatype Note = Note(
    id: Option<int>,
    name: string,
    description: Option<string>,
    bgColor: Option<string>,
    createdAt: Option<string>,
    updatedAt: Option<string>)

  const DefaultColor := "#ffffff"

  /** JavaScript truthiness of an optional numeric id (`!!note.id`): present
      and not 0. */
  predicate TruthyId(id: Option<int>) {
    id.Some? && id.value != 0
  }
}
