/** The snapshot of one board item, as the items query returns it
    (scripts/project_gardener.py:73-131, 217-233). */
module Board {
  import opened Base
  import opened FieldValues

  datatype Repository = Repository(name: string, owner: string)

  /** The issue or pull request behind a board item. `typename` stands for
      `content.get('__typename')`; the items query does not request it, so the
      fetched value is always None. Title and author are only printed. */
  datatype Content = Content(
    id: Option<string>,
    state: Option<string>,
    typename: Option<string>,
    labels: seq<string>,
    assignees: seq<string>,
    number: Option<int>,
    repository: Option<Repository>)

  /** A board item; `content` is None for a deleted or draft item (falsy
      content). `updatedAt` is the parsed `updatedAt`, in seconds. */
  datatype BoardItem = BoardItem(
    id: string,
    content: Option<Content>,
    updatedAt: Option<int>,
    fieldValues: seq<ValueNode>)

  /** `state in ['CLOSED', 'MERGED']`. */
  predicate IsClosed(x: Content)
  {
    x.state == Some("CLOSED") || x.state == Some("MERGED")
  }

  predicate IsOpen(x: Content)
  {
    x.state == Some("OPEN")
  }
}
