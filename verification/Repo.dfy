/** The repository bundle: object store, refs and operation log. */
module Repo {
  import opened Wrappers
  import opened Objects
  import opened Refs
  import opened OpLog

  /** A repository at one point in time. */
  datatype State = State(objects: Store, refs: RefTable, ops: seq<Op>)

  class Repository {
    const objects: ObjectStore
    var refs: RefTable
    var ops: seq<Op>

    function Abs(): State
      reads this, objects
    {
      State(objects.files, refs, ops)
    }

    constructor ()
      ensures Abs() == State(map[], NO_REFS, []) && fresh(objects)
    {
      objects := new ObjectStore();
      refs := NO_REFS;
      ops := [];
    }

    method PutChange(c: Change)
      modifies this`refs
      ensures refs == old(refs).(changes := old(refs).changes[c.id := c])
    {
      refs := refs.(changes := refs.changes[c.id := c]);
    }

    function GetChange(id: ChangeId): Result<Change, Error>
      reads this
    {
      if id in refs.changes then Success(refs.changes[id]) else Failure(NotFound)
    }
  }
}
