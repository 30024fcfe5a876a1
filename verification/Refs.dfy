/** Mutable refs, their captures in the operation log, and restoring a capture. */
module Refs {
  import opened Wrappers
  import opened Lex
  import opened Objects

  type ChangeId = Text
  type WorkspaceId = Text

  datatype ChangeState = Working | Draft | Review | Landed | Abandoned

  datatype VisLabel = Public | Private | Org(org: Text) | Team(team: Text) | Principal(principal: Text)

  datatype Change = Change(
    id: ChangeId, current: Hash, bookmark: Option<Text>, description: Text, state: ChangeState,
    history: seq<Hash>, author: Text, visibility: VisLabel)
  {
    /** Moves to a new snapshot, unless it already is the current one. */
    function Advance(h: Hash): Change {
      if current == h then this else this.(current := h, history := history + [h])
    }
  }

  function NewChange(id: ChangeId, description: Text, author: Text, initial: Hash): Change {
    Change(id, initial, None, description, Working, [initial], author, Public)
  }

  function NewPrivateDraft(id: ChangeId, description: Text, author: Text, initial: Hash): Change {
    NewChange(id, description, author, initial).(state := Draft, visibility := Private)
  }

  datatype Manifest = Manifest(id: WorkspaceId, name: Text, location: Text, changeId: ChangeId, created: nat)

  /** HEAD, the change records and the workspace manifests. */
  datatype RefTable = RefTable(
    head: Option<ChangeId>, changes: map<ChangeId, Change>, workspaces: map<WorkspaceId, Manifest>)

  const NO_REFS: RefTable := RefTable(None, map[], map[])

  /** A ref captured at one point in time; an absent value means the ref did not exist. */
  datatype RefSnapshot =
    | HeadRef(head: Option<ChangeId>)
    | ChangeRef(cid: ChangeId, change: Option<Change>)
    | WorkspaceRef(wid: WorkspaceId, manifest: Option<Manifest>)

  datatype RefKey = HeadKey | ChangeKey(cid: ChangeId) | WorkspaceKey(wid: WorkspaceId)

  function KeyOf(r: RefSnapshot): RefKey {
    match r
    case HeadRef(_) => HeadKey
    case ChangeRef(id, _) => ChangeKey(id)
    case WorkspaceRef(id, _) => WorkspaceKey(id)
  }

  function Lookup<K, V>(m: map<K, V>, k: K): Option<V> {
    if k in m then Some(m[k]) else None
  }

  function Read(t: RefTable, k: RefKey): RefSnapshot {
    match k
    case HeadKey => HeadRef(t.head)
    case ChangeKey(id) => ChangeRef(id, Lookup(t.changes, id))
    case WorkspaceKey(id) => WorkspaceRef(id, Lookup(t.workspaces, id))
  }

  /** Writes a capture back. A record is stored under the id it carries. */
  function RestoreRef(t: RefTable, r: RefSnapshot): RefTable {
    match r
    case HeadRef(v) => t.(head := v)
    case ChangeRef(id, v) =>
      t.(changes := if v.Some? then t.changes[v.value.id := v.value] else t.changes - {id})
    case WorkspaceRef(id, v) =>
      t.(workspaces := if v.Some? then t.workspaces[v.value.id := v.value] else t.workspaces - {id})
  }

  function RestoreAll(t: RefTable, rs: seq<RefSnapshot>): RefTable
    decreases |rs|
  {
    if rs == [] then t else RestoreAll(RestoreRef(t, rs[0]), rs[1..])
  }

  /** Every record is stored under its own id. */
  ghost predicate WellKeyed(t: RefTable) {
    && (forall id | id in t.changes :: t.changes[id].id == id)
    && (forall id | id in t.workspaces :: t.workspaces[id].id == id)
  }

  /** The captures show the table as it is. */
  ghost predicate Captures(t: RefTable, rs: seq<RefSnapshot>) {
    forall r | r in rs :: r == Read(t, KeyOf(r))
  }

  function Keys(rs: seq<RefSnapshot>): set<RefKey> {
    set r | r in rs :: KeyOf(r)
  }

  lemma SameReads(a: RefTable, b: RefTable)
    requires forall k :: Read(a, k) == Read(b, k)
    ensures a == b
  {
    assert Read(a, HeadKey) == Read(b, HeadKey);
    forall id ensures Lookup(a.changes, id) == Lookup(b.changes, id) {
      assert Read(a, ChangeKey(id)) == Read(b, ChangeKey(id));
    }
    forall id ensures Lookup(a.workspaces, id) == Lookup(b.workspaces, id) {
      assert Read(a, WorkspaceKey(id)) == Read(b, WorkspaceKey(id));
    }
    SameMaps(a.changes, b.changes);
    SameMaps(a.workspaces, b.workspaces);
  }

  lemma SameMaps<K, V>(a: map<K, V>, b: map<K, V>)
    requires forall k :: Lookup(a, k) == Lookup(b, k)
    ensures a == b
  {
    assert forall k :: k in a ==> Lookup(a, k).Some?;
    assert forall k :: k in b ==> Lookup(b, k).Some?;
  }

  /** Restoring captures of `goal` moves exactly the captured refs to their values in `goal`. */
  lemma {:induction false} RestoreTowards(t: RefTable, rs: seq<RefSnapshot>, goal: RefTable, k: RefKey)
    requires WellKeyed(goal) && Captures(goal, rs)
    ensures Read(RestoreAll(t, rs), k) == Read(if k in Keys(rs) then goal else t, k)
    decreases |rs|
  {
    if rs != [] {
      assert rs[0] in rs;
      assert Read(RestoreRef(t, rs[0]), k) == if k == KeyOf(rs[0]) then rs[0] else Read(t, k);
      RestoreTowards(RestoreRef(t, rs[0]), rs[1..], goal, k);
      assert Keys(rs) == {KeyOf(rs[0])} + Keys(rs[1..]) by {
        assert forall r | r in rs :: r == rs[0] || r in rs[1..];
      }
    }
  }

  /** Captures of the state before an operation undo it, when they cover the refs it wrote. */
  lemma RestoreInverts(before: RefTable, after: RefTable, b: seq<RefSnapshot>, a: seq<RefSnapshot>)
    requires WellKeyed(before) && WellKeyed(after)
    requires Captures(before, b) && Captures(after, a) && Keys(a) <= Keys(b)
    requires after == RestoreAll(before, a)
    ensures RestoreAll(after, b) == before
  {
    forall k ensures Read(RestoreAll(after, b), k) == Read(before, k) {
      RestoreTowards(after, b, before, k);
      RestoreTowards(before, a, after, k);
    }
    SameReads(RestoreAll(after, b), before);
  }

  /** HEAD and every manifest name an existing change. */
  ghost predicate NothingDangles(t: RefTable) {
    && (t.head.Some? ==> t.head.value in t.changes)
    && (forall id | id in t.workspaces :: t.workspaces[id].changeId in t.changes)
  }
}
