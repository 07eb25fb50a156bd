/**
 * `TransactionManager` (both generations): a two-state machine Idle/Active
 * around one entity manager. Writes go to the pending state of the open
 * transaction and become the committed state at `end`; the accessors read
 * the committed state through entity managers of their own.
 */
module Transactions {
  import opened Wrappers
  import opened Entities
  import opened Stores

  datatype EntityRef = KeyRef(id: string) | RowRef(rowId: nat)

  datatype Entity = KeyEntity(key: KeyRecord) | RowEntity(row: ValueRow) {
    function Ref(): EntityRef {
      match this
      case KeyEntity(k) => KeyRef(k.id)
      case RowEntity(r) => RowRef(r.id)
    }
  }

  /** The calls made on the entity manager, in order. */
  datatype TxOp = BeginOp | PersistOp(entity: Entity) | MergeOp(entity: Entity) | RemoveOp(entity: Entity) | CommitOp

  /** Active carries the transaction's pending state and the entities its
      persistence context manages. */
  datatype Phase = Idle | Active(pending: Store, attached: set<EntityRef>)

  /** `hasFactory`: an entity manager factory was set; `db`: the committed
      state; `log`: every entity manager call so far. */
  datatype Session = Session(hasFactory: bool, db: Store, phase: Phase, log: seq<TxOp>)

  /** What an engine operation leaves behind: the session, and its return
      value or the exception it threw. */
  datatype Outcome<T> = Outcome(session: Session, result: Result<T, Error>)

  predicate IsActive(s: Session) {
    s.phase.Active?
  }

  /** `begin`: needs a factory; opens a fresh transaction on the committed
      state. It does not check for an open one, which it replaces. */
  function Begin(s: Session): (r: Result<Session, Error>)
    ensures r.Ok? <==> s.hasFactory
    ensures r.Err? ==> r.error == NoFactory
    ensures r.Ok? ==> IsActive(r.value) && r.value.phase.pending == s.db && r.value.phase.attached == {}
    ensures r.Ok? ==> r.value.db == s.db && r.value.hasFactory && r.value.log == s.log + [BeginOp]
  {
    if !s.hasFactory then Err(NoFactory)
    else Ok(s.(phase := Active(s.db, {}), log := s.log + [BeginOp]))
  }

  /** `end` on an open transaction: commit, close, back to Idle. */
  function EndActive(s: Session): (r: Session)
    requires IsActive(s)
    ensures r.phase == Idle && r.db == s.phase.pending
    ensures r.hasFactory == s.hasFactory && r.log == s.log + [CommitOp]
  {
    s.(db := s.phase.pending, phase := Idle, log := s.log + [CommitOp])
  }

  /** `end`: fails unless a transaction is open. */
  function End(s: Session): (r: Result<Session, Error>)
    ensures r.Ok? <==> IsActive(s)
    ensures r.Err? ==> r.error == NoTransaction
    ensures r.Ok? ==> r.value.phase == Idle && r.value.db == s.phase.pending
  {
    if !IsActive(s) then Err(NoTransaction) else Ok(EndActive(s))
  }

  /** The pending state after one entity write. */
  function Persisted(p: Store, e: Entity): Store {
    match e
    case KeyEntity(k) => AddKey(p, k)
    case RowEntity(r) => AddRow(p, r)
  }

  function Merged(p: Store, e: Entity): Store {
    match e
    case KeyEntity(k) => PutKey(p, k)
    case RowEntity(r) => PutRow(p, r)
  }

  function Dropped(p: Store, ref: EntityRef): Store {
    match ref
    case KeyRef(id) => DropKey(p, id)
    case RowRef(id) => DropRow(p, id)
  }

  /** `persist` inside an open transaction; the new entity becomes managed. */
  function PersistActive(s: Session, e: Entity): (r: Session)
    requires IsActive(s)
    ensures IsActive(r) && r.db == s.db && r.hasFactory == s.hasFactory
    ensures r.phase.pending == Persisted(s.phase.pending, e)
    ensures r.log == s.log + [PersistOp(e)]
  {
    var ref := if e.RowEntity? then RowRef(s.phase.pending.nextId) else e.Ref();
    s.(phase := Active(Persisted(s.phase.pending, e), s.phase.attached + {ref}),
       log := s.log + [PersistOp(e)])
  }

  /** `merge` inside an open transaction; the argument itself stays detached. */
  function MergeActive(s: Session, e: Entity): (r: Session)
    requires IsActive(s)
    ensures IsActive(r) && r.db == s.db && r.hasFactory == s.hasFactory
    ensures r.phase.pending == Merged(s.phase.pending, e)
    ensures r.phase.attached == s.phase.attached
    ensures r.log == s.log + [MergeOp(e)]
  {
    s.(phase := Active(Merged(s.phase.pending, e), s.phase.attached), log := s.log + [MergeOp(e)])
  }

  /** `remove` inside an open transaction: a detached entity is merged
      first and the merged copy is removed. */
  function RemoveActive(s: Session, e: Entity): (r: Session)
    requires IsActive(s)
    ensures IsActive(r) && r.db == s.db && r.hasFactory == s.hasFactory
    ensures r.phase.pending == Dropped(s.phase.pending, e.Ref())
    ensures e.Ref() in s.phase.attached ==> r.log == s.log + [RemoveOp(e)]
    ensures e.Ref() !in s.phase.attached ==> r.log == s.log + [MergeOp(e), RemoveOp(e)]
  {
    var attachedEntity := if e.Ref() in s.phase.attached then s else MergeActive(s, e);
    DropAfterMerge(s.phase.pending, e);
    attachedEntity.(phase := Active(Dropped(attachedEntity.phase.pending, e.Ref()), s.phase.attached - {e.Ref()}),
                    log := attachedEntity.log + [RemoveOp(e)])
  }

  /** Removing a merged copy leaves what removing the entity directly leaves. */
  lemma DropAfterMerge(p: Store, e: Entity)
    ensures Dropped(Merged(p, e), e.Ref()) == Dropped(p, e.Ref())
  {
    match e
    case KeyEntity(k) => DropKeyAfterPut(p, k);
    case RowEntity(row) => DropRowAfterPut(p, row);
  }

  /** The guard shared by every entity call: an open transaction and a non-null object. */
  function Guard(s: Session, o: Option<Entity>): (r: Option<Error>)
    ensures r == Some(NoTransaction) <==> !IsActive(s)
    ensures r == Some(NullObject) <==> IsActive(s) && o.None?
    ensures r.None? <==> IsActive(s) && o.Some?
  {
    if !IsActive(s) then Some(NoTransaction)
    else if o.None? then Some(NullObject)
    else None
  }

  function Persist(s: Session, o: Option<Entity>): (r: Result<Session, Error>)
    ensures r.Err? <==> Guard(s, o).Some?
    ensures r.Err? ==> r.error == Guard(s, o).value
    ensures r.Ok? ==> IsActive(r.value) && r.value.phase.pending == Persisted(s.phase.pending, o.value)
  {
    if Guard(s, o).Some? then Err(Guard(s, o).value) else Ok(PersistActive(s, o.value))
  }

  function Merge(s: Session, o: Option<Entity>): (r: Result<Session, Error>)
    ensures r.Err? <==> Guard(s, o).Some?
    ensures r.Err? ==> r.error == Guard(s, o).value
    ensures r.Ok? ==> IsActive(r.value) && r.value.phase.pending == Merged(s.phase.pending, o.value)
  {
    if Guard(s, o).Some? then Err(Guard(s, o).value) else Ok(MergeActive(s, o.value))
  }

  function Remove(s: Session, o: Option<Entity>): (r: Result<Session, Error>)
    ensures r.Err? <==> Guard(s, o).Some?
    ensures r.Err? ==> r.error == Guard(s, o).value
    ensures r.Ok? ==> IsActive(r.value) && r.value.phase.pending == Dropped(s.phase.pending, o.value.Ref())
  {
    if Guard(s, o).Some? then Err(Guard(s, o).value) else Ok(RemoveActive(s, o.value))
  }

  /** `contains` (legacy manager only): whether the persistence context
      manages the entity. */
  function Contains(s: Session, o: Option<Entity>): (r: Result<bool, Error>)
    ensures r.Err? <==> Guard(s, o).Some?
    ensures r.Err? ==> r.error == Guard(s, o).value
    ensures r.Ok? ==> (r.value <==> o.value.Ref() in s.phase.attached)
  {
    if Guard(s, o).Some? then Err(Guard(s, o).value) else Ok(o.value.Ref() in s.phase.attached)
  }

  /** A second `end` fails: the first one returned to Idle. */
  lemma EndTwiceFails(s: Session)
    requires End(s).Ok?
    ensures End(End(s).value) == Err(NoTransaction)
  {
  }

  /** `begin` on an open transaction drops what it had pending. */
  lemma BeginReplacesOpenTransaction(s: Session)
    requires IsActive(s) && s.hasFactory
    ensures Begin(s).Ok? && Begin(s).value.phase.pending == s.db
    ensures End(Begin(s).value).value.db == s.db
  {
  }

  /** A write outside a transaction leaves everything as it was and fails. */
  lemma WritesNeedTransaction(s: Session, o: Option<Entity>)
    requires !IsActive(s)
    ensures Persist(s, o) == Err(NoTransaction)
    ensures Merge(s, o) == Err(NoTransaction)
    ensures Remove(s, o) == Err(NoTransaction)
    ensures Contains(s, o) == Err(NoTransaction)
  {
  }
}
