/**
 * The persistent entities (`RopertyKey`, `RopertyValue`), the in-memory
 * shapes exchanged with the configuration API (`KeyValues` and its
 * domain-specific values), and the exceptions the layer raises.
 */
module Entities {
  import opened Wrappers
  import JavaText

  /** The exceptions of the persistence layer, one constructor per distinct
      failure the code raises. */
  datatype Error =
    | BlankKey                // Validate.notBlank on a key or id
    | NullArgument            // Validate.notNull on a caller's argument
    | NoFactory               // begin without an entity manager factory
    | NoTransaction           // a write outside begin/end
    | NullObject              // a write of a null entity
    | NoValues(key: string)   // a key row without value rows
    | NullValues              // the variant set is null
    | EmptyValues             // the variant set is empty
    | NullPattern             // a variant or row without pattern
    | NullKeyOfValue          // a loaded row without owning key
    | NullValue               // single remove of a null value
    | NotSerializable         // single remove of a non-serializable value
    | CannotSerialize         // store of a null or non-serializable value
    | MultipleResults         // more rows than the identity allows
    | NoTypedQuery            // the query builder produced no query
    | NullComparison          // the query builder refused a null comparison value
    | NoCountResult           // the count query produced no result
    | NullAggregate           // the key values factory produced null
    | IteratorState           // Iterator.remove called twice for one element

  /** A payload. `serializable` stands for `Serializable.class.isAssignableFrom(value.getClass())`. */
  datatype Value = Value(repr: string, serializable: bool)

  predicate IsStorable(v: Value) {
    v.serializable
  }

  /** The guard of row creation: non-null and serializable. */
  predicate StorableValue(v: Option<Value>) {
    v.Some? && IsStorable(v.value)
  }

  /** `RopertyKey`: id (primary key) and nullable description. */
  datatype KeyRecord = KeyRecord(id: string, description: Option<string>)

  /** `RopertyValue`: surrogate id, owning key id, pattern, payload, change set. */
  datatype ValueRow = ValueRow(id: nat, key: string, pattern: Option<string>, value: Option<Value>, changeSet: Option<string>)

  /** A row as a query returns it: joined with its owning key entity. */
  datatype RowView = RowView(row: ValueRow, owner: Option<KeyRecord>)

  /** A domain-specific value of the configuration API. */
  datatype Variant = Variant(pattern: Option<string>, value: Option<Value>, changeSet: Option<string>)

  /** `KeyValues` as the engine consumes it: description and the variant set,
      in the set's iteration order (`None` for a null set). */
  datatype KeyValues = KeyValues(description: Option<string>, variants: Option<seq<Variant>>)

  /** `put` writes the default slot, `putWithChangeSet` a named one. */
  datatype Slot = Default | Named(name: string)

  /** One call the transformer makes on the fresh `KeyValues`. */
  datatype Put = Put(slot: Slot, value: Option<Value>, parts: seq<string>)

  /** `KeyValues` as the transformer builds it: the description last set and
      the puts made, in order. */
  datatype Loaded = Loaded(description: Option<string>, puts: seq<Put>)

  /** `RopertyKey.setId` on a fresh key, then `setDescription`. */
  function NewKey(id: string, description: Option<string>): (r: Result<KeyRecord, Error>)
    ensures r.Ok? <==> JavaText.FirstNonBlank(id) < |id|
    ensures r.Err? ==> r.error == BlankKey
    ensures r.Ok? ==> r.value.id == id && r.value.description == description
  {
    if JavaText.IsBlank(id) then Err(BlankKey) else Ok(KeyRecord(id, description))
  }

  /** How string concatenation shows a nullable string. */
  function Shown(s: Option<string>): string {
    if s.None? then "null" else s.value
  }

  const IdOpen: string := "RopertyKey{id='"
  const DescriptionOpen: string := "', description='"
  const Close: string := "'}"

  /** `RopertyKey.toString`. */
  function KeyToString(k: KeyRecord): (r: string)
    ensures |r| == |IdOpen| + |k.id| + |DescriptionOpen| + |Shown(k.description)| + |Close|
    ensures r[..|IdOpen|] == IdOpen
    ensures r[|IdOpen|..|IdOpen| + |k.id|] == k.id
    ensures r[|IdOpen| + |k.id|..|IdOpen| + |k.id| + |DescriptionOpen|] == DescriptionOpen
    ensures r[|r| - |Close| - |Shown(k.description)|..|r| - |Close|] == Shown(k.description)
    ensures r[|r| - |Close|..] == Close
  {
    IdOpen + k.id + DescriptionOpen + Shown(k.description) + Close
  }

  /** The text before the first `'`, all of it when there is none. */
  function BeforeQuote(s: string): (r: string)
    ensures r <= s && '\'' !in r
    ensures |r| < |s| ==> s[|r|] == '\''
  {
    if |s| == 0 || s[0] == '\'' then [] else [s[0]] + BeforeQuote(s[1..])
  }

  /** Reading `toString` back: for an id without `'`, the text between
      `id='` and the next `'` is the id. */
  lemma KeyToStringShowsId(k: KeyRecord)
    requires '\'' !in k.id
    ensures BeforeQuote(KeyToString(k)[|IdOpen|..]) == k.id
  {
    var rest := KeyToString(k)[|IdOpen|..];
    assert rest[|k.id|] == '\'';
  }

  /** `RopertyValue.equals(DomainSpecificValue)`: null-safe equality of the
      pattern and of the value; nothing else takes part. */
  predicate Matches(row: ValueRow, v: Variant) {
    v.pattern == row.pattern && v.value == row.value
  }

  /** The match rule ignores the change sets and the owning key. */
  lemma MatchIgnoresChangeSetAndKey(row: ValueRow, v: Variant, rowChangeSet: Option<string>, key: string, changeSet: Option<string>)
    ensures Matches(row.(changeSet := rowChangeSet, key := key), v.(changeSet := changeSet)) == Matches(row, v)
  {
  }

  /** The column constraints of `roperty_value`: pattern and value are not nullable. */
  predicate ColumnsOk(row: ValueRow) {
    row.pattern.Some? && row.value.Some?
  }

  /** The unique index on (key, pattern, value) of `roperty_value`. */
  predicate UniqueIndexOk(rows: seq<ValueRow>) {
    forall i, j :: 0 <= i < j < |rows| ==>
      (rows[i].key, rows[i].pattern, rows[i].value) != (rows[j].key, rows[j].pattern, rows[j].value)
  }
}
