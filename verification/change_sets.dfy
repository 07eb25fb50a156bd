/**
 * The two change-set sentinel conversions of the persistence layer.
 * A change set is a nullable string; `""` and `null` both mean "the default
 * set", but relational NULL never compares equal, so lookups use `""`.
 */
module ChangeSets {
  import opened Wrappers

  /** `nullWhenEmpty`: an empty change set becomes null, any other is kept. */
  function NullWhenEmpty(changeSet: Option<string>): (r: Option<string>)
    ensures r.None? <==> (changeSet.None? || changeSet == Some(""))
    ensures r.Some? ==> r == changeSet && r.value != ""
    ensures r != Some("")
  {
    if changeSet.None? || changeSet.value == "" then None else changeSet
  }

  /** `emptyWhenNull`: a null change set becomes the sentinel `""`. */
  function EmptyWhenNull(changeSet: Option<string>): (r: string)
    ensures changeSet.Some? ==> r == changeSet.value
    ensures r == "" <==> NullWhenEmpty(changeSet).None?
    ensures NullWhenEmpty(Some(r)) == NullWhenEmpty(changeSet)
  {
    if changeSet.None? then "" else changeSet.value
  }

  /** Normalising to a tag first does not change the lookup sentinel. */
  lemma SentinelOfTag(changeSet: Option<string>)
    ensures EmptyWhenNull(NullWhenEmpty(changeSet)) == EmptyWhenNull(changeSet)
  {
  }

  /** The sentinel identifies change sets exactly as `nullWhenEmpty` does:
      two change sets get the same lookup sentinel iff they normalise to the
      same nullable tag. */
  lemma SentinelAgreesWithTag(a: Option<string>, b: Option<string>)
    ensures EmptyWhenNull(a) == EmptyWhenNull(b) <==> NullWhenEmpty(a) == NullWhenEmpty(b)
  {
    if EmptyWhenNull(a) == EmptyWhenNull(b) {
      assert NullWhenEmpty(Some(EmptyWhenNull(a))) == NullWhenEmpty(Some(EmptyWhenNull(b)));
    }
    if NullWhenEmpty(a) == NullWhenEmpty(b) {
      SentinelOfTag(a);
      SentinelOfTag(b);
    }
  }
}
