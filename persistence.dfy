/** The content-debounced writes of `save_jobs` and `save_completed_files`: each durable
    file is a small state machine over the fingerprint of its last successful write.
    The fingerprint (MD5 of the key-sorted JSON) is modelled by the content itself, i.e.
    as an injective function of the map. */
module Persistence {
  import opened Wrappers

  /** `lastWritten` is `_last_jobs_hash` / `_last_completed_files_hash` (`None` before the
      first write); `file` is what the JSON file on disk holds. */
  datatype Store<T> = Store(lastWritten: Option<T>, file: T) {
    /** A fingerprint is only ever recorded together with a successful write of it. */
    ghost predicate Consistent() { lastWritten.Some? ==> file == lastWritten.value }
  }

  /** The start-up state: the fingerprint of what was loaded, or none when nothing was. */
  function Loaded<T>(content: T, nonEmpty: bool): (st: Store<T>)
    ensures st.Consistent() && st.file == content
    ensures st.lastWritten.None? <==> !nonEmpty
  {
    Store(if nonEmpty then Some(content) else None, content)
  }

  /** A save writes exactly when no fingerprint is recorded or the recorded one differs,
      and the disk accepts the write. */
  predicate Writes<T(==)>(st: Store<T>, current: T, writable: bool)
  {
    writable && st.lastWritten != Some(current)
  }

  /** One call of `save_jobs` / `save_completed_files`. */
  function Save<T(==)>(st: Store<T>, current: T, writable: bool): (r: Store<T>)
    ensures Writes(st, current, writable) ==> r.file == current && r.lastWritten == Some(current)
    ensures !Writes(st, current, writable) ==> r == st
  {
    if st.lastWritten == Some(current) then st
    else if writable then Store(Some(current), current)
    else st
  }

  /** After a save on a writable disk the file holds the current state, whether or not
      the save actually wrote. */
  lemma SaveSynchronises<T>(st: Store<T>, current: T)
    requires st.Consistent()
    ensures Save(st, current, true).file == current
    ensures Save(st, current, true).lastWritten == Some(current)
    ensures Save(st, current, true).Consistent()
  {
  }

  /** A save never breaks the fingerprint/file agreement. */
  lemma SaveConsistent<T>(st: Store<T>, current: T, writable: bool)
    requires st.Consistent()
    ensures Save(st, current, writable).Consistent()
  {
  }

  /** A second save of an unchanged state writes nothing. */
  lemma SaveIdempotent<T>(st: Store<T>, current: T, writable: bool)
    ensures !Writes(Save(st, current, writable), current, writable)
    ensures Save(Save(st, current, writable), current, writable) == Save(st, current, writable)
  {
  }

  /** The lazy reload of the request handlers: read the file back and merge it over memory
      (`memory.update(disk)`), but only when the file knows `key`. Entries from the file
      win over those in memory. */
  function ReloadIfKnown<K, V>(memory: map<K, V>, disk: map<K, V>, key: K): (r: map<K, V>)
    ensures key in r <==> key in memory || key in disk
    ensures key !in disk ==> r == memory
    ensures key in disk ==> r.Keys == memory.Keys + disk.Keys
    ensures key in disk ==> forall k :: k in r ==> r[k] == if k in disk then disk[k] else memory[k]
  {
    if key in disk then memory + disk else memory
  }
}
