/** Values that may be missing. */
module Wrappers {
  datatype Option<T> = None | Some(value: T)

  /** What has been read, then what is read after it, if that can be read. */
  function Then<T>(done: seq<T>, more: Option<seq<T>>): Option<seq<T>> {
    if more.None? then None else Some(done + more.value)
  }

  lemma ThenNothing<T>(more: Option<seq<T>>)
    ensures Then([], more) == more
  {
    if more.Some? { assert [] + more.value == more.value; }
  }

  lemma ThenThen<T>(done: seq<T>, next: T, more: Option<seq<T>>)
    ensures Then(done, Then([next], more)) == Then(done + [next], more)
  {
    if more.Some? { assert done + ([next] + more.value) == done + [next] + more.value; }
  }
}
