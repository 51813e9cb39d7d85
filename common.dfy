/** Small value types shared by the crawler's modules. */
module Common {

  /** The result of a step that may have nothing to give (a failed fetch, a pattern that does not match). */
  datatype Option<+T> = None | Some(value: T)

  /** One answer record of the API; only `id` and `content` are read. */
  datatype Answer = Answer(id: nat, content: string)

  function Min(a: int, b: int): int
  {
    if a <= b then a else b
  }

  /** The set of elements of a sequence (what Python's `set(lst)` holds). */
  ghost function Elements<T>(s: seq<T>): set<T>
  {
    set x | x in s
  }

  /** No element occurs twice. */
  ghost predicate NoDuplicates<T>(s: seq<T>)
  {
    forall i, j :: 0 <= i < j < |s| ==> s[i] != s[j]
  }
}
