/**
 * The choice check of `main` (run.py lines 110-132): a 1-based number the
 * user typed is accepted only within the result count and then picks the
 * element one position earlier in the list.
 */
module Selection {
  import opened Wrappers

  /** What the prompt leads to. */
  datatype Choice<T> =
    | Picked(index: nat, item: T)   // the video to download, at 0-based `index`
    | InvalidChoice                 // a number outside 1..len(results)
    | NotANumber                    // int() raised ValueError

  /**
   * Python list indexing `s[i]`: a negative index counts from the end and
   * anything outside `-len(s) .. len(s)-1` raises IndexError (None here).
   */
  function PyIndex<T>(s: seq<T>, i: int): (r: Option<T>)
    ensures r.Some? <==> -|s| <= i < |s|
    ensures 0 <= i < |s| ==> r == Some(s[i])
  {
    if 0 <= i < |s| then Some(s[i])
    else if -|s| <= i < 0 then Some(s[|s| + i])
    else None
  }

  /** Whether `choice` passes the guard `1 <= choice <= len(results)`. */
  predicate InRange(choice: int, count: nat) {
    1 <= choice <= count
  }

  /** The branch `main` takes for an already-parsed input (None: not a number). */
  function Choose<T>(input: Option<int>, results: seq<T>): (c: Choice<T>)
    ensures c.NotANumber? <==> input.None?
    ensures c.Picked? <==> input.Some? && 1 <= input.value <= |results|
    ensures c.InvalidChoice? <==> input.Some? && (input.value < 1 || input.value > |results|)
    ensures c.Picked? ==> c.index + 1 == input.value && c.index < |results| && c.item == results[c.index]
  {
    match input
    case None => NotANumber
    case Some(k) =>
      if InRange(k, |results|) then Picked(k - 1, PyIndex(results, k - 1).value)
      else InvalidChoice
  }

  /** Every listed result can be chosen, by the number printed next to it. */
  lemma EveryResultSelectable<T>(results: seq<T>, i: nat)
    requires i < |results|
    ensures Choose(Some(i + 1), results) == Picked(i, results[i])
  {
  }

  /**
   * The guard is what stops 0 from selecting anything: Python would read
   * `results[0 - 1]` as the last element.
   */
  lemma ZeroWouldPickLast<T>(results: seq<T>)
    requires |results| > 0
    ensures Choose(Some(0), results) == InvalidChoice
    ensures PyIndex(results, 0 - 1) == Some(results[|results| - 1])
  {
  }

  /** With no search results every number is rejected. */
  lemma NoResultsNoPick<T>(results: seq<T>, k: int)
    requires |results| == 0
    ensures Choose(Some(k), results) == InvalidChoice
  {
  }
}
