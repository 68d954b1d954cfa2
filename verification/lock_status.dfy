/** How one reply of the lock authority is read into the component's lock
    fields: `isReadOnly`, `isLockedByUser` and `messageStatus`. */
module LockStatus {
  import opened JsValues

  /** The outcome of one `checkLocked` or `checkWhoLocked` query as its handler
      sees it. `Failed` stands for a transport error: the response interceptor
      resolves it to `undefined`, reading `.data` of that throws, and the
      surrounding `catch` swallows the exception. `Replied` carries the value
      of `response.data.isLocked`. */
  datatype Reply = Failed | Replied(isLocked: JsValue)

  /** `setIsReadOnly(!isLocked)` on a reply; a failed query keeps the
      previous permission (fail open). */
  function ReadOnlyAfter(prev: bool, r: Reply): (readOnly: bool)
    ensures r.Failed? ==> readOnly == prev
    ensures r.Replied? ==> (readOnly <==> !Truthy(r.isLocked))
  {
    match r
    case Failed => prev
    case Replied(v) => !Truthy(v)
  }

  /** The holder signal after a `checkWhoLocked` reply: only the numbers
      1, 2 and 3 (strict equality) are adopted, anything else keeps it. */
  function HolderAfter(prev: int, r: Reply): (holder: int)
    ensures r.Replied? && r.isLocked.Num? && 1 <= r.isLocked.n <= 3 ==> holder == r.isLocked.n
    ensures !(r.Replied? && r.isLocked.Num? && 1 <= r.isLocked.n <= 3) ==> holder == prev
    ensures 1 <= prev <= 3 ==> 1 <= holder <= 3
  {
    match r
    case Failed => prev
    case Replied(v) =>
      if v == Num(1) || v == Num(2) then v.n
      else if v == Num(3) then 3
      else prev
  }

  /** The latched message status after a `checkWhoLocked` reply: it becomes
      "checked" only when `message?.status === 'checked'`. */
  function StatusAfter(prev: string, r: Reply, status: JsValue): (latched: string)
    ensures latched == prev || latched == "checked"
    ensures latched != prev <==> r.Replied? && status == Str("checked") && prev != "checked"
  {
    match r
    case Failed => prev
    case Replied(_) => if status == Str("checked") then "checked" else prev
  }

  /** Status 3 is truthy, so `setIsReadOnly(!isLocked)` makes the editor
      writable whatever it was before, clearing an earlier read-only state: a
      reply of 3 blocks only through the holder signal, never through
      `isReadOnly`. */
  lemma HolderThreeMakesWritable(prevReadOnly: bool, prevHolder: int)
    ensures !ReadOnlyAfter(prevReadOnly, Replied(Num(3)))
    ensures HolderAfter(prevHolder, Replied(Num(3))) == 3
  {
  }

  /** Of the numeric statuses, only 0 makes the editor read-only. */
  lemma NumericReadOnly(prev: bool, n: int)
    ensures ReadOnlyAfter(prev, Replied(Num(n))) <==> n == 0
  {
  }
}
