/** The journal's value types: a timestamp reduced to its calendar fields, a
    stored memo entry, and the draft the editor hands back on save. */
module Journal {

  datatype Option<T> = None | Some(value: T)

  /** A local timestamp as `new Date(year, month, day, hour, minute)` builds
      it; `month` is 0-based, as `getMonth()` returns it. */
  datatype Date = Date(year: int, month: int, day: int, hour: int, minute: int)

  /** Entry ids are `Date.now()` values (or the seed's small integers). */
  type MemoId = int

  /** One stored journal entry. An empty `mood` stands for a missing or
      empty mood field (both are falsy for the editor's `||` fallback). */
  datatype Memo = Memo(id: MemoId, content: string, date: Date, mood: string, tags: seq<string>)

  /** What the editor passes to `onSave`: the edited memo's fields (so its
      `id` when there was a memo, none for a new one) with content, mood, tags
      and date filled in. */
  datatype Draft = Draft(id: Option<MemoId>, content: string, date: Date, mood: string, tags: seq<string>)

  /** The ids of `memos`, in order. */
  function Ids(memos: seq<Memo>): (ids: seq<MemoId>)
    ensures |ids| == |memos|
    ensures forall i :: 0 <= i < |memos| ==> ids[i] == memos[i].id
  {
    if memos == [] then [] else [memos[0].id] + Ids(memos[1..])
  }

  /** No two entries of `memos` share an id. */
  predicate UniqueIds(memos: seq<Memo>) {
    forall i, j :: 0 <= i < j < |memos| ==> memos[i].id != memos[j].id
  }

  /** Some entry of `memos` has id `id`. */
  predicate HasId(memos: seq<Memo>, id: MemoId) {
    exists i :: 0 <= i < |memos| && memos[i].id == id
  }
}
