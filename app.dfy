/** The application controller of src/App.jsx: the entry store, the
    four-state view machine that hands the screen over between the timeline
    page and the editor, the flags the views derive from it, and the routing
    of a save to "add" or "update". The two delayed `setTimeout` steps are
    explicit "fires" events. */
module App {
  import opened Journal
  import opened Lists

  /** The seed entries shown when nothing is stored yet. */
  const Seed: seq<Memo> := [
    Memo(1, "今天开始了一段新的旅程，心中充满期待与憧憬。每一个开始都是一次重生的机会。",
         Date(2024, 11, 25, 9, 30), "hopeful", ["新开始", "感悟"]),
    Memo(2, "读完了《百年孤独》，马尔克斯的魔幻现实主义让我沉浸其中。时间是一条河流，我们都在其中漂流。",
         Date(2024, 11, 23, 21, 15), "thoughtful", ["阅读", "文学"]),
    Memo(3, "深夜的城市格外安静，窗外的霓虹灯闪烁着，像是宇宙中遥远的星辰。在这样的夜晚，思绪总是特别清晰。",
         Date(2024, 11, 20, 23, 45), "peaceful", ["夜晚", "思考"]),
    Memo(4, "完成了一个重要的项目，虽然过程艰辛，但看到成果的那一刻，所有的付出都值得了。",
         Date(2024, 11, 18, 17, 0), "accomplished", ["工作", "成就"]),
    Memo(5, "和老友重逢，聊起往事，时光仿佛倒流。有些人，即使很久不见，再见时依然如故。",
         Date(2024, 11, 15, 14, 30), "nostalgic", ["友情", "回忆"])
  ]

  /** The store's starting value: the parsed stored list when storage holds
      one, the seed otherwise. */
  function InitialMemos(stored: Option<seq<Memo>>): seq<Memo> {
    match stored
    case Some(memos) => memos
    case None => Seed
  }

  /** Without a stored list the store starts as five entries with ids 1..5. */
  lemma SeedStore()
    ensures |InitialMemos(None)| == 5
    ensures Ids(InitialMemos(None)) == [1, 2, 3, 4, 5]
    ensures UniqueIds(InitialMemos(None))
  {
  }

  // ---------------------------------------------------------------------
  // The entry store's list operations

  /** The entry `addMemo` builds from a draft: the draft's fields with a
      fresh id and the current time, whatever id and date it carried. */
  function NewEntry(draft: Draft, freshId: MemoId, now: Date): (m: Memo)
    ensures m.id == freshId && m.date == now
    ensures m.content == draft.content && m.mood == draft.mood && m.tags == draft.tags
  {
    Memo(freshId, draft.content, now, draft.mood, draft.tags)
  }

  /** `[newMemo, ...prev]`: the new entry first, then the old list unchanged. */
  function Prepend(memos: seq<Memo>, draft: Draft, freshId: MemoId, now: Date): (r: seq<Memo>)
    ensures |r| == |memos| + 1
    ensures r[0] == NewEntry(draft, freshId, now)
    ensures forall i :: 0 <= i < |memos| ==> r[i + 1] == memos[i]
  {
    [NewEntry(draft, freshId, now)] + memos
  }

  /** Prepending an entry whose id is not yet in use keeps ids unique. */
  lemma PrependKeepsIdsUnique(memos: seq<Memo>, draft: Draft, freshId: MemoId, now: Date)
    requires UniqueIds(memos) && !HasId(memos, freshId)
    ensures UniqueIds(Prepend(memos, draft, freshId, now))
  {
    var r := Prepend(memos, draft, freshId, now);
    forall i, j | 0 <= i < j < |r| ensures r[i].id != r[j].id {
      if i > 0 {
        assert r[i] == memos[i - 1] && r[j] == memos[j - 1];
      } else {
        assert r[j] == memos[j - 1];
      }
    }
  }

  /** The entry an update puts at a matching position: the draft's fields
      under the matching entry's id. */
  function Updated(m: Memo, u: Draft): Memo {
    Memo(m.id, u.content, u.date, u.mood, u.tags)
  }

  /** `prev.map(m => m.id === updated.id ? updated : m)`: every entry whose id
      is the draft's id becomes the draft; every other entry, and the length
      and the order of ids, stay as they were. A draft without an id matches
      nothing. */
  function Replace(memos: seq<Memo>, u: Draft): (r: seq<Memo>)
    ensures |r| == |memos| && Ids(r) == Ids(memos)
    ensures forall i :: 0 <= i < |memos| ==>
      r[i] == if u.id == Some(memos[i].id) then Updated(memos[i], u) else memos[i]
    ensures UniqueIds(memos) ==> UniqueIds(r)
  {
    var r := seq(|memos|, i requires 0 <= i < |memos| =>
      if u.id == Some(memos[i].id) then Updated(memos[i], u) else memos[i]);
    assert forall i :: 0 <= i < |memos| ==> r[i].id == memos[i].id;
    assert Ids(r) == Ids(memos);
    r
  }

  /** `prev.filter(m => m.id !== id)`: no entry with that id remains, every
      other entry remains as often as before, and their order is kept. */
  function Remove(memos: seq<Memo>, id: MemoId): (r: seq<Memo>)
    ensures !HasId(r, id)
    ensures forall m :: multiset(r)[m] == if m.id == id then 0 else multiset(memos)[m]
    ensures Subsequence(r, memos)
  {
    if memos == [] then []
    else
      var rest := Remove(memos[1..], id);
      assert memos == [memos[0]] + memos[1..];
      assert forall m :: m in rest ==> m in memos[1..];
      if memos[0].id == id then rest
      else
        var r := [memos[0]] + rest;
        assert r[1..] == rest;
        assert forall i :: 0 < i < |r| ==> r[i] == rest[i - 1];
        r
  }

  /** Deleting keeps the ids of the store unique. */
  lemma {:induction false} RemoveKeepsIdsUnique(memos: seq<Memo>, id: MemoId)
    requires UniqueIds(memos)
    ensures UniqueIds(Remove(memos, id))
  {
    if memos != [] {
      var tail := memos[1..];
      assert UniqueIds(tail) by {
        forall i, j | 0 <= i < j < |tail| ensures tail[i].id != tail[j].id {
          assert tail[i] == memos[i + 1] && tail[j] == memos[j + 1];
        }
      }
      RemoveKeepsIdsUnique(tail, id);
      var rest := Remove(tail, id);
      if memos[0].id != id {
        var r := Remove(memos, id);
        assert r == [memos[0]] + rest;
        forall j | 0 <= j < |rest| ensures rest[j].id != memos[0].id {
          assert multiset(rest)[rest[j]] > 0;
          assert rest[j] in tail;
        }
        forall i, j | 0 <= i < j < |r| ensures r[i].id != r[j].id {
          assert r[j] == rest[j - 1];
          if i > 0 { assert r[i] == rest[i - 1]; }
        }
      }
    }
  }

  /** Deleting an id that no entry has leaves the store as it was. */
  lemma {:induction false} RemoveAbsent(memos: seq<Memo>, id: MemoId)
    requires !HasId(memos, id)
    ensures Remove(memos, id) == memos
  {
    if memos != [] {
      assert !HasId(memos[1..], id) by {
        forall i | 0 <= i < |memos| - 1 ensures memos[1..][i].id != id {
          assert memos[1..][i] == memos[i + 1];
        }
      }
      RemoveAbsent(memos[1..], id);
    }
  }

  // ---------------------------------------------------------------------
  // The view state machine and its derived flags

  datatype AppState = Idle | TransitioningOut | EditorOpen | TransitioningIn

  predicate IsPageVisible(s: AppState) { s == Idle || s == TransitioningOut }
  predicate IsPageLeaving(s: AppState) { s == TransitioningOut }
  predicate IsEditorVisible(s: AppState) { s == EditorOpen || s == TransitioningIn }
  predicate IsEditorLeaving(s: AppState) { s == TransitioningIn }
  /** The `isPaused` input of the background. */
  predicate IsBackgroundPaused(s: AppState) { s != Idle }

  /** In every state exactly one of page and editor is shown, a view is only
      leaving while it is shown, and the background runs exactly while the
      page is shown and not leaving. */
  lemma FlagsConsistent(s: AppState)
    ensures IsPageVisible(s) != IsEditorVisible(s)
    ensures IsPageLeaving(s) ==> IsPageVisible(s)
    ensures IsEditorLeaving(s) ==> IsEditorVisible(s)
    ensures !IsBackgroundPaused(s) <==> IsPageVisible(s) && !IsPageLeaving(s)
  {
  }

  /** The controller. `pendingOpen` and `pendingClose` count the 700 ms and
      600 ms steps scheduled by `openEditor` and `closeEditor` that have not
      fired yet; `setTimeout` handles are never cancelled in the source. */
  class Controller {
    var memos: seq<Memo>
    var appState: AppState
    var editingMemo: Option<Memo>
    var pendingOpen: nat
    var pendingClose: nat

    /** A transitional state always has a scheduled step that will end it. */
    ghost predicate Valid()
      reads this
    {
      (appState == TransitioningOut ==> pendingOpen > 0) &&
      (appState == TransitioningIn ==> pendingClose > 0)
    }

    constructor (stored: Option<seq<Memo>>)
      ensures Valid()
      ensures memos == InitialMemos(stored)
      ensures appState == Idle && editingMemo == None
      ensures pendingOpen == 0 && pendingClose == 0
    {
      memos := InitialMemos(stored);
      appState := Idle;
      editingMemo := None;
      pendingOpen, pendingClose := 0, 0;
    }

    /** `openEditor(memo)`: remember the memo (none for a new entry), start
        the page's exit and schedule the editor's entrance. */
    method OpenEditor(memo: Option<Memo>)
      requires Valid()
      modifies this
      ensures Valid()
      ensures editingMemo == memo && appState == TransitioningOut
      ensures pendingOpen == old(pendingOpen) + 1 && pendingClose == old(pendingClose)
      ensures memos == old(memos)
    {
      editingMemo := memo;
      appState := TransitioningOut;
      pendingOpen := pendingOpen + 1;
    }

    /** The 700 ms step of `openEditor` fires: the editor is open. */
    method EditorOpenFires()
      requires Valid() && pendingOpen > 0
      modifies this
      ensures Valid()
      ensures appState == EditorOpen && pendingOpen == old(pendingOpen) - 1
      ensures editingMemo == old(editingMemo) && memos == old(memos) && pendingClose == old(pendingClose)
    {
      appState := EditorOpen;
      pendingOpen := pendingOpen - 1;
    }

    /** `closeEditor()`: start the editor's exit and schedule the page's
        return. */
    method CloseEditor()
      requires Valid()
      modifies this
      ensures Valid()
      ensures appState == TransitioningIn
      ensures pendingClose == old(pendingClose) + 1 && pendingOpen == old(pendingOpen)
      ensures editingMemo == old(editingMemo) && memos == old(memos)
    {
      appState := TransitioningIn;
      pendingClose := pendingClose + 1;
    }

    /** The 600 ms step of `closeEditor` fires: back to idle, with no memo
        being edited. */
    method IdleFires()
      requires Valid() && pendingClose > 0
      modifies this
      ensures Valid()
      ensures appState == Idle && editingMemo == None
      ensures pendingClose == old(pendingClose) - 1 && pendingOpen == old(pendingOpen)
      ensures memos == old(memos)
    {
      appState := Idle;
      editingMemo := None;
      pendingClose := pendingClose - 1;
    }

    /** `addMemo(draft)`: prepend the draft as a new entry, then close. */
    method AddMemo(draft: Draft, freshId: MemoId, now: Date)
      requires Valid()
      modifies this
      ensures Valid()
      ensures memos == Prepend(old(memos), draft, freshId, now)
      ensures appState == TransitioningIn && editingMemo == old(editingMemo)
      ensures pendingClose == old(pendingClose) + 1 && pendingOpen == old(pendingOpen)
    {
      memos := Prepend(memos, draft, freshId, now);
      CloseEditor();
    }

    /** `updateMemo(draft)`: replace the entries with the draft's id, then
        close. */
    method UpdateMemo(draft: Draft)
      requires Valid()
      modifies this
      ensures Valid()
      ensures memos == Replace(old(memos), draft)
      ensures appState == TransitioningIn && editingMemo == old(editingMemo)
      ensures pendingClose == old(pendingClose) + 1 && pendingOpen == old(pendingOpen)
    {
      memos := Replace(memos, draft);
      CloseEditor();
    }

    /** `deleteMemo(id)`: drop every entry with that id, whatever the view
        state; nothing else changes. */
    method DeleteMemo(id: MemoId)
      requires Valid()
      modifies this`memos
      ensures Valid()
      ensures memos == Remove(old(memos), id)
    {
      memos := Remove(memos, id);
    }

    /** The editor's `onSave`: `updateMemo` while a memo is being edited,
        `addMemo` otherwise. */
    method Save(draft: Draft, freshId: MemoId, now: Date)
      requires Valid()
      modifies this
      ensures Valid()
      ensures old(editingMemo).Some? ==> memos == Replace(old(memos), draft)
      ensures old(editingMemo).None? ==> memos == Prepend(old(memos), draft, freshId, now)
      ensures appState == TransitioningIn && editingMemo == old(editingMemo)
      ensures pendingClose == old(pendingClose) + 1 && pendingOpen == old(pendingOpen)
    {
      if editingMemo.Some? {
        UpdateMemo(draft);
      } else {
        AddMemo(draft, freshId, now);
      }
    }
  }

  /** One full round trip of the view machine from rest: open, the editor
      appears, save a new entry, the page returns. The store gains the entry
      at its head and the machine is back at rest with nothing pending. */
  method NewEntryRoundTrip(c: Controller, draft: Draft, freshId: MemoId, now: Date)
    requires c.Valid() && c.appState == Idle && c.pendingOpen == 0 && c.pendingClose == 0
    modifies c
    ensures c.Valid() && c.appState == Idle && c.editingMemo == None
    ensures c.pendingOpen == 0 && c.pendingClose == 0
    ensures c.memos == Prepend(old(c.memos), draft, freshId, now)
  {
    c.OpenEditor(None);
    c.EditorOpenFires();
    c.Save(draft, freshId, now);
    c.IdleFires();
  }
}
