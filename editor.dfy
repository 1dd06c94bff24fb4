/** The entry editor of src/components/MemoEditor.jsx: the draft fields
    (content, mood, tag input, tags) and the keyboard focus region, changed
    by one method per key press, click or edit. The window `keydown` handler
    and the tag input's own `keydown` handler are separate methods. */
module Editor {
  import opened Journal
  import opened Lists
  import opened Text

  /** The mood keys in the order the editor shows and cycles them. */
  const Moods: seq<string> := ["hopeful", "thoughtful", "peaceful", "accomplished", "nostalgic"]

  /** The mood a new draft starts with. */
  const DefaultMood: string := "peaceful"

  /** `moods.findIndex(m => m.key === mood)` searching from `from`. */
  function FindMoodFrom(mood: string, from: nat): (i: int)
    requires from <= |Moods|
    ensures i == -1 || from <= i < |Moods|
    ensures i >= 0 ==> Moods[i] == mood && forall j :: from <= j < i ==> Moods[j] != mood
    ensures i == -1 ==> forall j :: from <= j < |Moods| ==> Moods[j] != mood
    decreases |Moods| - from
  {
    if from == |Moods| then -1
    else if Moods[from] == mood then from
    else FindMoodFrom(mood, from + 1)
  }

  /** The position of `mood` among the moods, or -1 for a mood that is not
      one of them (an empty or unknown stored mood). */
  function MoodIndex(mood: string): (i: int)
    ensures -1 <= i < |Moods|
    ensures i == -1 <==> mood !in Moods
    ensures i >= 0 ==> Moods[i] == mood
  {
    FindMoodFrom(mood, 0)
  }

  /** ArrowLeft on the mood selector: the previous mood, the last one from
      the first or from an unknown mood. */
  function MoodLeft(mood: string): (r: string)
    ensures r in Moods
  {
    var i := MoodIndex(mood);
    Moods[if i > 0 then i - 1 else |Moods| - 1]
  }

  /** ArrowRight on the mood selector: the next mood, the first one from the
      last or from an unknown mood. */
  function MoodRight(mood: string): (r: string)
    ensures r in Moods
  {
    var i := MoodIndex(mood);
    Moods[if i < |Moods| - 1 then i + 1 else 0]
  }

  /** The mood keys are pairwise distinct, so each finds its own position. */
  lemma MoodIndexOf(k: nat)
    requires k < |Moods|
    ensures MoodIndex(Moods[k]) == k
  {
  }

  /** The arrows move one step around the ring of five moods. */
  lemma {:induction false} MoodArrowsCycle(k: nat)
    requires k < |Moods|
    ensures MoodRight(Moods[k]) == Moods[(k + 1) % |Moods|]
    ensures MoodLeft(Moods[k]) == Moods[(k + |Moods| - 1) % |Moods|]
  {
    MoodIndexOf(k);
  }

  /** Right from the last mood wraps to the first; Left from the first wraps
      to the last. */
  lemma MoodArrowsWrap()
    ensures MoodRight(Moods[|Moods| - 1]) == Moods[0]
    ensures MoodLeft(Moods[0]) == Moods[|Moods| - 1]
  {
    MoodArrowsCycle(|Moods| - 1);
    MoodArrowsCycle(0);
  }

  /** Left then Right (or Right then Left) restores a mood of the list. */
  lemma MoodArrowsInverse(mood: string)
    requires mood in Moods
    ensures MoodRight(MoodLeft(mood)) == mood
    ensures MoodLeft(MoodRight(mood)) == mood
  {
    var k := MoodIndex(mood);
    MoodIndexOf(if k > 0 then k - 1 else |Moods| - 1);
    MoodIndexOf(if k < |Moods| - 1 then k + 1 else 0);
  }

  /** For a mood outside the list, Right gives the first mood and Left the
      last. */
  lemma MoodArrowsFromUnknown(mood: string)
    requires mood !in Moods
    ensures MoodRight(mood) == Moods[0]
    ensures MoodLeft(mood) == Moods[|Moods| - 1]
  {
  }

  /** Three ArrowRight presses from `peaceful` select `hopeful`. */
  lemma ThreeRightsFromPeaceful()
    ensures MoodRight(MoodRight(MoodRight(DefaultMood))) == "hopeful"
  {
    MoodArrowsCycle(2);
    MoodArrowsCycle(3);
    MoodArrowsCycle(4);
  }

  /** The keyboard focus region of the editor. */
  datatype Focus = ContentArea | MoodArea | TagsArea

  /** Tab: content, then mood, then tags, then content again. */
  function TabForward(f: Focus): Focus {
    match f
    case ContentArea => MoodArea
    case MoodArea => TagsArea
    case TagsArea => ContentArea
  }

  /** Shift+Tab: the reverse cycle. */
  function TabBackward(f: Focus): Focus {
    match f
    case ContentArea => TagsArea
    case MoodArea => ContentArea
    case TagsArea => MoodArea
  }

  /** Shift+Tab undoes Tab and Tab undoes Shift+Tab; Tab always moves, and
      three Tabs come back to where they started. */
  lemma TabCycle(f: Focus)
    ensures TabBackward(TabForward(f)) == f && TabForward(TabBackward(f)) == f
    ensures TabForward(f) != f
    ensures TabForward(TabForward(TabForward(f))) == f
  {
  }

  /** `tags.filter(t => t !== tag)`: no occurrence of `tag` remains, every
      other tag remains as often as before, and their order is kept. */
  function WithoutTag(tags: seq<string>, tag: string): (r: seq<string>)
    ensures tag !in r
    ensures forall t :: multiset(r)[t] == if t == tag then 0 else multiset(tags)[t]
    ensures Subsequence(r, tags)
  {
    if tags == [] then []
    else
      var rest := WithoutTag(tags[1..], tag);
      assert tags == [tags[0]] + tags[1..];
      if tags[0] == tag then rest
      else
        var r := [tags[0]] + rest;
        assert r[1..] == rest;
        r
  }

  /** Removing a tag keeps a duplicate-free tag list duplicate-free. */
  lemma {:induction false} WithoutTagKeepsNoDuplicates(tags: seq<string>, tag: string)
    requires NoDuplicates(tags)
    ensures NoDuplicates(WithoutTag(tags, tag))
  {
    if tags != [] {
      var tail := tags[1..];
      assert NoDuplicates(tail) by {
        forall i, j | 0 <= i < j < |tail| ensures tail[i] != tail[j] {
          assert tail[i] == tags[i + 1] && tail[j] == tags[j + 1];
        }
      }
      WithoutTagKeepsNoDuplicates(tail, tag);
      var rest := WithoutTag(tail, tag);
      if tags[0] != tag {
        var r := WithoutTag(tags, tag);
        assert r == [tags[0]] + rest;
        assert tags[0] !in tail by {
          assert tags == [tags[0]] + tail;
          forall j | 0 <= j < |tail| ensures tail[j] != tags[0] {
            assert tail[j] == tags[j + 1];
          }
        }
        forall j | 0 <= j < |rest| ensures rest[j] != tags[0] {
          assert multiset(rest)[rest[j]] > 0;
        }
        forall i, j | 0 <= i < j < |r| ensures r[i] != r[j] {
          assert r[j] == rest[j - 1];
          if i > 0 { assert r[i] == rest[i - 1]; }
        }
      }
    }
  }

  /** The tag list after Enter in the tag input: the trimmed input appended
      when it is not blank and not already present. */
  function WithTag(tags: seq<string>, input: string): (r: seq<string>)
    ensures Trim(input) != [] ==> Trim(input) in r
    ensures Trim(input) == [] || Trim(input) in tags ==> r == tags
    ensures |tags| <= |r| <= |tags| + 1 && r[..|tags|] == tags
    ensures NoDuplicates(tags) ==> NoDuplicates(r)
  {
    var t := Trim(input);
    if t == [] || t in tags then tags else tags + [t]
  }

  /** The keys the editor reacts to. */
  datatype Key = Escape | Enter | Tab | ArrowLeft | ArrowRight | OtherKey

  /** A `keydown` event: its key and modifier flags. */
  datatype KeyEvent = KeyEvent(key: Key, metaKey: bool, ctrlKey: bool, shiftKey: bool)

  /** Which of its callbacks the editor invoked while handling an event. */
  datatype Callback = NoCallback | OnClose | OnSave(draft: Draft)

  /** The object `handleSave` hands to `onSave`: the memo spread with the
      typed content, the mood and the tags, keeping the memo's id and date;
      a new entry has no id and takes the current time. */
  function SaveDraft(memo: Option<Memo>, content: string, mood: string, tags: seq<string>, now: Date): (d: Draft)
    ensures d.content == content && d.mood == mood && d.tags == tags
    ensures memo.Some? ==> d.id == Some(memo.value.id) && d.date == memo.value.date
    ensures memo.None? ==> d.id == None && d.date == now
  {
    match memo
    case Some(m) => Draft(Some(m.id), content, m.date, mood, tags)
    case None => Draft(None, content, now, mood, tags)
  }

  class MemoEditor {
    /** The memo being edited; none for a new entry. */
    const memo: Option<Memo>
    var content: string
    var mood: string
    var tagInput: string
    var tags: seq<string>
    var focusArea: Focus

    /** The initial draft: the memo's content, mood and tags when there is a
        memo (an empty mood falls back too), else empty content, `peaceful`
        and no tags; focus on the content. */
    constructor (memo: Option<Memo>)
      ensures this.memo == memo
      ensures content == (if memo.Some? then memo.value.content else "")
      ensures mood == (if memo.Some? && memo.value.mood != "" then memo.value.mood else DefaultMood)
      ensures tags == (if memo.Some? then memo.value.tags else [])
      ensures tagInput == "" && focusArea == ContentArea
    {
      this.memo := memo;
      content := if memo.Some? then memo.value.content else "";
      mood := if memo.Some? && memo.value.mood != "" then memo.value.mood else DefaultMood;
      tags := if memo.Some? then memo.value.tags else [];
      tagInput := "";
      focusArea := ContentArea;
    }

    /** `handleSave`: nothing when the content is blank after trimming;
        otherwise the draft handed to `onSave`, which carries the memo's id,
        the content as typed (untrimmed), the mood and tags, and the memo's
        date or, for a new entry, the current time. */
    method HandleSave(now: Date) returns (draft: Option<Draft>)
      ensures draft.None? <==> Blank(content)
      ensures draft.Some? ==> draft.value == SaveDraft(memo, content, mood, tags, now)
    {
      if Trim(content) == [] {
        return None;
      }
      draft := Some(SaveDraft(memo, content, mood, tags, now));
    }

    /** The window `keydown` handler. Escape closes before anything else is
        looked at; Cmd/Ctrl+Enter saves a non-blank draft; Tab and Shift+Tab
        cycle the focus; the arrows change the mood only while the focus is on
        the mood selector. Nothing else changes anything. */
    method HandleKeyDown(e: KeyEvent, now: Date) returns (cb: Callback)
      modifies this`focusArea, this`mood
      ensures e.key == Escape ==>
        cb == OnClose && focusArea == old(focusArea) && mood == old(mood)
      ensures e.key == Enter && (e.metaKey || e.ctrlKey) && !Blank(content) ==>
        cb == OnSave(SaveDraft(memo, content, mood, tags, now)) &&
        focusArea == old(focusArea) && mood == old(mood)
      ensures e.key == Tab ==>
        cb == NoCallback && mood == old(mood) &&
        focusArea == if e.shiftKey then TabBackward(old(focusArea)) else TabForward(old(focusArea))
      ensures e.key == ArrowLeft ==>
        cb == NoCallback && focusArea == old(focusArea) &&
        mood == if old(focusArea) == MoodArea then MoodLeft(old(mood)) else old(mood)
      ensures e.key == ArrowRight ==>
        cb == NoCallback && focusArea == old(focusArea) &&
        mood == if old(focusArea) == MoodArea then MoodRight(old(mood)) else old(mood)
      ensures e.key == OtherKey || (e.key == Enter && !((e.metaKey || e.ctrlKey) && !Blank(content))) ==>
        cb == NoCallback && focusArea == old(focusArea) && mood == old(mood)
    {
      if e.key == Escape {
        return OnClose;
      }
      if (e.metaKey || e.ctrlKey) && e.key == Enter && Trim(content) != [] {
        var draft := HandleSave(now);
        return OnSave(draft.value);
      }
      if e.key == Tab {
        focusArea := if e.shiftKey then TabBackward(focusArea) else TabForward(focusArea);
        return NoCallback;
      }
      if focusArea == MoodArea {
        if e.key == ArrowLeft {
          mood := MoodLeft(mood);
        } else if e.key == ArrowRight {
          mood := MoodRight(mood);
        }
      }
      cb := NoCallback;
    }

    /** `addTag`, the tag input's `keydown` handler: on Enter with a
        non-blank input, append the trimmed input unless it is already a tag,
        then clear the input; any other key or a blank input changes
        nothing. */
    method AddTag(e: KeyEvent)
      modifies this`tags, this`tagInput
      ensures e.key == Enter && !Blank(old(tagInput)) ==>
        tags == WithTag(old(tags), old(tagInput)) && tagInput == ""
      ensures !(e.key == Enter && !Blank(old(tagInput))) ==>
        tags == old(tags) && tagInput == old(tagInput)
      ensures NoDuplicates(old(tags)) ==> NoDuplicates(tags)
    {
      if e.key == Enter && Trim(tagInput) != [] {
        tags := WithTag(tags, tagInput);
        tagInput := "";
      }
    }

    /** Clicking a tag removes every occurrence of it. */
    method RemoveTag(tag: string)
      modifies this`tags
      ensures tags == WithoutTag(old(tags), tag)
      ensures NoDuplicates(old(tags)) ==> NoDuplicates(tags)
    {
      ghost var was := tags;
      tags := WithoutTag(tags, tag);
      if NoDuplicates(was) {
        WithoutTagKeepsNoDuplicates(was, tag);
      }
    }

    /** Clicking the mood button at position `k`: select that mood and put
        the focus on the mood selector. */
    method ClickMood(k: nat)
      requires k < |Moods|
      modifies this`mood, this`focusArea
      ensures mood == Moods[k] && focusArea == MoodArea
    {
      mood := Moods[k];
      focusArea := MoodArea;
    }

    /** `handleMoodClick`, a click on the selector outside its buttons. */
    method ClickMoodSelector()
      modifies this`focusArea
      ensures focusArea == MoodArea
    {
      focusArea := MoodArea;
    }

    /** The text area gains focus, or the 800 ms initial-focus step fires. */
    method FocusContent()
      modifies this`focusArea
      ensures focusArea == ContentArea
    {
      focusArea := ContentArea;
    }

    /** The tag input gains focus. */
    method FocusTags()
      modifies this`focusArea
      ensures focusArea == TagsArea
    {
      focusArea := TagsArea;
    }

    /** Typing in the text area. */
    method EditContent(text: string)
      modifies this`content
      ensures content == text
    {
      content := text;
    }

    /** Typing in the tag input. */
    method EditTagInput(text: string)
      modifies this`tagInput
      ensures tagInput == text
    {
      tagInput := text;
    }
  }
}
