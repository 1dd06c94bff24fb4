/** The floating-quote overlay of src/components/QuoteOverlay.jsx: the
    tokenizer that splits a quote into animated pieces, and the overlay's
    pool of at most four active quotes drawn without replacement from a fixed
    catalog, with its two-phase removal and its per-quote expiry timers. Every
    `setTimeout`/`setInterval` callback is an explicit "fires" method. */
module Quotes {
  import opened Lists

  // ---------------------------------------------------------------------
  // splitText

  /** `/[a-zA-Z]/`: an ASCII letter. */
  predicate IsLetter(c: char) {
    'a' <= c <= 'z' || 'A' <= c <= 'Z'
  }

  /** `/[a-zA-Z']/`: a character that continues a word. */
  predicate IsWordChar(c: char) {
    IsLetter(c) || c == '\''
  }

  /** The length of the longest prefix of `s` made of word characters. */
  function RunLength(s: string): (n: nat)
    ensures n <= |s|
    ensures forall k :: 0 <= k < n ==> IsWordChar(s[k])
    ensures n < |s| ==> !IsWordChar(s[n])
  {
    if s != [] && IsWordChar(s[0]) then 1 + RunLength(s[1..]) else 0
  }

  /** The tokens `splitText` produces, defined on the text's first
      character: a letter starts a token that runs as far as word characters
      go; any other character is a token of its own. */
  function Tokens(s: string): seq<string>
    decreases |s|
  {
    if s == [] then []
    else if IsLetter(s[0]) then
      var n := RunLength(s);
      [s[..n]] + Tokens(s[n..])
    else [s[..1]] + Tokens(s[1..])
  }

  /** `splitText(text)`: scan the text left to right, collecting a whole
      word run when a letter is seen and a single character otherwise. */
  method SplitText(text: string) returns (result: seq<string>)
    ensures result == Tokens(text)
  {
    result := [];
    var i := 0;
    while i < |text|
      invariant 0 <= i <= |text|
      invariant result + Tokens(text[i..]) == Tokens(text)
    {
      var c := text[i];
      if IsLetter(c) {
        var start := i;
        var word := "";
        while i < |text| && IsWordChar(text[i])
          invariant start <= i <= |text|
          invariant word == text[start..i]
          invariant forall k :: start <= k < i ==> IsWordChar(text[k])
        {
          word := word + [text[i]];
          i := i + 1;
        }
        TokensWordStep(text, start, i);
        assert (result + [word]) + Tokens(text[i..]) == result + Tokens(text[start..]);
        result := result + [word];
      } else {
        TokensOtherStep(text, i);
        assert (result + [[c]]) + Tokens(text[i + 1..]) == result + Tokens(text[i..]);
        result := result + [[c]];
        i := i + 1;
      }
    }
  }

  /** How the word loop of `SplitText` ends: the word it collected from
      `start` to `i` is the first token of `text[start..]`. */
  lemma TokensWordStep(text: string, start: nat, i: nat)
    requires start < i <= |text| && IsLetter(text[start])
    requires forall k :: start <= k < i ==> IsWordChar(text[k])
    requires i < |text| ==> !IsWordChar(text[i])
    ensures Tokens(text[start..]) == [text[start..i]] + Tokens(text[i..])
  {
    var rest := text[start..];
    var n := RunLength(rest);
    assert rest[..n] == text[start..i] && rest[n..] == text[i..];
  }

  /** A character that is not a letter is a token of its own. */
  lemma TokensOtherStep(text: string, i: nat)
    requires i < |text| && !IsLetter(text[i])
    ensures Tokens(text[i..]) == [[text[i]]] + Tokens(text[i + 1..])
  {
    assert text[i..][..1] == [text[i]] && text[i..][1..] == text[i + 1..];
  }

  /** The concatenation of a sequence of strings. */
  function Concat(ts: seq<string>): string {
    if ts == [] then [] else ts[0] + Concat(ts[1..])
  }

  /** Joining the tokens gives back the text exactly. */
  lemma {:induction false} TokensConcat(s: string)
    ensures Concat(Tokens(s)) == s
    decreases |s|
  {
    if s != [] {
      var n := if IsLetter(s[0]) then RunLength(s) else 1;
      TokensConcat(s[n..]);
      assert Tokens(s)[1..] == Tokens(s[n..]);
      assert s == s[..n] + s[n..];
    }
  }

  /** A token that is one character other than an ASCII letter. */
  predicate IsSingleToken(t: string) {
    |t| == 1 && !IsLetter(t[0])
  }

  /** A token that starts with an ASCII letter and holds only word
      characters. */
  predicate IsWordToken(t: string) {
    |t| >= 1 && IsLetter(t[0]) && forall k :: 0 <= k < |t| ==> IsWordChar(t[k])
  }

  /** Every token is of one of the two kinds, and a word token is never
      followed by a token that could have continued it. */
  predicate WellFormed(ts: seq<string>) {
    (forall k :: 0 <= k < |ts| ==> IsSingleToken(ts[k]) || IsWordToken(ts[k])) &&
    (forall k :: 0 <= k < |ts| - 1 && IsWordToken(ts[k]) ==> !IsWordChar(ts[k + 1][0]))
  }

  /** The tokens of any text are well formed, and there are no more tokens
      than characters. */
  lemma {:induction false} TokensWellFormed(s: string)
    ensures WellFormed(Tokens(s))
    ensures |Tokens(s)| <= |s|
    decreases |s|
  {
    if s != [] {
      var n := if IsLetter(s[0]) then RunLength(s) else 1;
      var ts := Tokens(s);
      var rest := Tokens(s[n..]);
      TokensWellFormed(s[n..]);
      assert ts == [s[..n]] + rest;
      assert IsSingleToken(ts[0]) || IsWordToken(ts[0]);
      if IsWordToken(ts[0]) && |ts| > 1 {
        TokensConcat(s[n..]);
        assert rest[0] != [];
        assert Concat(rest) == rest[0] + Concat(rest[1..]);
        assert rest[0][0] == s[n..][0] == s[n];
      }
      forall k | 0 < k < |ts| ensures ts[k] == rest[k - 1] { }
    }
  }

  /** The tokens are the only well-formed split of the text: any sequence of
      tokens that joins to `s` and is well formed is `Tokens(s)`. */
  lemma {:induction false} TokensUnique(s: string, ts: seq<string>)
    requires Concat(ts) == s && WellFormed(ts)
    ensures ts == Tokens(s)
    decreases |ts|
  {
    if ts != [] {
      var t := ts[0];
      var tail := ts[1..];
      assert s == t + Concat(tail);
      assert WellFormed(tail) by {
        forall k | 0 <= k < |tail| ensures tail[k] == ts[k + 1] { }
      }
      var n := |t|;
      assert s[..n] == t && s[n..] == Concat(tail);
      if IsWordToken(t) {
        assert RunLength(s) == n by {
          forall k | 0 <= k < n ensures IsWordChar(s[k]) { assert s[k] == t[k]; }
          if n < |s| {
            assert tail != [];
            assert tail[0] == ts[1];
            assert |tail[0]| >= 1;
            assert Concat(tail) == tail[0] + Concat(tail[1..]);
            assert s[n] == tail[0][0];
          }
        }
      }
      TokensUnique(s[n..], tail);
    }
  }

  // ---------------------------------------------------------------------
  // The quote pool

  datatype Quote = Quote(text: string, author: string, era: string)

  /** The fixed catalog quotes are drawn from. */
  const Catalog: seq<Quote> := [
    Quote("逝者如斯夫，不舍昼夜", "孔子", "公元前551年"),
    Quote("Time is the substance I am made of", "Borges", "1899-1986"),
    Quote("往事不可谏，来者犹可追", "《论语》", ""),
    Quote("人生天地之间，若白驹过隙", "庄子", "公元前369年"),
    Quote("We are such stuff as dreams are made on", "Shakespeare", "1564-1616"),
    Quote("盛年不重来，一日难再晨", "陶渊明", "365-427"),
    Quote("今人不见古时月，今月曾经照古人", "李白", "701-762"),
    Quote("此情可待成追忆，只是当时已惘然", "李商隐", "813-858"),
    Quote("人生到处知何似，应似飞鸿踏雪泥", "苏轼", "1037-1101")
  ]

  /** How many quotes the overlay shows at once (`slice(-4)`). */
  const MaxActive: nat := 4

  /** The visual depth tier of a quote. */
  datatype Depth = Near | Mid | Far

  /** Quote ids are `Date.now() + Math.random()` values in the source. */
  type QuoteId = int

  /** One quote on screen. */
  datatype ActiveQuote = ActiveQuote(id: QuoteId, quote: Quote, depth: Depth)

  /** The indices `0 .. n - 1`. */
  function Range(n: nat): (r: set<nat>)
    ensures forall i: nat :: i in r <==> i < n
    ensures |r| == n
  {
    if n == 0 then {} else Range(n - 1) + {n - 1}
  }

  /** Every catalog index. */
  function AllIndices(): set<nat> {
    Range(|Catalog|)
  }

  /** A set of catalog indices is as large as the catalog exactly when it
      holds every index; that is when `addQuote` clears it. */
  lemma UsedFullIffAll(used: set<nat>)
    requires used <= AllIndices()
    ensures |used| >= |Catalog| <==> used == AllIndices()
  {
    var rest := AllIndices() - used;
    assert AllIndices() == used + rest;
  }

  /** A set of fewer than `n` indices below `n` misses one of them. */
  lemma {:induction false} UnusedBelow(used: set<nat>, n: nat)
    requires forall i :: i in used ==> i < n
    requires |used| < n
    ensures exists i: nat :: i < n && i !in used
  {
    if n - 1 in used {
      var smaller := used - {n - 1};
      assert |smaller| == |used| - 1;
      UnusedBelow(smaller, n - 1);
      var i: nat :| i < n - 1 && i !in smaller;
      assert i !in used;
    } else {
      assert n - 1 !in used;
    }
  }

  /** After the clearing step some catalog index is unused, so the draw
      loop of `addQuote` has an index to stop at. */
  lemma UnusedIndexExists(used: set<nat>)
    requires used <= AllIndices() && |used| < |Catalog|
    ensures exists i: nat :: i < |Catalog| && i !in used
  {
    UnusedBelow(used, |Catalog|);
  }

  /** `slice(-4)`: the newest (last) at most four quotes, in order. */
  function KeepNewest(qs: seq<ActiveQuote>): (r: seq<ActiveQuote>)
    ensures |r| == if |qs| <= MaxActive then |qs| else MaxActive
    ensures forall k :: 0 <= k < |r| ==> r[k] == qs[|qs| - |r| + k]
  {
    if |qs| <= MaxActive then qs else qs[|qs| - MaxActive..]
  }

  /** Appending to a pool of at most four keeps it at most four, with the
      new quote last and, when the pool was full, its oldest quote gone. */
  lemma KeepNewestAppend(qs: seq<ActiveQuote>, q: ActiveQuote)
    requires |qs| <= MaxActive
    ensures |KeepNewest(qs + [q])| <= MaxActive
    ensures KeepNewest(qs + [q])[|KeepNewest(qs + [q])| - 1] == q
    ensures |qs| < MaxActive ==> KeepNewest(qs + [q]) == qs + [q]
    ensures |qs| == MaxActive ==> KeepNewest(qs + [q]) == qs[1..] + [q]
  {
    if |qs| == MaxActive {
      assert (qs + [q])[1..] == qs[1..] + [q];
    }
  }

  /** Some quote in `qs` has id `id` (`activeQuotes.find(q => q.id === id)`
      succeeds). */
  predicate HasQuote(qs: seq<ActiveQuote>, id: QuoteId) {
    exists k :: 0 <= k < |qs| && qs[k].id == id
  }

  /** The removing set after `startRemoveQuote(id)`: `id` joins it when it is
      an active quote not already removing, and nothing changes otherwise. */
  function MarkRemoving(qs: seq<ActiveQuote>, removing: set<QuoteId>, id: QuoteId): (r: set<QuoteId>)
    ensures removing <= r <= removing + {id}
    ensures id in r <==> id in removing || HasQuote(qs, id)
  {
    if !HasQuote(qs, id) || id in removing then removing else removing + {id}
  }

  /** Starting the removal of a quote twice is the same as starting it once. */
  lemma MarkRemovingIdempotent(qs: seq<ActiveQuote>, removing: set<QuoteId>, id: QuoteId)
    ensures MarkRemoving(qs, MarkRemoving(qs, removing, id), id) == MarkRemoving(qs, removing, id)
  {
  }

  /** `prev.filter(q => q.id !== id)`: no quote with that id remains, every
      other quote remains as often as before, and their order is kept. */
  function WithoutQuote(qs: seq<ActiveQuote>, id: QuoteId): (r: seq<ActiveQuote>)
    ensures !HasQuote(r, id)
    ensures |r| <= |qs|
    ensures forall q :: q in r <==> q in qs && q.id != id
    ensures forall q :: multiset(r)[q] == if q.id == id then 0 else multiset(qs)[q]
    ensures Subsequence(r, qs)
  {
    if qs == [] then []
    else
      var rest := WithoutQuote(qs[1..], id);
      assert qs == [qs[0]] + qs[1..];
      assert forall q :: q in qs <==> q == qs[0] || q in qs[1..];
      if qs[0].id == id then rest
      else
        var r := [qs[0]] + rest;
        assert r[1..] == rest;
        r
  }

  /** The ids of the quotes in `qs`, as a set. */
  function QuoteIds(qs: seq<ActiveQuote>): (r: set<QuoteId>)
    ensures forall id :: id in r <==> HasQuote(qs, id)
  {
    if qs == [] then {}
    else
      var init := qs[..|qs| - 1];
      assert forall k :: 0 <= k < |init| ==> init[k] == qs[k];
      QuoteIds(init) + {qs[|qs| - 1].id}
  }

  /** One entry of `timersRef`: a quote id and the handle of its 20 s expiry
      timer. The map is kept as a list in insertion order, the order in
      which `forEach` visits it. */
  datatype Timer = Timer(id: QuoteId, handle: nat)

  /** `timersRef.current.has(id)`. */
  predicate HasTimer(ts: seq<Timer>, id: QuoteId) {
    exists t :: t in ts && t.id == id
  }

  /** A map holds each key once. */
  predicate UniqueKeys(ts: seq<Timer>) {
    forall i, j :: 0 <= i < j < |ts| ==> ts[i].id != ts[j].id
  }

  /** `timersRef.current.delete(ts[k].id)`: the entry at `k` leaves, every
      other entry stays, and the keys stay unique. */
  lemma DeleteEntry(ts: seq<Timer>, k: nat)
    requires k < |ts| && UniqueKeys(ts)
    ensures UniqueKeys(ts[..k] + ts[k + 1..])
    ensures forall t :: t in ts[..k] + ts[k + 1..] <==> t in ts && t.id != ts[k].id
  {
    var d := ts[..k] + ts[k + 1..];
    assert forall i :: 0 <= i < |d| ==> d[i] == if i < k then ts[i] else ts[i + 1];
    forall t | t in ts && t.id != ts[k].id
      ensures t in d
    {
      var i :| 0 <= i < |ts| && ts[i] == t;
      if i < k { assert d[i] == t; } else { assert d[i - 1] == t; }
    }
  }

  /** The overlay's state. `timers` is `timersRef` (a quote id and the
      handle of its 20 s expiry timer), `expired` holds the handles that
      have already fired, `nextHandle` is the next handle `setTimeout`
      returns, and `spawning` records whether the 500 ms spawn and the 8 s
      spawn interval are registered. Each id in `removingIds` has exactly
      one scheduled 8 s removal step. */
  class QuoteOverlay {
    var isActive: bool
    var isLeaving: bool
    var activeQuotes: seq<ActiveQuote>
    var removingIds: set<QuoteId>
    var usedIndices: set<nat>
    var timers: seq<Timer>
    var expired: set<nat>
    var nextHandle: nat
    var spawning: bool

    /** The timer map after its effect has run: only active quotes have a
        timer, and every active quote that is not being removed has one. */
    ghost predicate TimersReconciled()
      reads this
    {
      (forall t :: t in timers ==> HasQuote(activeQuotes, t.id)) &&
      (forall k :: 0 <= k < |activeQuotes| && activeQuotes[k].id !in removingIds ==>
         HasTimer(timers, activeQuotes[k].id))
    }

    /** Every handle in use was issued before. */
    ghost predicate HandlesIssued()
      reads this
    {
      (forall t :: t in timers ==> t.handle < nextHandle) &&
      (forall h :: h in expired ==> h < nextHandle)
    }

    ghost predicate Valid()
      reads this
    {
      usedIndices <= AllIndices() &&
      |activeQuotes| <= MaxActive &&
      UniqueKeys(timers) &&
      TimersReconciled() &&
      HandlesIssued() &&
      spawning == (isActive && !isLeaving)
    }

    /** Mounting: an empty pool, then the activity effect's first run. */
    constructor (isActive: bool, isLeaving: bool)
      ensures Valid()
      ensures this.isActive == isActive && this.isLeaving == isLeaving
      ensures activeQuotes == [] && removingIds == {} && usedIndices == {} && timers == []
      ensures spawning == (isActive && !isLeaving)
    {
      this.isActive := isActive;
      this.isLeaving := isLeaving;
      activeQuotes := [];
      removingIds := {};
      usedIndices := {};
      timers := [];
      expired := {};
      nextHandle := 0;
      spawning := isActive && !isLeaving;
    }

    /** The timer effect, run after every change of the pool or of the
        removing set: start an expiry timer for each active quote that has
        none and is not being removed, then delete the entry of every id
        that is no longer active. Timers of quotes that stay active are kept
        as they were, and every new timer has a fresh handle. */
    method ReconcileTimers()
      requires UniqueKeys(timers)
      requires forall t :: t in timers ==> t.handle < nextHandle
      modifies this`timers, this`nextHandle
      ensures UniqueKeys(timers) && TimersReconciled()
      ensures forall t :: t in timers ==> t.handle < nextHandle
      ensures nextHandle >= old(nextHandle)
      ensures forall t :: t in old(timers) && HasQuote(activeQuotes, t.id) ==> t in timers
      ensures forall t :: t in timers && t !in old(timers) ==>
        old(nextHandle) <= t.handle && t.id !in removingIds
    {
      var k := 0;
      while k < |activeQuotes|
        invariant 0 <= k <= |activeQuotes|
        invariant UniqueKeys(timers)
        invariant forall j :: 0 <= j < k && activeQuotes[j].id !in removingIds ==>
          HasTimer(timers, activeQuotes[j].id)
        invariant forall t :: t in old(timers) ==> t in timers
        invariant forall t :: t in timers && t !in old(timers) ==>
          old(nextHandle) <= t.handle && t.id !in removingIds
        invariant forall t :: t in timers ==> t.handle < nextHandle
        invariant nextHandle >= old(nextHandle)
      {
        var q := activeQuotes[k];
        if !HasTimer(timers, q.id) && q.id !in removingIds {
          timers := timers + [Timer(q.id, nextHandle)];
          nextHandle := nextHandle + 1;
        }
        k := k + 1;
      }
      ghost var started := timers;
      k := 0;
      while k < |timers|
        invariant 0 <= k <= |timers|
        invariant UniqueKeys(timers)
        invariant forall j :: 0 <= j < k ==> HasQuote(activeQuotes, timers[j].id)
        invariant forall t :: t in timers ==> t in started
        invariant forall t :: t in started && HasQuote(activeQuotes, t.id) ==> t in timers
        invariant forall t :: t in timers ==> t.handle < nextHandle
        invariant nextHandle >= old(nextHandle)
        decreases |timers| - k
      {
        if !HasQuote(activeQuotes, timers[k].id) {
          DeleteEntry(timers, k);
          timers := timers[..k] + timers[k + 1..];
        } else {
          k := k + 1;
        }
      }
      forall j | 0 <= j < |activeQuotes| && activeQuotes[j].id !in removingIds
        ensures HasTimer(timers, activeQuotes[j].id)
      {
        var t :| t in started && t.id == activeQuotes[j].id;
        assert HasQuote(activeQuotes, t.id);
      }
    }

    /** `startRemoveQuote(id)`: a no-op when `id` is not an active quote or is
        already being removed; otherwise `id` joins `removingIds` and its 8 s
        removal step is scheduled. The pool and the timers do not change. */
    method StartRemoveQuote(id: QuoteId)
      requires Valid()
      modifies this`removingIds
      ensures Valid()
      ensures removingIds == MarkRemoving(activeQuotes, old(removingIds), id)
    {
      removingIds := MarkRemoving(activeQuotes, removingIds, id);
    }

    /** A quote's 20 s expiry timer fires (an entry still in the map whose
        handle has not fired before): start removing that quote. */
    method ExpiryFires(t: Timer)
      requires Valid() && t in timers && t.handle !in expired
      modifies this`removingIds, this`expired
      ensures Valid()
      ensures removingIds == MarkRemoving(activeQuotes, old(removingIds), t.id)
      ensures t.id in removingIds
      ensures expired == old(expired) + {t.handle}
    {
      expired := expired + {t.handle};
      StartRemoveQuote(t.id);
    }

    /** The 8 s removal step of `startRemoveQuote(id)` fires: the quote
        leaves the pool and the removing set, then the timer effect runs and
        drops its expiry timer. */
    method RemovalFires(id: QuoteId)
      requires Valid() && id in removingIds
      modifies this`activeQuotes, this`removingIds, this`timers, this`nextHandle
      ensures Valid()
      ensures activeQuotes == WithoutQuote(old(activeQuotes), id)
      ensures removingIds == old(removingIds) - {id}
      ensures !HasTimer(timers, id)
      ensures forall t :: t in old(timers) && HasQuote(activeQuotes, t.id) ==> t in timers
      ensures forall t :: t in timers && t !in old(timers) ==>
        old(nextHandle) <= t.handle && t.id !in removingIds
    {
      activeQuotes := WithoutQuote(activeQuotes, id);
      removingIds := removingIds - {id};
      ReconcileTimers();
    }

    /** The draw of `addQuote`: the used set is cleared when it already
        holds every catalog index; then an index outside it is drawn (any one:
        the draw is random) and recorded. */
    method DrawIndex() returns (index: nat)
      requires usedIndices <= AllIndices()
      modifies this`usedIndices
      ensures usedIndices <= AllIndices()
      ensures index < |Catalog|
      ensures old(usedIndices) == AllIndices() ==> usedIndices == {index}
      ensures old(usedIndices) != AllIndices() ==>
        index !in old(usedIndices) && usedIndices == old(usedIndices) + {index}
    {
      UsedFullIffAll(usedIndices);
      if |usedIndices| >= |Catalog| {
        usedIndices := {};
      }
      UnusedIndexExists(usedIndices);
      index :| index < |Catalog| && index !in usedIndices;
      usedIndices := usedIndices + {index};
    }

    /** The 500 ms spawn timer or the 8 s spawn interval fires: `addQuote`.
        After the draw the new quote joins the end of the pool, which then
        keeps its newest four (dropping the oldest when a fifth would
        exist), and the timer effect runs. */
    method SpawnFires(id: QuoteId, depth: Depth) returns (index: nat)
      requires Valid() && spawning
      modifies this`usedIndices, this`activeQuotes, this`timers, this`nextHandle
      ensures Valid()
      ensures index < |Catalog|
      ensures old(usedIndices) == AllIndices() ==> usedIndices == {index}
      ensures old(usedIndices) != AllIndices() ==>
        index !in old(usedIndices) && usedIndices == old(usedIndices) + {index}
      ensures |old(activeQuotes)| < MaxActive ==>
        activeQuotes == old(activeQuotes) + [ActiveQuote(id, Catalog[index], depth)]
      ensures |old(activeQuotes)| == MaxActive ==>
        activeQuotes == old(activeQuotes)[1..] + [ActiveQuote(id, Catalog[index], depth)]
      ensures forall t :: t in old(timers) && HasQuote(activeQuotes, t.id) ==> t in timers
      ensures forall t :: t in timers && t !in old(timers) ==>
        old(nextHandle) <= t.handle && t.id !in removingIds
    {
      index := DrawIndex();
      var q := ActiveQuote(id, Catalog[index], depth);
      KeepNewestAppend(activeQuotes, q);
      activeQuotes := KeepNewest(activeQuotes + [q]);
      ReconcileTimers();
    }

    /** `activeQuotes.forEach(q => startRemoveQuote(q.id))`: every active
        quote joins the removing set. */
    method StartRemovingAll()
      requires Valid()
      modifies this`removingIds
      ensures Valid()
      ensures removingIds == old(removingIds) + QuoteIds(activeQuotes)
    {
      var k := 0;
      while k < |activeQuotes|
        invariant 0 <= k <= |activeQuotes|
        invariant removingIds == old(removingIds) + QuoteIds(activeQuotes[..k])
        invariant Valid()
      {
        StartRemoveQuote(activeQuotes[k].id);
        assert HasQuote(activeQuotes, activeQuotes[k].id);
        assert activeQuotes[..k + 1][..k] == activeQuotes[..k];
        k := k + 1;
      }
      assert activeQuotes[..k] == activeQuotes;
    }

    /** A change of `isActive` or `isLeaving` re-runs the activity effect:
        its previous run's spawn timers are cleared; when the overlay is
        inactive or the page is leaving, every active quote starts its
        removal and the used set is cleared, and otherwise spawning is
        scheduled. The same props as before change nothing. */
    method SetProps(active: bool, leaving: bool)
      requires Valid()
      modifies this`isActive, this`isLeaving, this`spawning, this`removingIds, this`usedIndices
      ensures Valid()
      ensures isActive == active && isLeaving == leaving
      ensures (active, leaving) == (old(isActive), old(isLeaving)) ==>
        removingIds == old(removingIds) && usedIndices == old(usedIndices)
      ensures (active, leaving) != (old(isActive), old(isLeaving)) && (!active || leaving) ==>
        usedIndices == {} && removingIds == old(removingIds) + QuoteIds(activeQuotes)
      ensures active && !leaving ==> removingIds == old(removingIds) && usedIndices == old(usedIndices)
    {
      if (active, leaving) == (isActive, isLeaving) {
        return;
      }
      isActive, isLeaving := active, leaving;
      spawning := active && !leaving;
      if !active || leaving {
        StartRemovingAll();
        usedIndices := {};
      }
    }
  }
}
