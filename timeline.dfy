/** The timeline: memos grouped by calendar month, the groups ordered by
    their key string from greatest to least, and every card placed left or
    right by one running counter over the whole timeline. */
module Timeline {
  import opened Journal
  import opened Lists
  import opened Text

  // ---------------------------------------------------------------------
  // Group keys

  /** The group key `${getFullYear()}-${getMonth()}`: unpadded, with the
      0-based month. */
  function KeyOf(d: Date): string {
    IntToString(d.year) + "-" + IntToString(d.month)
  }

  /** Distinct numbers have distinct decimal renderings: a rendering
      denotes its number. */
  lemma NatToStringInjective(a: nat, b: nat)
    requires NatToString(a) == NatToString(b)
    ensures a == b
  {
    NatToStringValue(a);
    NatToStringValue(b);
  }

  /** Distinct integers have distinct renderings. */
  lemma IntToStringInjective(a: int, b: int)
    requires IntToString(a) == IntToString(b)
    ensures a == b
  {
    var s := IntToString(a);
    if a < 0 && b < 0 {
      assert NatToString(-a) == s[1..] == NatToString(-b);
      NatToStringInjective(-a, -b);
    } else if a >= 0 && b >= 0 {
      NatToStringInjective(a, b);
    }
  }

  /** A key splits at the first dash after its first character, so its
      year part and month part are determined by the key. */
  lemma DashSplit(a: string, m1: string, b: string, m2: string)
    requires a != [] && b != []
    requires forall i :: 0 < i < |a| ==> '0' <= a[i] <= '9'
    requires forall i :: 0 < i < |b| ==> '0' <= b[i] <= '9'
    requires a + "-" + m1 == b + "-" + m2
    ensures a == b && m1 == m2
  {
    var k := a + "-" + m1;
    assert k[|a|] == '-';
    assert (b + "-" + m2)[|b|] == '-';
    assert k[..|a|] == a && (b + "-" + m2)[..|b|] == b;
    assert k[|a| + 1..] == m1 && (b + "-" + m2)[|b| + 1..] == m2;
  }

  /** Two dates share a group key exactly when they fall in the same year
      and month, so each memo lands in the group of its own month and no
      other. */
  lemma SameKeyIffSameMonth(d1: Date, d2: Date)
    ensures KeyOf(d1) == KeyOf(d2) <==> (d1.year, d1.month) == (d2.year, d2.month)
  {
    if KeyOf(d1) == KeyOf(d2) {
      DashSplit(IntToString(d1.year), IntToString(d1.month), IntToString(d2.year), IntToString(d2.month));
      IntToStringInjective(d1.year, d2.year);
      IntToStringInjective(d1.month, d2.month);
    }
  }

  // ---------------------------------------------------------------------
  // Grouping

  /** One month of the timeline. `month` is the 0-based month number; its
      localized name is not part of this model. */
  datatype Group = Group(year: int, month: int, memos: seq<Memo>)

  /** The group key of a memo. */
  function MemoKey(m: Memo): string {
    KeyOf(m.date)
  }

  // The grouping below is stated for any key function `key`; the timeline
  // uses `MemoKey`.

  /** The memos of `ms` whose key is `k`, in input order. */
  function WithKey(key: Memo -> string, ms: seq<Memo>, k: string): (r: seq<Memo>)
    ensures |r| <= |ms|
    ensures forall m :: m in r ==> m in ms && key(m) == k
    ensures forall i :: 0 <= i < |ms| && key(ms[i]) == k ==> ms[i] in r
  {
    if ms == [] then []
    else
      var init, last := ms[..|ms| - 1], ms[|ms| - 1];
      assert forall i :: 0 <= i < |init| ==> init[i] == ms[i];
      WithKey(key, init, k) + (if key(last) == k then [last] else [])
  }

  /** The distinct keys of `ms`, in order of first occurrence (the order in
      which the grouping creates them). */
  function KeysInOrder(key: Memo -> string, ms: seq<Memo>): (r: seq<string>)
    ensures NoDuplicates(r)
    ensures forall i :: 0 <= i < |ms| ==> key(ms[i]) in r
  {
    if ms == [] then []
    else
      var init, last := ms[..|ms| - 1], ms[|ms| - 1];
      assert forall i :: 0 <= i < |init| ==> init[i] == ms[i];
      var keys := KeysInOrder(key, init);
      if key(last) in keys then keys else keys + [key(last)]
  }

  /** A key the memos do not produce has no memos. */
  lemma {:induction false} UnseenKeyEmpty(key: Memo -> string, ms: seq<Memo>, k: string)
    requires k !in KeysInOrder(key, ms)
    ensures WithKey(key, ms, k) == []
  {
    if ms != [] {
      var init := ms[..|ms| - 1];
      assert forall i :: 0 <= i < |init| ==> init[i] == ms[i];
      UnseenKeyEmpty(key, init, k);
    }
  }

  /** One more memo joins the end of its own key's memos only. */
  lemma WithKeyAppend(key: Memo -> string, ms: seq<Memo>, m: Memo, k: string)
    ensures WithKey(key, ms + [m], k) == WithKey(key, ms, k) + (if key(m) == k then [m] else [])
  {
    assert (ms + [m])[..|ms|] == ms;
  }

  /** One more memo adds its key at the end when the key is new. */
  lemma KeysInOrderAppend(key: Memo -> string, ms: seq<Memo>, m: Memo)
    ensures KeysInOrder(key, ms + [m]) ==
      KeysInOrder(key, ms) + (if key(m) in KeysInOrder(key, ms) then [] else [key(m)])
  {
    assert (ms + [m])[..|ms|] == ms;
  }

  /** The group of key `k` in `groups`, when there is one, holds the memos
      of `ms` with that key in input order and the year and month of its
      first memo. */
  ghost predicate GroupOf(key: Memo -> string, groups: map<string, Group>, ms: seq<Memo>, k: string) {
    k in groups ==>
      groups[k].memos == WithKey(key, ms, k) && groups[k].memos != [] &&
      groups[k].year == groups[k].memos[0].date.year &&
      groups[k].month == groups[k].memos[0].date.month
  }

  /** `groups` and `order` hold the grouping of `ms`: one group per key, the
      keys in order of first occurrence. */
  ghost predicate GroupedBy(key: Memo -> string, groups: map<string, Group>, order: seq<string>, ms: seq<Memo>) {
    order == KeysInOrder(key, ms) &&
    (forall k :: k in groups <==> k in order) &&
    (forall k :: GroupOf(key, groups, ms, k))
  }

  /** The group `m` joins: new when its key was unseen, extended otherwise. */
  lemma JoinedGroup(key: Memo -> string, before: map<string, Group>, ms: seq<Memo>, m: Memo, g: Group)
    requires forall k :: k in before <==> k in KeysInOrder(key, ms)
    requires GroupOf(key, before, ms, key(m))
    requires key(m) in before ==> g == before[key(m)].(memos := before[key(m)].memos + [m])
    requires key(m) !in before ==> g == Group(m.date.year, m.date.month, [m])
    ensures GroupOf(key, before[key(m) := g], ms + [m], key(m))
  {
    WithKeyAppend(key, ms, m, key(m));
    if key(m) in before {
      assert g.memos[0] == before[key(m)].memos[0];
    } else {
      UnseenKeyEmpty(key, ms, key(m));
    }
  }

  /** The groups of other keys are untouched by `m`. */
  lemma OtherGroup(key: Memo -> string, before: map<string, Group>, ms: seq<Memo>, m: Memo, g: Group, k: string)
    requires k != key(m) && GroupOf(key, before, ms, k)
    ensures GroupOf(key, before[key(m) := g], ms + [m], k)
  {
    WithKeyAppend(key, ms, m, k);
  }

  /** One step of the `reduce`: create the group of `m`'s key when missing,
      then push `m` into it. */
  lemma GroupStep(key: Memo -> string, before: map<string, Group>, order: seq<string>, ms: seq<Memo>,
                  m: Memo, g: Group, order': seq<string>)
    requires GroupedBy(key, before, order, ms)
    requires key(m) in before ==>
      g == before[key(m)].(memos := before[key(m)].memos + [m]) && order' == order
    requires key(m) !in before ==>
      g == Group(m.date.year, m.date.month, [m]) && order' == order + [key(m)]
    ensures GroupedBy(key, before[key(m) := g], order', ms + [m])
  {
    KeysInOrderAppend(key, ms, m);
    JoinedGroup(key, before, ms, m, g);
    var after := before[key(m) := g];
    forall k
      ensures GroupOf(key, after, ms + [m], k)
    {
      if k != key(m) {
        OtherGroup(key, before, ms, m, g, k);
      }
    }
  }

  /** What `GroupedBy` says, one group at a time. */
  lemma GroupedByMeans(key: Memo -> string, groups: map<string, Group>, order: seq<string>, ms: seq<Memo>)
    requires GroupedBy(key, groups, order, ms)
    ensures forall k :: k in groups ==>
      groups[k].memos == WithKey(key, ms, k) && WithKey(key, ms, k) != [] &&
      groups[k].year == WithKey(key, ms, k)[0].date.year &&
      groups[k].month == WithKey(key, ms, k)[0].date.month
  {
    forall k | k in groups
      ensures groups[k].memos == WithKey(key, ms, k) && WithKey(key, ms, k) != [] &&
        groups[k].year == WithKey(key, ms, k)[0].date.year &&
        groups[k].month == WithKey(key, ms, k)[0].date.month
    {
      assert GroupOf(key, groups, ms, k);
    }
  }

  /** The grouping step: a dictionary from key to group, created when a key
      is first met (taking the year and month of that first memo) and then
      extended by each memo in turn; `order` is the order in which the keys
      were created. */
  method GroupMemos(memos: seq<Memo>) returns (groups: map<string, Group>, order: seq<string>)
    ensures order == KeysInOrder(MemoKey, memos)
    ensures forall k :: k in groups <==> k in order
    ensures forall k :: k in groups ==> groups[k].memos == WithKey(MemoKey, memos, k)
    ensures forall k :: k in groups ==>
      WithKey(MemoKey, memos, k) != [] &&
      groups[k].year == WithKey(MemoKey, memos, k)[0].date.year &&
      groups[k].month == WithKey(MemoKey, memos, k)[0].date.month
  {
    groups := map[];
    order := [];
    for i := 0 to |memos|
      invariant GroupedBy(MemoKey, groups, order, memos[..i])
    {
      ghost var before, orderBefore := groups, order;
      var m := memos[i];
      var key := MemoKey(m);
      var group := if key in groups then groups[key] else Group(m.date.year, m.date.month, []);
      if key !in groups {
        order := order + [key];
      }
      group := group.(memos := group.memos + [m]);
      groups := groups[key := group];
      assert [] + [m] == [m];
      GroupStep(MemoKey, before, orderBefore, memos[..i], m, group, order);
      PrefixSnoc(memos, i);
    }
    assert memos[..|memos|] == memos;
    GroupedByMeans(MemoKey, groups, order, memos);
  }

  /** Every memo with a key in `ks`, in input order. */
  function InKeys(key: Memo -> string, ms: seq<Memo>, ks: seq<string>): (r: seq<Memo>)
    ensures |r| <= |ms|
  {
    if ms == [] then []
    else
      var init, last := ms[..|ms| - 1], ms[|ms| - 1];
      InKeys(key, init, ks) + (if key(last) in ks then [last] else [])
  }

  /** Adding one more key to `ks` adds exactly the memos of that key. */
  lemma {:induction false} InKeysAddKey(key: Memo -> string, ms: seq<Memo>, ks: seq<string>, k: string)
    requires k !in ks
    ensures multiset(InKeys(key, ms, ks + [k])) ==
      multiset(InKeys(key, ms, ks)) + multiset(WithKey(key, ms, k))
  {
    if ms != [] {
      InKeysAddKey(key, ms[..|ms| - 1], ks, k);
    }
  }

  /** When every memo's key is in `ks`, nothing is filtered out. */
  lemma {:induction false} InKeysAll(key: Memo -> string, ms: seq<Memo>, ks: seq<string>)
    requires forall i :: 0 <= i < |ms| ==> key(ms[i]) in ks
    ensures InKeys(key, ms, ks) == ms
  {
    if ms != [] {
      var init := ms[..|ms| - 1];
      assert forall i :: 0 <= i < |init| ==> init[i] == ms[i];
      InKeysAll(key, init, ks);
    }
  }

  // ---------------------------------------------------------------------
  // Ordering of the groups

  /** `a` precedes `b` in code-point order: a proper prefix, or smaller at
      the first position where they differ. */
  predicate LexLess(a: string, b: string) {
    if a == [] then b != []
    else b != [] && (a[0] < b[0] || (a[0] == b[0] && LexLess(a[1..], b[1..])))
  }

  lemma {:induction false} LexIrreflexive(a: string)
    ensures !LexLess(a, a)
  {
    if a != [] {
      LexIrreflexive(a[1..]);
    }
  }

  lemma {:induction false} LexTransitive(a: string, b: string, c: string)
    requires LexLess(a, b) && LexLess(b, c)
    ensures LexLess(a, c)
  {
    if a != [] && a[0] == b[0] && b[0] == c[0] {
      LexTransitive(a[1..], b[1..], c[1..]);
    }
  }

  /** Of two different strings one precedes the other, and never both. */
  lemma {:induction false} LexTotal(a: string, b: string)
    ensures a != b <==> LexLess(a, b) || LexLess(b, a)
    ensures !(LexLess(a, b) && LexLess(b, a))
  {
    if a != [] && b != [] {
      LexTotal(a[1..], b[1..]);
      if a[0] == b[0] && a[1..] == b[1..] {
        assert a == [a[0]] + a[1..] && b == [b[0]] + b[1..];
      }
    } else if a == [] && b == [] {
    }
  }

  /** `s` is ordered from greatest to least (the comparator
      `b[0].localeCompare(a[0])`). */
  predicate Descending(s: seq<string>) {
    forall i, j :: 0 <= i < j < |s| ==> !LexLess(s[i], s[j])
  }

  /** Places `x` before the first element of `s` it does not precede. */
  function Insert(x: string, s: seq<string>): (r: seq<string>)
    ensures multiset(r) == multiset(s) + multiset{x}
  {
    if s == [] || !LexLess(x, s[0]) then [x] + s
    else
      assert s == [s[0]] + s[1..];
      [s[0]] + Insert(x, s[1..])
  }

  /** Every element of `Insert(x, s)` is `x` or comes from `s`. */
  lemma InsertElements(x: string, s: seq<string>, y: string)
    requires y in Insert(x, s)
    ensures y == x || y in s
  {
    assert y in multiset(Insert(x, s));
  }

  /** Inserting into a descending sequence keeps it descending. */
  lemma {:induction false} InsertDescending(x: string, s: seq<string>)
    requires Descending(s)
    ensures Descending(Insert(x, s))
  {
    if s == [] || !LexLess(x, s[0]) {
      forall j | 0 <= j < |s|
        ensures !LexLess(x, s[j])
      {
        if LexLess(x, s[j]) {
          LexTotal(s[0], s[j]);
          if LexLess(s[j], s[0]) { LexTransitive(x, s[j], s[0]); }
        }
      }
    } else {
      var rest := Insert(x, s[1..]);
      InsertDescending(x, s[1..]);
      forall j | 0 <= j < |rest|
        ensures !LexLess(s[0], rest[j])
      {
        InsertElements(x, s[1..], rest[j]);
        if rest[j] == x {
          LexTotal(s[0], x);
        } else {
          var i :| 0 <= i < |s[1..]| && s[1..][i] == rest[j];
          assert s[i + 1] == rest[j];
        }
      }
    }
  }

  /** Inserting a new key into a sequence of distinct keys keeps them
      distinct. */
  lemma {:induction false} InsertNoDuplicates(x: string, s: seq<string>)
    requires x !in s && NoDuplicates(s)
    ensures NoDuplicates(Insert(x, s))
  {
    if s != [] && LexLess(x, s[0]) {
      var rest := Insert(x, s[1..]);
      InsertNoDuplicates(x, s[1..]);
      if s[0] in rest {
        InsertElements(x, s[1..], s[0]);
      }
    }
  }

  /** `Object.entries(groups).sort(...)` on the keys: the same keys,
      rearranged. */
  function SortDesc(s: seq<string>): (r: seq<string>)
    ensures multiset(r) == multiset(s)
  {
    if s == [] then []
    else
      assert s == [s[0]] + s[1..];
      Insert(s[0], SortDesc(s[1..]))
  }

  /** The sorted keys are ordered from greatest to least. */
  lemma {:induction false} SortDescending(s: seq<string>)
    ensures Descending(SortDesc(s))
  {
    if s != [] {
      SortDescending(s[1..]);
      InsertDescending(s[0], SortDesc(s[1..]));
    }
  }

  /** Sorting distinct keys leaves them distinct. */
  lemma {:induction false} SortNoDuplicates(s: seq<string>)
    requires NoDuplicates(s)
    ensures NoDuplicates(SortDesc(s))
  {
    if s != [] {
      SortNoDuplicates(s[1..]);
      assert s[0] !in multiset(SortDesc(s[1..])) by {
        assert s[0] !in s[1..];
      }
      InsertNoDuplicates(s[0], SortDesc(s[1..]));
    }
  }

  lemma DescendingTail(s: seq<string>)
    requires Descending(s) && s != []
    ensures Descending(s[1..])
  {
    forall i, j | 0 <= i < j < |s| - 1
      ensures !LexLess(s[1..][i], s[1..][j])
    {
      assert s[1..][i] == s[i + 1] && s[1..][j] == s[j + 1];
    }
  }

  /** A descending order of given keys is unique, so any correct sort gives
      the order `SortDesc` gives, whatever algorithm the runtime uses. */
  lemma {:induction false} DescendingUnique(r: seq<string>, t: seq<string>)
    requires Descending(r) && Descending(t) && multiset(r) == multiset(t)
    ensures r == t
  {
    if r != [] {
      assert r[0] in multiset(t);
      assert t != [];
      assert t[0] in multiset(r);
      if r[0] != t[0] {
        var i :| 0 <= i < |r| && r[i] == t[0];
        var j :| 0 <= j < |t| && t[j] == r[0];
        LexTotal(r[0], t[0]);
        assert false;
      }
      assert r == [r[0]] + r[1..] && t == [t[0]] + t[1..];
      assert multiset(r) == multiset{r[0]} + multiset(r[1..]);
      assert multiset(t) == multiset{t[0]} + multiset(t[1..]);
      DescendingTail(r);
      DescendingTail(t);
      assert multiset(r[1..]) == multiset(r) - multiset{r[0]};
      assert multiset(t[1..]) == multiset(t) - multiset{t[0]};
      DescendingUnique(r[1..], t[1..]);
    }
  }

  /** The key of a date in 2024. */
  lemma Key2024(d: Date)
    requires d.year == 2024 && 0 <= d.month < 10
    ensures KeyOf(d) == "2024-" + [Digit(d.month)]
  {
    assert NatToString(2) == "2";
    assert NatToString(20) == "20";
    assert NatToString(202) == "202";
    assert NatToString(2024) == "2024";
  }

  /** The keys of October and December 2024. */
  lemma AutumnKeys(oct: Date, dec: Date)
    requires oct.year == 2024 && oct.month == 9 && dec.year == 2024 && dec.month == 11
    ensures KeyOf(oct) == "2024-9" && KeyOf(dec) == "2024-11"
  {
    Key2024(oct);
    assert Digit(9) == '9';
    assert NatToString(11) == "11";
    Key2024(dec.(month := 1));
  }

  /** "2024-11" sorts before "2024-9": the first difference is '1' < '9'. */
  lemma ElevenBeforeNine()
    ensures LexLess("2024-11", "2024-9")
  {
    assert LexLess("11", "9");
    assert LexLess("-11", "-9");
    assert LexLess("4-11", "4-9");
    assert LexLess("24-11", "24-9");
    assert LexLess("024-11", "024-9");
  }

  /** The key comparison is on the unpadded string, not on the month
      number: October 2024 (key "2024-9") is placed before December 2024
      (key "2024-11"). */
  lemma OctoberBeforeDecember(oct: Date, dec: Date)
    requires oct.year == 2024 && oct.month == 9 && dec.year == 2024 && dec.month == 11
    ensures SortDesc([KeyOf(dec), KeyOf(oct)]) == [KeyOf(oct), KeyOf(dec)]
  {
    AutumnKeys(oct, dec);
    ElevenBeforeNine();
    var o, d := KeyOf(oct), KeyOf(dec);
    assert [o][0] == o;
    assert [d, o][1..] == [o];
    assert SortDesc([o]) == Insert(o, []) == [o];
    assert Insert(d, [o]) == [o] + Insert(d, []);
  }

  // ---------------------------------------------------------------------
  // Placement

  datatype Side = Left | Right

  /** The side of the card at render position `n`: `globalIndex % 2 === 0`
      puts it on the left. */
  function SideAt(n: nat): Side {
    if n % 2 == 0 then Left else Right
  }

  /** One rendered card: the position of its group in the sorted order, the
      group key, the memo, its index within the group, and its side. */
  datatype Card = Card(groupIndex: nat, key: string, memo: Memo, index: nat, side: Side)

  /** The memos of `cards`, in order. */
  function MemosOf(cards: seq<Card>): (r: seq<Memo>)
    ensures |r| == |cards|
    ensures forall n :: 0 <= n < |cards| ==> r[n] == cards[n].memo
  {
    if cards == [] then [] else MemosOf(cards[..|cards| - 1]) + [cards[|cards| - 1].memo]
  }

  /** The memos of two runs of cards, one after the other. */
  lemma MemosOfAppend(a: seq<Card>, b: seq<Card>)
    ensures MemosOf(a + b) == MemosOf(a) + MemosOf(b)
  {
    var l, r := MemosOf(a + b), MemosOf(a) + MemosOf(b);
    assert |l| == |r|;
    forall n | 0 <= n < |l| ensures l[n] == r[n] {
      if n < |a| {
        assert (a + b)[n] == a[n];
      } else {
        assert (a + b)[n] == b[n - |a|];
      }
    }
  }

  /** The memos of the groups `ks`, group after group. */
  function Flatten(ks: seq<string>, groups: map<string, Group>): (r: seq<Memo>)
    requires forall k :: k in ks ==> k in groups
  {
    if ks == [] then []
    else Flatten(ks[..|ks| - 1], groups) + groups[ks[|ks| - 1]].memos
  }

  /** The cards of one group, the first of them at render position
      `start`. */
  function GroupCards(groupIndex: nat, key: string, ms: seq<Memo>, start: nat): (r: seq<Card>)
    ensures |r| == |ms|
    ensures forall j :: 0 <= j < |ms| ==> r[j] == Card(groupIndex, key, ms[j], j, SideAt(start + j))
  {
    if ms == [] then []
    else
      var last := Card(groupIndex, key, ms[|ms| - 1], |ms| - 1, SideAt(start + |ms| - 1));
      GroupCards(groupIndex, key, ms[..|ms| - 1], start) + [last]
  }

  /** The cards of the groups `ks`, group after group, counted from 0. */
  function Cards(ks: seq<string>, groups: map<string, Group>): seq<Card>
    requires forall k :: k in ks ==> k in groups
  {
    if ks == [] then []
    else
      var before := Cards(ks[..|ks| - 1], groups);
      before + GroupCards(|ks| - 1, ks[|ks| - 1], groups[ks[|ks| - 1]].memos, |before|)
  }

  /** The n-th card, counted across all groups, is on the left exactly when
      n is even: the counter is never reset per group. */
  lemma {:induction false} CardsAlternate(ks: seq<string>, groups: map<string, Group>)
    requires forall k :: k in ks ==> k in groups
    ensures forall n :: 0 <= n < |Cards(ks, groups)| ==>
      (Cards(ks, groups)[n].side == Left <==> n % 2 == 0)
  {
    if ks != [] {
      CardsAlternate(ks[..|ks| - 1], groups);
    }
  }

  /** The cards show the memos of the groups, group after group. */
  lemma {:induction false} CardsShowGroups(ks: seq<string>, groups: map<string, Group>)
    requires forall k :: k in ks ==> k in groups
    ensures MemosOf(Cards(ks, groups)) == Flatten(ks, groups)
  {
    if ks != [] {
      var init := ks[..|ks| - 1];
      CardsShowGroups(init, groups);
      var before := Cards(init, groups);
      var g := GroupCards(|ks| - 1, ks[|ks| - 1], groups[ks[|ks| - 1]].memos, |before|);
      assert MemosOf(g) == groups[ks[|ks| - 1]].memos;
      MemosOfAppend(before, g);
    }
  }

  /** Each card names its group by position and key, and its memo by its
      index in that group; along the timeline the group position never
      decreases, and within one group the index increases. */
  lemma {:induction false} CardsInGroupOrder(ks: seq<string>, groups: map<string, Group>)
    requires forall k :: k in ks ==> k in groups
    ensures forall n :: 0 <= n < |Cards(ks, groups)| ==>
      var c := Cards(ks, groups)[n];
      c.groupIndex < |ks| && c.key == ks[c.groupIndex] &&
      c.index < |groups[c.key].memos| && groups[c.key].memos[c.index] == c.memo
    ensures forall a, b :: 0 <= a < b < |Cards(ks, groups)| ==>
      Cards(ks, groups)[a].groupIndex < Cards(ks, groups)[b].groupIndex ||
      (Cards(ks, groups)[a].groupIndex == Cards(ks, groups)[b].groupIndex &&
       Cards(ks, groups)[a].index < Cards(ks, groups)[b].index)
  {
    if ks != [] {
      var init := ks[..|ks| - 1];
      CardsInGroupOrder(init, groups);
      var before := Cards(init, groups);
      assert forall n :: 0 <= n < |before| ==> before[n].groupIndex < |init|;
    }
  }

  /** The render loop: groups in the given order, each group's memos in
      order, the running counter `globalIndex` deciding the side. */
  method Layout(sorted: seq<string>, groups: map<string, Group>) returns (cards: seq<Card>)
    requires forall k :: k in sorted ==> k in groups
    ensures cards == Cards(sorted, groups)
  {
    cards := [];
    var globalIndex := 0;
    for i := 0 to |sorted|
      invariant globalIndex == |cards|
      invariant cards == Cards(sorted[..i], groups)
    {
      var group := groups[sorted[i]];
      ghost var before := cards;
      for j := 0 to |group.memos|
        invariant globalIndex == |cards|
        invariant cards == before + GroupCards(i, sorted[i], group.memos[..j], |before|)
      {
        var side := if globalIndex % 2 == 0 then Left else Right;
        cards := cards + [Card(i, sorted[i], group.memos[j], j, side)];
        globalIndex := globalIndex + 1;
        assert group.memos[..j + 1][..j] == group.memos[..j];
      }
      assert group.memos[..|group.memos|] == group.memos;
      assert sorted[..i + 1][..i] == sorted[..i];
    }
    assert sorted[..|sorted|] == sorted;
  }

  /** With no keys nothing is kept. */
  lemma {:induction false} InKeysNone(key: Memo -> string, ms: seq<Memo>)
    ensures InKeys(key, ms, []) == []
  {
    if ms != [] {
      InKeysNone(key, ms[..|ms| - 1]);
    }
  }

  /** Laying out the groups of distinct keys shows exactly the memos whose
      key is among them. */
  lemma {:induction false} FlattenKeepsMemos(key: Memo -> string, ms: seq<Memo>, ks: seq<string>,
                                             groups: map<string, Group>)
    requires NoDuplicates(ks)
    requires forall k :: k in ks ==> k in groups && groups[k].memos == WithKey(key, ms, k)
    ensures multiset(Flatten(ks, groups)) == multiset(InKeys(key, ms, ks))
  {
    if ks == [] {
      InKeysNone(key, ms);
    } else {
      var init, last := ks[..|ks| - 1], ks[|ks| - 1];
      assert ks == init + [last];
      assert last !in init;
      FlattenKeepsMemos(key, ms, init, groups);
      InKeysAddKey(key, ms, init, last);
    }
  }

  /** `groups` and `order` are the grouping of `memos` by `MemoKey` (what
      `GroupMemos` returns). */
  ghost predicate IsGrouping(memos: seq<Memo>, groups: map<string, Group>, order: seq<string>) {
    order == KeysInOrder(MemoKey, memos) &&
    (forall k :: k in groups <==> k in order) &&
    (forall k :: k in groups ==> groups[k].memos == WithKey(MemoKey, memos, k))
  }

  /** The group sizes add up to the number of memos: the groups, in the
      order they were created, hold every memo exactly once. */
  lemma GroupSizesSum(memos: seq<Memo>, groups: map<string, Group>, order: seq<string>)
    requires IsGrouping(memos, groups, order)
    ensures |Flatten(order, groups)| == |memos|
    ensures multiset(Flatten(order, groups)) == multiset(memos)
  {
    FlattenKeepsMemos(MemoKey, memos, order, groups);
    InKeysAll(MemoKey, memos, order);
    assert |multiset(Flatten(order, groups))| == |Flatten(order, groups)|;
  }

  /** The sorted keys are the grouping's keys, distinct and descending. */
  lemma SortedKeys(memos: seq<Memo>, groups: map<string, Group>, order: seq<string>)
    requires IsGrouping(memos, groups, order)
    ensures forall k :: k in SortDesc(order) <==> k in order
    ensures NoDuplicates(SortDesc(order)) && Descending(SortDesc(order))
  {
    var sorted := SortDesc(order);
    forall k ensures k in sorted <==> k in order {
      assert k in sorted <==> k in multiset(sorted);
      assert k in order <==> k in multiset(order);
    }
    SortDescending(order);
    SortNoDuplicates(order);
  }

  /** Every memo is on exactly one card. */
  lemma TimelineShowsAll(memos: seq<Memo>, groups: map<string, Group>, order: seq<string>)
    requires IsGrouping(memos, groups, order)
    ensures forall k :: k in SortDesc(order) ==> k in groups
    ensures |Cards(SortDesc(order), groups)| == |memos|
    ensures multiset(MemosOf(Cards(SortDesc(order), groups))) == multiset(memos)
  {
    var sorted := SortDesc(order);
    SortedKeys(memos, groups, order);
    CardsShowGroups(sorted, groups);
    FlattenKeepsMemos(MemoKey, memos, sorted, groups);
    InKeysAll(MemoKey, memos, sorted);
    var cards := Cards(sorted, groups);
    assert |multiset(MemosOf(cards))| == |cards| && |multiset(memos)| == |memos|;
  }

  /** Along the timeline the group keys never increase. */
  lemma TimelineKeysDescend(order: seq<string>, groups: map<string, Group>)
    requires forall k :: k in SortDesc(order) ==> k in groups
    ensures var cards := Cards(SortDesc(order), groups);
      forall a, b :: 0 <= a < b < |cards| ==> !LexLess(cards[a].key, cards[b].key)
  {
    var sorted := SortDesc(order);
    var cards := Cards(sorted, groups);
    SortDescending(order);
    CardsInGroupOrder(sorted, groups);
    forall a, b | 0 <= a < b < |cards|
      ensures !LexLess(cards[a].key, cards[b].key)
    {
      if cards[a].groupIndex == cards[b].groupIndex {
        LexIrreflexive(cards[a].key);
      }
    }
  }

  /** Each card sits in the group of its memo's key, at the memo's position
      among the memos of that key. */
  lemma TimelineCardsInTheirGroup(memos: seq<Memo>, groups: map<string, Group>, order: seq<string>)
    requires IsGrouping(memos, groups, order)
    requires forall k :: k in SortDesc(order) ==> k in groups
    ensures var cards := Cards(SortDesc(order), groups);
      forall n :: 0 <= n < |cards| ==>
        MemoKey(cards[n].memo) == cards[n].key &&
        cards[n].index < |WithKey(MemoKey, memos, cards[n].key)| &&
        cards[n].memo == WithKey(MemoKey, memos, cards[n].key)[cards[n].index]
  {
    var sorted := SortDesc(order);
    var cards := Cards(sorted, groups);
    CardsInGroupOrder(sorted, groups);
    forall n | 0 <= n < |cards|
      ensures MemoKey(cards[n].memo) == cards[n].key &&
        cards[n].index < |WithKey(MemoKey, memos, cards[n].key)| &&
        cards[n].memo == WithKey(MemoKey, memos, cards[n].key)[cards[n].index]
    {
      var c := cards[n];
      assert c.key == sorted[c.groupIndex];
      var w := WithKey(MemoKey, memos, c.key);
      assert groups[c.key].memos == w;
      assert c.memo in w;
    }
  }

  /** Within a group the memos keep their input order. */
  lemma TimelineKeepsInputOrder(memos: seq<Memo>, groups: map<string, Group>, order: seq<string>)
    requires IsGrouping(memos, groups, order)
    requires forall k :: k in SortDesc(order) ==> k in groups
    ensures var cards := Cards(SortDesc(order), groups);
      forall a, b :: 0 <= a < b < |cards| && cards[a].key == cards[b].key ==>
        cards[a].index < cards[b].index
  {
    SortedKeys(memos, groups, order);
    CardsInGroupOrder(SortDesc(order), groups);
  }

  /** The whole timeline: group, order the groups, lay out the cards. Every
      memo appears on exactly one card; cards alternate left and right from
      the left; each card sits in the group of its memo's key; the group
      keys never increase along the timeline; and within a group the memos
      keep their input order. */
  method Render(memos: seq<Memo>) returns (cards: seq<Card>)
    ensures |cards| == |memos| && multiset(MemosOf(cards)) == multiset(memos)
    ensures forall n :: 0 <= n < |cards| ==> (cards[n].side == Left <==> n % 2 == 0)
    ensures forall a, b :: 0 <= a < b < |cards| ==> !LexLess(cards[a].key, cards[b].key)
    ensures forall n :: 0 <= n < |cards| ==>
      MemoKey(cards[n].memo) == cards[n].key &&
      cards[n].index < |WithKey(MemoKey, memos, cards[n].key)| &&
      cards[n].memo == WithKey(MemoKey, memos, cards[n].key)[cards[n].index]
    ensures forall a, b :: 0 <= a < b < |cards| && cards[a].key == cards[b].key ==>
      cards[a].index < cards[b].index
  {
    var groups, order := GroupMemos(memos);
    var sorted := SortDesc(order);
    TimelineShowsAll(memos, groups, order);
    TimelineKeysDescend(order, groups);
    TimelineCardsInTheirGroup(memos, groups, order);
    TimelineKeepsInputOrder(memos, groups, order);
    CardsAlternate(sorted, groups);
    cards := Layout(sorted, groups);
  }
}
