/** The decision wheel (No.2/pages/index/index.js): themes of weighted
    items, a weighted draw, a newest-first history capped at 500 records,
    and per-theme statistics of what was drawn. The page's `data` is a
    class whose methods are the page's handlers; the random draw, the clock
    and the storage the page reads are parameters. */
module DecisionWheel {
  import opened Common
  import opened Sorting

  datatype Item = Item(name: string, weight: int)

  /** An item as stored or shared: a bare name, or an object whose weight
      may be missing. */
  datatype RawItem = NameOnly(name: string) | WithWeight(name: string, weight: Option<int>)

  datatype Theme = Theme(name: string, icon: string, verb: string, items: seq<Item>)

  datatype RawTheme = RawTheme(name: string, icon: string, verb: string, items: Option<seq<RawItem>>)

  /** One draw: the theme's name, the item drawn and when. */
  datatype Record = Record(theme: string, item: string, timestamp: int)

  /** How often an item was drawn. */
  datatype Stat = Stat(name: string, count: nat)

  const HistoryCap: nat := 500

  function DefaultThemes(): (r: seq<Theme>)
    ensures |r| == 3
  {
    [ Theme("今天吃什么", "🍔", "吃", [Item("火锅", 1), Item("烧烤", 1), Item("麻辣烫", 1), Item("轻食", 1), Item("日料", 1), Item("螺蛳粉", 1)]),
      Theme("周末去哪玩", "🎡", "去", [Item("看电影", 1), Item("逛公园", 1), Item("宅家里", 1), Item("去爬山", 1), Item("博物馆", 1)]),
      Theme("谁去拿外卖", "🥡", "坑", [Item("我去", 1), Item("你去", 1), Item("石头剪刀布", 1), Item("老板去", 1)]) ]
  }

  predicate WeightsOk(items: seq<Item>) {
    forall i :: 0 <= i < |items| ==> items[i].weight >= 1
  }

  predicate AllWeightsOk(themes: seq<Theme>) {
    forall i :: 0 <= i < |themes| ==> WeightsOk(themes[i].items)
  }

  lemma DefaultThemesOk()
    ensures AllWeightsOk(DefaultThemes())
  {
    var d := DefaultThemes();
    assert WeightsOk(d[0].items) && WeightsOk(d[1].items) && WeightsOk(d[2].items);
  }

  // ---------------------------------------------------------------------
  // Normalizing stored items
  // ---------------------------------------------------------------------

  /** `normalizeThemeItems` on one item: a bare name gets weight 1, and so
      does a missing weight or one below 1. */
  function NormalizeItem(x: RawItem): (r: Item)
    ensures r.name == x.name && r.weight >= 1
    ensures x.NameOnly? || x.weight.None? ==> r.weight == 1
    ensures x.WithWeight? && x.weight.Some? ==> r.weight == if x.weight.value < 1 then 1 else x.weight.value
  {
    match x
    case NameOnly(name) => Item(name, 1)
    case WithWeight(name, weight) =>
      if weight.None? || weight.value < 1 then Item(name, 1) else Item(name, weight.value)
  }

  function NormalizeTheme(t: RawTheme): (r: Theme)
    ensures r.name == t.name && r.icon == t.icon && r.verb == t.verb
    ensures WeightsOk(r.items)
  {
    var raw := if t.items.Some? then t.items.value else [];
    Theme(t.name, t.icon, t.verb, seq(|raw|, i requires 0 <= i < |raw| => NormalizeItem(raw[i])))
  }

  /** A theme as the page stores it. */
  function Stored(t: Theme): RawTheme {
    RawTheme(t.name, t.icon, t.verb, Some(seq(|t.items|, i requires 0 <= i < |t.items| => WithWeight(t.items[i].name, Some(t.items[i].weight)))))
  }

  /** Normalization keeps the items in order, one for one, and a stored
      theme whose weights are all at least 1 comes back unchanged. */
  lemma NormalizeKeepsItems(t: RawTheme)
    requires t.items.Some?
    ensures |NormalizeTheme(t).items| == |t.items.value|
    ensures forall i :: 0 <= i < |t.items.value| ==> NormalizeTheme(t).items[i].name == t.items.value[i].name
  {
    var r := NormalizeTheme(t);
    forall i | 0 <= i < |t.items.value| ensures r.items[i].name == t.items.value[i].name {
      assert r.items[i] == NormalizeItem(t.items.value[i]);
    }
  }

  lemma NormalizeStored(t: Theme)
    requires WeightsOk(t.items)
    ensures NormalizeTheme(Stored(t)) == t
  {
    var r := NormalizeTheme(Stored(t));
    assert |r.items| == |t.items|;
    var raw := Stored(t).items.value;
    forall i | 0 <= i < |t.items| ensures r.items[i] == t.items[i] {
      assert raw[i] == WithWeight(t.items[i].name, Some(t.items[i].weight));
      assert r.items[i] == NormalizeItem(raw[i]);
    }
  }

  // ---------------------------------------------------------------------
  // The weighted draw
  // ---------------------------------------------------------------------

  /** The sum of the first `n` weights. */
  function Prefix(items: seq<Item>, n: nat): (r: int)
    requires n <= |items|
    ensures WeightsOk(items) ==> r >= n
  {
    if n == 0 then 0 else Prefix(items, n - 1) + items[n - 1].weight
  }

  function TotalWeight(items: seq<Item>): int {
    Prefix(items, |items|)
  }

  lemma {:induction false} PrefixGrows(items: seq<Item>, i: nat, j: nat)
    requires WeightsOk(items) && i < j <= |items|
    ensures Prefix(items, i) < Prefix(items, j)
    decreases j - i
  {
    if j > i + 1 {
      PrefixGrows(items, i, j - 1);
    }
  }

  /** The first index at or after `i` whose running sum exceeds `r`. */
  function PickFrom(items: seq<Item>, r: int, i: nat): (k: nat)
    requires WeightsOk(items) && i < |items| && Prefix(items, i) <= r < TotalWeight(items)
    ensures i <= k < |items| && Prefix(items, k) <= r < Prefix(items, k + 1)
    decreases |items| - i
  {
    if r < Prefix(items, i + 1) then i else PickFrom(items, r, i + 1)
  }

  /** The item a draw `r` in `[0, total)` selects. */
  function PickIndex(items: seq<Item>, r: int): (k: nat)
    requires WeightsOk(items) && |items| > 0 && 0 <= r < TotalWeight(items)
    ensures k < |items| && Prefix(items, k) <= r < Prefix(items, k + 1)
  {
    PickFrom(items, r, 0)
  }

  /** Item `i` is selected exactly by the draws in its slice
      `[Prefix(i), Prefix(i + 1))` of the running sums. */
  lemma PickIndexIff(items: seq<Item>, r: int, i: nat)
    requires WeightsOk(items) && |items| > 0 && 0 <= r < TotalWeight(items) && i < |items|
    ensures PickIndex(items, r) == i <==> Prefix(items, i) <= r < Prefix(items, i + 1)
  {
    var k := PickIndex(items, r);
    if k < i {
      PrefixGrows(items, k + 1, i + 1);
      if k + 1 < i {
        PrefixGrows(items, k + 1, i);
      }
    } else if k > i {
      if i + 1 < k {
        PrefixGrows(items, i + 1, k);
      }
    }
  }

  /** The number of draws in `[0, n)` that select item `i`. */
  function Chosen(items: seq<Item>, i: nat, n: nat): nat
    requires WeightsOk(items) && |items| > 0 && n <= TotalWeight(items)
  {
    if n == 0 then 0 else Chosen(items, i, n - 1) + if PickIndex(items, n - 1) == i then 1 else 0
  }

  lemma {:induction false} ChosenBelow(items: seq<Item>, i: nat, n: nat)
    requires WeightsOk(items) && i < |items| && n <= TotalWeight(items) && 0 <= Prefix(items, i)
    ensures Chosen(items, i, n) ==
              if n <= Prefix(items, i) then 0
              else if n <= Prefix(items, i + 1) then n - Prefix(items, i)
              else items[i].weight
  {
    if n > 0 {
      ChosenBelow(items, i, n - 1);
      PickIndexIff(items, n - 1, i);
    }
  }

  /** Fairness of the draw: of the `total` equally likely draws, item `i`
      is selected by exactly `weight` many. */
  lemma ChosenByWeight(items: seq<Item>, i: nat)
    requires WeightsOk(items) && i < |items|
    ensures Chosen(items, i, TotalWeight(items)) == items[i].weight
  {
    if i > 0 {
      PrefixGrows(items, 0, i);
    }
    if i + 1 < |items| {
      PrefixGrows(items, i + 1, |items|);
    }
    ChosenBelow(items, i, TotalWeight(items));
  }

  /** `getWeightedResult` with `r` standing for `⌊Math.random() * total⌋`:
      walks the running sum of the weights and stops at the first item
      whose sum exceeds the draw. */
  method WeightedResult(items: seq<Item>, r: int) returns (name: string)
    requires WeightsOk(items) && |items| > 0 && 0 <= r < TotalWeight(items)
    ensures name == items[PickIndex(items, r)].name
  {
    var i := 0;
    var sum := items[0].weight;
    while r >= sum
      invariant i < |items| && sum == Prefix(items, i + 1) && Prefix(items, i) <= r
      decreases |items| - i
    {
      i := i + 1;
      sum := sum + items[i].weight;
    }
    PickIndexIff(items, r, i);
    name := items[i].name;
  }

  // ---------------------------------------------------------------------
  // Statistics
  // ---------------------------------------------------------------------

  function OfTheme(name: string): Record -> bool {
    (h: Record) => h.theme == name
  }

  function NotOfTheme(name: string): Record -> bool {
    (h: Record) => h.theme != name
  }

  function ItemsOf(rs: seq<Record>): (r: seq<string>)
    ensures |r| == |rs| && forall i :: 0 <= i < |rs| ==> r[i] == rs[i].item
  {
    seq(|rs|, i requires 0 <= i < |rs| => rs[i].item)
  }

  /** The items drawn under the theme `name`, newest first. */
  function RelevantItems(history: seq<Record>, name: string): seq<string> {
    if history == [] then []
    else (if history[0].theme == name then [history[0].item] else []) + RelevantItems(history[1..], name)
  }

  /** `RelevantItems` is the items of the records that
      `history.filter(h => h.theme === name)` keeps. */
  lemma {:induction false} RelevantItemsFilter(history: seq<Record>, name: string)
    ensures RelevantItems(history, name) == ItemsOf(Filter(history, OfTheme(name)))
  {
    if history != [] {
      RelevantItemsFilter(history[1..], name);
      var rest := Filter(history[1..], OfTheme(name));
      if history[0].theme == name {
        assert Filter(history, OfTheme(name)) == [history[0]] + rest;
        assert ItemsOf([history[0]] + rest) == [history[0].item] + ItemsOf(rest);
      }
    }
  }

  /** The distinct elements in order of first occurrence (the key order of
      the `counts` object). */
  function Firsts(s: seq<string>): seq<string> {
    if s == [] then []
    else if s[|s| - 1] in Firsts(s[..|s| - 1]) then Firsts(s[..|s| - 1])
    else Firsts(s[..|s| - 1]) + [s[|s| - 1]]
  }

  lemma {:induction false} FirstsSpec(s: seq<string>)
    ensures Distinct(Firsts(s)) && forall x :: x in Firsts(s) <==> x in s
  {
    if s != [] {
      FirstsSpec(s[..|s| - 1]);
      assert s == s[..|s| - 1] + [s[|s| - 1]];
    }
  }

  /** Each name with the number of times it occurs in `s`. */
  function TallyOf(names: seq<string>, s: seq<string>): seq<Stat> {
    if names == [] then [] else [Stat(names[0], Count(s, names[0]))] + TallyOf(names[1..], s)
  }

  lemma {:induction false} TallyOfAt(names: seq<string>, s: seq<string>)
    ensures |TallyOf(names, s)| == |names|
    ensures forall k :: 0 <= k < |names| ==> TallyOf(names, s)[k] == Stat(names[k], Count(s, names[k]))
  {
    if names != [] {
      TallyOfAt(names[1..], s);
      forall k | 1 <= k < |names| ensures TallyOf(names, s)[k] == Stat(names[k], Count(s, names[k])) {
        assert TallyOf(names, s)[k] == TallyOf(names[1..], s)[k - 1];
      }
    }
  }

  /** Each distinct item with the number of times it occurs. */
  function Tally(s: seq<string>): seq<Stat> {
    TallyOf(Firsts(s), s)
  }

  /** The comparator `b.count - a.count`: more draws first. */
  predicate CountGeq(a: Stat, b: Stat) {
    a.count >= b.count
  }

  /** `statsData` for a theme: the tally of its records, most drawn first,
      ties in order of first occurrence. */
  function Stats(history: seq<Record>, themeName: string): seq<Stat> {
    SortBy(Tally(RelevantItems(history, themeName)), CountGeq)
  }

  function TopOf(stats: seq<Stat>): Option<Stat> {
    if stats == [] then None else Some(stats[0])
  }

  lemma {:induction false} CountSnoc(s: seq<string>, y: string, x: string)
    ensures Count(s + [y], x) == Count(s, x) + if y == x then 1 else 0
  {
    if s == [] {
      assert [y][1..] == [];
    } else {
      assert (s + [y])[0] == s[0] && (s + [y])[1..] == s[1..] + [y];
      CountSnoc(s[1..], y, x);
    }
  }

  /** After `i` records: `names` are the distinct items seen, in order of
      first occurrence, and `counts` maps each to its number of occurrences. */
  ghost predicate Counted(items: seq<string>, i: nat, names: seq<string>, counts: map<string, nat>) {
    && i <= |items|
    && names == Firsts(items[..i])
    && (forall n :: n in counts <==> n in names)
    && (forall n :: n in counts ==> counts[n] == Count(items[..i], n))
  }

  lemma CountedStep(items: seq<string>, i: nat, names: seq<string>, counts: map<string, nat>)
    requires i < |items| && Counted(items, i, names, counts)
    ensures var x := items[i];
            if x in counts then Counted(items, i + 1, names, counts[x := counts[x] + 1])
            else Counted(items, i + 1, names + [x], counts[x := 1])
  {
    var x := items[i];
    var p := items[..i + 1];
    assert p[..i] == items[..i] && p[i] == x && p == items[..i] + [x];
    assert Firsts(p) == if x in names then names else names + [x];
    FirstsSpec(items[..i]);
    forall n ensures Count(p, n) == Count(items[..i], n) + if x == n then 1 else 0 {
      CountSnoc(items[..i], x, n);
    }
  }

  lemma CountedDone(items: seq<string>, names: seq<string>, counts: map<string, nat>)
    requires Counted(items, |items|, names, counts)
    ensures seq(|names|, k requires 0 <= k < |names| => Stat(names[k], counts[names[k]])) == Tally(items)
  {
    assert items[..|items|] == items;
    TallyOfAt(names, items);
    var tally := seq(|names|, k requires 0 <= k < |names| => Stat(names[k], counts[names[k]]));
    forall k | 0 <= k < |tally| ensures tally[k] == Tally(items)[k] {
      assert names[k] in names;
    }
  }

  /** `updateStats`: the theme's items are counted in a `counts` object
      keyed by item name, in first-occurrence key order, and then sorted by
      the comparator. */
  method ComputeStats(history: seq<Record>, themeName: string) returns (stats: seq<Stat>, top: Option<Stat>)
    ensures stats == Stats(history, themeName) && top == TopOf(stats)
  {
    var items := RelevantItems(history, themeName);
    if |items| == 0 {
      return [], None;
    }
    var names: seq<string> := [];
    var counts: map<string, nat> := map[];
    assert items[..0] == [];
    for i := 0 to |items|
      invariant Counted(items, i, names, counts)
    {
      CountedStep(items, i, names, counts);
      var x := items[i];
      if x in counts {
        counts := counts[x := counts[x] + 1];
      } else {
        names := names + [x];
        counts := counts[x := 1];
      }
    }
    CountedDone(items, names, counts);
    var tally := seq(|names|, k requires 0 <= k < |names| => Stat(names[k], counts[names[k]]));
    stats := SortBy(tally, CountGeq);
    top := TopOf(stats);
  }

  function CountSum(stats: seq<Stat>): nat {
    if stats == [] then 0 else stats[0].count + CountSum(stats[1..])
  }

  lemma {:induction false} CountSumAppend(a: seq<Stat>, b: seq<Stat>)
    ensures CountSum(a + b) == CountSum(a) + CountSum(b)
  {
    if a == [] {
      assert a + b == b;
    } else {
      assert (a + b)[1..] == a[1..] + b;
      CountSumAppend(a[1..], b);
    }
  }

  lemma CountSumRemove(b: seq<Stat>, k: nat)
    requires k < |b|
    ensures CountSum(b) == b[k].count + CountSum(b[..k] + b[k + 1..])
  {
    assert b == b[..k] + b[k..];
    CountSumAppend(b[..k], b[k..]);
    CountSumAppend(b[..k], b[k + 1..]);
    assert b[k..][1..] == b[k + 1..];
  }

  lemma MultisetRemove(a: seq<Stat>, b: seq<Stat>, k: nat)
    requires a != [] && k < |b| && b[k] == a[0] && multiset(a) == multiset(b)
    ensures multiset(a[1..]) == multiset(b[..k] + b[k + 1..])
  {
    assert a == [a[0]] + a[1..];
    assert b == b[..k] + ([b[k]] + b[k + 1..]);
    calc {
      multiset(a[1..]);
      multiset(a) - multiset{a[0]};
      multiset(b) - multiset{b[k]};
      multiset(b[..k]) + multiset(b[k + 1..]);
      multiset(b[..k] + b[k + 1..]);
    }
  }

  /** The sum of the counts does not depend on the order. */
  lemma {:induction false} CountSumPermutation(a: seq<Stat>, b: seq<Stat>)
    requires multiset(a) == multiset(b)
    ensures CountSum(a) == CountSum(b)
    decreases |a|
  {
    if a != [] {
      assert a[0] in multiset(b);
      var k :| 0 <= k < |b| && b[k] == a[0];
      CountSumRemove(b, k);
      MultisetRemove(a, b, k);
      CountSumPermutation(a[1..], b[..k] + b[k + 1..]);
    }
  }

  lemma {:induction false} TallyOfSnoc(names: seq<string>, s: seq<string>, x: string)
    requires Distinct(names)
    ensures CountSum(TallyOf(names, s + [x])) == CountSum(TallyOf(names, s)) + if x in names then 1 else 0
  {
    if names != [] {
      CountSnoc(s, x, names[0]);
      TallyOfSnoc(names[1..], s, x);
      assert x in names <==> x == names[0] || x in names[1..];
    }
  }

  lemma {:induction false} TallyOfAbsent(names: seq<string>, x: string, s: seq<string>)
    ensures x !in s ==> CountSum(TallyOf(names + [x], s)) == CountSum(TallyOf(names, s))
  {
    if names == [] {
      assert [x][1..] == [];
    } else {
      assert (names + [x])[1..] == names[1..] + [x];
      TallyOfAbsent(names[1..], x, s);
    }
  }

  /** Every occurrence is counted once, under its own name. */
  lemma {:induction false} TallySum(s: seq<string>)
    ensures CountSum(Tally(s)) == |s|
    decreases |s|
  {
    if s != [] {
      var p := s[..|s| - 1];
      var x := s[|s| - 1];
      assert s == p + [x];
      TallySum(p);
      FirstsSpec(p);
      TallyOfSnoc(Firsts(p), p, x);
      if x !in Firsts(p) {
        assert Distinct(Firsts(p) + [x]);
        TallyOfSnoc(Firsts(p) + [x], p, x);
        TallyOfAbsent(Firsts(p), x, p);
      }
    }
  }

  /** The counts of a theme's statistics add up to the number of its
      records. */
  lemma StatsSum(history: seq<Record>, themeName: string)
    ensures CountSum(Stats(history, themeName)) == |Filter(history, OfTheme(themeName))|
  {
    var items := RelevantItems(history, themeName);
    SortByPermutation(Tally(items), CountGeq);
    CountSumPermutation(Stats(history, themeName), Tally(items));
    TallySum(items);
    RelevantItemsFilter(history, themeName);
  }

  lemma CountGeqPreorder()
    ensures TotalPreorder(CountGeq)
  {
  }

  /** Each entry of a theme's statistics is a distinct drawn item with the
      number of its records, every drawn item has an entry, and the
      entries are in descending order of count. */
  lemma StatsCounts(history: seq<Record>, themeName: string)
    ensures var stats := Stats(history, themeName);
            var items := RelevantItems(history, themeName);
            && (forall i :: 0 <= i < |stats| ==> stats[i].name in items && stats[i].count == Count(items, stats[i].name))
            && (forall x :: x in items ==> exists i :: 0 <= i < |stats| && stats[i].name == x)
            && SortedBy(stats, CountGeq)
  {
    var stats := Stats(history, themeName);
    var items := RelevantItems(history, themeName);
    var names := Firsts(items);
    var t := Tally(items);
    FirstsSpec(items);
    TallyOfAt(names, items);
    CountGeqPreorder();
    SortBySorted(t, CountGeq);
    SortByPermutation(t, CountGeq);
    forall i | 0 <= i < |stats| ensures stats[i].name in items && stats[i].count == Count(items, stats[i].name) {
      assert stats[i] in multiset(t);
      var k :| 0 <= k < |t| && t[k] == stats[i];
      assert names[k] in names;
    }
    forall x | x in items ensures exists i :: 0 <= i < |stats| && stats[i].name == x {
      var k :| 0 <= k < |names| && names[k] == x;
      assert t[k] in multiset(stats);
      var i :| 0 <= i < |stats| && stats[i] == t[k];
    }
  }

  /** `topPick`: none exactly when the theme has no records; otherwise an
      item drawn most often, the first of them to have been drawn. */
  lemma TopPickIsMostDrawn(history: seq<Record>, themeName: string)
    ensures var items := RelevantItems(history, themeName);
            var top := TopOf(Stats(history, themeName));
            && (top.None? <==> items == [])
            && (top.Some? ==> top.value.name in items && top.value.count == Count(items, top.value.name))
            && (top.Some? ==> forall x :: x in items ==> Count(items, x) <= top.value.count)
            && (top.Some? ==> exists m: nat :: FirstMinimum(Tally(items), m, CountGeq) && top.value == Tally(items)[m])
  {
    var items := RelevantItems(history, themeName);
    var stats := Stats(history, themeName);
    StatsCounts(history, themeName);
    SortByPermutation(Tally(items), CountGeq);
    if items != [] {
      FirstsSpec(items);
      assert items[0] in Firsts(items);
      TallyOfAt(Firsts(items), items);
      CountGeqPreorder();
      SortByHead(Tally(items), CountGeq);
      forall x | x in items ensures Count(items, x) <= stats[0].count {
        var i :| 0 <= i < |stats| && stats[i].name == x;
        if i > 0 {
          assert CountGeq(stats[0], stats[i]);
        }
      }
    } else {
      assert Tally(items) == [];
    }
  }

  lemma {:induction false} RelevantAfterClear(history: seq<Record>, cleared: string, name: string)
    ensures RelevantItems(Filter(history, NotOfTheme(cleared)), name) == if name == cleared then [] else RelevantItems(history, name)
  {
    if history != [] {
      RelevantAfterClear(history[1..], cleared, name);
      if history[0].theme != cleared {
        assert Filter(history, NotOfTheme(cleared)) == [history[0]] + Filter(history[1..], NotOfTheme(cleared));
        assert ([history[0]] + Filter(history[1..], NotOfTheme(cleared)))[1..] == Filter(history[1..], NotOfTheme(cleared));
      }
    }
  }

  /** Clearing a theme's history empties its statistics and leaves every
      other theme's statistics as they were. */
  lemma ClearedStats(history: seq<Record>, cleared: string, other: string)
    ensures Stats(Filter(history, NotOfTheme(cleared)), cleared) == []
    ensures cleared != other ==> Stats(Filter(history, NotOfTheme(cleared)), other) == Stats(history, other)
  {
    RelevantAfterClear(history, cleared, cleared);
    RelevantAfterClear(history, cleared, other);
    assert Tally([]) == [];
  }

  /** The first `HistoryCap` records of `[record] + history`. */
  function Prepend(record: Record, history: seq<Record>): (r: seq<Record>)
    ensures |r| == if |history| + 1 <= HistoryCap then |history| + 1 else HistoryCap
    ensures r[0] == record
    ensures forall i :: 1 <= i < |r| ==> r[i] == history[i - 1]
  {
    var h := [record] + history;
    if |h| <= HistoryCap then h else h[..HistoryCap]
  }

  // ---------------------------------------------------------------------
  // The page
  // ---------------------------------------------------------------------

  /** The shown theme is the selected one of the user's themes (or a
      shared one, for a guest) and every weight is at least 1. */
  predicate Selected(themes: seq<Theme>, index: nat, current: Theme, isGuest: bool) {
    && (!isGuest ==> index < |themes| && current == themes[index])
    && WeightsOk(current.items) && AllWeightsOk(themes)
  }

  /** The statistics shown are those of the shown theme. */
  predicate Shown(history: seq<Record>, current: Theme, statsData: seq<Stat>, topPick: Option<Stat>) {
    statsData == Stats(history, current.name) && topPick == TopOf(statsData)
  }

  class Wheel {
    var themes: seq<Theme>
    var currentThemeIndex: nat
    var currentTheme: Theme
    /** Showing a theme shared by someone else, not one of the user's own. */
    var isGuest: bool
    var isRunning: bool
    var displayItem: string
    /** Newest first. */
    var history: seq<Record>
    var statsData: seq<Stat>
    var topPick: Option<Stat>

    /** The current theme is the selected one of the user's themes (or the
        shared one), every weight is at least 1, and the statistics are
        those of the current theme. */
    predicate Valid()
      reads this
    {
      && Selected(themes, currentThemeIndex, currentTheme, isGuest)
      && Shown(history, currentTheme, statsData, topPick)
    }

    /** `onLoad` without shared data: the stored themes, normalized, or the
        defaults when none are stored; the first theme is selected. */
    constructor(saved: seq<RawTheme>, savedHistory: seq<Record>)
      ensures Valid() && !isGuest && !isRunning && displayItem == "???"
      ensures themes == if saved == [] then DefaultThemes() else seq(|saved|, i requires 0 <= i < |saved| => NormalizeTheme(saved[i]))
      ensures currentThemeIndex == 0 && history == savedHistory
    {
      DefaultThemesOk();
      var loaded := if saved == [] then DefaultThemes() else seq(|saved|, i requires 0 <= i < |saved| => NormalizeTheme(saved[i]));
      themes := loaded;
      currentThemeIndex := 0;
      currentTheme := loaded[0];
      isGuest := false;
      isRunning := false;
      displayItem := "???";
      history := savedHistory;
      new;
      UpdateStats();
    }

    /** `onLoad` with a shared theme: it is shown as a guest, normalized. */
    constructor Shared(shared: RawTheme, savedHistory: seq<Record>)
      ensures Valid() && isGuest && !isRunning && displayItem == "???"
      ensures currentTheme == NormalizeTheme(shared) && themes == [] && history == savedHistory
    {
      themes := [];
      currentThemeIndex := 0;
      currentTheme := NormalizeTheme(shared);
      isGuest := true;
      isRunning := false;
      displayItem := "???";
      history := savedHistory;
      new;
      UpdateStats();
    }

    /** `updateStats`. */
    method UpdateStats()
      modifies this
      ensures statsData == Stats(history, currentTheme.name) && topPick == TopOf(statsData)
      ensures themes == old(themes) && currentThemeIndex == old(currentThemeIndex) && currentTheme == old(currentTheme)
      ensures isGuest == old(isGuest) && isRunning == old(isRunning) && displayItem == old(displayItem) && history == old(history)
    {
      statsData, topPick := ComputeStats(history, currentTheme.name);
    }

    /** `refreshCurrentTheme`: shows the selected theme. */
    method RefreshCurrentTheme()
      requires currentThemeIndex < |themes|
      modifies this
      ensures themes == old(themes) && currentThemeIndex == old(currentThemeIndex)
      ensures currentTheme == themes[currentThemeIndex] && displayItem == "???"
      ensures statsData == Stats(history, currentTheme.name) && topPick == TopOf(statsData)
      ensures isGuest == old(isGuest) && isRunning == old(isRunning) && history == old(history)
    {
      currentTheme := themes[currentThemeIndex];
      displayItem := "???";
      UpdateStats();
    }

    /** `switchTheme`: shows the theme tapped in the menu. */
    method SwitchTheme(index: nat)
      requires Valid() && !isGuest && index < |themes|
      modifies this
      ensures themes == old(themes) && history == old(history) && isGuest == old(isGuest)
      ensures Valid() && currentThemeIndex == index && currentTheme == themes[index]
      ensures isRunning == old(isRunning) && displayItem == "???"
    {
      currentThemeIndex := index;
      RefreshCurrentTheme();
    }

    /** `start`: refuses an empty theme, otherwise sets the wheel running. */
    method Start()
      requires Valid()
      modifies this
      ensures Valid()
      ensures isRunning == (old(isRunning) || |currentTheme.items| > 0)
      ensures themes == old(themes) && currentThemeIndex == old(currentThemeIndex) && currentTheme == old(currentTheme)
      ensures isGuest == old(isGuest) && history == old(history) && displayItem == old(displayItem)
    {
      if |currentTheme.items| == 0 {
        return;
      }
      isRunning := true;
    }

    /** `stop` with the draw `r` and the clock `now`: shows the item drawn
        and records it first in the history, which keeps its newest 500
        records. */
    method Stop(r: int, now: int)
      requires Valid() && |currentTheme.items| > 0 && 0 <= r < TotalWeight(currentTheme.items)
      modifies this
      ensures themes == old(themes) && currentThemeIndex == old(currentThemeIndex) && currentTheme == old(currentTheme)
      ensures isGuest == old(isGuest)
      ensures Valid() && !isRunning
      ensures displayItem == old(currentTheme.items[PickIndex(currentTheme.items, r)].name)
      ensures history == Prepend(Record(currentTheme.name, displayItem, now), old(history))
    {
      isRunning := false;
      var finalItemName := WeightedResult(currentTheme.items, r);
      displayItem := finalItemName;
      history := Prepend(Record(currentTheme.name, finalItemName, now), history);
      UpdateStats();
    }

    /** `clearHistory` after confirmation: drops the current theme's records
        and keeps the others in order. */
    method ClearHistory()
      requires Valid()
      modifies this
      ensures Valid()
      ensures history == Filter(old(history), NotOfTheme(currentTheme.name))
      ensures statsData == [] && topPick == None
      ensures themes == old(themes) && currentThemeIndex == old(currentThemeIndex) && currentTheme == old(currentTheme)
      ensures isGuest == old(isGuest) && isRunning == old(isRunning) && displayItem == old(displayItem)
    {
      history := Filter(history, NotOfTheme(currentTheme.name));
      ClearedStats(old(history), currentTheme.name, currentTheme.name);
      UpdateStats();
    }

    /** `changeWeight`: the action sheet's entry `tapIndex` sets the item's
        weight to `tapIndex + 1`. */
    method ChangeWeight(itemIndex: nat, tapIndex: nat)
      requires Valid() && !isGuest && itemIndex < |currentTheme.items| && tapIndex < 5
      modifies this
      ensures Valid()
      ensures currentThemeIndex == old(currentThemeIndex) && history == old(history) && isGuest == old(isGuest)
      ensures var t := old(themes[currentThemeIndex]);
              themes == old(themes)[currentThemeIndex := t.(items := t.items[itemIndex := t.items[itemIndex].(weight := tapIndex + 1)])]
      ensures isRunning == old(isRunning) && displayItem == "???"
    {
      var t := themes[currentThemeIndex];
      var items := t.items[itemIndex := t.items[itemIndex].(weight := tapIndex + 1)];
      assert WeightsOk(items);
      themes := themes[currentThemeIndex := t.(items := items)];
      RefreshCurrentTheme();
    }

    /** `addItem`: the trimmed input is added in front with weight 1,
        unless it is empty or already an item's name. */
    method AddItem(input: string)
      requires Valid() && !isGuest
      modifies this
      ensures Valid()
      ensures currentThemeIndex == old(currentThemeIndex) && history == old(history) && isGuest == old(isGuest)
      ensures var t := old(themes[currentThemeIndex]);
              var v := Trim(input);
              themes == if v == "" || exists i :: 0 <= i < |t.items| && t.items[i].name == v then old(themes)
                        else old(themes)[currentThemeIndex := t.(items := [Item(v, 1)] + t.items)]
      ensures isRunning == old(isRunning)
      ensures displayItem == if themes == old(themes) then old(displayItem) else "???"
    {
      var v := Trim(input);
      if v == "" {
        return;
      }
      var t := themes[currentThemeIndex];
      if exists i :: 0 <= i < |t.items| && t.items[i].name == v {
        return;
      }
      var items := [Item(v, 1)] + t.items;
      assert WeightsOk(items) by {
        forall i | 1 <= i < |items| ensures items[i].weight >= 1 {
          assert items[i] == t.items[i - 1];
        }
      }
      themes := themes[currentThemeIndex := t.(items := items)];
      RefreshCurrentTheme();
    }

    /** `deleteItem`: removes the item at `itemIndex`. */
    method DeleteItem(itemIndex: nat)
      requires Valid() && !isGuest && itemIndex < |currentTheme.items|
      modifies this
      ensures Valid()
      ensures currentThemeIndex == old(currentThemeIndex) && history == old(history) && isGuest == old(isGuest)
      ensures var t := old(themes[currentThemeIndex]);
              themes == old(themes)[currentThemeIndex := t.(items := t.items[..itemIndex] + t.items[itemIndex + 1..])]
      ensures isRunning == old(isRunning) && displayItem == "???"
    {
      var t := themes[currentThemeIndex];
      var items := t.items[..itemIndex] + t.items[itemIndex + 1..];
      assert WeightsOk(items) by {
        forall i | 0 <= i < |items| ensures items[i].weight >= 1 {
          if i < itemIndex {
            assert items[i] == t.items[i];
          } else {
            assert items[i] == t.items[i + 1];
          }
        }
      }
      themes := themes[currentThemeIndex := t.(items := items)];
      RefreshCurrentTheme();
    }

    /** `addNewTheme`: appends an empty theme under the trimmed name, with
        the trimmed verb or "选"; an empty name is refused. */
    method AddNewTheme(name: string, verb: string)
      requires Valid() && !isGuest
      modifies this
      ensures Valid()
      ensures var n := Trim(name);
              var v := if Trim(verb) == "" then "选" else Trim(verb);
              themes == if n == "" then old(themes) else old(themes) + [Theme(n, "✨", v, [])]
      ensures currentThemeIndex == old(currentThemeIndex) && currentTheme == old(currentTheme)
      ensures history == old(history) && isGuest == old(isGuest)
      ensures isRunning == old(isRunning) && displayItem == old(displayItem)
    {
      var n := Trim(name);
      if n == "" {
        return;
      }
      var v := if Trim(verb) == "" then "选" else Trim(verb);
      themes := themes + [Theme(n, "✨", v, [])];
    }

    /** `deleteTheme` after confirmation: removes the current theme, falls
        back to the defaults when none is left, and selects the first. */
    method DeleteTheme()
      requires Valid() && !isGuest
      modifies this
      ensures Valid()
      ensures var rest := old(themes[..currentThemeIndex] + themes[currentThemeIndex + 1..]);
              themes == if rest == [] then DefaultThemes() else rest
      ensures currentThemeIndex == 0 && currentTheme == themes[0]
      ensures history == old(history) && isGuest == old(isGuest)
      ensures isRunning == old(isRunning) && displayItem == "???"
    {
      var rest := themes[..currentThemeIndex] + themes[currentThemeIndex + 1..];
      DefaultThemesOk();
      assert AllWeightsOk(rest) by {
        forall i | 0 <= i < |rest| ensures WeightsOk(rest[i].items) {
          if i < currentThemeIndex {
            assert rest[i] == themes[i];
          } else {
            assert rest[i] == themes[i + 1];
          }
        }
      }
      themes := if rest == [] then DefaultThemes() else rest;
      currentThemeIndex := 0;
      RefreshCurrentTheme();
    }

    /** `saveSharedTheme` with the stored theme list (`None` when nothing is
        stored): refuses a theme whose name is taken, otherwise appends the
        shown theme and selects it. */
    method SaveSharedTheme(stored: Option<seq<Theme>>)
      requires Valid()
      requires stored.Some? ==> AllWeightsOk(stored.value)
      modifies this
      ensures Valid()
      ensures var my := if stored.None? then DefaultThemes() else stored.value;
              if exists i :: 0 <= i < |my| && my[i].name == old(currentTheme).name then
                themes == old(themes) && currentThemeIndex == old(currentThemeIndex) && isGuest == old(isGuest)
              else
                themes == my + [old(currentTheme)] && currentThemeIndex == |my| && !isGuest
      ensures currentTheme == old(currentTheme) && history == old(history)
      ensures isRunning == old(isRunning) && displayItem == old(displayItem)
    {
      DefaultThemesOk();
      var my := if stored.None? then DefaultThemes() else stored.value;
      if exists i :: 0 <= i < |my| && my[i].name == currentTheme.name {
        return;
      }
      my := my + [currentTheme];
      assert AllWeightsOk(my) by {
        forall i | 0 <= i < |my| ensures WeightsOk(my[i].items) {
        }
      }
      isGuest := false;
      themes := my;
      currentThemeIndex := |my| - 1;
      UpdateStats();
    }
  }

  /** `addItem` keeps a theme's item names distinct. */
  lemma AddItemKeepsNamesDistinct(items: seq<Item>, v: string)
    requires forall i, j :: 0 <= i < j < |items| ==> items[i].name != items[j].name
    requires forall i :: 0 <= i < |items| ==> items[i].name != v
    ensures var r := [Item(v, 1)] + items;
            forall i, j :: 0 <= i < j < |r| ==> r[i].name != r[j].name
  {
    var r := [Item(v, 1)] + items;
    forall i, j | 0 <= i < j < |r| ensures r[i].name != r[j].name {
      assert r[j] == items[j - 1];
      if i > 0 {
        assert r[i] == items[i - 1];
      }
    }
  }
}
