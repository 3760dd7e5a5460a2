/** The month view of a generated plan: the colour seed of each menu item,
    the stable ordering of a day's entries by meal number, and the flat list
    of calendar cells, one per slot of the week grid. */
module CalendarView {
  import opened Text
  import opened PlanFormat

  // ------------------------------------------------------------- palette

  /** The hue seed of an item id: ((id * 9301 + 49297) mod 233280) mod 360.
      The modulus is positive, so Python's floored % and Dafny's % agree. */
  function HueOf(itmId: int): (h: int)
    ensures 0 <= h < 360
  {
    ((itmId * 9301 + 49297) % 233280) % 360
  }

  lemma {:induction false} ModShift(a: int, k: nat)
    ensures (a + 233280 * k) % 233280 == a % 233280
  {
    if k > 0 {
      ModShift(a, k - 1);
      assert a + 233280 * k == (a + 233280 * (k - 1)) + 233280;
    }
  }

  /** Ids that differ by a multiple of the generator's modulus get the same
      colour. */
  lemma HuePeriodic(itmId: int, k: nat)
    ensures HueOf(itmId + 233280 * k) == HueOf(itmId)
  {
    var a := itmId * 9301 + 49297;
    assert (itmId + 233280 * k) * 9301 + 49297 == a + 233280 * (9301 * k);
    ModShift(a, 9301 * k);
  }

  /** The palette as a value: every id of the set, and only those, mapped to
      its hue. */
  function PaletteOf(ids: set<nat>): (p: map<nat, int>)
    ensures p.Keys == ids
  {
    map i | i in ids :: HueOf(i)
  }

  /** palette_for_item_ids, with the HSL to hex conversion left out: the
      colour of an item is represented by its hue seed. */
  method PaletteFor(ids: set<nat>) returns (palette: map<nat, int>)
    ensures palette.Keys == ids
    ensures forall i :: i in palette ==> 0 <= palette[i] < 360 && palette[i] == HueOf(i)
  {
    palette := map[];
    var rest := ids;
    while rest != {}
      invariant rest <= ids
      invariant palette.Keys == ids - rest
      invariant forall i :: i in palette ==> palette[i] == HueOf(i)
      decreases rest
    {
      var i :| i in rest;
      palette := palette[i := HueOf(i)];
      rest := rest - {i};
    }
  }

  // ------------------------------------------------- stable sort by meal

  predicate SortedByMeal(es: seq<Entry>)
  {
    forall i, j :: 0 <= i < j < |es| ==> es[i].meal <= es[j].meal
  }

  /** The entries whose meal number is m, in their order. */
  function WithMeal(es: seq<Entry>, m: int): seq<Entry>
  {
    if |es| == 0 then []
    else (if es[0].meal == m then [es[0]] else []) + WithMeal(es[1..], m)
  }

  /** Insert x in front of the first entry whose meal number is not smaller. */
  function InsertByMeal(x: Entry, s: seq<Entry>): (r: seq<Entry>)
    ensures multiset(r) == multiset(s) + multiset{x}
    ensures |r| > 0 && (r[0] == x || (|s| > 0 && r[0] == s[0]))
  {
    if |s| == 0 || x.meal <= s[0].meal then [x] + s
    else
      assert s == [s[0]] + s[1..];
      [s[0]] + InsertByMeal(x, s[1..])
  }

  lemma {:induction false} InsertSorted(x: Entry, s: seq<Entry>)
    requires SortedByMeal(s)
    ensures SortedByMeal(InsertByMeal(x, s))
  {
    if |s| > 0 && x.meal > s[0].meal {
      var t := InsertByMeal(x, s[1..]);
      InsertSorted(x, s[1..]);
      forall j | 0 <= j < |t| ensures s[0].meal <= t[j].meal {
        assert t[j] in multiset(t);
        assert t[j] == x || t[j] in multiset(s[1..]);
        if t[j] != x {
          var k :| 0 <= k < |s[1..]| && s[1..][k] == t[j];
          assert s[k + 1] == t[j];
        }
      }
    }
  }

  /** sorted(entries, key=meal): insertion sort from the back, so that an
      earlier entry is placed before every later one with the same number. */
  function SortByMeal(es: seq<Entry>): (r: seq<Entry>)
    ensures multiset(r) == multiset(es)
  {
    if |es| == 0 then []
    else
      assert es == [es[0]] + es[1..];
      InsertByMeal(es[0], SortByMeal(es[1..]))
  }

  lemma {:induction false} SortByMealSorted(es: seq<Entry>)
    ensures SortedByMeal(SortByMeal(es))
  {
    if |es| > 0 {
      SortByMealSorted(es[1..]);
      InsertSorted(es[0], SortByMeal(es[1..]));
    }
  }

  lemma {:induction false} InsertKeepsOrder(x: Entry, s: seq<Entry>, m: int)
    ensures WithMeal(InsertByMeal(x, s), m) == (if x.meal == m then [x] else []) + WithMeal(s, m)
  {
    if |s| == 0 || x.meal <= s[0].meal {
      assert ([x] + s)[1..] == s;
    } else {
      InsertKeepsOrder(x, s[1..], m);
      var t := InsertByMeal(x, s[1..]);
      assert ([s[0]] + t)[1..] == t;
    }
  }

  /** The sort is stable: the entries of any one meal number come out in the
      order they went in. */
  lemma {:induction false} SortByMealStable(es: seq<Entry>, m: int)
    ensures WithMeal(SortByMeal(es), m) == WithMeal(es, m)
  {
    if |es| > 0 {
      SortByMealStable(es[1..], m);
      InsertKeepsOrder(es[0], SortByMeal(es[1..]), m);
    }
  }

  // ----------------------------------------------------------- the cells

  /** A menu item as loaded for the calendar; only its id is inspected, the
      rest is carried to the page unchanged. */
  datatype Item = Item(itmId: nat, name: string)

  /** The colour of a meal: the item's hue seed, or the fixed fallback
      "#7aa2f7" when the palette has no entry for it. */
  datatype Colour = HueColour(hue: int) | DefaultColour

  datatype Meal = Meal(meal: int, item: Item, colour: Colour)

  /** A padding slot ({"day": 0}) or a day of the month with its meals. */
  datatype Cell = Padding | Day(day: nat, meals: seq<Meal>)

  function ColourFor(palette: map<nat, int>, itm: Item): Colour
  {
    if itm.itmId in palette then HueColour(palette[itm.itmId]) else DefaultColour
  }

  /** The meals shown for a list of entries: an entry whose item is unknown
      is dropped. */
  function MealsOf(es: seq<Entry>, items: map<nat, Item>, palette: map<nat, int>): (ms: seq<Meal>)
    ensures |ms| <= |es|
  {
    if |es| == 0 then []
    else
      var e := es[|es| - 1];
      MealsOf(es[..|es| - 1], items, palette)
        + (if e.itmId in items then [Meal(e.meal, items[e.itmId], ColourFor(palette, items[e.itmId]))] else [])
  }

  method CollectMeals(es: seq<Entry>, items: map<nat, Item>, palette: map<nat, int>)
    returns (meals: seq<Meal>)
    ensures meals == MealsOf(es, items, palette)
  {
    meals := [];
    var k := 0;
    while k < |es|
      invariant 0 <= k <= |es|
      invariant meals == MealsOf(es[..k], items, palette)
    {
      var e := es[k];
      assert es[..k + 1][..k] == es[..k];
      if e.itmId in items {
        var itm := items[e.itmId];
        meals := meals + [Meal(e.meal, itm, ColourFor(palette, itm))];
      }
      k := k + 1;
    }
    assert es[..k] == es;
  }

  /** Zero-padded decimal as Python's format spec "0<w>d" writes it. */
  function ZeroFill(s: string, w: int): string
  {
    if |s| >= w then s else seq(w - |s|, _ => '0') + s
  }

  /** The padding is zeros in front of the unchanged digits. */
  lemma ZeroFillShape(s: string, w: int)
    ensures |ZeroFill(s, w)| >= |s| && |ZeroFill(s, w)| >= w
    ensures |s| <= w ==> |ZeroFill(s, w)| == w
    ensures ZeroFill(s, w)[|ZeroFill(s, w)| - |s|..] == s
    ensures forall i :: 0 <= i < |ZeroFill(s, w)| - |s| ==> ZeroFill(s, w)[i] == '0'
  {
  }

  function PadInt(n: int, w: int): string
  {
    if n < 0 then "-" + ZeroFill(NatToString(-n), w - 1) else ZeroFill(NatToString(n), w)
  }

  /** The day's key, f"{year:04d}-{month:02d}-{d:02d}". */
  function IsoDate(year: int, month: int, d: int): (r: string)
    ensures |r| >= 10
  {
    PadInt(year, 4) + "-" + PadInt(month, 2) + "-" + PadInt(d, 2)
  }

  function DayEntries(genMap: map<string, seq<Entry>>, iso: string): seq<Entry>
  {
    if iso in genMap then genMap[iso] else []
  }

  /** The cell of one slot of the week grid. */
  function DayCell(genMap: map<string, seq<Entry>>, year: int, month: int, d: nat,
                   items: map<nat, Item>, palette: map<nat, int>): (c: Cell)
    ensures c.Padding? <==> d == 0
    ensures c.Day? ==> c.day == d
  {
    if d == 0 then Padding
    else Day(d, MealsOf(SortByMeal(DayEntries(genMap, IsoDate(year, month, d))), items, palette))
  }

  /** The slots of the week grid in reading order. */
  function Flatten(weeks: seq<seq<nat>>): seq<nat>
  {
    if |weeks| == 0 then [] else Flatten(weeks[..|weeks| - 1]) + weeks[|weeks| - 1]
  }

  /** The cells of a run of slots, one per slot. */
  function CellsOf(days: seq<nat>, genMap: map<string, seq<Entry>>, year: int, month: int,
                   items: map<nat, Item>, palette: map<nat, int>): (cs: seq<Cell>)
    ensures |cs| == |days|
  {
    seq(|days|, k requires 0 <= k < |days| => DayCell(genMap, year, month, days[k], items, palette))
  }

  /** The k-th cell is the cell of the k-th slot. */
  lemma CellAt(days: seq<nat>, genMap: map<string, seq<Entry>>, year: int, month: int,
               items: map<nat, Item>, palette: map<nat, int>, k: nat)
    requires k < |days|
    ensures CellsOf(days, genMap, year, month, items, palette)[k]
            == DayCell(genMap, year, month, days[k], items, palette)
  {
  }

  lemma CellsOfAppend(a: seq<nat>, b: seq<nat>, genMap: map<string, seq<Entry>>,
                      year: int, month: int, items: map<nat, Item>, palette: map<nat, int>)
    ensures CellsOf(a + b, genMap, year, month, items, palette)
            == CellsOf(a, genMap, year, month, items, palette) + CellsOf(b, genMap, year, month, items, palette)
  {
    var l := CellsOf(a + b, genMap, year, month, items, palette);
    var ca := CellsOf(a, genMap, year, month, items, palette);
    var cb := CellsOf(b, genMap, year, month, items, palette);
    forall k | 0 <= k < |l| ensures l[k] == (ca + cb)[k] {
      CellAt(a + b, genMap, year, month, items, palette, k);
      if k < |a| {
        CellAt(a, genMap, year, month, items, palette, k);
        assert (a + b)[k] == a[k];
      } else {
        CellAt(b, genMap, year, month, items, palette, k - |a|);
        assert (a + b)[k] == b[k - |a|];
      }
    }
  }

  /** The body of the inner loop: one slot's cell. */
  method SlotCell(genMap: map<string, seq<Entry>>, year: int, month: int, d: nat,
                  items: map<nat, Item>, palette: map<nat, int>)
    returns (cell: Cell)
    ensures cell == DayCell(genMap, year, month, d, items, palette)
  {
    if d == 0 {
      cell := Padding;
    } else {
      var iso := IsoDate(year, month, d);
      var entries := SortByMeal(if iso in genMap then genMap[iso] else []);
      var meals := CollectMeals(entries, items, palette);
      cell := Day(d, meals);
    }
  }

  /** The inner loop over the slots of one week. */
  method WeekCells(genMap: map<string, seq<Entry>>, year: int, month: int, week: seq<nat>,
                   items: map<nat, Item>, palette: map<nat, int>)
    returns (cells: seq<Cell>)
    ensures cells == CellsOf(week, genMap, year, month, items, palette)
  {
    cells := [];
    var j := 0;
    while j < |week|
      invariant 0 <= j <= |week| && |cells| == j
      invariant forall k :: 0 <= k < j ==> cells[k] == DayCell(genMap, year, month, week[k], items, palette)
    {
      var c := SlotCell(genMap, year, month, week[j], items, palette);
      cells := cells + [c];
      j := j + 1;
    }
  }

  /** build_calendar_cells over a week grid given as input (the rows of
      calendar.monthdayscalendar with Sunday first, 0 for a padding slot):
      one cell per slot, in order, each as DayCell describes it, with the
      palette of every known item. */
  method BuildCalendarCells(genMap: map<string, seq<Entry>>, year: int, month: int,
                            weeks: seq<seq<nat>>, items: map<nat, Item>)
    returns (cells: seq<Cell>)
    ensures |cells| == |Flatten(weeks)|
    ensures forall k :: 0 <= k < |cells| ==>
              cells[k] == DayCell(genMap, year, month, Flatten(weeks)[k], items, PaletteOf(items.Keys))
  {
    var palette := PaletteFor(items.Keys);
    assert palette == PaletteOf(items.Keys);
    cells := [];
    var w := 0;
    while w < |weeks|
      invariant 0 <= w <= |weeks|
      invariant cells == CellsOf(Flatten(weeks[..w]), genMap, year, month, items, palette)
    {
      var cs := WeekCells(genMap, year, month, weeks[w], items, palette);
      assert weeks[..w + 1][..w] == weeks[..w];
      CellsOfAppend(Flatten(weeks[..w]), weeks[w], genMap, year, month, items, palette);
      cells := cells + cs;
      w := w + 1;
    }
    assert weeks[..w] == weeks;
  }

  // ---------------------------------------------- what a day cell shows

  /** A meal whose item is known and shown in that item's own hue. */
  predicate OwnHue(items: map<nat, Item>, x: Meal)
  {
    x.item.itmId in items && x.colour == HueColour(HueOf(x.item.itmId))
  }

  /** With the palette built from the item map's own keys, and every item
      filed under its own id, each meal gets its item's hue: the fallback
      colour is never shown. */
  lemma {:induction false} MealColours(es: seq<Entry>, items: map<nat, Item>)
    requires forall k :: k in items ==> items[k].itmId == k
    ensures forall j :: 0 <= j < |MealsOf(es, items, PaletteOf(items.Keys))| ==>
      OwnHue(items, MealsOf(es, items, PaletteOf(items.Keys))[j])
    decreases |es|
  {
    if |es| > 0 {
      var e := es[|es| - 1];
      var palette := PaletteOf(items.Keys);
      var prev := MealsOf(es[..|es| - 1], items, palette);
      MealColours(es[..|es| - 1], items);
      if e.itmId in items {
        var itm := items[e.itmId];
        assert itm.itmId == e.itmId && palette[itm.itmId] == HueOf(itm.itmId);
        var x := Meal(e.meal, itm, ColourFor(palette, itm));
        assert OwnHue(items, x);
        assert MealsOf(es, items, palette) == prev + [x];
      } else {
        assert MealsOf(es, items, palette) == prev;
      }
    }
  }

  /** The items of the meals numbered m, in order. */
  function MealItems(ms: seq<Meal>, m: int): seq<Item>
  {
    if |ms| == 0 then []
    else
      var x := ms[|ms| - 1];
      MealItems(ms[..|ms| - 1], m) + (if x.meal == m then [x.item] else [])
  }

  /** The items of the entries whose item is known, in order. */
  function ItemsOfKnown(es: seq<Entry>, items: map<nat, Item>): seq<Item>
  {
    if |es| == 0 then []
    else
      var e := es[|es| - 1];
      ItemsOfKnown(es[..|es| - 1], items) + (if e.itmId in items then [items[e.itmId]] else [])
  }

  lemma {:induction false} WithMealSnoc(a: seq<Entry>, x: Entry, m: int)
    ensures WithMeal(a + [x], m) == WithMeal(a, m) + (if x.meal == m then [x] else [])
  {
    if |a| > 0 {
      assert (a + [x])[1..] == a[1..] + [x];
      WithMealSnoc(a[1..], x, m);
    } else {
      assert a + [x] == [x];
    }
  }

  lemma {:induction false} MealItemsOfMeals(xs: seq<Entry>, items: map<nat, Item>,
                                            palette: map<nat, int>, m: int)
    ensures MealItems(MealsOf(xs, items, palette), m) == ItemsOfKnown(WithMeal(xs, m), items)
  {
    if |xs| > 0 {
      var a := xs[..|xs| - 1];
      var x := xs[|xs| - 1];
      MealItemsOfMeals(a, items, palette, m);
      assert xs == a + [x];
      WithMealSnoc(a, x, m);
      var p := MealsOf(a, items, palette);
      if x.itmId in items {
        var y := Meal(x.meal, items[x.itmId], ColourFor(palette, items[x.itmId]));
        assert (p + [y])[..|p|] == p;
      } else {
        assert p + [] == p;
      }
      var w := WithMeal(a, m);
      if x.meal == m {
        assert (w + [x])[..|w|] == w;
      } else {
        assert w + [] == w;
      }
    }
  }

  lemma {:induction false} MealsOfBound(xs: seq<Entry>, items: map<nat, Item>,
                                        palette: map<nat, int>, b: int)
    requires forall i :: 0 <= i < |xs| ==> xs[i].meal <= b
    ensures forall j :: 0 <= j < |MealsOf(xs, items, palette)| ==> MealsOf(xs, items, palette)[j].meal <= b
  {
    if |xs| > 0 {
      MealsOfBound(xs[..|xs| - 1], items, palette, b);
    }
  }

  lemma {:induction false} MealsOfSorted(xs: seq<Entry>, items: map<nat, Item>, palette: map<nat, int>)
    requires SortedByMeal(xs)
    ensures forall i, j :: 0 <= i < j < |MealsOf(xs, items, palette)| ==>
              MealsOf(xs, items, palette)[i].meal <= MealsOf(xs, items, palette)[j].meal
  {
    if |xs| > 0 {
      var a := xs[..|xs| - 1];
      MealsOfSorted(a, items, palette);
      MealsOfBound(a, items, palette, xs[|xs| - 1].meal);
    }
  }

  /** The entries of one day's plan whose item is known, numbered m, in plan
      order. */
  function KnownItems(es: seq<Entry>, items: map<nat, Item>, m: int): seq<Item>
  {
    ItemsOfKnown(WithMeal(es, m), items)
  }

  /** A slot with a day number shows that day, its meals ordered by meal
      number, and for every meal number exactly the known items the plan
      lists for that date under that number, in plan order; entries with an
      unknown item are dropped and nothing else is. A padding slot shows no
      day. */
  lemma DayCellMeals(genMap: map<string, seq<Entry>>, year: int, month: int, d: nat,
                     items: map<nat, Item>, palette: map<nat, int>, m: int)
    ensures d == 0 <==> DayCell(genMap, year, month, d, items, palette) == Padding
    ensures d > 0 ==>
              DayCell(genMap, year, month, d, items, palette).Day? &&
              DayCell(genMap, year, month, d, items, palette).day == d
    ensures d > 0 ==>
      var ms := DayCell(genMap, year, month, d, items, palette).meals;
      && (forall i, j :: 0 <= i < j < |ms| ==> ms[i].meal <= ms[j].meal)
      && MealItems(ms, m) == KnownItems(DayEntries(genMap, IsoDate(year, month, d)), items, m)
  {
    if d > 0 {
      var es := DayEntries(genMap, IsoDate(year, month, d));
      SortByMealSorted(es);
      MealsOfSorted(SortByMeal(es), items, palette);
      MealItemsOfMeals(SortByMeal(es), items, palette, m);
      SortByMealStable(es, m);
    }
  }

  // ------------------------------------------ calendar keys and the plan

  function Pow10(w: nat): nat
  {
    if w == 0 then 1 else 10 * Pow10(w - 1)
  }

  lemma {:induction false} NatToStringWidth(n: nat, w: nat)
    requires w >= 1 && n < Pow10(w)
    ensures |NatToString(n)| <= w
  {
    if n >= 10 {
      NatToStringWidth(n / 10, w - 1);
    }
  }

  lemma PadIntDigits(n: nat, w: nat)
    requires w >= 1 && n < Pow10(w)
    ensures |PadInt(n, w)| == w && AllDigits(PadInt(n, w))
  {
    NatToStringWidth(n, w);
    var s := NatToString(n);
    var r := PadInt(n, w);
    ZeroFillShape(s, w);
    forall i | 0 <= i < w ensures IsDigit(r[i]) {
      if i >= w - |s| {
        assert r[i] == r[w - |s|..][i - (w - |s|)];
      }
    }
  }

  /** The key the calendar looks up for a day of a year 0..9999 is a date the
      plan format can carry. */
  lemma IsoDateShape(year: nat, month: nat, d: nat)
    requires year < 10000 && month < 100 && d < 100
    ensures IsDateShape(IsoDate(year, month, d))
  {
    PadIntDigits(year, 4);
    PadIntDigits(month, 2);
    PadIntDigits(d, 2);
    var y := PadInt(year, 4);
    var mo := PadInt(month, 2);
    var dd := PadInt(d, 2);
    var s := IsoDate(year, month, d);
    assert s == y + "-" + mo + "-" + dd;
    assert s[0] == y[0] && s[1] == y[1] && s[2] == y[2] && s[3] == y[3];
    assert s[5] == mo[0] && s[6] == mo[1] && s[8] == dd[0] && s[9] == dd[1];
  }
}
