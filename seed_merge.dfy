/** The seeding script that merges a backup database into a copy of the
    current one. Every table merge walks the source rows in order and inserts
    a row only when its de-duplication key is neither in the destination nor
    the key of a source row met earlier in the same run; it counts inserted
    and skipped rows and, for some tables, records which destination id each
    source id now corresponds to. Tables are sequences of rows in rowid
    order, and a merge only ever appends to them. */
module SeedMerge {
  import opened Text

  /** The columns of a row other than its integer primary key, for each of
      the six merged tables. `profile` and `figures` stand for the columns a
      merge copies unchanged (names, password hash, address, hours, price,
      revenue, ...). */
  datatype Cols =
    | UserCols(email: string, profile: seq<string>)
    | RestaurantCols(email: string, profile: seq<string>)
    | ItemCols(rtrId: nat, name: string, profile: seq<string>)
    | OrderCols(usrId: nat, rtrId: nat, details: string, status: string)
    | ReviewCols(usrId: nat, rtrId: nat, rating: int, comment: string, timestamp: string)
    | AnalyticsCols(rtrId: nat, date: string, figures: seq<string>)

  /** A table row: its integer primary key and the remaining columns. */
  datatype Row = Row(id: nat, cols: Cols)

  /** The de-duplication key of each table: users and restaurants by email,
      menu items by (restaurant, name), orders and reviews by (user,
      restaurant), analytics by (restaurant, date). */
  datatype Key =
    | Email(email: string)
    | ItemKey(rtrId: nat, name: string)
    | UserRestaurant(usrId: nat, rtrId: nat)
    | RestaurantDate(rtrId: nat, date: string)

  function KeyOf(c: Cols): Key
  {
    match c
    case UserCols(e, _) => Email(e)
    case RestaurantCols(e, _) => Email(e)
    case ItemCols(r, n, _) => ItemKey(r, n)
    case OrderCols(u, r, _, _) => UserRestaurant(u, r)
    case ReviewCols(u, r, _, _, _) => UserRestaurant(u, r)
    case AnalyticsCols(r, d, _) => RestaurantDate(r, d)
  }

  /** Largest id in the table, 0 when it is empty. An INSERT without an
      explicit key gets one more than this (sqlite's rowid rule). */
  function MaxId(t: seq<Row>): nat
  {
    if t == [] then 0
    else
      var m0 := MaxId(t[..|t| - 1]);
      if t[|t| - 1].id > m0 then t[|t| - 1].id else m0
  }

  /** The keys present in a table. */
  function Keys(t: seq<Row>): set<Key>
  {
    if t == [] then {} else Keys(t[..|t| - 1]) + {KeyOf(t[|t| - 1].cols)}
  }

  /** The keys of a sequence of incoming rows. */
  function ColKeys(vs: seq<Cols>): set<Key>
  {
    if vs == [] then {} else ColKeys(vs[..|vs| - 1]) + {KeyOf(vs[|vs| - 1])}
  }

  /** No id in the table exceeds MaxId, so the next rowid is fresh. */
  lemma {:induction false} MaxIdBound(t: seq<Row>, i: nat)
    requires i < |t|
    ensures t[i].id <= MaxId(t) < MaxId(t) + 1
  {
    var n := |t| - 1;
    if i < n {
      MaxIdBound(t[..n], i);
    }
  }

  /** Every row's key is among the table's keys. */
  lemma {:induction false} KeysHas(t: seq<Row>, i: nat)
    requires i < |t|
    ensures KeyOf(t[i].cols) in Keys(t)
  {
    var n := |t| - 1;
    if i < n {
      KeysHas(t[..n], i);
    }
  }

  /** Every incoming row's key is among the incoming keys. */
  lemma {:induction false} ColKeysHas(vs: seq<Cols>, i: nat)
    requires i < |vs|
    ensures KeyOf(vs[i]) in ColKeys(vs)
  {
    var n := |vs| - 1;
    if i < n {
      ColKeysHas(vs[..n], i);
    }
  }

  /** No two rows of the table share a key. */
  predicate DistinctKeys(t: seq<Row>)
  {
    forall a, b :: 0 <= a < b < |t| ==> KeyOf(t[a].cols) != KeyOf(t[b].cols)
  }

  function IdsOf(src: seq<Row>): (ids: seq<nat>)
    ensures |ids| == |src|
  {
    seq(|src|, i requires 0 <= i < |src| => src[i].id)
  }

  function ColsOf(src: seq<Row>): (vs: seq<Cols>)
    ensures |vs| == |src|
  {
    seq(|src|, i requires 0 <= i < |src| => src[i].cols)
  }

  // ------------------------------------------------ what a merge computes

  /** The destination table after merging the incoming rows vs in order:
      a row whose key is already taken is skipped, any other is appended
      with the next rowid. */
  function MergedTable(t: seq<Row>, vs: seq<Cols>): (m: seq<Row>)
    ensures |t| <= |m| <= |t| + |vs|
  {
    if vs == [] then t
    else
      var m := MergedTable(t, vs[..|vs| - 1]);
      var c := vs[|vs| - 1];
      if KeyOf(c) in Keys(m) then m else m + [Row(MaxId(m) + 1, c)]
  }

  /** `SELECT id FROM T WHERE <key> = ?` then fetchone(): the id of the first
      row, in rowid order, that has the key. */
  function FirstWith(t: seq<Row>, k: Key): (r: Option<nat>)
    ensures r.Some? <==> k in Keys(t)
  {
    if t == [] then None
    else
      var n := |t| - 1;
      if k in Keys(t[..n]) then FirstWith(t[..n], k)
      else if KeyOf(t[n].cols) == k then Some(t[n].id)
      else None
  }

  /** The old -> new id map a merge builds: an inserted row's source id maps
      to its new rowid; with resolveSkipped a skipped row's source id maps to
      the row that holds its key at that point (merge_restaurants,
      merge_menu_items), otherwise skipped rows are not recorded
      (merge_orders). A later source row with the same source id overwrites
      an earlier one. */
  function MergeIdMap(t: seq<Row>, ids: seq<nat>, vs: seq<Cols>, resolveSkipped: bool): (r: map<nat, nat>)
    requires |ids| == |vs|
  {
    if vs == [] then map[]
    else
      var n := |vs| - 1;
      var prev := MergeIdMap(t, ids[..n], vs[..n], resolveSkipped);
      var m := MergedTable(t, vs[..n]);
      var k := KeyOf(vs[n]);
      if k !in Keys(m) then prev[ids[n] := MaxId(m) + 1]
      else if resolveSkipped && FirstWith(m, k).Some? then prev[ids[n] := FirstWith(m, k).value]
      else prev
  }

  /** One table merge: walk the source rows (their ids and the columns to
      insert, already remapped), insert each whose key is not yet in the
      key set, and add its key to the set; count inserted and skipped rows
      and record old -> new ids. */
  method MergeRows(t: seq<Row>, ids: seq<nat>, vs: seq<Cols>, resolveSkipped: bool)
    returns (merged: seq<Row>, inserted: nat, skipped: nat, idMap: map<nat, nat>)
    requires |ids| == |vs|
    ensures merged == MergedTable(t, vs)
    ensures |merged| == |t| + inserted && inserted + skipped == |vs|
    ensures idMap == MergeIdMap(t, ids, vs, resolveSkipped)
  {
    var existing := Keys(t);
    merged, inserted, skipped, idMap := t, 0, 0, map[];
    var i := 0;
    while i < |vs|
      invariant 0 <= i <= |vs|
      invariant MergeInv(t, ids, vs, resolveSkipped, i, existing, merged, inserted, skipped, idMap)
    {
      existing, merged, inserted, skipped, idMap :=
        MergeOne(t, ids, vs, resolveSkipped, i, existing, merged, inserted, skipped, idMap);
      i := i + 1;
    }
    assert vs[..|vs|] == vs && ids[..|vs|] == ids;
  }

  /** One pass of the merge loop over source row i: a new key is inserted
      with the next rowid and recorded in the key set and the id map; a
      known key is skipped, and with resolveSkipped its source id is mapped
      to the row found for the key. */
  method MergeOne(t: seq<Row>, ids: seq<nat>, vs: seq<Cols>, resolveSkipped: bool, i: nat,
                  existing: set<Key>, merged: seq<Row>, inserted: nat, skipped: nat, idMap: map<nat, nat>)
    returns (existing': set<Key>, merged': seq<Row>, inserted': nat, skipped': nat, idMap': map<nat, nat>)
    requires |ids| == |vs| && i < |vs|
    requires MergeInv(t, ids, vs, resolveSkipped, i, existing, merged, inserted, skipped, idMap)
    ensures MergeInv(t, ids, vs, resolveSkipped, i + 1, existing', merged', inserted', skipped', idMap')
  {
    var k := KeyOf(vs[i]);
    if k !in existing {
      var id := MaxId(merged) + 1;
      InsertKeeps(t, ids, vs, resolveSkipped, i, existing, merged, inserted, skipped, idMap, id);
      existing', merged', inserted', skipped', idMap' :=
        existing + {k}, merged + [Row(id, vs[i])], inserted + 1, skipped, idMap[ids[i] := id];
    } else {
      var found := FirstWith(merged, k);
      idMap' := if resolveSkipped && found.Some? then idMap[ids[i] := found.value] else idMap;
      SkipKeeps(t, ids, vs, resolveSkipped, i, existing, merged, inserted, skipped, idMap, idMap');
      existing', merged', inserted', skipped' := existing, merged, inserted, skipped + 1;
    }
  }

  /** What the merge loop keeps after i source rows: the table and the map
      are those of the walked prefix, the key set is the table's, and the
      counters add up. */
  ghost predicate MergeInv(t: seq<Row>, ids: seq<nat>, vs: seq<Cols>, resolveSkipped: bool, i: nat,
                           existing: set<Key>, merged: seq<Row>, inserted: nat, skipped: nat, idMap: map<nat, nat>)
    requires |ids| == |vs| && i <= |vs|
  {
    && merged == MergedTable(t, vs[..i]) && existing == Keys(merged)
    && |merged| == |t| + inserted && inserted + skipped == i
    && idMap == MergeIdMap(t, ids[..i], vs[..i], resolveSkipped)
  }

  lemma InsertKeeps(t: seq<Row>, ids: seq<nat>, vs: seq<Cols>, resolveSkipped: bool, i: nat,
                    existing: set<Key>, merged: seq<Row>, inserted: nat, skipped: nat, idMap: map<nat, nat>,
                    id: nat)
    requires |ids| == |vs| && i < |vs|
    requires MergeInv(t, ids, vs, resolveSkipped, i, existing, merged, inserted, skipped, idMap)
    requires KeyOf(vs[i]) !in existing && id == MaxId(merged) + 1
    ensures MergeInv(t, ids, vs, resolveSkipped, i + 1, existing + {KeyOf(vs[i])}, merged + [Row(id, vs[i])],
                     inserted + 1, skipped, idMap[ids[i] := id])
  {
    MergeStep(t, ids, vs, resolveSkipped, i);
    KeysSnoc(merged, Row(id, vs[i]));
  }

  lemma SkipKeeps(t: seq<Row>, ids: seq<nat>, vs: seq<Cols>, resolveSkipped: bool, i: nat,
                  existing: set<Key>, merged: seq<Row>, inserted: nat, skipped: nat, idMap: map<nat, nat>,
                  idMap': map<nat, nat>)
    requires |ids| == |vs| && i < |vs|
    requires MergeInv(t, ids, vs, resolveSkipped, i, existing, merged, inserted, skipped, idMap)
    requires KeyOf(vs[i]) in existing
    requires var found := FirstWith(merged, KeyOf(vs[i]));
      idMap' == if resolveSkipped && found.Some? then idMap[ids[i] := found.value] else idMap
    ensures MergeInv(t, ids, vs, resolveSkipped, i + 1, existing, merged, inserted, skipped + 1, idMap')
  {
    MergeStep(t, ids, vs, resolveSkipped, i);
  }

  /** How the merged table and the id map grow by one source row. */
  lemma MergeStep(t: seq<Row>, ids: seq<nat>, vs: seq<Cols>, resolveSkipped: bool, i: nat)
    requires |ids| == |vs| && i < |vs|
    ensures var m := MergedTable(t, vs[..i]);
      var prev := MergeIdMap(t, ids[..i], vs[..i], resolveSkipped);
      var k := KeyOf(vs[i]);
      && MergedTable(t, vs[..i + 1]) == (if k in Keys(m) then m else m + [Row(MaxId(m) + 1, vs[i])])
      && MergeIdMap(t, ids[..i + 1], vs[..i + 1], resolveSkipped)
         == if k !in Keys(m) then prev[ids[i] := MaxId(m) + 1]
            else if resolveSkipped && FirstWith(m, k).Some? then prev[ids[i] := FirstWith(m, k).value]
            else prev
  {
    assert vs[..i + 1][..i] == vs[..i] && ids[..i + 1][..i] == ids[..i];
  }

  lemma KeysSnoc(t: seq<Row>, row: Row)
    ensures Keys(t + [row]) == Keys(t) + {KeyOf(row.cols)}
  {
    assert (t + [row])[..|t|] == t;
  }

  /** Keys is exactly the set the script builds with a comprehension over
      the fetched rows. */
  lemma {:induction false} KeysComprehension(t: seq<Row>)
    ensures Keys(t) == set i | 0 <= i < |t| :: KeyOf(t[i].cols)
  {
    if t != [] {
      var n := |t| - 1;
      KeysComprehension(t[..n]);
      var s := set i | 0 <= i < |t| :: KeyOf(t[i].cols);
      forall k | k in s ensures k in Keys(t) {
        var i :| 0 <= i < |t| && KeyOf(t[i].cols) == k;
        if i < n {
          assert KeyOf(t[..n][i].cols) == k;
        }
      }
    }
  }

  // ------------------------------------------------ properties of a merge

  /** After a merge the table holds exactly the old keys and every incoming
      key: none is lost and none is invented. */
  lemma {:induction false} MergedKeys(t: seq<Row>, vs: seq<Cols>)
    ensures Keys(MergedTable(t, vs)) == Keys(t) + ColKeys(vs)
  {
    if vs != [] {
      var n := |vs| - 1;
      MergedKeys(t, vs[..n]);
      var m := MergedTable(t, vs[..n]);
      var row := Row(MaxId(m) + 1, vs[n]);
      assert (m + [row])[..|m|] == m;
    }
  }

  /** A merge only appends: the old rows keep their place, and the j-th
      appended row (from 0) gets rowid MaxId(t) + 1 + j, above every old id. */
  lemma {:induction false} MergedExtends(t: seq<Row>, vs: seq<Cols>)
    ensures var m := MergedTable(t, vs);
      && |t| <= |m| && m[..|t|] == t
      && MaxId(m) == MaxId(t) + (|m| - |t|)
      && forall j :: |t| <= j < |m| ==> m[j].id == MaxId(t) + 1 + (j - |t|)
  {
    if vs != [] {
      var n := |vs| - 1;
      MergedExtends(t, vs[..n]);
      var m := MergedTable(t, vs[..n]);
      var row := Row(MaxId(m) + 1, vs[n]);
      assert (m + [row])[..|m|] == m;
      assert (m + [row])[..|t|] == m[..|t|];
    }
  }

  /** The destination never ends up with two rows for one key: one email per
      user or restaurant, one review per (user, restaurant), and so on. */
  lemma {:induction false} MergedDistinct(t: seq<Row>, vs: seq<Cols>)
    requires DistinctKeys(t)
    ensures DistinctKeys(MergedTable(t, vs))
  {
    if vs != [] {
      var n := |vs| - 1;
      MergedDistinct(t, vs[..n]);
      var m := MergedTable(t, vs[..n]);
      var row := Row(MaxId(m) + 1, vs[n]);
      if KeyOf(vs[n]) !in Keys(m) {
        var m' := m + [row];
        forall a, b | 0 <= a < b < |m'| ensures KeyOf(m'[a].cols) != KeyOf(m'[b].cols) {
          assert m'[a] == m[a];
          KeysHas(m, a);
          if b < |m| {
            assert m'[b] == m[b];
          }
        }
      }
    }
  }

  /** Incoming row i is inserted: its key is not in the destination and no
      earlier incoming row has the same key (an earlier one was either
      inserted or skipped as a duplicate, and either way its key is taken). */
  predicate IsFirst(seen: set<Key>, vs: seq<Cols>, i: nat)
    requires i < |vs|
  {
    KeyOf(vs[i]) !in seen && KeyOf(vs[i]) !in ColKeys(vs[..i])
  }

  /** The indices of the inserted rows, in source order. */
  function Picked(seen: set<Key>, vs: seq<Cols>): (p: seq<nat>)
    ensures forall j :: 0 <= j < |p| ==> p[j] < |vs|
  {
    if vs == [] then []
    else
      var n := |vs| - 1;
      Picked(seen, vs[..n]) + (if IsFirst(seen, vs, n) then [n] else [])
  }

  /** Row i of the source is inserted exactly when it is the first with a key
      the destination does not have. */
  lemma {:induction false} PickedIff(seen: set<Key>, vs: seq<Cols>, i: nat)
    requires i < |vs|
    ensures i in Picked(seen, vs) <==> IsFirst(seen, vs, i)
  {
    var n := |vs| - 1;
    if i < n {
      PickedIff(seen, vs[..n], i);
      assert vs[..n][..i] == vs[..i];
    } else {
      assert i !in Picked(seen, vs[..n]);
    }
  }

  /** The merge appends, in source order, exactly the rows IsFirst picks:
      the j-th appended row (from 0) holds the columns of source row p[j]
      and rowid MaxId(t) + 1 + j. So the inserted count is the number of
      first occurrences of keys the destination lacks. */
  lemma {:induction false} MergedPicked(t: seq<Row>, vs: seq<Cols>)
    ensures var m := MergedTable(t, vs); var p := Picked(Keys(t), vs);
      && |m| == |t| + |p|
      && forall j :: 0 <= j < |p| ==> m[|t| + j] == Row(MaxId(t) + 1 + j, vs[p[j]])
  {
    if vs != [] {
      var n := |vs| - 1;
      MergedPicked(t, vs[..n]);
      MergedKeys(t, vs[..n]);
      MergedExtends(t, vs[..n]);
      PickedStep(t, vs);
    }
  }

  lemma PickedStep(t: seq<Row>, vs: seq<Cols>)
    requires vs != []
    requires var n := |vs| - 1; var m := MergedTable(t, vs[..n]); var p := Picked(Keys(t), vs[..n]);
      && |m| == |t| + |p|
      && (forall j :: 0 <= j < |p| ==> m[|t| + j] == Row(MaxId(t) + 1 + j, vs[..n][p[j]]))
      && Keys(m) == Keys(t) + ColKeys(vs[..n])
      && MaxId(m) == MaxId(t) + (|m| - |t|)
    ensures var m := MergedTable(t, vs); var p := Picked(Keys(t), vs);
      && |m| == |t| + |p|
      && forall j :: 0 <= j < |p| ==> m[|t| + j] == Row(MaxId(t) + 1 + j, vs[p[j]])
  {
    var n := |vs| - 1;
    var m := MergedTable(t, vs[..n]);
    var p := Picked(Keys(t), vs[..n]);
    if IsFirst(Keys(t), vs, n) {
      assert MergedTable(t, vs) == m + [Row(MaxId(m) + 1, vs[n])];
      assert Picked(Keys(t), vs) == p + [n];
      PickedAppend(t, vs, m, p);
    } else {
      assert MergedTable(t, vs) == m;
      assert Picked(Keys(t), vs) == p;
    }
  }

  /** The inserting case of PickedStep: the new row lands right after the
      rows already picked, with the next id. */
  lemma PickedAppend(t: seq<Row>, vs: seq<Cols>, m: seq<Row>, p: seq<nat>)
    requires vs != [] && |m| == |t| + |p| && MaxId(m) == MaxId(t) + (|m| - |t|)
    requires forall j :: 0 <= j < |p| ==> p[j] < |vs| - 1
    requires forall j :: 0 <= j < |p| ==> m[|t| + j] == Row(MaxId(t) + 1 + j, vs[..|vs| - 1][p[j]])
    ensures var m' := m + [Row(MaxId(m) + 1, vs[|vs| - 1])]; var p' := p + [|vs| - 1];
      forall j :: 0 <= j < |p'| ==> m'[|t| + j] == Row(MaxId(t) + 1 + j, vs[p'[j]])
  {
    var n := |vs| - 1;
    var m' := m + [Row(MaxId(m) + 1, vs[n])];
    forall j | 0 <= j < |p| + 1 ensures m'[|t| + j] == Row(MaxId(t) + 1 + j, vs[(p + [n])[j]]) {
      if j < |p| {
        assert m'[|t| + j] == m[|t| + j];
        assert vs[..n][p[j]] == vs[p[j]];
      }
    }
  }

  /** Appending one row changes the lookup only of a key it brings in. */
  lemma FirstWithSnoc(t: seq<Row>, row: Row, k: Key)
    ensures FirstWith(t + [row], k) == if k in Keys(t) then FirstWith(t, k)
                                       else if KeyOf(row.cols) == k then Some(row.id) else None
  {
    assert (t + [row])[..|t|] == t;
  }

  /** A key the destination already has keeps resolving to the destination's
      own row after the merge: a skipped restaurant or menu item maps to the
      row that was there before. */
  lemma {:induction false} FirstWithMerged(t: seq<Row>, vs: seq<Cols>, k: Key)
    requires k in Keys(t)
    ensures FirstWith(MergedTable(t, vs), k) == FirstWith(t, k)
  {
    if vs != [] {
      var n := |vs| - 1;
      FirstWithMerged(t, vs[..n], k);
      MergedKeys(t, vs[..n]);
      var m := MergedTable(t, vs[..n]);
      FirstWithSnoc(m, Row(MaxId(m) + 1, vs[n]), k);
    }
  }

  /** `SELECT id FROM T WHERE <key> = ?` for each incoming row against a
      fixed table; a later source row with the same source id overwrites an
      earlier one, and a key not found records nothing. */
  function LookupMap(t: seq<Row>, ids: seq<nat>, vs: seq<Cols>): (r: map<nat, nat>)
    requires |ids| == |vs|
    ensures |r| <= |vs|
  {
    if vs == [] then map[]
    else
      var n := |vs| - 1;
      var prev := LookupMap(t, ids[..n], vs[..n]);
      match FirstWith(t, KeyOf(vs[n]))
      case Some(id) => prev[ids[n] := id]
      case None => prev
  }

  /** Appending rows does not change the lookup of keys already present. */
  lemma {:induction false} LookupMapSnoc(t: seq<Row>, row: Row, ids: seq<nat>, vs: seq<Cols>)
    requires |ids| == |vs| && ColKeys(vs) <= Keys(t)
    ensures LookupMap(t + [row], ids, vs) == LookupMap(t, ids, vs)
  {
    if vs != [] {
      var n := |vs| - 1;
      LookupMapSnoc(t, row, ids[..n], vs[..n]);
      FirstWithSnoc(t, row, KeyOf(vs[n]));
    }
  }

  /** The id a lookup returns belongs to a row of the table that holds the
      key. */
  lemma {:induction false} FirstWithRow(t: seq<Row>, k: Key)
    requires k in Keys(t)
    ensures exists j :: 0 <= j < |t| && t[j].id == FirstWith(t, k).value && KeyOf(t[j].cols) == k
  {
    var n := |t| - 1;
    if k in Keys(t[..n]) {
      FirstWithRow(t[..n], k);
      var j :| 0 <= j < n && t[..n][j].id == FirstWith(t[..n], k).value && KeyOf(t[..n][j].cols) == k;
      assert t[j] == t[..n][j];
    }
  }

  /** The last source row with a given source id decides where that id maps
      to, provided its key is in the table. */
  lemma {:induction false} LookupMapLast(t: seq<Row>, ids: seq<nat>, vs: seq<Cols>, i: nat)
    requires |ids| == |vs| && i < |vs| && KeyOf(vs[i]) in Keys(t)
    requires forall j :: i < j < |ids| ==> ids[j] != ids[i]
    ensures ids[i] in LookupMap(t, ids, vs) && LookupMap(t, ids, vs)[ids[i]] == FirstWith(t, KeyOf(vs[i])).value
  {
    var n := |vs| - 1;
    if i < n {
      LookupMapLast(t, ids[..n], vs[..n], i);
    }
  }

  /** merge_restaurants and merge_menu_items resolve every source id: after
      the merge, the last source row with that id maps to a destination row
      holding the same key (the same email, the same restaurant and name),
      whether that row was just inserted or was already there. */
  lemma ResolvedRow(t: seq<Row>, ids: seq<nat>, vs: seq<Cols>, i: nat)
    requires |ids| == |vs| && i < |vs|
    requires forall j :: i < j < |ids| ==> ids[j] != ids[i]
    ensures var m := MergedTable(t, vs); var idMap := MergeIdMap(t, ids, vs, true);
      && ids[i] in idMap
      && exists j :: 0 <= j < |m| && m[j].id == idMap[ids[i]] && KeyOf(m[j].cols) == KeyOf(vs[i])
  {
    var m := MergedTable(t, vs);
    ResolvedIsLookup(t, ids, vs);
    MergedKeys(t, vs);
    ColKeysHas(vs, i);
    LookupMapLast(m, ids, vs, i);
    FirstWithRow(m, KeyOf(vs[i]));
  }

  /** With resolveSkipped, the map the merge builds step by step is the
      lookup of every source key in the final table: each source id maps to
      the row that holds its key after the merge. */
  lemma {:induction false} ResolvedIsLookup(t: seq<Row>, ids: seq<nat>, vs: seq<Cols>)
    requires |ids| == |vs|
    ensures MergeIdMap(t, ids, vs, true) == LookupMap(MergedTable(t, vs), ids, vs)
  {
    if vs != [] {
      var n := |vs| - 1;
      ResolvedIsLookup(t, ids[..n], vs[..n]);
      MergedKeys(t, vs[..n]);
      ResolvedStep(t, ids, vs);
    }
  }

  lemma ResolvedStep(t: seq<Row>, ids: seq<nat>, vs: seq<Cols>)
    requires |ids| == |vs| && vs != []
    requires var n := |vs| - 1;
      MergeIdMap(t, ids[..n], vs[..n], true) == LookupMap(MergedTable(t, vs[..n]), ids[..n], vs[..n])
    requires var n := |vs| - 1; ColKeys(vs[..n]) <= Keys(MergedTable(t, vs[..n]))
    ensures MergeIdMap(t, ids, vs, true) == LookupMap(MergedTable(t, vs), ids, vs)
  {
    var n := |vs| - 1;
    var m := MergedTable(t, vs[..n]);
    if KeyOf(vs[n]) !in Keys(m) {
      var row := Row(MaxId(m) + 1, vs[n]);
      LookupMapSnoc(m, row, ids[..n], vs[..n]);
      FirstWithSnoc(m, row, KeyOf(vs[n]));
    }
  }

  /** The old -> new id map recorded on insertion only: the source id of the
      j-th picked row (from 1) maps to rowid base + j. */
  function InsertedIdMap(base: nat, ids: seq<nat>, p: seq<nat>): map<nat, nat>
    requires forall j :: 0 <= j < |p| ==> p[j] < |ids|
  {
    if p == [] then map[]
    else InsertedIdMap(base, ids, p[..|p| - 1])[ids[p[|p| - 1]] := base + |p|]
  }

  lemma InsertedIdMapSnoc(base: nat, ids: seq<nat>, p: seq<nat>, n: nat)
    requires n < |ids| && forall j :: 0 <= j < |p| ==> p[j] < |ids|
    ensures InsertedIdMap(base, ids, p + [n]) == InsertedIdMap(base, ids, p)[ids[n] := base + |p| + 1]
  {
    assert (p + [n])[..|p|] == p && (p + [n])[|p|] == n;
  }

  lemma {:induction false} InsertedIdMapPrefix(base: nat, ids: seq<nat>, n: nat, p: seq<nat>)
    requires n <= |ids| && forall j :: 0 <= j < |p| ==> p[j] < n
    ensures InsertedIdMap(base, ids[..n], p) == InsertedIdMap(base, ids, p)
  {
    if p != [] {
      InsertedIdMapPrefix(base, ids, n, p[..|p| - 1]);
    }
  }

  /** Without resolveSkipped only inserted rows are recorded: the source id
      of the j-th inserted row maps to MaxId(t) + j, and no skipped row's id
      is mapped unless it also belongs to an inserted row. */
  lemma {:induction false} InsertOnlyMap(t: seq<Row>, ids: seq<nat>, vs: seq<Cols>)
    requires |ids| == |vs|
    ensures MergeIdMap(t, ids, vs, false) == InsertedIdMap(MaxId(t), ids, Picked(Keys(t), vs))
  {
    if vs != [] {
      var n := |vs| - 1;
      var p := Picked(Keys(t), vs[..n]);
      InsertOnlyMap(t, ids[..n], vs[..n]);
      InsertedIdMapPrefix(MaxId(t), ids, n, p);
      MergedKeys(t, vs[..n]);
      MergedPicked(t, vs[..n]);
      MergedExtends(t, vs[..n]);
      InsertOnlyStep(t, ids, vs);
    }
  }

  lemma InsertOnlyStep(t: seq<Row>, ids: seq<nat>, vs: seq<Cols>)
    requires |ids| == |vs| && vs != []
    requires var n := |vs| - 1;
      MergeIdMap(t, ids[..n], vs[..n], false) == InsertedIdMap(MaxId(t), ids, Picked(Keys(t), vs[..n]))
    requires var n := |vs| - 1; var m := MergedTable(t, vs[..n]);
      Keys(m) == Keys(t) + ColKeys(vs[..n]) && MaxId(m) == MaxId(t) + |Picked(Keys(t), vs[..n])|
    ensures MergeIdMap(t, ids, vs, false) == InsertedIdMap(MaxId(t), ids, Picked(Keys(t), vs))
  {
    var n := |vs| - 1;
    var p := Picked(Keys(t), vs[..n]);
    PickedSnoc(Keys(t), vs);
    MergeIdMapSnoc(t, ids, vs);
    var m := MergedTable(t, vs[..n]);
    if IsFirst(Keys(t), vs, n) {
      assert KeyOf(vs[n]) !in Keys(m);
      InsertedIdMapSnoc(MaxId(t), ids, p, n);
    } else {
      assert KeyOf(vs[n]) in Keys(m);
      assert Picked(Keys(t), vs) == p + [] == p;
    }
  }

  lemma PickedSnoc(seen: set<Key>, vs: seq<Cols>)
    requires vs != []
    ensures var n := |vs| - 1;
      Picked(seen, vs) == Picked(seen, vs[..n]) + (if IsFirst(seen, vs, n) then [n] else [])
  {
  }

  lemma MergeIdMapSnoc(t: seq<Row>, ids: seq<nat>, vs: seq<Cols>)
    requires |ids| == |vs| && vs != []
    ensures var n := |vs| - 1; var m := MergedTable(t, vs[..n]);
      MergeIdMap(t, ids, vs, false)
      == if KeyOf(vs[n]) !in Keys(m) then MergeIdMap(t, ids[..n], vs[..n], false)[ids[n] := MaxId(m) + 1]
         else MergeIdMap(t, ids[..n], vs[..n], false)
  {
  }

  // ------------------------------------------------ the merged database

  /** `id_map.get(id, id)`: the mapped id when the map has one, else the id
      unchanged. */
  function Remap(m: map<nat, nat>, id: nat): (r: nat)
    ensures id !in m ==> r == id
    ensures id in m ==> r == m[id]
  {
    if id in m then m[id] else id
  }

  /** The columns a merge inserts for a source row: foreign keys to
      restaurants and users go through the id maps, the rest is copied. */
  function RemapCols(c: Cols, rtrMap: map<nat, nat>, usrMap: map<nat, nat>): (r: Cols)
    ensures c.UserCols? || c.RestaurantCols? ==> r == c
    ensures rtrMap == map[] && usrMap == map[] ==> r == c
  {
    match c
    case ItemCols(r, n, rest) => ItemCols(Remap(rtrMap, r), n, rest)
    case OrderCols(u, r, d, st) => OrderCols(Remap(usrMap, u), Remap(rtrMap, r), d, st)
    case ReviewCols(u, r, g, cm, ts) => ReviewCols(Remap(usrMap, u), Remap(rtrMap, r), g, cm, ts)
    case AnalyticsCols(r, d, f) => AnalyticsCols(Remap(rtrMap, r), d, f)
    case _ => c
  }

  function Remapped(src: seq<Row>, rtrMap: map<nat, nat>, usrMap: map<nat, nat>): (vs: seq<Cols>)
    ensures |vs| == |src|
  {
    seq(|src|, i requires 0 <= i < |src| => RemapCols(src[i].cols, rtrMap, usrMap))
  }

  /** The tables of the backup database that the merge reads. */
  datatype Backup = Backup(users: seq<Row>, restaurants: seq<Row>, items: seq<Row>,
                           reviews: seq<Row>, analytics: seq<Row>)

  /** The destination database, a copy of the current one, whose tables the
      merges append to. hasOrders says whether it has an Orders (or Order)
      table at all. */
  class MergedDb {
    var users: seq<Row>
    var restaurants: seq<Row>
    var items: seq<Row>
    var orders: seq<Row>
    var hasOrders: bool
    var reviews: seq<Row>
    var analytics: seq<Row>

    constructor (users: seq<Row>, restaurants: seq<Row>, items: seq<Row>, orders: seq<Row>, hasOrders: bool,
                 reviews: seq<Row>, analytics: seq<Row>)
      ensures this.users == users && this.restaurants == restaurants && this.items == items
      ensures this.orders == orders && this.hasOrders == hasOrders
      ensures this.reviews == reviews && this.analytics == analytics
    {
      this.users, this.restaurants, this.items := users, restaurants, items;
      this.orders, this.hasOrders := orders, hasOrders;
      this.reviews, this.analytics := reviews, analytics;
    }

    /** merge_users: de-duplicate by email; no id map is kept. */
    method MergeUsers(src: seq<Row>) returns (inserted: nat, skipped: nat)
      modifies this`users
      ensures users == MergedTable(old(users), ColsOf(src))
      ensures |users| == |old(users)| + inserted && inserted + skipped == |src|
    {
      var m, ins, sk, _ := MergeRows(users, IdsOf(src), ColsOf(src), false);
      users, inserted, skipped := m, ins, sk;
    }

    /** merge_restaurants: de-duplicate by email and map every source rtr_id,
      inserted or skipped, to its destination id. */
    method MergeRestaurants(src: seq<Row>) returns (inserted: nat, skipped: nat, rtrMap: map<nat, nat>)
      modifies this`restaurants
      ensures restaurants == MergedTable(old(restaurants), ColsOf(src))
      ensures |restaurants| == |old(restaurants)| + inserted && inserted + skipped == |src|
      ensures rtrMap == MergeIdMap(old(restaurants), IdsOf(src), ColsOf(src), true)
    {
      var m, ins, sk, idMap := MergeRows(restaurants, IdsOf(src), ColsOf(src), true);
      restaurants, inserted, skipped, rtrMap := m, ins, sk, idMap;
    }

    /** merge_menu_items: remap rtr_id, de-duplicate by (rtr_id, name) and map
      every source itm_id to its destination id. */
    method MergeMenuItems(src: seq<Row>, rtrMap: map<nat, nat>) returns (inserted: nat, skipped: nat, itmMap: map<nat, nat>)
      modifies this`items
      ensures items == MergedTable(old(items), Remapped(src, rtrMap, map[]))
      ensures |items| == |old(items)| + inserted && inserted + skipped == |src|
      ensures itmMap == MergeIdMap(old(items), IdsOf(src), Remapped(src, rtrMap, map[]), true)
    {
      var m, ins, sk, idMap := MergeRows(items, IdsOf(src), Remapped(src, rtrMap, map[]), true);
      items, inserted, skipped, itmMap := m, ins, sk, idMap;
    }

    /** merge_orders: when either database lacks an Order/Orders table,
      nothing changes and the map is empty; otherwise remap both foreign
      keys, de-duplicate by (usr_id, rtr_id) and map only inserted orders. */
    method MergeOrders(src: Option<seq<Row>>, rtrMap: map<nat, nat>, usrMap: map<nat, nat>)
      returns (inserted: nat, skipped: nat, ordMap: map<nat, nat>)
      modifies this`orders
      ensures src.None? || !hasOrders ==> orders == old(orders) && inserted == skipped == 0 && ordMap == map[]
      ensures src.Some? && hasOrders ==>
        && orders == MergedTable(old(orders), Remapped(src.value, rtrMap, usrMap))
        && |orders| == |old(orders)| + inserted && inserted + skipped == |src.value|
        && ordMap == MergeIdMap(old(orders), IdsOf(src.value), Remapped(src.value, rtrMap, usrMap), false)
    {
      if src.None? || !hasOrders {
        return 0, 0, map[];
      }
      var vs := Remapped(src.value, rtrMap, usrMap);
      var m, ins, sk, idMap := MergeRows(orders, IdsOf(src.value), vs, false);
      orders, inserted, skipped, ordMap := m, ins, sk, idMap;
    }

    /** merge_reviews: remap both foreign keys and de-duplicate by
      (usr_id, rtr_id). */
    method MergeReviews(src: seq<Row>, rtrMap: map<nat, nat>, usrMap: map<nat, nat>) returns (inserted: nat, skipped: nat)
      modifies this`reviews
      ensures reviews == MergedTable(old(reviews), Remapped(src, rtrMap, usrMap))
      ensures |reviews| == |old(reviews)| + inserted && inserted + skipped == |src|
    {
      var m, ins, sk, _ := MergeRows(reviews, IdsOf(src), Remapped(src, rtrMap, usrMap), false);
      reviews, inserted, skipped := m, ins, sk;
    }

    /** merge_analytics: remap rtr_id and de-duplicate by (rtr_id, date). */
    method MergeAnalytics(src: seq<Row>, rtrMap: map<nat, nat>) returns (inserted: nat, skipped: nat)
      modifies this`analytics
      ensures analytics == MergedTable(old(analytics), Remapped(src, rtrMap, map[]))
      ensures |analytics| == |old(analytics)| + inserted && inserted + skipped == |src|
    {
      var m, ins, sk, _ := MergeRows(analytics, IdsOf(src), Remapped(src, rtrMap, map[]), false);
      analytics, inserted, skipped := m, ins, sk;
    }

    /** The user id map main builds after the merges: each source user's
      usr_id maps to the first destination user with the same email. */
    method ResolveUserIds(src: seq<Row>) returns (usrMap: map<nat, nat>)
      ensures usrMap == LookupMap(users, IdsOf(src), ColsOf(src))
    {
      var ids, vs := IdsOf(src), ColsOf(src);
      usrMap := map[];
      var i := 0;
      while i < |src|
        invariant 0 <= i <= |src|
        invariant usrMap == LookupMap(users, ids[..i], vs[..i])
      {
        assert ids[..i + 1][..i] == ids[..i] && vs[..i + 1][..i] == vs[..i];
        var found := FirstWith(users, KeyOf(vs[i]));
        if found.Some? {
          usrMap := usrMap[ids[i] := found.value];
        }
        i := i + 1;
      }
      assert ids[..|src|] == ids && vs[..|src|] == vs;
    }

    /** The first half of main: users, then restaurants, then menu items
      through the restaurant map, which is returned. */
    method MergeCatalog(src: Backup) returns (rtrMap: map<nat, nat>)
      modifies this`users, this`restaurants, this`items
      ensures users == MergedTable(old(users), ColsOf(src.users))
      ensures restaurants == MergedTable(old(restaurants), ColsOf(src.restaurants))
      ensures rtrMap == MergeIdMap(old(restaurants), IdsOf(src.restaurants), ColsOf(src.restaurants), true)
      ensures items == MergedTable(old(items), Remapped(src.items, rtrMap, map[]))
    {
      var _, _ := MergeUsers(src.users);
      var _, _, m := MergeRestaurants(src.restaurants);
      var _, _, _ := MergeMenuItems(src.items, m);
      rtrMap := m;
    }

    /** main: users, then restaurants and menu items (through the restaurant
      map), then the user map; orders are skipped, so the order table stays
      as it was; then reviews (through both maps) and analytics. */
    method MergeAll(src: Backup)
      modifies this
      ensures users == MergedTable(old(users), ColsOf(src.users))
      ensures restaurants == MergedTable(old(restaurants), ColsOf(src.restaurants))
      ensures var rtrMap := MergeIdMap(old(restaurants), IdsOf(src.restaurants), ColsOf(src.restaurants), true);
        var usrMap := LookupMap(users, IdsOf(src.users), ColsOf(src.users));
        && items == MergedTable(old(items), Remapped(src.items, rtrMap, map[]))
        && reviews == MergedTable(old(reviews), Remapped(src.reviews, rtrMap, usrMap))
        && analytics == MergedTable(old(analytics), Remapped(src.analytics, rtrMap, map[]))
      ensures orders == old(orders) && hasOrders == old(hasOrders)
    {
      var rtrMap := MergeCatalog(src);
      var usrMap := ResolveUserIds(src.users);
      var _, _ := MergeReviews(src.reviews, rtrMap, usrMap);
      var _, _ := MergeAnalytics(src.analytics, rtrMap);
    }
  }
}
