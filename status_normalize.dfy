/** The one-off normalisation of legacy order statuses: a fixed table from
    old spellings to the six workflow statuses, applied to the Order table
    as one UPDATE per changing entry, in the table's order, counting the
    rows each UPDATE touches. */
module StatusNormalize {
  import opened OrderWorkflow

  /** status_mappings. */
  const StatusMappings: map<string, string> := map[
    "cancelled" := Cancelled, "Cancelled" := Cancelled,
    "completed" := Delivered, "Completed" := Delivered,
    "confirmed" := Accepted, "Confirmed" := Accepted,
    "delivered" := Delivered, "Delivered" := Delivered,
    "ordered" := Ordered, "Ordered" := Ordered,
    "pending" := Ordered,
    "preparing" := Preparing, "Preparing" := Preparing,
    "ready" := Ready, "Ready" := Ready,
    "accepted" := Accepted, "Accepted" := Accepted]

  /** The order in which status_mappings.items() yields its keys. */
  const MappingOrder: seq<string> := [
    "cancelled", "Cancelled", "completed", "Completed", "confirmed", "Confirmed",
    "delivered", "Delivered", "ordered", "Ordered", "pending", "preparing", "Preparing",
    "ready", "Ready", "accepted", "Accepted"]

  /** The status a row should end up with: its mapping, or itself when the
      table does not mention it. */
  function Normalize(s: string): (r: string)
    ensures s in StatusMappings ==> IsCanonical(r)
    ensures s !in StatusMappings ==> r == s
  {
    TargetsCanonical();
    if s in StatusMappings then StatusMappings[s] else s
  }

  /** What the table promises: every key is visited, every target is a
      workflow status, and workflow statuses map to themselves. */
  predicate Settled(keys: seq<string>, table: map<string, string>)
  {
    && (forall i :: 0 <= i < |keys| ==> keys[i] in table)
    && (forall k :: k in table ==> IsCanonical(table[k]))
    && (forall k :: k in table && IsCanonical(k) ==> table[k] == k)
  }

  lemma TableSettled()
    ensures Settled(MappingOrder, StatusMappings)
    ensures forall k :: k in StatusMappings ==> k in MappingOrder
  {
    OrderCoversTable();
    TargetsCanonical();
  }

  /** The iteration order lists exactly the table's keys. */
  lemma OrderCoversTable()
    ensures forall i :: 0 <= i < |MappingOrder| ==> MappingOrder[i] in StatusMappings
    ensures forall k :: k in StatusMappings ==> k in MappingOrder
  {
  }

  /** Every target is a workflow status, and workflow statuses map to
      themselves. */
  lemma TargetsCanonical()
    ensures forall k :: k in StatusMappings ==> IsCanonical(StatusMappings[k])
    ensures forall k :: k in StatusMappings && IsCanonical(k) ==> StatusMappings[k] == k
  {
  }

  /** One UPDATE status = now WHERE status = was, on a single value. */
  function StepRow(v: string, was: string, now: string): string
  {
    if v == was then now else v
  }

  /** A value after the UPDATEs of `keys`, in order; identity entries issue
      no UPDATE. */
  function FoldRow(v: string, keys: seq<string>, table: map<string, string>): string
    requires forall i :: 0 <= i < |keys| ==> keys[i] in table
  {
    if |keys| == 0 then v
    else
      var k := keys[|keys| - 1];
      var u := FoldRow(v, keys[..|keys| - 1], table);
      if k != table[k] then StepRow(u, k, table[k]) else u
  }

  /** Sequential UPDATEs in table order give every row its own mapping: a
      row changed once is never picked up again by a later entry. */
  lemma {:induction false} FoldIsLookup(v: string, keys: seq<string>, table: map<string, string>)
    requires Settled(keys, table)
    ensures FoldRow(v, keys, table) == if v in keys then table[v] else v
  {
    if |keys| > 0 {
      var front := keys[..|keys| - 1];
      var k := keys[|keys| - 1];
      assert keys == front + [k];
      FoldIsLookup(v, front, table);
      if v in front {
        assert IsCanonical(table[v]);
      }
    }
  }

  /** The UPDATEs only ever leave a row as it was or give it a workflow
      status. */
  lemma FoldRowShape(v: string, keys: seq<string>, table: map<string, string>)
    requires Settled(keys, table)
    ensures FoldRow(v, keys, table) == v || IsCanonical(FoldRow(v, keys, table))
  {
    FoldIsLookup(v, keys, table);
  }

  /** The Order table after one UPDATE. */
  function Updated(rows: seq<string>, was: string, now: string): (r: seq<string>)
    ensures |r| == |rows|
  {
    seq(|rows|, i requires 0 <= i < |rows| => StepRow(rows[i], was, now))
  }

  /** The number of rows holding `s`: the rowcount of an UPDATE on it. */
  function Count(rows: seq<string>, s: string): nat
  {
    if |rows| == 0 then 0
    else Count(rows[..|rows| - 1], s) + (if rows[|rows| - 1] == s then 1 else 0)
  }

  /** The number of rows whose status differs between two versions of the
      table. */
  function Diff(before: seq<string>, after: seq<string>): nat
    requires |before| == |after|
  {
    if |before| == 0 then 0
    else
      Diff(before[..|before| - 1], after[..|after| - 1])
        + (if before[|before| - 1] != after[|after| - 1] then 1 else 0)
  }

  lemma {:induction false} DiffSame(rows: seq<string>)
    ensures Diff(rows, rows) == 0
  {
    if |rows| > 0 {
      DiffSame(rows[..|rows| - 1]);
    }
  }

  /** An UPDATE whose status no row has changed to yet adds exactly its
      rowcount to the number of changed rows. */
  lemma {:induction false} UpdateAddsCount(orig: seq<string>, cur: seq<string>, was: string, now: string)
    requires |orig| == |cur| && was != now && !IsCanonical(was)
    requires forall i :: 0 <= i < |cur| ==> cur[i] == orig[i] || IsCanonical(cur[i])
    ensures Diff(orig, Updated(cur, was, now)) == Diff(orig, cur) + Count(cur, was)
  {
    if |orig| > 0 {
      var n := |orig| - 1;
      assert Updated(cur, was, now)[..n] == Updated(cur[..n], was, now);
      UpdateAddsCount(orig[..n], cur[..n], was, now);
    }
  }

  /** The UPDATE of one entry, row by row, returning its rowcount. */
  method UpdateWhere(statuses: array<string>, was: string, now: string) returns (rowCount: nat)
    modifies statuses
    ensures statuses[..] == Updated(old(statuses[..]), was, now)
    ensures rowCount == Count(old(statuses[..]), was)
  {
    ghost var before := statuses[..];
    rowCount := 0;
    var i := 0;
    while i < statuses.Length
      invariant 0 <= i <= statuses.Length
      invariant forall j :: 0 <= j < i ==> statuses[j] == StepRow(before[j], was, now)
      invariant forall j :: i <= j < statuses.Length ==> statuses[j] == before[j]
      invariant rowCount == Count(before[..i], was)
    {
      assert before[..i + 1][..i] == before[..i];
      if statuses[i] == was {
        statuses[i] := now;
        rowCount := rowCount + 1;
      }
      i := i + 1;
    }
    assert before[..i] == before;
  }

  /** The table as a whole after the UPDATEs of `keys`. */
  function FoldAll(rows: seq<string>, keys: seq<string>, table: map<string, string>): (r: seq<string>)
    requires forall i :: 0 <= i < |keys| ==> keys[i] in table
    ensures |r| == |rows|
  {
    seq(|rows|, i requires 0 <= i < |rows| => FoldRow(rows[i], keys, table))
  }

  /** The step for entry `j`: its UPDATE when the entry changes the status,
      nothing otherwise; the rowcount is what it adds to the changed rows. */
  method ApplyEntry(statuses: array<string>, keys: seq<string>, table: map<string, string>, j: nat,
                    ghost orig: seq<string>) returns (rowsChanged: nat)
    requires Settled(keys, table) && j < |keys|
    requires statuses.Length == |orig| && statuses[..] == FoldAll(orig, keys[..j], table)
    modifies statuses
    ensures statuses[..] == FoldAll(orig, keys[..j + 1], table)
    ensures Diff(orig, statuses[..]) == Diff(orig, old(statuses[..])) + rowsChanged
  {
    var oldStatus := keys[j];
    var newStatus := table[oldStatus];
    ghost var cur := statuses[..];
    FoldAllStep(orig, keys, table, j);
    rowsChanged := 0;
    if oldStatus != newStatus {
      FoldAllShape(orig, keys[..j], table);
      rowsChanged := UpdateWhere(statuses, oldStatus, newStatus);
      UpdateAddsCount(orig, cur, oldStatus, newStatus);
    }
  }

  /** One more entry of the table: its UPDATE when it changes the status. */
  lemma FoldAllStep(orig: seq<string>, keys: seq<string>, table: map<string, string>, j: nat)
    requires j < |keys| && forall i :: 0 <= i < |keys| ==> keys[i] in table
    ensures var k := keys[j];
      FoldAll(orig, keys[..j + 1], table)
      == if k != table[k] then Updated(FoldAll(orig, keys[..j], table), k, table[k])
         else FoldAll(orig, keys[..j], table)
  {
    assert keys[..j + 1][..j] == keys[..j];
  }

  lemma FoldAllShape(orig: seq<string>, keys: seq<string>, table: map<string, string>)
    requires Settled(keys, table)
    ensures forall i :: 0 <= i < |orig| ==>
              FoldAll(orig, keys, table)[i] == orig[i] || IsCanonical(FoldAll(orig, keys, table)[i])
  {
    forall i | 0 <= i < |orig|
      ensures FoldAll(orig, keys, table)[i] == orig[i] || IsCanonical(FoldAll(orig, keys, table)[i])
    {
      FoldRowShape(orig[i], keys, table);
    }
  }

  /** The UPDATE loop over the entries of a settled table, in order, summing
      the rowcounts: every row ends with its own mapping, and the count is
      the number of rows that changed. */
  method ApplyInOrder(statuses: array<string>, keys: seq<string>, table: map<string, string>)
    returns (changedCount: nat)
    requires Settled(keys, table)
    modifies statuses
    ensures forall i :: 0 <= i < statuses.Length ==>
              statuses[i] == if old(statuses[i]) in keys then table[old(statuses[i])] else old(statuses[i])
    ensures changedCount == Diff(old(statuses[..]), statuses[..])
  {
    ghost var orig := statuses[..];
    changedCount := 0;
    var j := 0;
    assert statuses[..] == FoldAll(orig, keys[..0], table);
    DiffSame(orig);
    while j < |keys|
      invariant 0 <= j <= |keys|
      invariant statuses.Length == |orig|
      invariant statuses[..] == FoldAll(orig, keys[..j], table)
      invariant changedCount == Diff(orig, statuses[..])
    {
      var rowsChanged := ApplyEntry(statuses, keys, table, j, orig);
      changedCount := changedCount + rowsChanged;
      j := j + 1;
    }
    assert keys[..j] == keys;
    forall i | 0 <= i < statuses.Length
      ensures statuses[i] == if orig[i] in keys then table[orig[i]] else orig[i]
    {
      FoldIsLookup(orig[i], keys, table);
    }
  }

  /** The script: the UPDATE loop over status_mappings. Every row ends with
      its normalised status, and the count is the number of rows changed. */
  method Standardize(statuses: array<string>) returns (changedCount: nat)
    modifies statuses
    ensures forall i :: 0 <= i < statuses.Length ==> statuses[i] == Normalize(old(statuses[i]))
    ensures changedCount == Diff(old(statuses[..]), statuses[..])
  {
    TableSettled();
    changedCount := ApplyInOrder(statuses, MappingOrder, StatusMappings);
  }

  /** Every status the table mentions ends as a workflow status, and any
      other status is left as it is; normalising twice changes nothing. */
  lemma NormalizeShape(s: string)
    ensures s in StatusMappings ==> IsCanonical(Normalize(s))
    ensures s !in StatusMappings ==> Normalize(s) == s
    ensures Normalize(Normalize(s)) == Normalize(s)
  {
    TableSettled();
  }

  /** The legacy spellings the table exists for, and one it does not
      cover: "Pending" with a capital is left unchanged. */
  lemma LegacySpellings()
    ensures Normalize("completed") == Delivered && Normalize("Completed") == Delivered
    ensures Normalize("confirmed") == Accepted && Normalize("Confirmed") == Accepted
    ensures Normalize("pending") == Ordered
    ensures Normalize("Pending") == "Pending"
  {
  }

  /** The workflow statuses themselves are never rewritten. */
  lemma CanonicalFixed(s: string)
    requires IsCanonical(s)
    ensures Normalize(s) == s
  {
  }
}
