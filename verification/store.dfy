/**
 The reading store of `DatabaseHelper`: the in-memory list of readings kept in
 step with four Java `int` aggregates (total, min, max, average), as the class
 intends them. The storage backend is not modelled; the outcome of its
 row insert is the row id passed to `Insert`, and the rows it returns on the
 initial load are the sequence passed to `Load`.

 This module is the corrected behaviour. Where `DatabaseHelper.java` departs
 from it, the departure is written out in module `AsWritten`.
 */
module ReadingStore {
  import opened JavaInt
  import opened Readings

  /** The store's state: the readings in insertion order and the cached aggregates. */
  datatype Store = Store(readings: seq<Reading>, total: Int32, min: Int32, max: Int32, avg: Int32)

  /** The three aggregates the load loop folds, without the average (DatabaseHelper.java:171-179). */
  datatype Aggregates = Aggregates(total: Int32, min: Int32, max: Int32)

  /**
   The list and the aggregates are synchronized (DatabaseHelper.java:236): the
   total is the sum of the amounts as a wrapping Java `int`, the average is the
   total divided by the count with truncation, and min and max are the extreme
   amounts. An empty store has every aggregate at 0.
   */
  ghost predicate Valid(s: Store) {
    var a := Amounts(s.readings);
    && s.total == Wrap32(Sum(a))
    && if |a| == 0 then s.min == 0 && s.max == 0 && s.avg == 0
       else s.max == MaxOf(a) && s.min == MinOf(a) && s.avg == JavaDiv(s.total, |a|)
  }

  /** The aggregates are a function of the readings alone. */
  lemma ValidDetermined(s: Store, t: Store)
    requires Valid(s) && Valid(t) && s.readings == t.readings
    ensures s == t
  {
  }

  /** The freshly constructed store (DatabaseHelper.java:63-66) before any row is loaded. */
  function Empty(): (s: Store)
    ensures Valid(s) && s.readings == []
  {
    Store([], 0, 0, 0, 0)
  }

  /**
   The in-memory effect of a reading the backend accepted: append it, add its
   amount to the total, recompute the average over the new count, and widen
   min and max, except that the very first reading sets both.
   */
  function Append(s: Store, r: Reading): (t: Store)
    ensures t.readings == s.readings + [r]
    ensures Valid(s) ==> Valid(t)
    ensures |t.readings| == 1 ==> t.max == r.amount && t.min == r.amount
  {
    var readings := s.readings + [r];
    var total := Wrap32(s.total + r.amount);
    var first := |readings| == 1;
    var t := Store(readings, total,
                   if first then r.amount else Min(s.min, r.amount),
                   if first then r.amount else Max(s.max, r.amount),
                   JavaDiv(total, |readings|));
    AppendKeepsValid(s, r, t);
    t
  }

  lemma AppendKeepsValid(s: Store, r: Reading, t: Store)
    requires t.readings == s.readings + [r]
    requires t.total == Wrap32(s.total + r.amount)
    requires |s.readings| == 0 ==> t.min == r.amount && t.max == r.amount
    requires |s.readings| > 0 ==> t.min == Min(s.min, r.amount) && t.max == Max(s.max, r.amount)
    requires t.avg == JavaDiv(t.total, |t.readings|)
    ensures Valid(s) ==> Valid(t)
  {
    if Valid(s) {
      var a := Amounts(s.readings);
      var a' := Amounts(t.readings);
      AmountsAppend(s.readings, r);
      assert a' == a + [r.amount];
      SumAppend(a, r.amount);
      WrapAdd(Sum(a), r.amount);
      assert t.total == Wrap32(Sum(a'));
      if |a| > 0 {
        MaxOfAppend(a, r.amount);
        MinOfAppend(a, r.amount);
        assert t.max == MaxOf(a') && t.min == MinOf(a');
      } else {
        assert a' == [r.amount];
      }
    }
  }

  /**
   `insertReadings` (DatabaseHelper.java:199-224), corrected: it reports
   success exactly when the backend's row id is positive, and only then does
   the in-memory state change.
   */
  function Insert(s: Store, r: Reading, rowId: int): (o: (Store, bool))
    ensures o.1 <==> rowId > 0
    ensures !o.1 ==> o.0 == s
    ensures o.1 ==> o.0.readings == s.readings + [r]
    ensures Valid(s) ==> Valid(o.0)
    ensures o.1 && |o.0.readings| == 1 ==> o.0.max == r.amount && o.0.min == r.amount
  {
    if rowId > 0 then (Append(s, r), true) else (s, false)
  }

  /** Inserting every reading of `rows` in order, each write accepted by the backend. */
  function InsertAll(s: Store, rows: seq<Reading>): (t: Store)
    ensures t.readings == s.readings + rows
    ensures Valid(s) ==> Valid(t)
    decreases |rows|
  {
    if |rows| == 0 then s
    else
      var init := rows[..|rows| - 1];
      assert init + [rows[|rows| - 1]] == rows;
      Append(InsertAll(s, init), rows[|rows| - 1])
  }

  /** How an accepted reading moves total, min and max. */
  lemma AppendAggregates(s: Store, r: Reading)
    ensures Append(s, r).total == Wrap32(s.total + r.amount)
    ensures |s.readings| == 0 ==> Append(s, r).min == r.amount && Append(s, r).max == r.amount
    ensures |s.readings| > 0 ==> Append(s, r).min == Min(s.min, r.amount) && Append(s, r).max == Max(s.max, r.amount)
  {
  }

  /**
   The initial load of `getAllResults` (DatabaseHelper.java:152-192),
   corrected: the rows are read when the table exists (the test at line 156
   is inverted as written), the list starts empty, zero rows give the empty
   store rather than `null`, the first row seeds min and max, and the average is computed
   once at the end when there is at least one row. The result is the store
   that inserting the rows one at a time would build.
   */
  method Load(rows: seq<Reading>) returns (s: Store)
    ensures Valid(s) && s.readings == rows
    ensures s == InsertAll(Empty(), rows)
  {
    var total: Int32 := 0;
    var min: Int32 := 0;
    var max: Int32 := 0;
    var i := 0;
    while i < |rows|
      invariant 0 <= i <= |rows|
      invariant FoldedAggregates(rows[..i]) == Aggregates(total, min, max)
    {
      var r := rows[i];
      var total' := Wrap32(total + r.amount);
      // An explicit first-row test replaces the seeding at DatabaseHelper.java:172-175.
      var min' := if i == 0 then r.amount else Min(min, r.amount);
      var max' := if i == 0 then r.amount else Max(max, r.amount);
      assert rows[..i + 1][..i] == rows[..i];
      total, min, max := total', min', max';
      i := i + 1;
    }
    assert rows[..i] == rows;
    var avg: Int32 := 0;
    if |rows| > 0 {
      avg := JavaDiv(total, |rows|);
    }
    s := Store(rows, total, min, max, avg);
    LoadFinish(rows, s);
  }

  /**
   Total, min and max after accepting `rows` in order into an empty store,
   computed without the list or the average; the load loop's invariant.
   */
  ghost function FoldedAggregates(rows: seq<Reading>): Aggregates
    decreases |rows|
  {
    if |rows| == 0 then Aggregates(0, 0, 0)
    else
      var prev := FoldedAggregates(rows[..|rows| - 1]);
      var a := rows[|rows| - 1].amount;
      var first := |rows| == 1;
      Aggregates(Wrap32(prev.total + a), if first then a else Min(prev.min, a), if first then a else Max(prev.max, a))
  }

  /** The folded total is the wrapped sum of the amounts, and min and max are their extremes. */
  ghost predicate IsStatistics(rows: seq<Reading>, g: Aggregates) {
    && g.total == Wrap32(Sum(Amounts(rows)))
    && (|rows| == 0 ==> g.min == 0 && g.max == 0)
    && (|rows| > 0 ==> g.min == MinOf(Amounts(rows)) && g.max == MaxOf(Amounts(rows)))
  }

  lemma {:induction false} FoldedAggregatesAreStatistics(rows: seq<Reading>)
    ensures IsStatistics(rows, FoldedAggregates(rows))
    decreases |rows|
  {
    if |rows| > 0 {
      var init := rows[..|rows| - 1];
      var r := rows[|rows| - 1];
      FoldedAggregatesAreStatistics(init);
      assert init + [r] == rows;
      StatisticsStep(init, r, FoldedAggregates(init));
    }
  }

  /** Accepting one more reading keeps total, min and max equal to the statistics. */
  lemma StatisticsStep(init: seq<Reading>, r: Reading, g: Aggregates)
    requires IsStatistics(init, g)
    ensures var first := |init| == 0;
      IsStatistics(init + [r], Aggregates(Wrap32(g.total + r.amount),
                   if first then r.amount else Min(g.min, r.amount),
                   if first then r.amount else Max(g.max, r.amount)))
  {
    var a := Amounts(init);
    var a' := Amounts(init + [r]);
    AmountsAppend(init, r);
    assert a' == a + [r.amount];
    SumAppend(a, r.amount);
    WrapAdd(Sum(a), r.amount);
    if |init| > 0 {
      MaxOfAppend(a, r.amount);
      MinOfAppend(a, r.amount);
    } else {
      assert a' == [r.amount];
    }
  }

  lemma LoadFinish(rows: seq<Reading>, s: Store)
    requires s.readings == rows
    requires FoldedAggregates(rows) == Aggregates(s.total, s.min, s.max)
    requires s.avg == if |rows| > 0 then JavaDiv(s.total, |rows|) else 0
    ensures Valid(s) && s == InsertAll(Empty(), rows)
  {
    FoldedAggregatesAreStatistics(rows);
    assert |Amounts(rows)| == |rows|;
    assert Valid(s);
    var t := InsertAll(Empty(), rows);
    assert Valid(t) && t.readings == rows;
    ValidDetermined(s, t);
  }

  /**
   `purgeDB` (DatabaseHelper.java:231-239): the list is cleared and every
   aggregate reset to 0, whatever the state was.
   */
  function Purge(s: Store): (t: Store)
    ensures Valid(t)
    ensures NumberTests(t) == 0
    ensures MaxAmount(t) == 0 && MinAmount(t) == 0 && AvgAmount(t) == 0 && TotalAmount(t) == 0
  {
    Store([], 0, 0, 0, 0)
  }

  /** `getMaxAmount` (DatabaseHelper.java:244): the largest amount stored, 0 when none is. */
  function MaxAmount(s: Store): (m: Int32)
    ensures Valid(s) ==> forall i :: 0 <= i < |s.readings| ==> s.readings[i].amount <= m
    ensures Valid(s) && |s.readings| > 0 ==> exists i :: 0 <= i < |s.readings| && s.readings[i].amount == m
    ensures Valid(s) && |s.readings| == 0 ==> m == 0
  {
    StoredExtremes(s);
    s.max
  }

  /** `getMinAmount` (DatabaseHelper.java:245): the smallest amount stored, 0 when none is. */
  function MinAmount(s: Store): (m: Int32)
    ensures Valid(s) ==> forall i :: 0 <= i < |s.readings| ==> m <= s.readings[i].amount
    ensures Valid(s) && |s.readings| > 0 ==> exists i :: 0 <= i < |s.readings| && s.readings[i].amount == m
    ensures Valid(s) && |s.readings| == 0 ==> m == 0
  {
    StoredExtremes(s);
    s.min
  }

  /** In a valid store, the cached min and max are amounts of stored readings and bound all of them. */
  lemma StoredExtremes(s: Store)
    ensures Valid(s) ==> forall i :: 0 <= i < |s.readings| ==> s.min <= s.readings[i].amount <= s.max
    ensures Valid(s) && |s.readings| > 0 ==>
      && (exists i :: 0 <= i < |s.readings| && s.readings[i].amount == s.max)
      && (exists i :: 0 <= i < |s.readings| && s.readings[i].amount == s.min)
  {
    if Valid(s) && |s.readings| > 0 {
      var a := Amounts(s.readings);
      assert forall i :: 0 <= i < |a| ==> a[i] == s.readings[i].amount;
      var j :| 0 <= j < |a| && a[j] == MaxOf(a);
      var k :| 0 <= k < |a| && a[k] == MinOf(a);
      assert s.readings[j].amount == s.max && s.readings[k].amount == s.min;
    }
  }

  /** `getTotalAmount` (DatabaseHelper.java:247): the sum of the amounts, wrapped to a Java `int`. */
  function TotalAmount(s: Store): (t: Int32)
    ensures Valid(s) ==> t == Wrap32(Sum(Amounts(s.readings)))
    ensures Valid(s) && InInt32Range(Sum(Amounts(s.readings))) ==> t == Sum(Amounts(s.readings))
  {
    s.total
  }

  /** `getNumberTests` (DatabaseHelper.java:248): the number of readings in the list. */
  function NumberTests(s: Store): (n: nat)
    ensures n == 0 <==> s.readings == []
    ensures Valid(s) && n == 0 ==> s == Empty()
  {
    |s.readings|
  }

  /**
   `getAvgAmount` (DatabaseHelper.java:246): the total divided by the count,
   truncated toward zero; 0 for an empty store.
   */
  function AvgAmount(s: Store): (m: Int32)
    ensures Valid(s) && NumberTests(s) > 0 ==> m == JavaDiv(TotalAmount(s), NumberTests(s))
    ensures Valid(s) && NumberTests(s) == 0 ==> m == 0
  {
    s.avg
  }

  /** Purging twice leaves the same state as purging once. */
  lemma PurgeIdempotent(s: Store)
    ensures Purge(Purge(s)) == Purge(s)
  {
  }

  /**
   The aggregates after a run of accepted inserts into an empty store are the
   statistics of the inserted amounts.
   */
  lemma AggregatesAfterInserts(rows: seq<Reading>)
    requires |rows| > 0
    ensures var t := InsertAll(Empty(), rows);
      && NumberTests(t) == |rows|
      && TotalAmount(t) == Wrap32(Sum(Amounts(rows)))
      && MaxAmount(t) == MaxOf(Amounts(rows))
      && MinAmount(t) == MinOf(Amounts(rows))
      && AvgAmount(t) == JavaDiv(TotalAmount(t), |rows|)
  {
    var t := InsertAll(Empty(), rows);
    assert t.readings == rows;
  }

  /** A purge followed by one accepted insert leaves every aggregate at that reading's amount. */
  lemma InsertAfterPurge(s: Store, r: Reading, rowId: int)
    requires rowId > 0
    ensures var (t, ok) := Insert(Purge(s), r, rowId);
      && ok
      && NumberTests(t) == 1
      && MaxAmount(t) == r.amount && MinAmount(t) == r.amount
      && TotalAmount(t) == r.amount && AvgAmount(t) == r.amount
  {
    var t := Insert(Purge(s), r, rowId).0;
    assert Amounts(t.readings) == [r.amount];
    JavaDivByOne(r.amount);
    assert Sum([r.amount]) == Sum([]) + r.amount;
  }

  /** A rejected insert leaves the list and every aggregate as they were. */
  lemma FailedInsertIsolated(s: Store, r: Reading, rowId: int)
    requires rowId <= 0
    ensures var (t, ok) := Insert(s, r, rowId);
      && !ok
      && NumberTests(t) == NumberTests(s)
      && MaxAmount(t) == MaxAmount(s) && MinAmount(t) == MinAmount(s)
      && TotalAmount(t) == TotalAmount(s) && AvgAmount(t) == AvgAmount(s)
  {
  }

  /** Loading the rows 50, 150, 100 gives total 300, max 150, min 50, average 100, count 3. */
  lemma ReloadExample(d: string, t: string)
    ensures var s := InsertAll(Empty(), [Reading(d, t, 50), Reading(d, t, 150), Reading(d, t, 100)]);
      && TotalAmount(s) == 300 && MaxAmount(s) == 150 && MinAmount(s) == 50
      && AvgAmount(s) == 100 && NumberTests(s) == 3
  {
    var rows := [Reading(d, t, 50), Reading(d, t, 150), Reading(d, t, 100)];
    var s := InsertAll(Empty(), rows);
    assert s.readings == rows;
    var a := Amounts(rows);
    assert a == [50, 150, 100];
    assert Sum(a) == 300 by {
      assert a[..2] == [50, 150];
      assert [50, 150][..1] == [50];
      assert [50][..0] == [];
    }
    assert MaxOf(a) == 150 && MinOf(a) == 50 by {
      assert a[..2] == [50, 150];
      assert [50, 150][..1] == [50];
    }
  }
}
