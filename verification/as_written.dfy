/**
 `DatabaseHelper.java` as it is written, where it departs from the
 corrected store of module `ReadingStore`. Each departure comes with a lemma
 that exhibits it, next to the corrected behaviour it should have had.
 */
module AsWritten {
  import opened JavaInt
  import opened Readings
  import opened ReadingStore

  /**
   `insertReadings` as written (DatabaseHelper.java:199-224), taking the list
   as present, as if `results` held one (as written it never does; see
   `LoadAsWritten`). The backend's row id arrives first; then, whatever it
   was:
   - the total takes the amount (line 211);
   - the average divides by the size of a list that is never extended
     (line 212), which throws when the list is empty;
   - a list of size one has min and max overwritten by the amount
     (lines 213-215);
   - otherwise an amount above max is stored into min, not max (line 220);
   and only the return value looks at the row id (line 223). Java does not
   undo the write at line 211 when line 212 throws, so the state after the
   call is part of the result on both paths.
   */
  function InsertAsWritten(s: Store, r: Reading, rowId: int): (o: (Store, Outcome<bool>))
    ensures o.0.readings == s.readings
    ensures o.0.total == Wrap32(s.total + r.amount)
    ensures o.1.Threw? <==> |s.readings| == 0
    ensures o.1.Threw? ==> o.1.exception == ArithmeticException
    ensures o.1.Threw? ==> o.0.min == s.min && o.0.max == s.max && o.0.avg == s.avg
    ensures o.1.Returned? ==> (o.1.value <==> rowId > 0)
    ensures o.0.max == s.max || |s.readings| == 1
    ensures |s.readings| >= 2 ==> o.0.min == s.min || (o.0.min == r.amount && r.amount > s.max)
  {
    var total := Wrap32(s.total + r.amount);
    if |s.readings| == 0 then
      (s.(total := total), Threw(ArithmeticException))
    else
      var avg := JavaDiv(total, |s.readings|);
      if |s.readings| == 1 then
        (Store(s.readings, total, r.amount, r.amount, avg), Returned(rowId > 0))
      else
        var min := if r.amount > s.max then r.amount else s.min;
        (Store(s.readings, total, min, s.max, avg), Returned(rowId > 0))
  }

  /**
   Line 220: from a valid store of two or more readings, an accepted reading
   above the current max leaves max below it and moves min up to it, where
   the corrected insert makes it the new max and keeps min.
   */
  lemma InsertAsWrittenLosesNewMax(s: Store, r: Reading, rowId: int)
    requires Valid(s) && |s.readings| >= 2
    requires rowId > 0 && r.amount > MaxAmount(s)
    ensures var (t, o) := InsertAsWritten(s, r, rowId);
      && o == Returned(true)
      && MaxAmount(t) < r.amount
      && MinAmount(t) == r.amount
      && MinAmount(t) > MinAmount(s)
    ensures var (t, ok) := Insert(s, r, rowId);
      ok && MaxAmount(t) == r.amount && MinAmount(t) == MinAmount(s)
  {
    var t := Insert(s, r, rowId).0;
    assert Valid(t) && |t.readings| > 1;
    AppendAggregates(s, r);
    StoredExtremes(s);
    assert s.readings[0].amount <= s.max && s.min <= s.readings[0].amount;
  }

  /**
   Lines 219-220, the other half: on a store of two or more readings, min is
   written only under the test against max, so an accepted reading below the
   current min never lowers it, where the corrected insert makes it the new
   min.
   */
  lemma InsertAsWrittenNeverNarrowsMin(s: Store, r: Reading, rowId: int)
    requires Valid(s) && |s.readings| >= 2 && r.amount < MinAmount(s)
    ensures var (t, o) := InsertAsWritten(s, r, rowId);
      MinAmount(t) == MinAmount(s) > r.amount
    ensures rowId > 0 ==> MinAmount(Insert(s, r, rowId).0) == r.amount
  {
    AppendAggregates(s, r);
    StoredExtremes(s);
    assert s.readings[0].amount <= s.max;
  }

  /**
   Line 212: an insert into an empty list, for instance right after a purge
   that cleared it, divides by zero. The total has already taken the amount
   (line 211), so the state left behind counts a reading the list does not
   hold; the corrected insert stores the reading.
   */
  lemma InsertAsWrittenDividesByZero(s: Store, r: Reading, rowId: int)
    ensures var (t, o) := InsertAsWritten(Purge(s), r, rowId);
      && o == Threw(ArithmeticException)
      && NumberTests(t) == 0 && TotalAmount(t) == r.amount
      && (r.amount != 0 ==> !Valid(t))
    ensures rowId > 0 ==> NumberTests(Insert(Purge(s), r, rowId).0) == 1
  {
  }

  /**
   Lines 212-215: an accepted insert does not change the count, so the
   average is taken over the readings before it, and a store holding one
   reading takes the size-one branch on every insert: max and min are both
   overwritten by the new amount, losing the stored reading's. The corrected
   insert counts the new reading and keeps the extremes of both.
   */
  lemma InsertAsWrittenCountStale(s: Store, r: Reading, rowId: int)
    requires |s.readings| > 0 && rowId > 0
    ensures var (t, o) := InsertAsWritten(s, r, rowId);
      && o == Returned(true)
      && NumberTests(t) == NumberTests(s)
      && AvgAmount(t) == JavaDiv(Wrap32(TotalAmount(s) + r.amount), NumberTests(s))
      && (|s.readings| == 1 ==> MaxAmount(t) == r.amount && MinAmount(t) == r.amount)
    ensures var t := Insert(s, r, rowId).0;
      && NumberTests(t) == NumberTests(s) + 1
      && (Valid(s) ==> MaxAmount(t) == Max(MaxAmount(s), r.amount) && MinAmount(t) == Min(MinAmount(s), r.amount))
  {
    AppendAggregates(s, r);
  }

  /**
   Lines 211 and 223: a write the backend rejected still moves the total (for
   any non-zero amount), although the call reports failure; the corrected
   insert leaves the store alone.
   */
  lemma InsertAsWrittenCountsRejectedWrite(s: Store, r: Reading, rowId: int)
    requires |s.readings| > 0 && rowId <= 0 && r.amount != 0
    ensures var (t, o) := InsertAsWritten(s, r, rowId);
      && o == Returned(false)
      && TotalAmount(t) != TotalAmount(s)
    ensures Insert(s, r, rowId) == (s, false)
  {
    WrapAddNonZero(s.total, r.amount);
  }

  /**
   The aggregate fold of `getAllResults` as written (DatabaseHelper.java:
   171-179), starting from the constructor's zeros (lines 63-65). It is what
   the loop would compute if every `results.add` at line 185 succeeded, that
   is, if `results` held a list; as written the loop is never reached with
   one (see `LoadAsWritten`). The seeding at lines 172-175 assigns 0 to
   fields that are already 0, so 0 takes part in both comparisons: max ends
   as the larger of 0 and every amount, min as the smaller.
   */
  function LoadFoldAsWritten(rows: seq<Reading>): (a: Aggregates)
    ensures FoldsTo(rows, a)
    decreases |rows|
  {
    if |rows| == 0 then Aggregates(0, 0, 0)
    else
      var init := rows[..|rows| - 1];
      var r := rows[|rows| - 1];
      var prev := LoadFoldAsWritten(init);
      var total := Wrap32(prev.total + r.amount);
      // Lines 172-175 reseed both fields to 0 exactly when both already are 0.
      var (min0, max0) := if prev.min == 0 && prev.max == 0 then (0, 0) else (prev.min, prev.max);
      var max := if r.amount > max0 then r.amount else max0;
      var min := if r.amount < min0 then r.amount else min0;
      assert init + [r] == rows;
      LoadFoldStep(init, r, prev, Aggregates(total, min, max));
      Aggregates(total, min, max)
  }

  /**
   The aggregates `a` are those of folding `rows` from zeros: the wrapped
   sum, and the extremes of the amounts together with 0.
   */
  ghost predicate FoldsTo(rows: seq<Reading>, a: Aggregates) {
    && a.total == Wrap32(Sum(Amounts(rows)))
    && (|rows| == 0 ==> a.min == 0 && a.max == 0)
    && (|rows| > 0 ==> a.max == Max(0, MaxOf(Amounts(rows))) && a.min == Min(0, MinOf(Amounts(rows))))
  }

  lemma LoadFoldStep(init: seq<Reading>, r: Reading, prev: Aggregates, next: Aggregates)
    requires FoldsTo(init, prev)
    requires next.total == Wrap32(prev.total + r.amount)
    requires next.max == Max(prev.max, r.amount) && next.min == Min(prev.min, r.amount)
    ensures FoldsTo(init + [r], next)
  {
    var a := Amounts(init);
    var a' := Amounts(init + [r]);
    AmountsAppend(init, r);
    assert a' == a + [r.amount];
    SumAppend(a, r.amount);
    WrapAdd(Sum(a), r.amount);
    assert next.total == Wrap32(Sum(a'));
    if |init| > 0 {
      MaxOfAppend(a, r.amount);
      MinOfAppend(a, r.amount);
      assert next.max == Max(0, MaxOf(a'));
      assert next.min == Min(0, MinOf(a'));
    } else {
      assert a' == [r.amount];
    }
  }

  /**
   After the fold as written, max bounds every amount and the seed 0 from
   above, min bounds them from below, and each is 0 or one of the amounts.
   */
  lemma LoadFoldAsWrittenBounds(rows: seq<Reading>)
    ensures var a := LoadFoldAsWritten(rows);
      && 0 <= a.max && a.min <= 0
      && (forall i :: 0 <= i < |rows| ==> a.min <= rows[i].amount <= a.max)
      && (a.max == 0 || exists i :: 0 <= i < |rows| && rows[i].amount == a.max)
      && (a.min == 0 || exists i :: 0 <= i < |rows| && rows[i].amount == a.min)
  {
    var a := LoadFoldAsWritten(rows);
    if |rows| > 0 {
      var xs := Amounts(rows);
      assert forall i :: 0 <= i < |rows| ==> xs[i] == rows[i].amount;
      var j :| 0 <= j < |xs| && xs[j] == MaxOf(xs);
      var k :| 0 <= k < |xs| && xs[k] == MinOf(xs);
      assert rows[j].amount == MaxOf(xs) && rows[k].amount == MinOf(xs);
    }
  }

  /**
   Lines 172-175: when every amount is positive the folded min stays at 0,
   below every reading, where the corrected load reports the smallest
   reading.
   */
  lemma LoadFoldAsWrittenMinPinnedAtZero(rows: seq<Reading>)
    requires |rows| > 0
    requires forall i :: 0 <= i < |rows| ==> rows[i].amount > 0
    ensures LoadFoldAsWritten(rows).min == 0
    ensures InsertAll(Empty(), rows).min == MinOf(Amounts(rows)) > 0
  {
    var a := Amounts(rows);
    var k :| 0 <= k < |a| && a[k] == MinOf(a);
    assert a[k] == rows[k].amount;
    assert InsertAll(Empty(), rows).readings == rows;
  }

  /**
   Lines 172-175, mirrored: when every amount is negative the folded max
   stays at 0, above every reading.
   */
  lemma LoadFoldAsWrittenMaxPinnedAtZero(rows: seq<Reading>)
    requires |rows| > 0
    requires forall i :: 0 <= i < |rows| ==> rows[i].amount < 0
    ensures LoadFoldAsWritten(rows).max == 0
    ensures InsertAll(Empty(), rows).max == MaxOf(Amounts(rows)) < 0
  {
    var a := Amounts(rows);
    var k :| 0 <= k < |a| && a[k] == MaxOf(a);
    assert a[k] == rows[k].amount;
    assert InsertAll(Empty(), rows).readings == rows;
  }

  /**
   The control flow of `getAllResults` as written (DatabaseHelper.java:
   152-192), called from the constructor (line 68) while the `results` field
   is still `null`. `tableListed` is what the sqlite_master query of `isEmpty`
   (lines 123-145) reports; despite its name, `isEmpty` is true when the
   table EXISTS. An existing table skips the read, and line 191 returns the
   unassigned field. A missing table makes the engine reject the query at
   line 160, before the row count at line 162 or the `results.add` at
   line 185 is reached. Either way the load never yields a list.
   */
  function LoadAsWritten(tableListed: bool): (o: Outcome<Nullable<seq<Reading>>>)
    ensures !(o.Returned? && o.value.Ref?)
    ensures o.Returned? <==> tableListed
    ensures o.Threw? ==> o.exception == SQLiteException
  {
    if tableListed then Returned(Null) else Threw(SQLiteException)
  }

  /**
   `getNumberTests` as written (DatabaseHelper.java:248) on the `results`
   field, which may be `null`: the size of the list, or a null-pointer
   exception.
   */
  function NumberTestsAsWritten(results: Nullable<seq<Reading>>): Outcome<nat> {
    match results
    case Null => Threw(NullPointerException)
    case Ref(list) => Returned(|list|)
  }

  /**
   Lines 68, 191 and 248: whenever the constructor's load returns, the field
   it leaves is `null`, so the same `getNumberTests` throws on it; on the list
   the corrected load of any rows leaves, it returns the number of rows.
   */
  lemma LoadAsWrittenLeavesNoList(tableListed: bool, rows: seq<Reading>)
    ensures var o := LoadAsWritten(tableListed);
      o.Returned? ==> NumberTestsAsWritten(o.value) == Threw(NullPointerException)
    ensures var t := InsertAll(Empty(), rows);
      NumberTestsAsWritten(Ref(t.readings)) == Returned(|rows|) == Returned(NumberTests(t))
  {
  }
}
