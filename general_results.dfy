/**
 * The totals of `displayGeneralResults` (js/reconciler.js:181-186): which
 * ARCA records count as reconciled and as pending, and the three amounts
 * shown on the summary cards.
 */
module GeneralResults {
  import opened AppState

  /**
   * An ARCA record as the summary sees it: the text of its `Estado`
   * attribute (any text, since the attribute comes from the stored row's
   * original data) and its amount in cents as normalizeRecord gives it
   * (`|| 0` already applied).
   */
  datatype ArcaRow = ArcaRow(estado: string, cents: int)

  datatype Summary = Summary(
    reconciled: seq<ArcaRow>,
    pending: seq<ArcaRow>,
    totalArca: int,
    totalReconciled: int,
    totalPending: int)

  predicate IsReconciled(r: ArcaRow)
  {
    r.estado == StatusText(Reconciled) || r.estado == StatusText(ReconciledWithDiff)
  }

  predicate IsPending(r: ArcaRow)
  {
    r.estado == StatusText(Pending)
  }

  /** The rows with none of the three STATUS texts. */
  predicate IsUnclassified(r: ArcaRow)
  {
    !IsReconciled(r) && !IsPending(r)
  }

  predicate NotReconciled(r: ArcaRow)
  {
    !IsReconciled(r)
  }

  /** Array.prototype.filter */
  function Select(rows: seq<ArcaRow>, keep: ArcaRow -> bool): (r: seq<ArcaRow>)
    ensures |r| <= |rows|
    ensures forall x :: x in r ==> x in rows && keep(x)
  {
    if rows == [] then []
    else if keep(rows[0]) then [rows[0]] + Select(rows[1..], keep)
    else Select(rows[1..], keep)
  }

  /** `reduce((sum, r) => sum + amount, 0)` */
  function Sum(rows: seq<ArcaRow>): (r: int)
    ensures (forall k :: 0 <= k < |rows| ==> rows[k].cents >= 0) ==> r >= 0
  {
    if rows == [] then 0 else rows[0].cents + Sum(rows[1..])
  }

  function Summarize(rows: seq<ArcaRow>): (s: Summary)
    ensures |s.reconciled| <= |rows| && |s.pending| <= |rows|
    ensures forall r :: r in s.reconciled ==> r in rows && IsReconciled(r)
    ensures forall r :: r in s.pending ==> r in rows && IsPending(r)
  {
    var reconciled := Select(rows, IsReconciled);
    var pending := Select(rows, IsPending);
    var totalArca := Sum(rows);
    var totalReconciled := Sum(reconciled);
    Summary(reconciled, pending, totalArca, totalReconciled, totalArca - totalReconciled)
  }

  /** A filtered list holds exactly the rows that pass, each as often as in the input. */
  lemma {:induction false} SelectKeepsExactlyPassing(rows: seq<ArcaRow>, keep: ArcaRow -> bool)
    ensures forall x :: x in Select(rows, keep) <==> x in rows && keep(x)
    ensures forall x :: keep(x) ==> multiset(Select(rows, keep))[x] == multiset(rows)[x]
  {
    if rows != [] {
      SelectKeepsExactlyPassing(rows[1..], keep);
      assert rows == [rows[0]] + rows[1..];
    }
  }

  /** Filtering by a test and by its negation splits the rows and the total. */
  lemma {:induction false} SelectSplits(rows: seq<ArcaRow>, keep: ArcaRow -> bool, drop: ArcaRow -> bool)
    requires forall r :: r in rows ==> drop(r) == !keep(r)
    ensures Sum(Select(rows, keep)) + Sum(Select(rows, drop)) == Sum(rows)
    ensures |Select(rows, keep)| + |Select(rows, drop)| == |rows|
  {
    if rows != [] {
      SelectSplits(rows[1..], keep, drop);
    }
  }

  /** Filtering by the same test on rows where two tests agree gives the same list. */
  lemma {:induction false} SelectAgrees(rows: seq<ArcaRow>, f: ArcaRow -> bool, g: ArcaRow -> bool)
    requires forall r :: r in rows ==> f(r) == g(r)
    ensures Select(rows, f) == Select(rows, g)
  {
    if rows != [] {
      SelectAgrees(rows[1..], f, g);
    }
  }

  /**
   * The summary: `reconciled` holds exactly the rows whose Estado is
   * `Conciliada` or `Conciliado con Diferencias`, `pending` exactly those
   * whose Estado is `Pendiente`, and the pending amount is the total minus
   * the reconciled amount, which is the sum over every row not reconciled.
   */
  lemma SummaryClassifies(rows: seq<ArcaRow>)
    ensures var s := Summarize(rows);
      && (forall r :: r in s.reconciled <==> r in rows && IsReconciled(r))
      && (forall r :: r in s.pending <==> r in rows && IsPending(r))
      && s.totalArca == Sum(rows)
      && s.totalReconciled == Sum(s.reconciled)
      && s.totalPending == s.totalArca - s.totalReconciled
      && s.totalPending == Sum(Select(rows, NotReconciled))
  {
    SelectKeepsExactlyPassing(rows, IsReconciled);
    SelectKeepsExactlyPassing(rows, IsPending);
    SelectSplits(rows, IsReconciled, NotReconciled);
  }

  /**
   * The rows that are not reconciled are the pending ones and those with an
   * unknown Estado: the pending amount is the sum of both, while the pending
   * count shown beside it counts only the first.
   */
  lemma PendingTotalCountsUnclassifiedRows(rows: seq<ArcaRow>)
    ensures var s := Summarize(rows);
      s.totalPending == Sum(s.pending) + Sum(Select(rows, IsUnclassified))
  {
    var notRec := Select(rows, NotReconciled);
    assert Summarize(rows).totalPending == Sum(notRec) by {
      SelectSplits(rows, IsReconciled, NotReconciled);
    }
    assert Sum(notRec) == Sum(Select(notRec, IsPending)) + Sum(Select(notRec, IsUnclassified)) by {
      SelectKeepsExactlyPassing(rows, NotReconciled);
      SelectSplits(notRec, IsPending, IsUnclassified);
    }
    assert Select(notRec, IsPending) == Summarize(rows).pending by {
      forall r | r in rows
        ensures IsPending(r) == (NotReconciled(r) && IsPending(r))
      {
        PendingIsNotReconciled(r);
      }
      SelectOfSelect(rows, NotReconciled, IsPending, IsPending);
    }
    assert Select(notRec, IsUnclassified) == Select(rows, IsUnclassified) by {
      SelectOfSelect(rows, NotReconciled, IsUnclassified, IsUnclassified);
    }
  }

  lemma PendingIsNotReconciled(r: ArcaRow)
    ensures IsPending(r) ==> NotReconciled(r)
  {
    if IsPending(r) {
      assert r.estado[0] == 'P';
    }
  }

  /** Filtering twice is filtering once by a test that holds when both do. */
  lemma {:induction false} SelectOfSelect(rows: seq<ArcaRow>, f: ArcaRow -> bool, g: ArcaRow -> bool, both: ArcaRow -> bool)
    requires forall r :: r in rows ==> both(r) == (f(r) && g(r))
    ensures Select(Select(rows, f), g) == Select(rows, both)
  {
    if rows != [] {
      SelectOfSelect(rows[1..], f, g, both);
    }
  }

  /**
   * When every row carries one of the three STATUS texts, the pending
   * amount is the sum over the pending rows and the two lists partition
   * the rows.
   */
  lemma PendingTotalWhenStatusesKnown(rows: seq<ArcaRow>)
    requires forall r :: r in rows ==> IsReconciled(r) || IsPending(r)
    ensures var s := Summarize(rows);
      && s.totalPending == Sum(s.pending)
      && |s.reconciled| + |s.pending| == |rows|
  {
    SummaryClassifies(rows);
    SelectAgrees(rows, NotReconciled, IsPending);
    SelectSplits(rows, IsReconciled, NotReconciled);
  }
}
