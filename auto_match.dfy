/**
 * The automatic matching pass of `processReconciliation`
 * (js/reconciler.js:137-155), taken out of its database round-trips.
 *
 * Every ARCA record, in array order, is bound to the first contabilidad
 * record that is not yet matched and has the same CUIT and the same amount
 * at two decimals. Both records are flagged `matched`, a counter mints the
 * id `auto_<n>`, and two update entries with estado `Conciliada` are
 * appended to the list that the source upserts.
 *
 * `PassUpTo` / `AutoMatch` define the pass on values; `ProcessReconciliation`
 * is the loop itself, over arrays, proved to compute `AutoMatch`; the
 * lemmas state what the source promises of the result.
 */
module AutoReconciliation {
  import opened Wrappers
  import opened AppState
  import Strings

  /** The opaque id of a stored record (`db_id`). */
  type RecordId = int

  /**
   * What `monto.toFixed(2)` prints, as a value: whether a minus sign is
   * printed, and the magnitude in hundredths. A negative amount that rounds
   * to zero still prints its sign (`-0.00`).
   */
  datatype Fixed2 = Fixed2(negative: bool, cents: nat)

  /** The text of `toFixed(2)`: sign, integer part, point, two decimals. */
  function FixedText(f: Fixed2): (r: string)
    ensures |r| >= 4
  {
    var whole, frac := f.cents / 100, f.cents % 100;
    (if f.negative then "-" else "") + Strings.NatToDecimal(whole) + "."
      + [Strings.DigitChar(frac / 10), Strings.DigitChar(frac % 10)]
  }

  /** Two `toFixed(2)` texts are equal exactly when the values they print are. */
  lemma FixedTextInjective(x: Fixed2, y: Fixed2)
    ensures FixedText(x) == FixedText(y) <==> x == y
  {
    if FixedText(x) == FixedText(y) {
      var tx, ty := FixedText(x), FixedText(y);
      var dx, dy := Strings.NatToDecimal(x.cents / 100), Strings.NatToDecimal(y.cents / 100);
      var sx: string := if x.negative then "-" else "";
      var sy: string := if y.negative then "-" else "";
      assert tx == sx + dx + "." + [tx[|tx| - 2], tx[|tx| - 1]];
      assert ty == sy + dy + "." + [ty[|ty| - 2], ty[|ty| - 1]];
      // the sign: a minus sign is not a digit
      assert x.negative == y.negative by {
        assert tx[0] == (if x.negative then '-' else dx[0]);
        assert ty[0] == (if y.negative then '-' else dy[0]);
      }
      // the two decimals
      assert (x.cents % 100) / 10 == (y.cents % 100) / 10 && x.cents % 100 % 10 == y.cents % 100 % 10 by {
        assert tx[|tx| - 2] == Strings.DigitChar((x.cents % 100) / 10);
        assert ty[|ty| - 2] == Strings.DigitChar((y.cents % 100) / 10);
        assert tx[|tx| - 1] == Strings.DigitChar(x.cents % 100 % 10);
        assert ty[|ty| - 1] == Strings.DigitChar(y.cents % 100 % 10);
      }
      // the integer part
      assert dx == tx[|sx|..|tx| - 3];
      assert dy == ty[|sy|..|ty| - 3];
      Strings.NatToDecimalInjective(x.cents / 100, y.cents / 100);
    }
  }

  /**
   * A record as normalizeRecord projects it: its CUIT, its amount as
   * `toFixed(2)` prints it, and the id of its stored row.
   */
  datatype NormRecord = NormRecord(cuit: string, amount: Fixed2, dbId: RecordId)

  /** One entry of `recordsToUpdate`: `{ id, estado, match_id }`. */
  datatype Update = Update(id: RecordId, estado: Status, matchId: string)

  /** A bound pair: an index into the ARCA array and one into the contabilidad array. */
  datatype Match = Match(arcaIndex: nat, contIndex: nat)

  /** The state of the pass: both sides' `matched` flags, `matchCounter`, `recordsToUpdate`, and the pairs bound so far. */
  datatype PassState = PassState(
    arcaMatched: seq<bool>,
    contMatched: seq<bool>,
    matchCounter: nat,
    updates: seq<Update>,
    matches: seq<Match>)

  /** The matching key: same CUIT and same amount at two decimals. */
  predicate SameKey(a: NormRecord, c: NormRecord)
  {
    a.cuit == c.cuit && a.amount == c.amount
  }

  /** The key is the one the source compares: equal CUITs and equal `toFixed(2)` texts. */
  lemma SameKeyIsSameText(a: NormRecord, c: NormRecord)
    ensures SameKey(a, c) <==> a.cuit == c.cuit && FixedText(a.amount) == FixedText(c.amount)
  {
    FixedTextInjective(a.amount, c.amount);
  }

  /** The text of the n-th match id, `auto_${n}`. */
  function MatchId(n: nat): (r: string)
    ensures |r| > 5 && r[..5] == "auto_"
    ensures forall k :: 5 <= k < |r| ==> Strings.IsDigit(r[k])
  {
    "auto_" + Strings.NatToDecimal(n)
  }

  /** Distinct counter values give distinct match ids. */
  lemma MatchIdInjective(m: nat, n: nat)
    requires MatchId(m) == MatchId(n)
    ensures m == n
  {
    assert MatchId(m)[5..] == Strings.NatToDecimal(m);
    assert MatchId(n)[5..] == Strings.NatToDecimal(n);
    Strings.NatToDecimalInjective(m, n);
  }

  /** Contabilidad record j may be taken by ARCA record `a`: unmatched and with the same key. */
  predicate Candidate(cont: seq<NormRecord>, taken: seq<bool>, a: NormRecord, j: int)
    requires |taken| == |cont|
  {
    0 <= j < |cont| && !taken[j] && SameKey(a, cont[j])
  }

  /** `contNorm.find(...)` started at index `from`. */
  function FirstFitFrom(cont: seq<NormRecord>, taken: seq<bool>, a: NormRecord, from: nat): (r: Option<nat>)
    requires |taken| == |cont|
    ensures r.Some? ==> from <= r.value < |cont| && Candidate(cont, taken, a, r.value)
    decreases |cont| - from
  {
    if from >= |cont| then None
    else if Candidate(cont, taken, a, from) then Some(from)
    else FirstFitFrom(cont, taken, a, from + 1)
  }

  /** `contNorm.find(...)`: the contabilidad record chosen for ARCA record `a`, if any. */
  function FirstFit(cont: seq<NormRecord>, taken: seq<bool>, a: NormRecord): (r: Option<nat>)
    requires |taken| == |cont|
    ensures r.Some? ==> Candidate(cont, taken, a, r.value)
  {
    FirstFitFrom(cont, taken, a, 0)
  }

  lemma {:induction false} FirstFitFromIsLowest(cont: seq<NormRecord>, taken: seq<bool>, a: NormRecord, from: nat)
    requires |taken| == |cont|
    ensures var r := FirstFitFrom(cont, taken, a, from);
      && (r.Some? ==> Candidate(cont, taken, a, r.value)
                      && forall k :: from <= k < r.value ==> !Candidate(cont, taken, a, k))
      && (r.None? <==> forall k :: from <= k < |cont| ==> !Candidate(cont, taken, a, k))
    decreases |cont| - from
  {
    if from < |cont| && !Candidate(cont, taken, a, from) {
      FirstFitFromIsLowest(cont, taken, a, from + 1);
    }
  }

  /**
   * The find picks the lowest-index candidate, and finds nothing exactly
   * when there is no candidate at all.
   */
  lemma FirstFitIsLowestCandidate(cont: seq<NormRecord>, taken: seq<bool>, a: NormRecord)
    requires |taken| == |cont|
    ensures var r := FirstFit(cont, taken, a);
      && (r.Some? ==> Candidate(cont, taken, a, r.value)
                      && forall k :: 0 <= k < r.value ==> !Candidate(cont, taken, a, k))
      && (r.None? <==> forall k :: 0 <= k < |cont| ==> !Candidate(cont, taken, a, k))
  {
    FirstFitFromIsLowest(cont, taken, a, 0);
  }

  /** Nothing matched, counter at zero, no updates. */
  function InitialState(arca: seq<NormRecord>, cont: seq<NormRecord>): PassState
  {
    PassState(seq(|arca|, _ => false), seq(|cont|, _ => false), 0, [], [])
  }

  predicate ShapeOk(arca: seq<NormRecord>, cont: seq<NormRecord>, st: PassState)
  {
    |st.arcaMatched| == |arca| && |st.contMatched| == |cont|
  }

  /** One turn of the `forEach` body, for ARCA record i. */
  function Step(arca: seq<NormRecord>, cont: seq<NormRecord>, st: PassState, i: nat): (r: PassState)
    requires i < |arca| && ShapeOk(arca, cont, st)
    ensures ShapeOk(arca, cont, r)
  {
    match FirstFit(cont, st.contMatched, arca[i])
    case None => st
    case Some(j) =>
      var n := st.matchCounter + 1;
      var id := MatchId(n);
      PassState(
        st.arcaMatched[i := true],
        st.contMatched[j := true],
        n,
        st.updates + [Update(arca[i].dbId, Reconciled, id), Update(cont[j].dbId, Reconciled, id)],
        st.matches + [Match(i, j)])
  }

  /** The state after the first n ARCA records have been processed. */
  function PassUpTo(arca: seq<NormRecord>, cont: seq<NormRecord>, n: nat): (r: PassState)
    requires n <= |arca|
    ensures ShapeOk(arca, cont, r)
  {
    if n == 0 then InitialState(arca, cont)
    else Step(arca, cont, PassUpTo(arca, cont, n - 1), n - 1)
  }

  /** The whole pass. */
  function AutoMatch(arca: seq<NormRecord>, cont: seq<NormRecord>): (r: PassState)
    ensures ShapeOk(arca, cont, r)
  {
    PassUpTo(arca, cont, |arca|)
  }

  // ---------------------------------------------------------------------
  // The invariant the pass keeps, split into its parts.

  /** Pairs point into both arrays, ARCA indices below n, strictly increasing; no contabilidad index twice. */
  predicate PairsWellFormed(arca: seq<NormRecord>, cont: seq<NormRecord>, n: nat, ms: seq<Match>)
  {
    && (forall p :: 0 <= p < |ms| ==> ms[p].arcaIndex < n && ms[p].arcaIndex < |arca| && ms[p].contIndex < |cont|)
    && (forall p, q :: 0 <= p < q < |ms| ==> ms[p].arcaIndex < ms[q].arcaIndex)
    && (forall p, q :: 0 <= p < q < |ms| ==> ms[p].contIndex != ms[q].contIndex)
  }

  predicate ArcaPaired(ms: seq<Match>, i: int)
  {
    exists p :: 0 <= p < |ms| && ms[p].arcaIndex == i
  }

  predicate ContPaired(ms: seq<Match>, j: int)
  {
    exists p :: 0 <= p < |ms| && ms[p].contIndex == j
  }

  /** Contabilidad record j is bound by one of the first `before` pairs. */
  predicate ContPairedBefore(ms: seq<Match>, before: int, j: int)
  {
    exists q :: 0 <= q < before && q < |ms| && ms[q].contIndex == j
  }

  /** A record is flagged `matched` exactly when it occurs in a pair. */
  predicate FlagsAgree(st: PassState)
  {
    && (forall i :: 0 <= i < |st.arcaMatched| ==> (st.arcaMatched[i] <==> ArcaPaired(st.matches, i)))
    && (forall j :: 0 <= j < |st.contMatched| ==> (st.contMatched[j] <==> ContPaired(st.matches, j)))
  }

  predicate PairsShareKey(arca: seq<NormRecord>, cont: seq<NormRecord>, ms: seq<Match>)
  {
    forall p :: 0 <= p < |ms| && ms[p].arcaIndex < |arca| && ms[p].contIndex < |cont| ==>
      SameKey(arca[ms[p].arcaIndex], cont[ms[p].contIndex])
  }

  /** Every lower contabilidad record with the same key was already taken by an earlier pair. */
  predicate PairsFirstFit(arca: seq<NormRecord>, cont: seq<NormRecord>, ms: seq<Match>)
  {
    forall p, k ::
      (0 <= p < |ms| && 0 <= k < ms[p].contIndex && ms[p].arcaIndex < |arca| && k < |cont|
       && SameKey(arca[ms[p].arcaIndex], cont[k])) ==>
      ContPairedBefore(ms, p, k)
  }

  /** No unmatched ARCA record among the first n shares its key with an unmatched contabilidad record. */
  predicate MaximalUpTo(arca: seq<NormRecord>, cont: seq<NormRecord>, n: nat, st: PassState)
    requires ShapeOk(arca, cont, st)
  {
    forall i, j :: 0 <= i < n && i < |arca| && 0 <= j < |cont| && !st.arcaMatched[i] && !st.contMatched[j] ==>
      !SameKey(arca[i], cont[j])
  }

  /** Entry 2p is pair p's ARCA record, entry 2p+1 its contabilidad record, both `Conciliada` with id auto_(p+1). */
  predicate UpdatesAgree(arca: seq<NormRecord>, cont: seq<NormRecord>, st: PassState)
  {
    && st.matchCounter == |st.matches|
    && |st.updates| == 2 * |st.matches|
    && forall e :: 0 <= e < |st.updates| ==>
         var m := st.matches[e / 2];
         && m.arcaIndex < |arca| && m.contIndex < |cont|
         && st.updates[e] == Update(
              if e % 2 == 0 then arca[m.arcaIndex].dbId else cont[m.contIndex].dbId,
              Reconciled,
              MatchId(e / 2 + 1))
  }

  /**
   * Contabilidad record j was bound by a pair whose ARCA record comes before
   * ARCA record i. This is `ContPairedBefore` counted by ARCA index instead
   * of pair index: the two agree because ARCA indices strictly increase
   * across pairs (`MatchesAreOneToOne`).
   */
  predicate TakenBefore(ms: seq<Match>, i: int, j: int)
  {
    exists p :: 0 <= p < |ms| && ms[p].contIndex == j && ms[p].arcaIndex < i
  }

  /**
   * Every ARCA record among the first n that found no partner had none
   * free: each contabilidad record with its key was already bound by an
   * earlier ARCA record.
   */
  predicate LeftoversHadNoPartner(arca: seq<NormRecord>, cont: seq<NormRecord>, n: nat, st: PassState)
    requires ShapeOk(arca, cont, st)
  {
    forall i, j :: 0 <= i < n && i < |arca| && 0 <= j < |cont| && !st.arcaMatched[i] && SameKey(arca[i], cont[j]) ==>
      TakenBefore(st.matches, i, j)
  }

  predicate Consistent(arca: seq<NormRecord>, cont: seq<NormRecord>, n: nat, st: PassState)
  {
    && n <= |arca|
    && ShapeOk(arca, cont, st)
    && PairsWellFormed(arca, cont, n, st.matches)
    && FlagsAgree(st)
    && PairsShareKey(arca, cont, st.matches)
    && PairsFirstFit(arca, cont, st.matches)
    && MaximalUpTo(arca, cont, n, st)
    && LeftoversHadNoPartner(arca, cont, n, st)
    && UpdatesAgree(arca, cont, st)
  }

  lemma InitialConsistent(arca: seq<NormRecord>, cont: seq<NormRecord>)
    ensures Consistent(arca, cont, 0, InitialState(arca, cont))
  {
  }

  lemma StepFlagsAgree(arca: seq<NormRecord>, cont: seq<NormRecord>, n: nat, st: PassState)
    requires n < |arca| && ShapeOk(arca, cont, st)
    requires FlagsAgree(st)
    ensures FlagsAgree(Step(arca, cont, st, n))
  {
    var r := FirstFit(cont, st.contMatched, arca[n]);
    if r.Some? {
      var j := r.value;
      var st' := Step(arca, cont, st, n);
      var ms' := st'.matches;
      assert ms'[|st.matches|] == Match(n, j);
      forall i | 0 <= i < |st'.arcaMatched|
        ensures st'.arcaMatched[i] <==> ArcaPaired(ms', i)
      {
        if ArcaPaired(ms', i) && i != n {
          var p :| 0 <= p < |ms'| && ms'[p].arcaIndex == i;
          assert p < |st.matches| && st.matches[p].arcaIndex == i;
        }
        if ArcaPaired(st.matches, i) {
          var p :| 0 <= p < |st.matches| && st.matches[p].arcaIndex == i;
          assert ms'[p].arcaIndex == i;
        }
      }
      forall k | 0 <= k < |st'.contMatched|
        ensures st'.contMatched[k] <==> ContPaired(ms', k)
      {
        if ContPaired(ms', k) && k != j {
          var p :| 0 <= p < |ms'| && ms'[p].contIndex == k;
          assert p < |st.matches| && st.matches[p].contIndex == k;
        }
        if ContPaired(st.matches, k) {
          var p :| 0 <= p < |st.matches| && st.matches[p].contIndex == k;
          assert ms'[p].contIndex == k;
        }
      }
    }
  }

  lemma StepWellFormed(arca: seq<NormRecord>, cont: seq<NormRecord>, n: nat, st: PassState)
    requires n < |arca| && ShapeOk(arca, cont, st)
    requires FlagsAgree(st) && PairsWellFormed(arca, cont, n, st.matches)
    ensures PairsWellFormed(arca, cont, n + 1, Step(arca, cont, st, n).matches)
  {
    var r := FirstFit(cont, st.contMatched, arca[n]);
    FirstFitIsLowestCandidate(cont, st.contMatched, arca[n]);
    if r.Some? {
      assert !ContPaired(st.matches, r.value);
    }
  }

  lemma StepShareKey(arca: seq<NormRecord>, cont: seq<NormRecord>, n: nat, st: PassState)
    requires n < |arca| && ShapeOk(arca, cont, st)
    requires PairsShareKey(arca, cont, st.matches)
    ensures PairsShareKey(arca, cont, Step(arca, cont, st, n).matches)
  {
    FirstFitIsLowestCandidate(cont, st.contMatched, arca[n]);
  }

  lemma StepFirstFit(arca: seq<NormRecord>, cont: seq<NormRecord>, n: nat, st: PassState)
    requires n < |arca| && ShapeOk(arca, cont, st)
    requires FlagsAgree(st) && PairsFirstFit(arca, cont, st.matches)
    ensures PairsFirstFit(arca, cont, Step(arca, cont, st, n).matches)
  {
    var r := FirstFit(cont, st.contMatched, arca[n]);
    FirstFitIsLowestCandidate(cont, st.contMatched, arca[n]);
    if r.Some? {
      var j := r.value;
      var ms := st.matches;
      var ms' := Step(arca, cont, st, n).matches;
      assert ms' == ms + [Match(n, j)];
      forall p, k | 0 <= p < |ms'| && 0 <= k < ms'[p].contIndex && ms'[p].arcaIndex < |arca| && k < |cont|
          && SameKey(arca[ms'[p].arcaIndex], cont[k])
        ensures ContPairedBefore(ms', p, k)
      {
        if p < |ms| {
          assert ContPairedBefore(ms, p, k);
          var q :| 0 <= q < p && q < |ms| && ms[q].contIndex == k;
          assert ms'[q] == ms[q];
        } else {
          assert !Candidate(cont, st.contMatched, arca[n], k);
          assert ContPaired(ms, k);
          var q :| 0 <= q < |ms| && ms[q].contIndex == k;
          assert ms'[q] == ms[q];
        }
      }
    }
  }

  lemma StepMaximal(arca: seq<NormRecord>, cont: seq<NormRecord>, n: nat, st: PassState)
    requires n < |arca| && ShapeOk(arca, cont, st)
    requires MaximalUpTo(arca, cont, n, st)
    ensures MaximalUpTo(arca, cont, n + 1, Step(arca, cont, st, n))
  {
    FirstFitIsLowestCandidate(cont, st.contMatched, arca[n]);
    var st' := Step(arca, cont, st, n);
    forall i, j | 0 <= i < n + 1 && i < |arca| && 0 <= j < |cont| && !st'.arcaMatched[i] && !st'.contMatched[j]
      ensures !SameKey(arca[i], cont[j])
    {
      // flags only ever go from unset to set
      assert !st.arcaMatched[i] && !st.contMatched[j];
      if i == n {
        assert !Candidate(cont, st.contMatched, arca[n], j);
      }
    }
  }

  lemma StepLeftovers(arca: seq<NormRecord>, cont: seq<NormRecord>, n: nat, st: PassState)
    requires n < |arca| && ShapeOk(arca, cont, st)
    requires FlagsAgree(st) && PairsWellFormed(arca, cont, n, st.matches)
    requires LeftoversHadNoPartner(arca, cont, n, st)
    ensures LeftoversHadNoPartner(arca, cont, n + 1, Step(arca, cont, st, n))
  {
    FirstFitIsLowestCandidate(cont, st.contMatched, arca[n]);
    var st' := Step(arca, cont, st, n);
    forall i, j | 0 <= i < n + 1 && i < |arca| && 0 <= j < |cont| && !st'.arcaMatched[i] && SameKey(arca[i], cont[j])
      ensures TakenBefore(st'.matches, i, j)
    {
      if i < n {
        // the flag of an earlier record is untouched by this turn
        assert !st.arcaMatched[i];
        var p :| 0 <= p < |st.matches| && st.matches[p].contIndex == j && st.matches[p].arcaIndex < i;
        assert st'.matches[p] == st.matches[p];
      } else {
        // record n found nothing, so every record with its key was taken
        assert FirstFit(cont, st.contMatched, arca[n]).None?;
        assert !Candidate(cont, st.contMatched, arca[n], j);
        assert ContPaired(st.matches, j);
        var p :| 0 <= p < |st.matches| && st.matches[p].contIndex == j;
        assert st.matches[p].arcaIndex < n;
      }
    }
  }

  lemma StepUpdates(arca: seq<NormRecord>, cont: seq<NormRecord>, n: nat, st: PassState)
    requires n < |arca| && ShapeOk(arca, cont, st)
    requires UpdatesAgree(arca, cont, st)
    ensures UpdatesAgree(arca, cont, Step(arca, cont, st, n))
  {
    var r := FirstFit(cont, st.contMatched, arca[n]);
    if r.Some? {
      var st' := Step(arca, cont, st, n);
      forall e | 0 <= e < |st'.updates|
        ensures var m := st'.matches[e / 2];
          && m.arcaIndex < |arca| && m.contIndex < |cont|
          && st'.updates[e] == Update(
               if e % 2 == 0 then arca[m.arcaIndex].dbId else cont[m.contIndex].dbId,
               Reconciled,
               MatchId(e / 2 + 1))
      {
        if e < |st.updates| {
          assert st'.updates[e] == st.updates[e];
          assert st'.matches[e / 2] == st.matches[e / 2];
        }
      }
    }
  }

  lemma StepConsistent(arca: seq<NormRecord>, cont: seq<NormRecord>, n: nat, st: PassState)
    requires Consistent(arca, cont, n, st) && n < |arca|
    ensures Consistent(arca, cont, n + 1, Step(arca, cont, st, n))
  {
    StepFlagsAgree(arca, cont, n, st);
    StepWellFormed(arca, cont, n, st);
    StepShareKey(arca, cont, n, st);
    StepFirstFit(arca, cont, n, st);
    StepMaximal(arca, cont, n, st);
    StepLeftovers(arca, cont, n, st);
    StepUpdates(arca, cont, n, st);
  }

  lemma PassUpToNext(arca: seq<NormRecord>, cont: seq<NormRecord>, n: nat)
    requires n < |arca|
    ensures PassUpTo(arca, cont, n + 1) == Step(arca, cont, PassUpTo(arca, cont, n), n)
  {
  }

  /** The rest of the pass, from record n on, started in state st. */
  function RunFrom(arca: seq<NormRecord>, cont: seq<NormRecord>, n: nat, st: PassState): PassState
    requires n <= |arca| && ShapeOk(arca, cont, st)
    decreases |arca| - n
  {
    if n == |arca| then st else RunFrom(arca, cont, n + 1, Step(arca, cont, st, n))
  }

  /** Finishing the pass from where PassUpTo stopped gives the whole pass. */
  lemma {:induction false} RunFromPassUpTo(arca: seq<NormRecord>, cont: seq<NormRecord>, n: nat)
    requires n <= |arca|
    ensures RunFrom(arca, cont, n, PassUpTo(arca, cont, n)) == AutoMatch(arca, cont)
    decreases |arca| - n
  {
    if n < |arca| {
      PassUpToNext(arca, cont, n);
      RunFromPassUpTo(arca, cont, n + 1);
    }
  }

  /** Any property that each step keeps holds at the end of the pass once it holds at record n. */
  lemma {:induction false} StepsKeep(
    arca: seq<NormRecord>, cont: seq<NormRecord>, inv: (nat, PassState) -> bool, n: nat, st: PassState)
    requires n <= |arca| && ShapeOk(arca, cont, st) && inv(n, st)
    requires forall k: nat, s: PassState :: k < |arca| && ShapeOk(arca, cont, s) && inv(k, s) ==>
               inv(k + 1, Step(arca, cont, s, k))
    ensures inv(|arca|, RunFrom(arca, cont, n, st))
    decreases |arca| - n
  {
    if n < |arca| {
      StepsKeep(arca, cont, inv, n + 1, Step(arca, cont, st, n));
    }
  }

  /** The pass keeps its invariant to the end. */
  lemma PassConsistent(arca: seq<NormRecord>, cont: seq<NormRecord>)
    ensures Consistent(arca, cont, |arca|, AutoMatch(arca, cont))
  {
    var inv := (k: nat, s: PassState) => Consistent(arca, cont, k, s);
    forall k: nat, s: PassState | k < |arca| && ShapeOk(arca, cont, s) && inv(k, s)
      ensures inv(k + 1, Step(arca, cont, s, k))
    {
      StepConsistent(arca, cont, k, s);
    }
    InitialConsistent(arca, cont);
    StepsKeep(arca, cont, inv, 0, InitialState(arca, cont));
    RunFromPassUpTo(arca, cont, 0);
  }

  // ---------------------------------------------------------------------
  // What the pass guarantees.

  /**
   * At most once: every pair points into both arrays, ARCA records are
   * paired in processing order and never twice, and no contabilidad record
   * is bound by two pairs.
   */
  lemma MatchesAreOneToOne(arca: seq<NormRecord>, cont: seq<NormRecord>)
    ensures var ms := AutoMatch(arca, cont).matches;
      && (forall p :: 0 <= p < |ms| ==> ms[p].arcaIndex < |arca| && ms[p].contIndex < |cont|)
      && (forall p, q :: 0 <= p < q < |ms| ==> ms[p].arcaIndex < ms[q].arcaIndex)
      && (forall p, q :: 0 <= p < q < |ms| ==> ms[p].contIndex != ms[q].contIndex)
  {
    PassConsistent(arca, cont);
  }

  /** A record ends flagged `matched` exactly when it belongs to a pair. */
  lemma MatchedFlagsAgree(arca: seq<NormRecord>, cont: seq<NormRecord>)
    ensures var st := AutoMatch(arca, cont);
      && |st.arcaMatched| == |arca| && |st.contMatched| == |cont|
      && (forall i :: 0 <= i < |arca| ==> (st.arcaMatched[i] <==> ArcaPaired(st.matches, i)))
      && (forall j :: 0 <= j < |cont| ==> (st.contMatched[j] <==> ContPaired(st.matches, j)))
  {
    PassConsistent(arca, cont);
  }

  /** Both records of every pair have the same CUIT and the same amount at two decimals. */
  lemma MatchesShareKey(arca: seq<NormRecord>, cont: seq<NormRecord>)
    ensures var ms := AutoMatch(arca, cont).matches;
      forall p :: 0 <= p < |ms| ==>
        && ms[p].arcaIndex < |arca| && ms[p].contIndex < |cont|
        && arca[ms[p].arcaIndex].cuit == cont[ms[p].contIndex].cuit
        && FixedText(arca[ms[p].arcaIndex].amount) == FixedText(cont[ms[p].contIndex].amount)
  {
    PassConsistent(arca, cont);
  }

  /**
   * First fit: every contabilidad record below the chosen partner that has
   * the same key was already bound by an earlier pair, so the partner is
   * the lowest unmatched key-equal record at that moment.
   */
  lemma MatchesAreFirstFit(arca: seq<NormRecord>, cont: seq<NormRecord>)
    ensures var ms := AutoMatch(arca, cont).matches;
      forall p, k ::
        (0 <= p < |ms| && 0 <= k < ms[p].contIndex && ms[p].arcaIndex < |arca| && k < |cont|
         && SameKey(arca[ms[p].arcaIndex], cont[k])) ==>
        exists q :: 0 <= q < p && ms[q].contIndex == k
  {
    PassConsistent(arca, cont);
    var ms := AutoMatch(arca, cont).matches;
    forall p, k | 0 <= p < |ms| && 0 <= k < ms[p].contIndex && ms[p].arcaIndex < |arca| && k < |cont|
        && SameKey(arca[ms[p].arcaIndex], cont[k])
      ensures exists q :: 0 <= q < p && ms[q].contIndex == k
    {
      assert ContPairedBefore(ms, p, k);
    }
  }

  /** Greedy maximality: no unmatched ARCA record shares its key with an unmatched contabilidad record. */
  lemma MatchingIsMaximal(arca: seq<NormRecord>, cont: seq<NormRecord>)
    ensures var st := AutoMatch(arca, cont);
      forall i, j :: 0 <= i < |arca| && 0 <= j < |cont| && !st.arcaMatched[i] && !st.contMatched[j] ==>
        !SameKey(arca[i], cont[j])
  {
    PassConsistent(arca, cont);
  }

  /**
   * The other half of first fit, for the ARCA side: an ARCA record left
   * unmatched found no free partner when its turn came, because every
   * contabilidad record with its key was bound by an earlier ARCA record.
   */
  lemma UnmatchedHadNoFreePartner(arca: seq<NormRecord>, cont: seq<NormRecord>)
    ensures var st := AutoMatch(arca, cont);
      forall i, j :: 0 <= i < |arca| && 0 <= j < |cont| && !st.arcaMatched[i] && SameKey(arca[i], cont[j]) ==>
        exists p :: 0 <= p < |st.matches| && st.matches[p].contIndex == j && st.matches[p].arcaIndex < i
  {
    var st := AutoMatch(arca, cont);
    assert LeftoversHadNoPartner(arca, cont, |arca|, st) by {
      PassConsistent(arca, cont);
    }
    forall i, j | 0 <= i < |arca| && 0 <= j < |cont| && !st.arcaMatched[i] && SameKey(arca[i], cont[j])
      ensures TakenBefore(st.matches, i, j)
    {
    }
  }

  /**
   * The update list: the counter ends at the number of pairs k, there are
   * 2k entries, entry 2p is pair p's ARCA record and 2p+1 its contabilidad
   * record, every entry has estado `Conciliada` and carries id auto_(p+1).
   */
  lemma UpdateListShape(arca: seq<NormRecord>, cont: seq<NormRecord>)
    ensures var st := AutoMatch(arca, cont);
      && st.matchCounter == |st.matches|
      && |st.updates| == 2 * st.matchCounter
      && forall e :: 0 <= e < |st.updates| ==>
           && st.updates[e].estado == Reconciled
           && st.updates[e].matchId == MatchId(e / 2 + 1)
           && st.matches[e / 2].arcaIndex < |arca| && st.matches[e / 2].contIndex < |cont|
           && st.updates[e].id == if e % 2 == 0 then arca[st.matches[e / 2].arcaIndex].dbId
                                  else cont[st.matches[e / 2].contIndex].dbId
  {
    PassConsistent(arca, cont);
  }

  /**
   * Each id appears on exactly two entries, the ARCA entry at an even
   * position and the contabilidad entry right after it.
   */
  lemma MatchIdsAreUnique(arca: seq<NormRecord>, cont: seq<NormRecord>)
    ensures var u := AutoMatch(arca, cont).updates;
      forall e1, e2 :: 0 <= e1 < e2 < |u| && u[e1].matchId == u[e2].matchId ==>
        e1 % 2 == 0 && e2 == e1 + 1
  {
    UpdateListShape(arca, cont);
    var u := AutoMatch(arca, cont).updates;
    forall e1, e2 | 0 <= e1 < e2 < |u| && u[e1].matchId == u[e2].matchId
      ensures e1 % 2 == 0 && e2 == e1 + 1
    {
      MatchIdInjective(e1 / 2 + 1, e2 / 2 + 1);
    }
  }

  /** Only unmatched records of each side. */
  function Unmatched(rs: seq<NormRecord>, flags: seq<bool>): (r: seq<NormRecord>)
    requires |flags| == |rs|
    ensures forall x :: x in r ==> x in rs
    ensures forall i :: 0 <= i < |rs| && !flags[i] ==> rs[i] in r
  {
    if rs == [] then []
    else if flags[0] then Unmatched(rs[1..], flags[1..])
    else [rs[0]] + Unmatched(rs[1..], flags[1..])
  }

  lemma {:induction false} NoKeysNoMatches(arca: seq<NormRecord>, cont: seq<NormRecord>, n: nat)
    requires n <= |arca|
    requires forall a, c :: a in arca && c in cont ==> !SameKey(a, c)
    ensures PassUpTo(arca, cont, n).matches == []
    ensures PassUpTo(arca, cont, n).arcaMatched == seq(|arca|, _ => false)
    ensures PassUpTo(arca, cont, n).contMatched == seq(|cont|, _ => false)
  {
    if n > 0 {
      NoKeysNoMatches(arca, cont, n - 1);
      FirstFitIsLowestCandidate(cont, PassUpTo(arca, cont, n - 1).contMatched, arca[n - 1]);
    }
  }

  /** Running the pass again on the records it left unmatched binds nothing more. */
  lemma RerunOnLeftoversMatchesNothing(arca: seq<NormRecord>, cont: seq<NormRecord>)
    ensures var st := AutoMatch(arca, cont);
      AutoMatch(Unmatched(arca, st.arcaMatched), Unmatched(cont, st.contMatched)).matches == []
  {
    var st := AutoMatch(arca, cont);
    MatchingIsMaximal(arca, cont);
    var ua, uc := Unmatched(arca, st.arcaMatched), Unmatched(cont, st.contMatched);
    UnmatchedOnlyUnflagged(arca, st.arcaMatched);
    UnmatchedOnlyUnflagged(cont, st.contMatched);
    NoKeysNoMatches(ua, uc, |ua|);
  }

  lemma {:induction false} UnmatchedOnlyUnflagged(rs: seq<NormRecord>, flags: seq<bool>)
    requires |flags| == |rs|
    ensures forall x :: x in Unmatched(rs, flags) ==> exists i :: 0 <= i < |rs| && !flags[i] && rs[i] == x
  {
    if rs != [] {
      UnmatchedOnlyUnflagged(rs[1..], flags[1..]);
      forall x | x in Unmatched(rs, flags)
        ensures exists i :: 0 <= i < |rs| && !flags[i] && rs[i] == x
      {
        if !flags[0] && x == rs[0] {
          assert rs[0] == x;
        } else {
          assert x in Unmatched(rs[1..], flags[1..]);
          var i :| 0 <= i < |rs| - 1 && !flags[1..][i] && rs[1..][i] == x;
          assert rs[i + 1] == x;
        }
      }
    }
  }

  // ---------------------------------------------------------------------
  // The loop as the source runs it.

  /** `contNorm.find(contRec => !contRec.matched && same cuit && same amount)` */
  method FindUnmatched(cont: array<NormRecord>, contMatched: array<bool>, a: NormRecord) returns (found: Option<nat>)
    requires contMatched.Length == cont.Length
    ensures found == FirstFit(cont[..], contMatched[..], a)
  {
    var j := 0;
    while j < cont.Length
      invariant 0 <= j <= cont.Length
      invariant FirstFitFrom(cont[..], contMatched[..], a, j) == FirstFit(cont[..], contMatched[..], a)
    {
      SameKeyIsSameText(a, cont[j]);
      if !contMatched[j] && cont[j].cuit == a.cuit && FixedText(cont[j].amount) == FixedText(a.amount) {
        return Some(j);
      }
      j := j + 1;
    }
    return None;
  }

  /**
   * The `forEach` body for ARCA record i: look for a free contabilidad
   * record with the same key and, if there is one, flag both, bump the
   * counter and queue the two updates.
   */
  method MatchRecord(
    arca: array<NormRecord>, cont: array<NormRecord>, arcaFlags: array<bool>, contFlags: array<bool>,
    i: nat, matchCounter: nat, recordsToUpdate: seq<Update>, ghost matches: seq<Match>)
    returns (counter: nat, updates: seq<Update>, ghost matches': seq<Match>)
    requires i < arca.Length == arcaFlags.Length && contFlags.Length == cont.Length
    requires arcaFlags != contFlags
    modifies arcaFlags, contFlags
    ensures PassState(arcaFlags[..], contFlags[..], counter, updates, matches')
            == Step(arca[..], cont[..], old(PassState(arcaFlags[..], contFlags[..], matchCounter, recordsToUpdate, matches)), i)
  {
    ghost var before := PassState(arcaFlags[..], contFlags[..], matchCounter, recordsToUpdate, matches);
    var found := FindUnmatched(cont, contFlags, arca[i]);
    counter, updates, matches' := matchCounter, recordsToUpdate, matches;
    if found.Some? {
      var j := found.value;
      counter := counter + 1;
      var matchId := MatchId(counter);
      arcaFlags[i] := true;
      contFlags[j] := true;
      updates := updates + [Update(arca[i].dbId, Reconciled, matchId)];
      updates := updates + [Update(cont[j].dbId, Reconciled, matchId)];
      matches' := matches' + [Match(i, j)];
      assert arcaFlags[..] == before.arcaMatched[i := true];
      assert contFlags[..] == before.contMatched[j := true];
    }
  }

  /**
   * The matching pass of processReconciliation: the `matched` flags live in
   * two arrays beside the records, set as the source sets them on the
   * normalized objects; the result is what the pass leaves behind.
   */
  method ProcessReconciliation(arca: array<NormRecord>, cont: array<NormRecord>)
    returns (arcaMatched: seq<bool>, contMatched: seq<bool>, matchCounter: nat, recordsToUpdate: seq<Update>)
    ensures var st := AutoMatch(arca[..], cont[..]);
      && arcaMatched == st.arcaMatched
      && contMatched == st.contMatched
      && matchCounter == st.matchCounter
      && recordsToUpdate == st.updates
  {
    var arcaFlags := new bool[arca.Length](_ => false);
    var contFlags := new bool[cont.Length](_ => false);
    matchCounter := 0;
    recordsToUpdate := [];
    ghost var matches: seq<Match> := [];
    var i := 0;
    while i < arca.Length
      invariant 0 <= i <= arca.Length
      invariant arcaFlags.Length == arca.Length && contFlags.Length == cont.Length
      invariant PassState(arcaFlags[..], contFlags[..], matchCounter, recordsToUpdate, matches)
                == PassUpTo(arca[..], cont[..], i)
    {
      PassUpToNext(arca[..], cont[..], i);
      matchCounter, recordsToUpdate, matches :=
        MatchRecord(arca, cont, arcaFlags, contFlags, i, matchCounter, recordsToUpdate, matches);
      i := i + 1;
    }
    assert arca[..] == arca[..arca.Length];
    arcaMatched, contMatched := arcaFlags[..], contFlags[..];
  }
}
