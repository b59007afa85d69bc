/**
 * The provider list built in `loadSelectedReconciliation`
 * (js/reconciler.js:364-366):
 * `[...new Set([...arcaCuits, ...contCuits])].filter(c => c).sort()`.
 */
module ProviderCuits {
  import opened Strings

  predicate Distinct(s: seq<string>)
  {
    forall i, j :: 0 <= i < j < |s| ==> s[i] != s[j]
  }

  predicate StrictlyAscending(s: seq<string>)
  {
    forall i, j :: 0 <= i < j < |s| ==> LexLess(s[i], s[j])
  }

  /** `[...new Set(s)]`: the first occurrence of each value, in order. */
  function Dedup(s: seq<string>): (r: seq<string>)
    ensures |r| <= |s|
    ensures forall x :: x in r ==> x in s
  {
    if s == [] then []
    else
      var d := Dedup(s[..|s| - 1]);
      if s[|s| - 1] in d then d else d + [s[|s| - 1]]
  }

  /** `.filter(c => c)`: drops the empty strings. */
  function RemoveEmpty(s: seq<string>): (r: seq<string>)
    ensures |r| <= |s|
    ensures "" !in r
  {
    if s == [] then []
    else if s[0] == "" then RemoveEmpty(s[1..])
    else [s[0]] + RemoveEmpty(s[1..])
  }

  function Insert(x: string, s: seq<string>): (r: seq<string>)
    ensures |r| == |s| + 1
    ensures x in r
  {
    if s == [] then [x]
    else if LexLess(s[0], x) then [s[0]] + Insert(x, s[1..])
    else [x] + s
  }

  /** `.sort()` with the default comparison. */
  function Sort(s: seq<string>): (r: seq<string>)
    ensures |r| == |s|
  {
    if s == [] then [] else Insert(s[0], Sort(s[1..]))
  }

  /** `appState.providerCuits`, from the normalized CUITs of both sides. */
  function ProviderList(arcaCuits: seq<string>, contCuits: seq<string>): (r: seq<string>)
    ensures |r| <= |arcaCuits| + |contCuits|
  {
    Sort(RemoveEmpty(Dedup(arcaCuits + contCuits)))
  }

  lemma {:induction false} DedupSpec(s: seq<string>)
    ensures Distinct(Dedup(s))
    ensures forall x :: x in Dedup(s) <==> x in s
  {
    if s != [] {
      DedupSpec(s[..|s| - 1]);
      assert s == s[..|s| - 1] + [s[|s| - 1]];
    }
  }

  lemma {:induction false} RemoveEmptySpec(s: seq<string>)
    ensures forall x :: x in RemoveEmpty(s) <==> x in s && x != ""
    ensures Distinct(s) ==> Distinct(RemoveEmpty(s))
  {
    if s != [] {
      RemoveEmptySpec(s[1..]);
      assert Distinct(s) ==> Distinct(s[1..]);
      assert Distinct(s) ==> s[0] !in s[1..];
    }
  }

  lemma {:induction false} InsertPermutes(x: string, s: seq<string>)
    ensures multiset(Insert(x, s)) == multiset(s) + multiset{x}
  {
    if s != [] && LexLess(s[0], x) {
      InsertPermutes(x, s[1..]);
      assert s == [s[0]] + s[1..];
    }
  }

  lemma {:induction false} InsertAscending(x: string, s: seq<string>)
    requires StrictlyAscending(s) && x !in s
    ensures StrictlyAscending(Insert(x, s))
  {
    if s == [] {
    } else if LexLess(s[0], x) {
      InsertAscending(x, s[1..]);
      InsertPermutes(x, s[1..]);
      var r := Insert(x, s[1..]);
      forall y | y in r
        ensures LexLess(s[0], y)
      {
        assert y in multiset(r);
      }
    } else {
      LexLessTotal(x, s[0]);
      forall j | 0 < j < |s|
        ensures LexLess(x, s[j])
      {
        LexLessTransitive(x, s[0], s[j]);
      }
    }
  }

  /** Sorting rearranges the list and nothing else. */
  lemma {:induction false} SortPermutes(s: seq<string>)
    ensures multiset(Sort(s)) == multiset(s)
  {
    if s != [] {
      SortPermutes(s[1..]);
      InsertPermutes(s[0], Sort(s[1..]));
      assert s == [s[0]] + s[1..];
    }
  }

  /** A list without repetitions sorts into strictly ascending order. */
  lemma {:induction false} SortAscending(s: seq<string>)
    requires Distinct(s)
    ensures StrictlyAscending(Sort(s))
  {
    if s != [] {
      assert Distinct(s[1..]);
      SortAscending(s[1..]);
      SortPermutes(s[1..]);
      assert s[0] !in multiset(s[1..]);
      InsertAscending(s[0], Sort(s[1..]));
    }
  }

  lemma StrictlyAscendingIsDistinct(s: seq<string>)
    requires StrictlyAscending(s)
    ensures Distinct(s)
  {
    forall i, j | 0 <= i < j < |s|
      ensures s[i] != s[j]
    {
      LexLessIrreflexive(s[i]);
    }
  }

  lemma SameMultisetSameMembers(s: seq<string>, t: seq<string>)
    requires multiset(s) == multiset(t)
    ensures forall x :: x in s <==> x in t
  {
    forall x
      ensures x in s <==> x in t
    {
      assert x in s <==> x in multiset(s);
      assert x in t <==> x in multiset(t);
    }
  }

  /**
   * The provider list is strictly ascending (so it has no duplicates),
   * holds no empty string, and holds exactly the non-empty CUITs of either
   * side.
   */
  lemma ProviderListSpec(arcaCuits: seq<string>, contCuits: seq<string>)
    ensures var r := ProviderList(arcaCuits, contCuits);
      && StrictlyAscending(r)
      && Distinct(r)
      && "" !in r
      && forall c :: c in r <==> c != "" && (c in arcaCuits || c in contCuits)
  {
    var all := arcaCuits + contCuits;
    var d := Dedup(all);
    var kept := RemoveEmpty(d);
    DedupSpec(all);
    RemoveEmptySpec(d);
    SortAscending(kept);
    SortPermutes(kept);
    SameMultisetSameMembers(Sort(kept), kept);
    StrictlyAscendingIsDistinct(Sort(kept));
    assert forall c :: c in all <==> c in arcaCuits || c in contCuits;
  }

  /** A strictly ascending list is fixed by the values it holds. */
  lemma {:induction false} AscendingListIsUnique(s: seq<string>, t: seq<string>)
    requires StrictlyAscending(s) && StrictlyAscending(t)
    requires forall x :: x in s <==> x in t
    ensures s == t
  {
    assert s != [] ==> s[0] in s;
    assert t != [] ==> t[0] in t;
    if s == [] || t == [] {
      // one side empty: the other holds no value either
    } else {
      // each head is the least value of its list
      assert t[0] == s[0] || LexLess(s[0], t[0]);
      assert s[0] == t[0] || LexLess(t[0], s[0]);
      if s[0] != t[0] {
        LexLessTransitive(s[0], t[0], s[0]);
        LexLessIrreflexive(s[0]);
      }
      forall x
        ensures x in s[1..] <==> x in t[1..]
      {
        assert s == [s[0]] + s[1..] && t == [t[0]] + t[1..];
        if x in s[1..] {
          var k :| 0 <= k < |s| - 1 && s[1..][k] == x;
          assert LexLess(s[0], s[k + 1]);
          LexLessIrreflexive(x);
          assert x != t[0] && x in t;
        }
        if x in t[1..] {
          var k :| 0 <= k < |t| - 1 && t[1..][k] == x;
          assert LexLess(t[0], t[k + 1]);
          LexLessIrreflexive(x);
          assert x != s[0] && x in s;
        }
      }
      AscendingListIsUnique(s[1..], t[1..]);
      assert s == [s[0]] + s[1..] && t == [t[0]] + t[1..];
    }
  }
}
