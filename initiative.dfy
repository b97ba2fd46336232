/** Initiative: every living unit rolls d20 plus its bonus and draws a
    tie-breaker; the turn order lists the living units' roster indices by
    descending roll, then bonus, then tie-breaker. The random draws are
    parameters, one d20 and one tie-breaker per roster slot. */
module Initiative {
  import opened CombatTypes

  /** One row of the sort: roster index, roll, bonus, tie-breaker. */
  datatype Entry = Entry(index: int, roll: int, bonus: int, tie: int)

  /** RollInitiative's comparator: `a` may come before `b` when its roll is
      higher, or equal with a higher bonus, or both equal with a tie-breaker
      at least as high. */
  predicate Precedes(a: Entry, b: Entry)
  {
    a.roll > b.roll || (a.roll == b.roll && (a.bonus > b.bonus || (a.bonus == b.bonus && a.tie >= b.tie)))
  }

  predicate SortedDesc(es: seq<Entry>)
  {
    forall i, j :: 0 <= i < j < |es| ==> Precedes(es[i], es[j])
  }

  function Indices(es: seq<Entry>): (r: seq<int>)
    ensures |r| == |es| && forall i :: 0 <= i < |es| ==> r[i] == es[i].index
  {
    seq(|es|, i requires 0 <= i < |es| => es[i].index)
  }

  /** Insertion of one row into a sorted list, before the first row it
      precedes. */
  function Insert(e: Entry, es: seq<Entry>): (r: seq<Entry>)
    requires SortedDesc(es)
    ensures SortedDesc(r)
    ensures multiset(r) == multiset(es) + multiset{e}
    ensures multiset(Indices(r)) == multiset(Indices(es)) + multiset{e.index}
  {
    if es == [] then [e]
    else if Precedes(e, es[0]) then
      InsertFront(e, es);
      [e] + es
    else
      var rest := Insert(e, es[1..]);
      InsertBehind(e, es, rest);
      [es[0]] + rest
  }

  /** Insert's first case: a row that precedes the head goes in front. */
  lemma InsertFront(e: Entry, es: seq<Entry>)
    requires SortedDesc(es) && |es| > 0 && Precedes(e, es[0])
    ensures SortedDesc([e] + es)
    ensures multiset([e] + es) == multiset(es) + multiset{e}
    ensures multiset(Indices([e] + es)) == multiset(Indices(es)) + multiset{e.index}
  {
    IndicesCons(e, es);
    PrecedesAll(e, es);
    SortedCons(e, es);
  }

  /** Insert's second case: the head stays in front of the insertion into
      the tail. */
  lemma InsertBehind(e: Entry, es: seq<Entry>, rest: seq<Entry>)
    requires SortedDesc(es) && |es| > 0 && !Precedes(e, es[0])
    requires SortedDesc(rest)
    requires multiset(rest) == multiset(es[1..]) + multiset{e}
    requires multiset(Indices(rest)) == multiset(Indices(es[1..])) + multiset{e.index}
    ensures SortedDesc([es[0]] + rest)
    ensures multiset([es[0]] + rest) == multiset(es) + multiset{e}
    ensures multiset(Indices([es[0]] + rest)) == multiset(Indices(es)) + multiset{e.index}
  {
    assert es == [es[0]] + es[1..];
    IndicesCons(es[0], es[1..]);
    IndicesCons(es[0], rest);
    HeadPrecedesInserted(e, es, rest);
    SortedCons(es[0], rest);
  }

  lemma IndicesCons(x: Entry, t: seq<Entry>)
    ensures Indices([x] + t) == [x.index] + Indices(t)
  {
  }

  lemma SortedCons(x: Entry, rest: seq<Entry>)
    requires SortedDesc(rest) && forall k :: 0 <= k < |rest| ==> Precedes(x, rest[k])
    ensures SortedDesc([x] + rest)
  {
    var r := [x] + rest;
    forall i, j | 0 <= i < j < |r|
      ensures Precedes(r[i], r[j])
    {
      if i > 0 {
        assert r[i] == rest[i - 1] && r[j] == rest[j - 1];
      } else {
        assert r[j] == rest[j - 1];
      }
    }
  }

  /** A row preceding the head of a sorted list precedes all of it. */
  lemma PrecedesAll(e: Entry, es: seq<Entry>)
    requires SortedDesc(es) && |es| > 0 && Precedes(e, es[0])
    ensures forall k :: 0 <= k < |es| ==> Precedes(e, es[k])
  {
    forall k | 0 < k < |es|
      ensures Precedes(e, es[k])
    {
      assert Precedes(es[0], es[k]);
    }
  }

  /** The head of a sorted list that `e` does not precede precedes every
      row of the insertion of `e` into its tail. */
  lemma HeadPrecedesInserted(e: Entry, es: seq<Entry>, rest: seq<Entry>)
    requires SortedDesc(es) && |es| > 0 && !Precedes(e, es[0])
    requires multiset(rest) == multiset(es[1..]) + multiset{e}
    ensures forall k :: 0 <= k < |rest| ==> Precedes(es[0], rest[k])
  {
    forall k | 0 <= k < |rest|
      ensures Precedes(es[0], rest[k])
    {
      var x := rest[k];
      assert x in multiset(rest);
      if x != e {
        assert x in multiset(es[1..]);
        var m :| 0 <= m < |es[1..]| && es[1..][m] == x;
        assert es[m + 1] == x;
      }
    }
  }

  /** The sort of the rows (stable: equal keys keep their roster order). */
  function SortEntries(es: seq<Entry>): (r: seq<Entry>)
    ensures SortedDesc(r)
    ensures multiset(r) == multiset(es)
    ensures multiset(Indices(r)) == multiset(Indices(es))
  {
    if es == [] then []
    else
      assert es == [es[0]] + es[1..];
      IndicesCons(es[0], es[1..]);
      Insert(es[0], SortEntries(es[1..]))
  }

  /** A living unit after its roll: d20 plus bonus, and the tie-breaker. */
  function RollFor(u: Unit, d20: int, tie: int): (r: Unit)
    ensures r.(initiativeRoll := u.initiativeRoll, initiativeTieBreaker := u.initiativeTieBreaker) == u
    ensures r.initiativeRoll == d20 + u.initiativeBonus
    ensures r.initiativeTieBreaker == tie
  {
    u.(initiativeRoll := d20 + u.initiativeBonus, initiativeTieBreaker := tie)
  }

  /** The roster after the rolls: living units rolled, dead ones untouched. */
  function Rolled(units: seq<Unit>, d20s: seq<int>, ties: seq<int>): (r: seq<Unit>)
    requires |d20s| == |units| && |ties| == |units|
    ensures |r| == |units|
  {
    seq(|units|, i requires 0 <= i < |units| =>
      if units[i].IsAlive() then RollFor(units[i], d20s[i], ties[i]) else units[i])
  }

  /** The row of roster slot `i`. */
  function EntryOf(units: seq<Unit>, i: int): Entry
    requires 0 <= i < |units|
  {
    Entry(i, units[i].initiativeRoll, units[i].initiativeBonus, units[i].initiativeTieBreaker)
  }

  /** The rows of the living units among the first `n`, in roster order. */
  function Entries(units: seq<Unit>, n: nat): (r: seq<Entry>)
    requires n <= |units|
    ensures |r| <= n
  {
    if n == 0 then []
    else
      var prev := Entries(units, n - 1);
      if units[n - 1].IsAlive() then prev + [EntryOf(units, n - 1)] else prev
  }

  /** The rows list exactly the living units' indices, in roster order. */
  lemma {:induction false} EntriesIndices(units: seq<Unit>, n: nat)
    requires n <= |units|
    ensures Indices(Entries(units, n)) == AliveIndices(units, n)
  {
    if n > 0 {
      EntriesIndices(units, n - 1);
      var prev := Entries(units, n - 1);
      if units[n - 1].IsAlive() {
        assert Indices(prev + [EntryOf(units, n - 1)]) == Indices(prev) + [n - 1];
      }
    }
  }

  /** Every row of `es` is the row of a living unit among the first `n`. */
  predicate AreRows(units: seq<Unit>, n: nat, es: seq<Entry>)
    requires n <= |units|
  {
    forall k :: 0 <= k < |es| ==> 0 <= es[k].index < n && es[k] == EntryOf(units, es[k].index) && units[es[k].index].IsAlive()
  }

  lemma {:induction false} EntriesAreRows(units: seq<Unit>, n: nat)
    requires n <= |units|
    ensures AreRows(units, n, Entries(units, n))
  {
    if n > 0 {
      EntriesAreRows(units, n - 1);
      var prev := Entries(units, n - 1);
      var r := Entries(units, n);
      assert r == if units[n - 1].IsAlive() then prev + [EntryOf(units, n - 1)] else prev;
      forall k | 0 <= k < |r|
        ensures 0 <= r[k].index < n && r[k] == EntryOf(units, r[k].index) && units[r[k].index].IsAlive()
      {
        if k < |prev| {
          assert r[k] == prev[k];
        } else {
          assert r[k] == EntryOf(units, n - 1);
        }
      }
    }
  }

  /** The indices of the living units among the first `n`, increasing. */
  function AliveIndices(units: seq<Unit>, n: nat): (r: seq<int>)
    requires n <= |units|
    ensures forall i :: i in r <==> 0 <= i < n && units[i].IsAlive()
    ensures forall i, j :: 0 <= i < j < |r| ==> r[i] < r[j]
  {
    if n == 0 then []
    else
      var prev := AliveIndices(units, n - 1);
      if units[n - 1].IsAlive() then
        assert forall k :: 0 <= k < |prev| ==> prev[k] in prev;
        prev + [n - 1]
      else prev
  }

  /** The turn order RollInitiative produces from the given draws. */
  function TurnOrder(units: seq<Unit>, d20s: seq<int>, ties: seq<int>): seq<int>
    requires |d20s| == |units| && |ties| == |units|
  {
    var rolled := Rolled(units, d20s, ties);
    Indices(SortEntries(Entries(rolled, |rolled|)))
  }

  /** The turn order is a permutation of the indices of the units alive
      when it was rolled, sorted by descending (roll, bonus, tie-breaker) of
      the rolled units, and each living unit's roll lies in
      [1 + bonus, 20 + bonus] when the d20 draws do. */
  lemma {:induction false} TurnOrderIsSortedPermutation(units: seq<Unit>, d20s: seq<int>, ties: seq<int>)
    requires |d20s| == |units| && |ties| == |units|
    ensures var order := TurnOrder(units, d20s, ties);
            var rolled := Rolled(units, d20s, ties);
            multiset(order) == multiset(AliveIndices(units, |units|))
            && (forall i :: 0 <= i < |order| ==> 0 <= order[i] < |units| && units[order[i]].IsAlive())
            && (forall i, j :: 0 <= i < j < |order| ==> Precedes(EntryOf(rolled, order[i]), EntryOf(rolled, order[j])))
    ensures (forall i :: 0 <= i < |units| ==> 1 <= d20s[i] <= 20) ==>
              forall i :: 0 <= i < |units| && units[i].IsAlive() ==>
                var u := Rolled(units, d20s, ties)[i];
                1 + u.initiativeBonus <= u.initiativeRoll <= 20 + u.initiativeBonus
  {
    var rolled := Rolled(units, d20s, ties);
    var es := Entries(rolled, |rolled|);
    var sorted := SortEntries(es);
    RolledKeepsLiveness(units, d20s, ties);
    OrderIsAlivePermutation(units, d20s, ties);
    SortedRowsAreRows(rolled, es, sorted);
    OrderFollowsRows(units, rolled, sorted);
    RolledRollBounds(units, d20s, ties);
  }

  lemma RolledKeepsLiveness(units: seq<Unit>, d20s: seq<int>, ties: seq<int>)
    requires |d20s| == |units| && |ties| == |units|
    ensures forall i :: 0 <= i < |units| ==> (Rolled(units, d20s, ties)[i].IsAlive() <==> units[i].IsAlive())
  {
  }

  /** The order holds the indices of the units alive before the roll. */
  lemma OrderIsAlivePermutation(units: seq<Unit>, d20s: seq<int>, ties: seq<int>)
    requires |d20s| == |units| && |ties| == |units|
    requires forall i :: 0 <= i < |units| ==> (Rolled(units, d20s, ties)[i].IsAlive() <==> units[i].IsAlive())
    ensures multiset(TurnOrder(units, d20s, ties)) == multiset(AliveIndices(units, |units|))
  {
    var rolled := Rolled(units, d20s, ties);
    EntriesIndices(rolled, |rolled|);
    AliveIndicesAgree(rolled, units, |units|);
  }

  /** Every row of the sorted rows is the row of a living rolled unit. */
  lemma SortedRowsAreRows(rolled: seq<Unit>, es: seq<Entry>, sorted: seq<Entry>)
    requires es == Entries(rolled, |rolled|) && multiset(sorted) == multiset(es)
    ensures forall i :: 0 <= i < |sorted| ==>
              0 <= sorted[i].index < |rolled| && sorted[i] == EntryOf(rolled, sorted[i].index)
              && rolled[sorted[i].index].IsAlive()
  {
    EntriesAreRows(rolled, |rolled|);
    assert AreRows(rolled, |rolled|, es);
    forall i | 0 <= i < |sorted|
      ensures 0 <= sorted[i].index < |rolled| && sorted[i] == EntryOf(rolled, sorted[i].index)
              && rolled[sorted[i].index].IsAlive()
    {
      assert sorted[i] in multiset(es);
      var k :| 0 <= k < |es| && es[k] == sorted[i];
    }
  }

  /** The indices of sorted rows of living rolled units are valid, alive
      before the roll, and sorted by their rows. */
  lemma OrderFollowsRows(units: seq<Unit>, rolled: seq<Unit>, sorted: seq<Entry>)
    requires |rolled| == |units| && forall i :: 0 <= i < |units| ==> (rolled[i].IsAlive() <==> units[i].IsAlive())
    requires SortedDesc(sorted)
    requires forall i :: 0 <= i < |sorted| ==>
               0 <= sorted[i].index < |rolled| && sorted[i] == EntryOf(rolled, sorted[i].index)
               && rolled[sorted[i].index].IsAlive()
    ensures var order := Indices(sorted);
            (forall i :: 0 <= i < |order| ==> 0 <= order[i] < |units| && units[order[i]].IsAlive())
            && forall i, j :: 0 <= i < j < |order| ==> Precedes(EntryOf(rolled, order[i]), EntryOf(rolled, order[j]))
  {
  }

  /** With d20 draws in [1, 20], each living unit's roll lies in
      [1 + bonus, 20 + bonus]. */
  lemma RolledRollBounds(units: seq<Unit>, d20s: seq<int>, ties: seq<int>)
    requires |d20s| == |units| && |ties| == |units|
    ensures (forall i :: 0 <= i < |units| ==> 1 <= d20s[i] <= 20) ==>
              forall i :: 0 <= i < |units| && units[i].IsAlive() ==>
                var u := Rolled(units, d20s, ties)[i];
                1 + u.initiativeBonus <= u.initiativeRoll <= 20 + u.initiativeBonus
  {
  }

  /** AliveIndices only looks at liveness. */
  lemma {:induction false} AliveIndicesAgree(a: seq<Unit>, b: seq<Unit>, n: nat)
    requires n <= |a| == |b| && forall i :: 0 <= i < |a| ==> (a[i].IsAlive() <==> b[i].IsAlive())
    ensures AliveIndices(a, n) == AliveIndices(b, n)
  {
    if n > 0 {
      AliveIndicesAgree(a, b, n - 1);
    }
  }
}
