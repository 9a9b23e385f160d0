/**
 * The two loops of the client, over any item type: a table of receipts that
 * each item may update, and a resolve loop that stops at the first failure.
 * They are stated once here, for item and error types the client fills in.
 */
module Loops {
  import opened Wrappers

  /** A table with one optional update applied. */
  function Update<K, V>(table: map<K, V>, u: Option<(K, V)>): (r: map<K, V>)
    ensures u.None? ==> r == table
    ensures u.Some? ==> r == table[u.value.0 := u.value.1]
  {
    if u.Some? then table[u.value.0 := u.value.1] else table
  }

  /** The table after the updates the items yield, applied in order. */
  function UpdateAll<K, V, T>(table: map<K, V>, xs: seq<T>, update: T -> Option<(K, V)>): map<K, V>
    decreases |xs|
  {
    if |xs| == 0 then table else UpdateAll(Update(table, update(xs[0])), xs[1..], update)
  }

  /** No entry is ever removed. */
  lemma {:induction false} UpdateAllKeeps<K, V, T>(table: map<K, V>, xs: seq<T>, update: T -> Option<(K, V)>)
    ensures table.Keys <= UpdateAll(table, xs, update).Keys
    decreases |xs|
  {
    if |xs| > 0 {
      UpdateAllKeeps(Update(table, update(xs[0])), xs[1..], update);
    }
  }

  /** A key no item updates keeps its entry, or stays absent. */
  lemma {:induction false} UpdateAllUntouched<K, V, T>(
    table: map<K, V>, xs: seq<T>, update: T -> Option<(K, V)>, key: K)
    requires forall j | 0 <= j < |xs| :: update(xs[j]).Some? ==> update(xs[j]).value.0 != key
    ensures key in UpdateAll(table, xs, update) <==> key in table
    ensures key in table ==> UpdateAll(table, xs, update)[key] == table[key]
    decreases |xs|
  {
    if |xs| > 0 {
      assert forall j | 0 <= j < |xs[1..]| :: xs[1..][j] == xs[j + 1];
      UpdateAllUntouched(Update(table, update(xs[0])), xs[1..], update, key);
    }
  }

  /** A key ends up with the value of the last item that updates it. */
  lemma {:induction false} UpdateAllLatest<K, V, T>(table: map<K, V>, xs: seq<T>, update: T -> Option<(K, V)>, j: nat)
    requires j < |xs| && update(xs[j]).Some?
    requires forall i | j < i < |xs| :: update(xs[i]).Some? ==> update(xs[i]).value.0 != update(xs[j]).value.0
    ensures update(xs[j]).value.0 in UpdateAll(table, xs, update)
    ensures UpdateAll(table, xs, update)[update(xs[j]).value.0] == update(xs[j]).value.1
    decreases |xs|
  {
    var next := Update(table, update(xs[0]));
    assert forall i | 0 <= i < |xs[1..]| :: xs[1..][i] == xs[i + 1];
    if j == 0 {
      UpdateAllUntouched(next, xs[1..], update, update(xs[0]).value.0);
    } else {
      UpdateAllLatest(next, xs[1..], update, j - 1);
    }
  }

  /** The index of the first item that fails to resolve, or the number of items when none does. */
  function FirstFailure<T, E>(resolve: T -> Result<T, E>, xs: seq<T>): (k: nat)
    ensures k <= |xs|
    ensures forall j | 0 <= j < k :: resolve(xs[j]).Success?
    ensures k < |xs| ==> resolve(xs[k]).Failure?
    decreases |xs|
  {
    if |xs| == 0 || resolve(xs[0]).Failure? then 0 else 1 + FirstFailure(resolve, xs[1..])
  }

  /** What the resolve loop leaves: its outcome, the items after it, and the table. */
  datatype Ran<T, E, K, V> = Ran(outcome: Outcome<E>, items: seq<T>, table: map<K, V>)

  /**
   * The resolve loop: each item first updates the table, then is resolved in
   * place; the first failure ends the loop, leaving that item and the ones
   * after it as they were.
   */
  function Run<T, E, K, V>(resolve: T -> Result<T, E>, update: T -> Option<(K, V)>, table: map<K, V>, xs: seq<T>)
    : (r: Ran<T, E, K, V>)
    ensures |r.items| == |xs|
    decreases |xs|
  {
    if |xs| == 0 then Ran(Pass, [], table)
    else
      var next := Update(table, update(xs[0]));
      match resolve(xs[0])
      case Failure(e) => Ran(Fail(e), xs, next)
      case Success(y) =>
        var rest := Run(resolve, update, next, xs[1..]);
        Ran(rest.outcome, [y] + rest.items, rest.table)
  }

  /** `front` ahead of a partial result. */
  function Prepend<T, E, K, V>(front: seq<T>, r: Ran<T, E, K, V>): Ran<T, E, K, V> {
    Ran(r.outcome, front + r.items, r.table)
  }

  /** One item of the loop: it ends the loop with its error, or is resolved ahead of the rest. */
  lemma RunStep<T, E, K, V>(resolve: T -> Result<T, E>, update: T -> Option<(K, V)>, table: map<K, V>, xs: seq<T>)
    requires |xs| > 0
    ensures resolve(xs[0]).Failure? ==>
      Run(resolve, update, table, xs) == Ran(Fail(resolve(xs[0]).error), xs, Update(table, update(xs[0])))
    ensures resolve(xs[0]).Success? ==>
      Run(resolve, update, table, xs)
      == Prepend([resolve(xs[0]).value], Run(resolve, update, Update(table, update(xs[0])), xs[1..]))
  {
  }

  /**
   * One turn of a loop that runs `Run` in place: the item at `i` updates the
   * table and is resolved into `after`; the rest of the loop's result follows.
   */
  lemma RunTurn<T, E, K, V>(
    resolve: T -> Result<T, E>, update: T -> Option<(K, V)>, original: seq<T>,
    before: seq<T>, after: seq<T>, table: map<K, V>, next: map<K, V>,
    i: nat, failure: Option<E>, target: Ran<T, E, K, V>)
    requires i < |original| == |before| && before[i..] == original[i..]
    requires next == Update(table, update(original[i]))
    requires failure.None? <==> resolve(original[i]).Success?
    requires failure.Some? ==> resolve(original[i]) == Failure(failure.value)
    requires after == if failure.None? then before[i := resolve(original[i]).value] else before
    requires Prepend(before[..i], Run(resolve, update, table, original[i..])) == target
    ensures failure.Some? ==> Ran(Fail(failure.value), after, next) == target
    ensures failure.None? ==>
      && after[i + 1..] == original[i + 1..]
      && Prepend(after[..i + 1], Run(resolve, update, next, original[i + 1..])) == target
  {
    assert original[i..][0] == original[i];
    RunStep(resolve, update, table, original[i..]);
    if failure.Some? {
      assert before[..i] + original[i..] == after;
    } else {
      assert original[i..][1..] == original[i + 1..];
      assert after[..i + 1] == before[..i] + [after[i]];
      PrependSnoc(before[..i], after[i], Run(resolve, update, next, original[i + 1..]));
    }
  }

  lemma PrependSnoc<T, E, K, V>(front: seq<T>, y: T, r: Ran<T, E, K, V>)
    ensures Prepend(front, Prepend([y], r)) == Prepend(front + [y], r)
  {
    assert front + ([y] + r.items) == front + [y] + r.items;
  }

  /** The updates of the first item, alone. */
  lemma UpdateFirst<K, V, T>(table: map<K, V>, xs: seq<T>, update: T -> Option<(K, V)>)
    requires |xs| > 0
    ensures UpdateAll(table, xs[..1], update) == Update(table, update(xs[0]))
  {
    assert xs[..1][1..] == [];
  }

  /**
   * The resolve loop item by item: the items before the first failure are
   * resolved, the failing item and those after it are left alone, the
   * outcome is that failure's error, and the table holds the updates of the
   * items up to and including the failing one.
   */
  lemma {:induction false} RunResult<T, E, K, V>(
    resolve: T -> Result<T, E>, update: T -> Option<(K, V)>, table: map<K, V>, xs: seq<T>)
    ensures var r, k := Run(resolve, update, table, xs), FirstFailure(resolve, xs);
      && r.outcome == (if k == |xs| then Pass else Fail(resolve(xs[k]).error))
      && (forall j | 0 <= j < |xs| :: r.items[j] == if j < k then resolve(xs[j]).value else xs[j])
      && r.table == UpdateAll(table, xs[..if k == |xs| then k else k + 1], update)
    decreases |xs|
  {
    if |xs| > 0 {
      if resolve(xs[0]).Failure? {
        UpdateFirst(table, xs, update);
      } else {
        RunResult(resolve, update, Update(table, update(xs[0])), xs[1..]);
        RunResultTail(resolve, update, table, xs);
      }
    }
  }

  /**
   * The loop stops at an item that fails when all items before it resolve:
   * with that item's error, the rest left alone, and the table updated
   * through that item.
   */
  lemma RunStopsAt<T, E, K, V>(
    resolve: T -> Result<T, E>, update: T -> Option<(K, V)>, table: map<K, V>, xs: seq<T>, j: nat)
    requires j < |xs| && resolve(xs[j]).Failure?
    requires forall i | 0 <= i < j :: resolve(xs[i]).Success?
    ensures var r := Run(resolve, update, table, xs);
      && r.outcome == Fail(resolve(xs[j]).error)
      && (forall i | j <= i < |xs| :: r.items[i] == xs[i])
      && r.table == UpdateAll(table, xs[..j + 1], update)
  {
    assert FirstFailure(resolve, xs) == j;
    RunResult(resolve, update, table, xs);
  }

  /** RunResult past an item that resolves, from RunResult for the items after it. */
  lemma RunResultTail<T, E, K, V>(
    resolve: T -> Result<T, E>, update: T -> Option<(K, V)>, table: map<K, V>, xs: seq<T>)
    requires |xs| > 0 && resolve(xs[0]).Success?
    requires var r, k := Run(resolve, update, Update(table, update(xs[0])), xs[1..]), FirstFailure(resolve, xs[1..]);
      && r.outcome == (if k == |xs[1..]| then Pass else Fail(resolve(xs[1..][k]).error))
      && (forall j | 0 <= j < |xs[1..]| :: r.items[j] == if j < k then resolve(xs[1..][j]).value else xs[1..][j])
      && r.table == UpdateAll(Update(table, update(xs[0])), xs[1..][..if k == |xs[1..]| then k else k + 1], update)
    ensures var r, k := Run(resolve, update, table, xs), FirstFailure(resolve, xs);
      && r.outcome == (if k == |xs| then Pass else Fail(resolve(xs[k]).error))
      && (forall j | 0 <= j < |xs| :: r.items[j] == if j < k then resolve(xs[j]).value else xs[j])
      && r.table == UpdateAll(table, xs[..if k == |xs| then k else k + 1], update)
  {
    var rest := Run(resolve, update, Update(table, update(xs[0])), xs[1..]);
    var k := FirstFailure(resolve, xs[1..]);
    RunStep(resolve, update, table, xs);
    assert Run(resolve, update, table, xs) == Prepend([resolve(xs[0]).value], rest);
    assert FirstFailure(resolve, xs) == k + 1;
    TailOutcome(resolve, xs, rest.outcome, k);
    TailItems(resolve, xs, resolve(xs[0]).value, rest.items, k);
    TailTable(table, xs, update, k);
  }

  lemma TailOutcome<T, E>(resolve: T -> Result<T, E>, xs: seq<T>, outcome: Outcome<E>, k: nat)
    requires |xs| > 0 && k <= |xs[1..]| && (k < |xs[1..]| ==> resolve(xs[1..][k]).Failure?)
    requires outcome == (if k == |xs[1..]| then Pass else Fail(resolve(xs[1..][k]).error))
    ensures outcome == (if k + 1 == |xs| then Pass else Fail(resolve(xs[k + 1]).error))
  {
  }

  lemma TailItems<T, E>(resolve: T -> Result<T, E>, xs: seq<T>, y: T, items: seq<T>, k: nat)
    requires |xs| > 0 && resolve(xs[0]) == Success(y) && |items| == |xs[1..]| && k <= |xs[1..]|
    requires forall j | 0 <= j < k :: resolve(xs[1..][j]).Success?
    requires forall j | 0 <= j < |xs[1..]| :: items[j] == if j < k then resolve(xs[1..][j]).value else xs[1..][j]
    ensures forall j | 0 <= j < |xs| :: ([y] + items)[j] == if j < k + 1 then resolve(xs[j]).value else xs[j]
  {
    assert forall j | 0 <= j < |xs[1..]| :: xs[1..][j] == xs[j + 1];
    forall j | 0 <= j < |xs|
      ensures ([y] + items)[j] == if j < k + 1 then resolve(xs[j]).value else xs[j]
    {
      if j > 0 {
        assert ([y] + items)[j] == items[j - 1];
        assert xs[1..][j - 1] == xs[j];
      }
    }
  }

  lemma TailTable<K, V, T>(table: map<K, V>, xs: seq<T>, update: T -> Option<(K, V)>, k: nat)
    requires |xs| > 0 && k <= |xs[1..]|
    ensures UpdateAll(Update(table, update(xs[0])), xs[1..][..if k == |xs[1..]| then k else k + 1], update)
         == UpdateAll(table, xs[..if k + 1 == |xs| then k + 1 else k + 2], update)
  {
    var n := if k == |xs[1..]| then k else k + 1;
    assert xs[..n + 1][1..] == xs[1..][..n];
    assert xs[..n + 1][0] == xs[0];
  }
}
