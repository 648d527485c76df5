/** `Promise.all(items.map(step))` where every step reads and writes shared
    state (the file map): the steps run one after another in item order,
    each sees what the earlier ones wrote, and the whole batch fails with the
    first failure in item order. */
module Batch {
  import opened Wrappers

  datatype Run<R, E, S> = Run(result: Result<seq<R>, E>, state: S)

  /** Every item in turn; step `k` is told its position. */
  function Fold<A, R, E, S>(state: S, items: seq<A>, step: (S, A, nat) -> (Result<R, E>, S), k: nat)
    : (run: Run<R, E, S>)
    ensures run.result.Success? ==> |run.result.value| == |items|
    decreases |items|
  {
    if |items| == 0 then Run(Success([]), state)
    else
      var first := step(state, items[0], k);
      var rest := Fold(first.1, items[1..], step, k + 1);
      var result :=
        if first.0.Failure? then Failure(first.0.error)
        else if rest.result.Failure? then Failure(rest.result.error)
        else Success([first.0.value] + rest.result.value);
      Run(result, rest.state)
  }

  /** A property every successful step has of its item and value holds of
      every item of a successful batch and the value at the same position. */
  lemma {:induction false} FoldAt<A, R, E, S>(state: S, items: seq<A>, step: (S, A, nat) -> (Result<R, E>, S), k: nat,
                                               prop: (A, R) -> bool, i: nat)
    requires forall s, a, n :: step(s, a, n).0.Success? ==> prop(a, step(s, a, n).0.value)
    requires i < |items|
    ensures var run := Fold(state, items, step, k);
      run.result.Success? ==> prop(items[i], run.result.value[i])
    decreases i
  {
    var first := step(state, items[0], k);
    var rest := Fold(first.1, items[1..], step, k + 1);
    var run := Fold(state, items, step, k);
    if run.result.Success? {
      assert run.result.value == [first.0.value] + rest.result.value;
      if i > 0 {
        FoldAt(first.1, items[1..], step, k + 1, prop, i - 1);
        assert items[1..][i - 1] == items[i];
      }
    }
  }

  /** The same, for every position at once. */
  lemma FoldAll<A, R, E, S>(state: S, items: seq<A>, step: (S, A, nat) -> (Result<R, E>, S), k: nat,
                            prop: (A, R) -> bool)
    requires forall s, a, n :: step(s, a, n).0.Success? ==> prop(a, step(s, a, n).0.value)
    ensures var run := Fold(state, items, step, k);
      run.result.Success? ==>
        |run.result.value| == |items| && forall i :: 0 <= i < |items| ==> prop(items[i], run.result.value[i])
  {
    forall i | 0 <= i < |items| {
      FoldAt(state, items, step, k, prop, i);
    }
  }

  /** An item whose step fails whatever the state fails the whole batch. */
  lemma {:induction false} FoldFails<A, R, E, S>(state: S, items: seq<A>, step: (S, A, nat) -> (Result<R, E>, S),
                                                  k: nat, bad: nat)
    requires bad < |items|
    requires forall s, n :: step(s, items[bad], n).0.Failure?
    ensures Fold(state, items, step, k).result.Failure?
    decreases bad
  {
    if bad > 0 {
      var first := step(state, items[0], k);
      assert items[1..][bad - 1] == items[bad];
      FoldFails(first.1, items[1..], step, k + 1, bad - 1);
    }
  }

  /** Items whose step always succeeds with `f` of the item, leaving the
      state alone, make a batch that does the same. */
  lemma {:induction false} FoldPure<A, R, E, S>(state: S, items: seq<A>, step: (S, A, nat) -> (Result<R, E>, S), k: nat,
                                                 f: A -> R)
    requires forall s, i, n :: 0 <= i < |items| ==> step(s, items[i], n) == (Success(f(items[i])), s)
    ensures var run := Fold(state, items, step, k);
      run.state == state && run.result.Success?
      && forall i :: 0 <= i < |items| ==> run.result.value[i] == f(items[i])
    decreases |items|
  {
    if |items| > 0 {
      assert step(state, items[0], k) == (Success(f(items[0])), state);
      forall s, i, n | 0 <= i < |items[1..]| ensures step(s, items[1..][i], n) == (Success(f(items[1..][i])), s) {
        assert items[1..][i] == items[i + 1];
      }
      FoldPure(state, items[1..], step, k + 1, f);
      var rest := Fold(state, items[1..], step, k + 1);
      assert Fold(state, items, step, k).result.value == [f(items[0])] + rest.result.value;
    }
  }
}
