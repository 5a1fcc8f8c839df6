/** Finite runs of a step machine, shared by the two concurrency models. */
module Runs {

  /** Every step of `ts` is allowed where it is taken, beginning at `s`. */
  predicate Allowed<S, T>(enabled: (S, T) -> bool, take: (S, T) -> S, s: S, ts: seq<T>)
    decreases |ts|
  {
    ts == [] || (enabled(s, ts[0]) && Allowed(enabled, take, take(s, ts[0]), ts[1..]))
  }

  function After<S, T>(take: (S, T) -> S, s: S, ts: seq<T>): S
    decreases |ts|
  {
    if ts == [] then s else After(take, take(s, ts[0]), ts[1..])
  }

  lemma {:induction false} AfterConcat<S, T>(enabled: (S, T) -> bool, take: (S, T) -> S, s: S, ts: seq<T>, us: seq<T>)
    requires Allowed(enabled, take, s, ts) && Allowed(enabled, take, After(take, s, ts), us)
    ensures Allowed(enabled, take, s, ts + us) && After(take, s, ts + us) == After(take, After(take, s, ts), us)
    decreases |ts|
  {
    if ts == [] {
      assert ts + us == us;
    } else {
      assert (ts + us)[1..] == ts[1..] + us;
      AfterConcat(enabled, take, take(s, ts[0]), ts[1..], us);
    }
  }

  /** One step after a run. */
  lemma AfterThen<S, T>(enabled: (S, T) -> bool, take: (S, T) -> S, s: S, ts: seq<T>, t: T)
    requires Allowed(enabled, take, s, ts) && enabled(After(take, s, ts), t)
    ensures Allowed(enabled, take, s, ts + [t]) && After(take, s, ts + [t]) == take(After(take, s, ts), t)
  {
    assert [t][1..] == [];
    assert Allowed(enabled, take, take(After(take, s, ts), t), []);
    AfterConcat(enabled, take, s, ts, [t]);
  }

  lemma AfterOne<S, T>(enabled: (S, T) -> bool, take: (S, T) -> S, s: S, t: T)
    ensures Allowed(enabled, take, s, [t]) <==> enabled(s, t)
    ensures After(take, s, [t]) == take(s, t)
  {
    var rest := [t][1..];
    assert rest == [];
    assert Allowed(enabled, take, take(s, t), rest) && After(take, take(s, t), rest) == take(s, t);
  }

  lemma AfterFirst<S, T>(enabled: (S, T) -> bool, take: (S, T) -> S, s: S, t: T, ts: seq<T>)
    ensures Allowed(enabled, take, s, [t] + ts) <==> enabled(s, t) && Allowed(enabled, take, take(s, t), ts)
    ensures After(take, s, [t] + ts) == After(take, take(s, t), ts)
  {
    assert ([t] + ts)[1..] == ts;
  }
}
