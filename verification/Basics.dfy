/** What several modules share. */
module Basics {

  datatype Option<+T> = None | Some(value: T)

  /** The first `k` elements, or all when there are fewer. */
  function Cut<T>(s: seq<T>, k: nat): seq<T> { if k < |s| then s[..k] else s }

  // -------------------------------------------------------------------------
  // Runs of commands
  // -------------------------------------------------------------------------

  /** The property holds of every state a run goes through, the first and the last included. */
  ghost predicate AllAlong<S, C>(step: (S, C) -> S, p: S -> bool, s: S, commands: seq<C>)
    decreases |commands|
  {
    p(s) && (commands == [] || AllAlong(step, p, step(s, commands[0]), commands[1..]))
  }

  /** Each command of a run meets a condition on the state it is given. */
  ghost predicate EachKeeps<S, C>(step: (S, C) -> S, q: (S, C) -> bool, s: S, commands: seq<C>)
    decreases |commands|
  {
    commands == [] || (q(s, commands[0]) && EachKeeps(step, q, step(s, commands[0]), commands[1..]))
  }

  /** A property that one command keeps exactly under a condition holds along a run exactly when
      each command of the run meets it. */
  lemma {:induction false} HoldsAlongExactly<S(!new), C(!new)>(
      step: (S, C) -> S, valid: S -> bool, p: S -> bool, q: (S, C) -> bool, s: S, commands: seq<C>)
    requires valid(s) && p(s)
    requires forall t, c :: valid(t) ==> valid(step(t, c))
    requires forall t, c :: valid(t) && p(t) ==> (p(step(t, c)) <==> q(t, c))
    ensures AllAlong(step, p, s, commands) <==> EachKeeps(step, q, s, commands)
    decreases |commands|
  {
    if commands != [] && q(s, commands[0]) {
      HoldsAlongExactly(step, valid, p, q, step(s, commands[0]), commands[1..]);
    }
  }
}
