/** Runs of a protocol: a machine says which steps are possible in a state and what each of
    them makes of it. */
module Runs {

  datatype Machine<!S, !A> = Machine(enabled: (S, A) -> bool, next: (S, A) -> S)

  predicate CanRun<S, A>(m: Machine<S, A>, s: S, steps: seq<A>)
    decreases |steps|
  {
    steps == [] || (m.enabled(s, steps[0]) && CanRun(m, m.next(s, steps[0]), steps[1..]))
  }

  function Run<S, A>(m: Machine<S, A>, s: S, steps: seq<A>): S
    decreases |steps|
  {
    if steps == [] then s else Run(m, m.next(s, steps[0]), steps[1..])
  }

  ghost predicate Inductive<S(!new), A(!new)>(m: Machine<S, A>, inv: S -> bool) {
    forall s, step :: inv(s) && m.enabled(s, step) ==> inv(m.next(s, step))
  }

  /** What every possible step keeps, every run keeps. */
  lemma {:induction false} RunKeeps<S(!new), A(!new)>(m: Machine<S, A>, inv: S -> bool, s: S, steps: seq<A>)
    requires Inductive(m, inv) && inv(s) && CanRun(m, s, steps)
    ensures inv(Run(m, s, steps))
    decreases |steps|
  {
    if steps != [] {
      RunKeeps(m, inv, m.next(s, steps[0]), steps[1..]);
    }
  }

  /** The machine in which only steps that keep a rule are possible. */
  ghost function Under<S, A>(m: Machine<S, A>, rule: (S, A) -> bool): Machine<S, A> {
    Machine((s, step) => m.enabled(s, step) && rule(s, step), m.next)
  }

  /** Its runs are the runs of the machine whose every step keeps the rule. */
  lemma {:induction false} RuledRun<S, A>(m: Machine<S, A>, rule: (S, A) -> bool, s: S, steps: seq<A>)
    requires CanRun(Under(m, rule), s, steps)
    ensures CanRun(m, s, steps) && Run(Under(m, rule), s, steps) == Run(m, s, steps)
    decreases |steps|
  {
    if steps != [] {
      RuledRun(m, rule, m.next(s, steps[0]), steps[1..]);
    }
  }

  /** Runs compose. */
  lemma {:induction false} RunJoins<S, A>(m: Machine<S, A>, s: S, a: seq<A>, b: seq<A>)
    ensures CanRun(m, s, a + b) <==> CanRun(m, s, a) && CanRun(m, Run(m, s, a), b)
    ensures Run(m, s, a + b) == Run(m, Run(m, s, a), b)
    decreases |a|
  {
    if a == [] {
      assert a + b == b;
    } else {
      RunJoins(m, m.next(s, a[0]), a[1..], b);
      assert (a + b)[0] == a[0] && (a + b)[1..] == a[1..] + b;
    }
  }

  lemma OneStep<S, A>(m: Machine<S, A>, s: S, step: A)
    ensures CanRun(m, s, [step]) <==> m.enabled(s, step)
    ensures Run(m, s, [step]) == m.next(s, step)
  {
    assert [step][1..] == [];
  }

  /** A run goes on by any step that is possible where it ends. */
  lemma Extend<S, A>(m: Machine<S, A>, s: S, steps: seq<A>, step: A)
    requires CanRun(m, s, steps) && m.enabled(Run(m, s, steps), step)
    ensures CanRun(m, s, steps + [step])
    ensures Run(m, s, steps + [step]) == m.next(Run(m, s, steps), step)
  {
    OneStep(m, Run(m, s, steps), step);
    RunJoins(m, s, steps, [step]);
  }
}
