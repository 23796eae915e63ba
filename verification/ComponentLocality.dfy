/** The wire format of a generated validator is prefix-free: a successful run depends on nothing but the bytes it
  * consumes. This holds of every program in the generated subset of C, by induction over its runs. */
module ComponentLocality {
  import opened Bytes
  import opened Wire
  import opened ComponentSchema
  import opened ComponentCode

  /** Where and with which store the same run ends on other input. */
  function Moved(r: Outcome, at: nat, q: nat): Outcome
    requires r.Running? && at <= r.at
  {
    Running(r.store, q + r.at - at)
  }

  lemma {:induction false} RunIsLocal(m: Machine, b: Block, store: map<nat, Value>, at: nat, depth: nat,
                                      e: seq<byte>, q: nat)
    requires SelfDelimiting(m.wire) && at <= |m.data| && q <= |e|
    requires Run(m, b, store, at, depth).Running?
    requires SameBytes(m.data, at, e, q, Run(m, b, store, at, depth).at - at)
    ensures Run(m.(data := e), b, store, q, depth) == Moved(Run(m, b, store, at, depth), at, q)
    decreases Headroom(depth), b, 0
  {
    match b
    case End =>
    case Then(first, rest) =>
      var r := Step(m, first, store, at, depth);
      StepIsLocal(m, first, store, at, depth, e, q);
      RunIsLocal(m, rest, r.store, r.at, depth, e, q + r.at - at);
  }

  lemma {:induction false} StepIsLocal(m: Machine, s: Stmt, store: map<nat, Value>, at: nat, depth: nat,
                                       e: seq<byte>, q: nat)
    requires SelfDelimiting(m.wire) && at <= |m.data| && q <= |e|
    requires Step(m, s, store, at, depth).Running?
    requires SameBytes(m.data, at, e, q, Step(m, s, store, at, depth).at - at)
    ensures Step(m.(data := e), s, store, q, depth) == Moved(Step(m, s, store, at, depth), at, q)
    decreases Headroom(depth), s, 0
  {
    match s
    case ReadInto(p, _) => ReadIsLocal(m.wire, p, m.data, at, e, q);
    case Skip(p) => ReadIsLocal(m.wire, p, m.data, at, e, q);
    case FailIf(_, _) =>
    case Let(_, _, _) =>
    case Chain(v, branches, otherwise) =>
      var chosen := Choose(branches, otherwise, store[v]);
      if chosen.Some? { RunIsLocal(m, chosen.value, store, at, depth, e, q); }
    case For(v, body) => LoopIsLocal(m, body, Truncated(store[v]), store, at, depth, e, q);
    case Call(name) => ValidateIsLocal(m, name, at, depth + 1, e, q);
    case CallSlot => SlotIsLocal(m.wire, m.data, at, e, q, depth + 1);
  }

  lemma {:induction false} LoopIsLocal(m: Machine, body: Block, n: nat, store: map<nat, Value>, at: nat, depth: nat,
                                       e: seq<byte>, q: nat)
    requires SelfDelimiting(m.wire) && at <= |m.data| && q <= |e|
    requires Loop(m, body, n, store, at, depth).Running?
    requires SameBytes(m.data, at, e, q, Loop(m, body, n, store, at, depth).at - at)
    ensures Loop(m.(data := e), body, n, store, q, depth) == Moved(Loop(m, body, n, store, at, depth), at, q)
    decreases Headroom(depth), body, n + 1
  {
    if n > 0 {
      var r := Run(m, body, store, at, depth);
      RunIsLocal(m, body, store, at, depth, e, q);
      LoopIsLocal(m, body, n - 1, store, r.at, depth, e, q + r.at - at);
    }
  }

  lemma {:induction false} ValidateIsLocal(m: Machine, name: string, at: nat, depth: nat, e: seq<byte>, q: nat)
    requires SelfDelimiting(m.wire) && at <= |m.data| && q <= |e|
    requires Validate(m, name, at, depth).Running?
    requires SameBytes(m.data, at, e, q, Validate(m, name, at, depth).at - at)
    ensures Validate(m.(data := e), name, q, depth) == Moved(Validate(m, name, at, depth), at, q)
    decreases Headroom(depth) + 1
  {
    RunIsLocal(m, m.program[name], map[], at, depth, e, q);
  }

  /** On success, the bytes before and after the value do not matter, and neither does its position; and no strict
    * prefix of the value's bytes is accepted, wherever it stands. */
  lemma {:induction false} ValidatorsArePrefixFree(m: Machine, name: string, at: nat, depth: nat,
                                                   e: seq<byte>, q: nat, n: nat)
    requires SelfDelimiting(m.wire) && at <= |m.data| && q <= |e| && n <= |e| - q
    requires Validate(m, name, at, depth).Running?
    requires n <= Validate(m, name, at, depth).at - at && SameBytes(m.data, at, e, q, n)
    ensures n == Validate(m, name, at, depth).at - at ==>
              Validate(m.(data := e), name, q, depth) == Moved(Validate(m, name, at, depth), at, q)
    ensures n < Validate(m, name, at, depth).at - at && |e| == q + n ==>
              !Validate(m.(data := e), name, q, depth).Running?
  {
    var r := Validate(m, name, at, depth);
    if n == r.at - at {
      ValidateIsLocal(m, name, at, depth, e, q);
    } else if |e| == q + n && Validate(m.(data := e), name, q, depth).Running? {
      // The accepted part of the prefix would also be what the longer input is accepted with.
      assert m.(data := e).(data := m.data) == m;
      ValidateIsLocal(m.(data := e), name, q, depth, m.data, at);
    }
  }
}
