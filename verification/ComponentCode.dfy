/** The C subset that component validators are generated in: its syntax, its execution, and what every program in it
  * guarantees whatever compiled it. */
module ComponentCode {
  import opened Bytes
  import opened Wrappers
  import opened Wire
  import opened ComponentSchema

  /** A condition on one variable. */
  datatype Cond =
    | IsNonFinite
    | IsOutOfRange
    | IsNegativeNumber
    | IsAboveLimit
    | IsNoneOf(ids: set<int>)
    | IsTrue
    | IsEqualTo(id: int)

  /** Variables are named by the counter that made their names unique. A chain without branches is printed as an
    * `else` alone: here it runs as the compiler means it, and `ComponentText` says what C makes of it. */
  datatype Stmt =
    | ReadInto(prim: Prim, variable: nat)            // T v = 0; if (!mc_reader_T(reader, &v)) return false;
    | Skip(prim: Prim)                               // if (!mc_reader_T(reader, ...)) return false;
    | FailIf(cond: Cond, variable: nat)              // if (v ...) return reader_fail(...);
    | Let(target: nat, source: nat, minus: nat)      // const uint32_t t = (uint32_t)(v - m);
    | Chain(variable: nat, branches: Branches, otherwise: Option<Block>)   // if ... else if ... else
    | For(count: nat, body: Block)                   // for (uint32_t i = 0U; i < count; ++i) { ... }
    | Call(name: string)                             // if (!name(reader, depth + 1U)) return false;
    | CallSlot                                       // if (!typed_skip_nested_item_stack(..., depth + 1U)) ...

  datatype Block = End | Then(first: Stmt, rest: Block)

  datatype Branches = NoBranches | Branch(cond: Cond, body: Block, rest: Branches)

  /** A finished run of a block: `Rejected` is a `return false`. `Stuck` is no C behaviour: it marks a run that
    * would use an unset variable, call an undefined function, or start a loop longer than the array limit. */
  datatype Outcome = Rejected | Stuck | Running(store: map<nat, Value>, at: nat)

  datatype Machine = Machine(program: map<string, Block>, wire: Wire, data: seq<byte>)

  predicate Holds(c: Cond, v: Value) {
    match c
    case IsNonFinite => v.NotFinite?
    case IsOutOfRange => OutOfRange(v)
    case IsNegativeNumber => IsNegative(v)
    case IsAboveLimit => Truncated(v) > MAX_ARRAY_COUNT
    case IsNoneOf(ids) => forall id <- ids :: !EqualsLiteral(v, id)
    case IsTrue => !EqualsLiteral(v, 0)
    case IsEqualTo(id) => EqualsLiteral(v, id)
  }

  /** The body a chain runs, if any: the first branch that holds, else the `else`. */
  function Choose(branches: Branches, otherwise: Option<Block>, v: Value): (b: Option<Block>)
    ensures b.Some? ==> b.value < branches || b == otherwise
  {
    match branches
    case NoBranches => otherwise
    case Branch(cond, body, rest) => if Holds(cond, v) then Some(body) else Choose(rest, otherwise, v)
  }

  /** A call of a generated function: its entry check, then its body with no variables set. */
  function Validate(m: Machine, name: string, at: nat, depth: nat): (r: Outcome)
    requires at <= |m.data|
    ensures r.Running? ==> at <= r.at <= |m.data|
    decreases Headroom(depth) + 1
  {
    if name !in m.program then Stuck
    else if depth > MAX_DEPTH then Rejected
    else Run(m, m.program[name], map[], at, depth)
  }

  function Run(m: Machine, b: Block, store: map<nat, Value>, at: nat, depth: nat): (r: Outcome)
    requires at <= |m.data|
    ensures r.Running? ==> at <= r.at <= |m.data|
    decreases Headroom(depth), b, 0
  {
    match b
    case End => Running(store, at)
    case Then(first, rest) =>
      var r := Step(m, first, store, at, depth);
      if r.Running? then Run(m, rest, r.store, r.at, depth) else r
  }

  /** Variables declared in a nested block are gone when it ends, and nested blocks set no others. */
  function Step(m: Machine, s: Stmt, store: map<nat, Value>, at: nat, depth: nat): (r: Outcome)
    requires at <= |m.data|
    ensures r.Running? ==> at <= r.at <= |m.data|
    decreases Headroom(depth), s, 0
  {
    match s
    case ReadInto(p, v) =>
      var r := ReadAt(m.wire, p, m.data, at);
      if r.Parsed? then Running(store[v := r.value], at + r.size) else Rejected
    case Skip(p) =>
      var r := ReadAt(m.wire, p, m.data, at);
      if r.Parsed? then Running(store, at + r.size) else Rejected
    case FailIf(c, v) =>
      if v !in store then Stuck else if Holds(c, store[v]) then Rejected else Running(store, at)
    case Let(t, v, minus) =>
      if v !in store || Truncated(store[v]) < minus then Stuck
      else Running(store[t := Whole(U32, Truncated(store[v]) - minus)], at)
    case Chain(v, branches, otherwise) =>
      if v !in store then Stuck else
        var chosen := Choose(branches, otherwise, store[v]);
        if chosen.None? then Running(store, at) else Leave(store, Run(m, chosen.value, store, at, depth))
    case For(v, body) =>
      if v !in store || !(0 <= Truncated(store[v]) <= MAX_ARRAY_COUNT) then Stuck
      else Leave(store, Loop(m, body, Truncated(store[v]), store, at, depth))
    case Call(name) =>
      if name !in m.program then Stuck
      else if depth >= MAX_DEPTH then Rejected
      else Leave(store, Validate(m, name, at, depth + 1))
    case CallSlot =>
      var r := SlotAt(m.wire, m.data, at, depth + 1);
      if r.Parsed? then Running(store, at + r.size) else Rejected
  }

  function Loop(m: Machine, body: Block, n: nat, store: map<nat, Value>, at: nat, depth: nat): (r: Outcome)
    requires at <= |m.data|
    ensures r.Running? ==> at <= r.at <= |m.data|
    decreases Headroom(depth), body, n + 1
  {
    if n == 0 then Running(store, at) else
      var r := Run(m, body, store, at, depth);
      if r.Running? then Loop(m, body, n - 1, store, r.at, depth) else r
  }

  function Leave(store: map<nat, Value>, r: Outcome): Outcome {
    if r.Running? then Running(store, r.at) else r
  }

  function Append(a: Block, b: Block): Block {
    match a
    case End => b
    case Then(first, rest) => Then(first, Append(rest, b))
  }

  lemma {:induction false} RunAppend(m: Machine, a: Block, b: Block, store: map<nat, Value>, at: nat, depth: nat)
    requires at <= |m.data|
    ensures var r := Run(m, a, store, at, depth);
            Run(m, Append(a, b), store, at, depth) == if r.Running? then Run(m, b, r.store, r.at, depth) else r
  {
    match a
    case End =>
    case Then(first, rest) =>
      var r := Step(m, first, store, at, depth);
      if r.Running? { RunAppend(m, rest, b, r.store, r.at, depth); }
  }
}
