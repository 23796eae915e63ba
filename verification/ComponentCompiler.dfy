/** The compiler from component schemas to validators, and the rendering of a whole document. */
module ComponentCompiler {
  import opened Wrappers
  import opened Wire
  import opened ComponentSchema
  import opened ComponentCode

  datatype Kind = Integer | Boolean | Floating

  /** What the compiler knows of a field it has read for its value: the variable that holds it, its kind, and the
    * ids of the names its mapper gives to values. */
  datatype Capture = Capture(variable: nat, kind: Kind, mappings: Option<map<string, int>>)

  /** Each result carries the last counter used for a variable. The Refused results are raised errors. */
  datatype Code = Refused | Code(block: Block, counter: nat)
  datatype SelectorCode = NotScalar | SelectorCode(block: Block, capture: Capture, counter: nat)
  datatype BranchCode = NoBranchCode | BranchCode(branches: Branches, counter: nat)

  function KindOf(p: Prim): Option<Kind> {
    if p == Bool then Some(Boolean) else if IsInteger(p) then Some(Integer)
    else if IsFloat(p) then Some(Floating) else None
  }

  /** The field names that arrays and switches inlined in a schema refer to. */
  function References(s: Schema): set<string> {
    match s
    case Mapper(base, _) => References(base)
    case Bitflags(base) => References(base)
    case Container(fields) => FieldReferences(fields)
    case Array(count, countType, element) =>
      (if count.Some? then {count.value} else {})
      + (if countType.Some? then References(countType.value) else {})
      + References(element)
    case Optional(inner) => References(inner)
    case Switch(compareTo, cases, fallback) =>
      {compareTo} + CaseReferences(cases) + (if fallback.Some? then References(fallback.value) else {})
    case RegistryHolder(inline) => References(inline)
    case RegistryHolderSet(base, member) => References(base) + References(member)
    case _ => {}
  }

  function FieldReferences(fields: Fields): set<string> {
    match fields
    case NoFields => {}
    case Field(_, s, rest) => References(s) + FieldReferences(rest)
  }

  function CaseReferences(cases: Cases): set<string> {
    match cases
    case NoCases => {}
    case Case(_, body, rest) => References(body) + CaseReferences(rest)
  }

  /** A mapper's table turned round, name to id. A name that occurs twice keeps its last id; an id that is no
    * integer literal is an error. */
  function Invert(doc: Doc, table: seq<Entry>): Option<map<string, int>> {
    if table == [] then Some(map[]) else
      var last := table[|table| - 1];
      var before := Invert(doc, table[..|table| - 1]);
      var id := doc.literal(last.raw);
      if before.None? || id.None? then None else Some(before.value[last.name := id.value])
  }

  function Single(s: Stmt): Block {
    Then(s, End)
  }

  /** A read of a scalar into a fresh variable; floats must be finite. */
  function ReadScalar(p: Prim, v: nat): Block {
    Then(ReadInto(p, v), if IsFloat(p) then Single(FailIf(IsNonFinite, v)) else End)
  }

  /** Compiles a schema whose value is wanted: aliases are compiled in place. `inlined` are the aliases open on the
    * way; one that recurs would be inlined forever. */
  function CompileSelector(doc: Doc, s: Schema, counter: nat, inlined: set<string>): (r: SelectorCode)
    ensures r.SelectorCode? ==> counter < r.capture.variable <= r.counter
    decreases doc.types.Keys - inlined, Size(s)
  {
    match s
    case Primitive(p) =>
      if KindOf(p).None? then NotScalar
      else SelectorCode(ReadScalar(p, counter + 1), Capture(counter + 1, KindOf(p).value, None), counter + 1)
    case Alias(name) =>
      if name !in doc.types || name == SLOT || name in inlined then NotScalar
      else CompileSelector(doc, doc.types[name], counter, inlined + {name})
    case Mapper(base, table) =>
      var parsed := CompileSelector(doc, base, counter, inlined);
      var ids := Invert(doc, table);
      if parsed.NotScalar? || parsed.capture.kind == Floating || ids.None? then NotScalar else
        var v := parsed.capture.variable;
        var check := if ids.value.Values == {} then End else Single(FailIf(IsNoneOf(ids.value.Values), v));
        SelectorCode(Append(parsed.block, check), Capture(v, parsed.capture.kind, ids), parsed.counter)
    case Bitflags(base) => CompileSelector(doc, base, counter, inlined)
    case _ => NotScalar
  }

  function CompilePrimitive(p: Prim, v: nat): Block {
    match p
    case Void => End
    case Uuid | Nbt => Single(Skip(p))
    case _ => ReadScalar(p, v)
  }

  /** Compiles a schema. `env` tells which variable holds each field read for its value so far. */
  function Compile(doc: Doc, s: Schema, env: map<string, Capture>, counter: nat): (r: Code)
    ensures r.Code? ==> counter <= r.counter
    decreases Size(s), 0, 0
  {
    match s
    case Primitive(p) => Code(CompilePrimitive(p, counter + 1), counter + 1)
    case Alias(name) =>
      if name !in doc.types then Refused
      else Code(Single(if name == SLOT then CallSlot else Call(name)), counter)
    case Mapper(_, _) =>
      var r := CompileSelector(doc, s, counter, {});
      if r.NotScalar? then Refused else Code(r.block, r.counter)
    case Bitflags(base) => Compile(doc, base, env, counter)
    case Container(fields) => CompileFields(doc, fields, References(s), env, counter)
    case Array(count, countType, element) => CompileArray(doc, s, env, counter)
    case Optional(inner) =>
      var present := counter + 1;
      var body := Compile(doc, inner, env, present);
      if body.Refused? then Refused
      else Code(OptionalBlock(present, body.block), body.counter)
    case Switch(compareTo, cases, fallback) =>
      if compareTo !in env then Refused else
        var selector := env[compareTo];
        var arms := ArmsOf(doc, selector, cases);
        if arms.None? then Refused else
          var branches := CompileArms(doc, SortArms(arms.value), Size(s), env, counter);
          if branches.NoBranchCode? then Refused
          else if fallback.None? then
            Code(SwitchBlock(selector.variable, branches.branches), branches.counter)
          else
            var default := Compile(doc, fallback.value, env, branches.counter);
            if default.Refused? then Refused
            else Code(Single(Chain(selector.variable, branches.branches, Some(default.block))), default.counter)
    case RegistryHolder(inline) =>
      var holder := counter + 1;
      var body := Compile(doc, inline, env, holder);
      if body.Refused? then Refused
      else Code(HolderBlock(holder, body.block), body.counter)
    case RegistryHolderSet(base, member) => CompileHolderSet(doc, base, member, env, counter)
    case Malformed => Refused
  }

  function CompileHolderSet(doc: Doc, base: Schema, member: Schema, env: map<string, Capture>, counter: nat): (r: Code)
    ensures r.Code? ==> counter <= r.counter
    decreases Size(base) + Size(member), 1, 0
  {
    var holder := counter + 1;
    var body := Compile(doc, base, env, holder);
    if body.Refused? then Refused else
      var count := body.counter + 1;
      var element := Compile(doc, member, env, count + 1);
      if element.Refused? then Refused
      else Code(HolderSetBlock(holder, body.block, count, element.block), element.counter)
  }

  /** A switch without a default; without cases either, it emits nothing. */
  function SwitchBlock(selector: nat, branches: Branches): Block {
    if branches.NoBranches? then End else Single(Chain(selector, branches, None))
  }

  function OptionalBlock(present: nat, body: Block): Block {
    Then(ReadInto(Bool, present), Single(Chain(present, Branch(IsTrue, body, NoBranches), None)))
  }

  function ReadHolder(holder: nat, rest: Stmt): Block {
    Then(ReadInto(VarInt, holder), Then(FailIf(IsNegativeNumber, holder), Single(rest)))
  }

  function HolderBlock(holder: nat, body: Block): Block {
    ReadHolder(holder, Chain(holder, Branch(IsEqualTo(0), body, NoBranches), None))
  }

  function HolderSetBlock(holder: nat, base: Block, count: nat, member: Block): Block {
    ReadHolder(holder, Chain(holder, Branch(IsEqualTo(0), base, NoBranches), Some(HolderLoop(holder, count, member))))
  }

  function HolderLoop(holder: nat, count: nat, body: Block): Block {
    Then(Let(count, holder, 1), Then(FailIf(IsAboveLimit, count), Single(For(count, body))))
  }

  /** An array's count comes from its own count type, else from the field it names. */
  function CompileCount(doc: Doc, count: Option<string>, countType: Option<Schema>, env: map<string, Capture>,
                        counter: nat): (r: SelectorCode)
    ensures r.SelectorCode? ==> counter <= r.counter
  {
    if countType.Some? then
      var r := CompileSelector(doc, countType.value, counter, {});
      if r.SelectorCode? && r.capture.kind == Integer then r else NotScalar
    else if count.Some? && count.value in env then SelectorCode(End, env[count.value], counter)
    else NotScalar
  }

  function CompileArray(doc: Doc, s: Schema, env: map<string, Capture>, counter: nat): (r: Code)
    requires s.Array?
    ensures r.Code? ==> counter <= r.counter
    decreases Size(s.element), 1, 0
  {
    var n := CompileCount(doc, s.count, s.countType, env, counter);
    if n.NotScalar? then Refused else
      var count := n.counter + 1;
      var body := Compile(doc, s.element, env, count + 1);
      if body.Refused? then Refused
      else Code(Append(n.block, ArrayLoop(n.capture.variable, count, body.block)), body.counter)
  }

  function ArrayLoop(source: nat, count: nat, body: Block): Block {
    Then(FailIf(IsOutOfRange, source), Then(Let(count, source, 0), Single(For(count, body))))
  }

  /** Fields are compiled in order; those that the container refers to are compiled for their value, which then
    * shadows any outer field of that name. */
  function CompileFields(doc: Doc, fields: Fields, wanted: set<string>, env: map<string, Capture>, counter: nat)
    : (r: Code)
    ensures r.Code? ==> counter <= r.counter
    decreases FieldsSize(fields), 0, 0
  {
    match fields
    case NoFields => Code(End, counter)
    case Field(name, s, rest) =>
      if name.Some? && name.value in wanted then
        var parsed := CompileSelector(doc, s, counter, {});
        if parsed.NotScalar? then Refused else
          var tail := CompileFields(doc, rest, wanted, env[name.value := parsed.capture], parsed.counter);
          if tail.Refused? then Refused else Code(Append(parsed.block, tail.block), tail.counter)
      else
        var head := Compile(doc, s, env, counter);
        if head.Refused? then Refused else
          var tail := CompileFields(doc, rest, wanted, env, head.counter);
          if tail.Refused? then Refused else Code(Append(head.block, tail.block), tail.counter)
  }

  /** The number that a case's key is compared as. */
  function RawKey(doc: Doc, selector: Capture, key: string): Option<int> {
    if selector.mappings.Some? then
      if key in selector.mappings.value then Some(selector.mappings.value[key]) else None
    else if selector.kind == Boolean && key in {"true", "false"} then Some(if key == "true" then 1 else 0)
    else doc.literal(key)
  }

  function ArmsOf(doc: Doc, selector: Capture, cases: Cases): (r: Option<seq<Arm>>)
    ensures r.Some? ==> forall arm <- r.value :: Size(arm.body) < CasesSize(cases)
  {
    if cases.NoCases? then Some([]) else
      var id := RawKey(doc, selector, cases.key);
      var rest := ArmsOf(doc, selector, cases.rest);
      if id.None? || rest.None? then None else Some([Arm(id.value, cases.body)] + rest.value)
  }

  /** A stable sort by id. */
  function SortArms(arms: seq<Arm>): (r: seq<Arm>)
    ensures |r| == |arms|
    ensures forall arm <- r :: arm in arms
  {
    if arms == [] then [] else InsertArm(arms[0], SortArms(arms[1..]))
  }

  function InsertArm(arm: Arm, sorted: seq<Arm>): (r: seq<Arm>)
    ensures |r| == |sorted| + 1
    ensures forall a <- r :: a == arm || a in sorted
  {
    if sorted == [] || arm.id <= sorted[0].id then [arm] + sorted
    else [sorted[0]] + InsertArm(arm, sorted[1..])
  }

  function CompileArms(doc: Doc, arms: seq<Arm>, bound: nat, env: map<string, Capture>, counter: nat)
    : (r: BranchCode)
    requires forall arm <- arms :: Size(arm.body) < bound
    ensures r.BranchCode? ==> counter <= r.counter
    decreases bound - 1, 1, |arms|
  {
    if arms == [] then BranchCode(NoBranches, counter) else
      var body := Compile(doc, arms[0].body, env, counter);
      if body.Refused? then NoBranchCode else
        var rest := CompileArms(doc, arms[1..], bound, env, body.counter);
        if rest.NoBranchCode? then NoBranchCode
        else BranchCode(Branch(IsEqualTo(arms[0].id), body.block, rest.branches), rest.counter)
  }
}
