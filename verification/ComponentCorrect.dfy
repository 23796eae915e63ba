/** Compiler correctness: a generated validator accepts exactly what its schema reads, and stops where it stops. */
module ComponentCorrect {
  import opened Wrappers
  import opened Wire
  import opened ComponentSchema
  import opened ComponentCode
  import opened ComponentCompiler

  // What the compiler needs of mapper tables.

  /** A mapper lists something, and gives no name to two different ids. */
  ghost predicate WellNamed(doc: Doc, table: seq<Entry>) {
    table != [] && Consistent(doc, table)
  }

  ghost predicate Consistent(doc: Doc, table: seq<Entry>) {
    forall d <- table, e <- table :: d.name == e.name ==> doc.literal(d.raw) == doc.literal(e.raw)
  }

  /** Every mapper inlined in `s` is well named, and every alias in it is the nested item or one of `names`. */
  ghost predicate Fits(doc: Doc, names: set<string>, s: Schema) {
    match s
    case Alias(name) => name == SLOT || name in names
    case Mapper(base, table) => WellNamed(doc, table) && Fits(doc, names, base)
    case Bitflags(base) => Fits(doc, names, base)
    case Container(fields) => FieldsFit(doc, names, fields)
    case Array(_, countType, element) =>
      (countType.Some? ==> Fits(doc, names, countType.value)) && Fits(doc, names, element)
    case Optional(inner) => Fits(doc, names, inner)
    case Switch(_, cases, fallback) =>
      CasesFit(doc, names, cases) && (fallback.Some? ==> Fits(doc, names, fallback.value))
    case RegistryHolder(inline) => Fits(doc, names, inline)
    case RegistryHolderSet(base, member) => Fits(doc, names, base) && Fits(doc, names, member)
    case _ => true
  }

  ghost predicate FieldsFit(doc: Doc, names: set<string>, fields: Fields) {
    fields.Field? ==> Fits(doc, names, fields.schema) && FieldsFit(doc, names, fields.rest)
  }

  ghost predicate CasesFit(doc: Doc, names: set<string>, cases: Cases) {
    cases.Case? ==> Fits(doc, names, cases.body) && CasesFit(doc, names, cases.rest)
  }

  lemma {:induction false} InvertIsFaithful(doc: Doc, table: seq<Entry>)
    requires Invert(doc, table).Some? && Consistent(doc, table)
    ensures var ids := Invert(doc, table).value;
            && (forall e <- table :: e.name in ids && doc.literal(e.raw) == Some(ids[e.name]))
            && (forall name <- ids :: exists e <- table :: e.name == name)
  {
    if table != [] {
      var last, before := table[|table| - 1], table[..|table| - 1];
      assert table == before + [last];
      InvertIsFaithful(doc, before);
      var ids := Invert(doc, table).value;
      forall e <- table ensures e.name in ids && doc.literal(e.raw) == Some(ids[e.name]) {
        if e != last { assert e in before; }
      }
      forall name <- ids ensures exists e <- table :: e.name == name {
        if name == last.name { assert last in table; }
        else {
          var e :| e in before && e.name == name;
          assert e in table;
        }
      }
    }
  }

  lemma {:induction false} IdOfIsInverse(doc: Doc, table: seq<Entry>, ids: map<string, int>, name: string)
    requires forall e <- table :: e.name in ids && doc.literal(e.raw) == Some(ids[e.name])
    requires name in ids ==> exists e <- table :: e.name == name
    ensures IdOf(doc, table, name) == if name in ids then Some(ids[name]) else None
  {
    if table != [] && table[0].name != name {
      if name in ids {
        var e :| e in table && e.name == name;
        assert e in table[1..];
      }
      IdOfIsInverse(doc, table[1..], ids, name);
    } else if table != [] {
      assert table[0] in table;
    }
  }

  /** The membership check emitted for a mapper passes exactly the values the mapper declares. */
  lemma {:induction false} MembershipIsDeclared(doc: Doc, table: seq<Entry>, v: Value)
    requires Invert(doc, table).Some? && Consistent(doc, table)
    ensures Holds(IsNoneOf(Invert(doc, table).value.Values), v) <==> !exists e <- table :: Denotes(doc, e, v)
  {
    var ids := Invert(doc, table).value;
    InvertIsFaithful(doc, table);
    if exists e <- table :: Denotes(doc, e, v) {
      var e :| e in table && Denotes(doc, e, v);
      assert ids[e.name] in ids.Values;
    }
    forall id <- ids.Values | EqualsLiteral(v, id) ensures exists e <- table :: Denotes(doc, e, v) {
      var name :| name in ids && ids[name] == id;
      var e :| e in table && e.name == name;
      assert Denotes(doc, e, v);
    }
  }

  /** A program holds the compiled body of each of its functions. */
  ghost predicate Compiled(doc: Doc, program: map<string, Block>) {
    forall name {:trigger HoldsBodyOf(doc, program, name)} :: name in program ==> HoldsBodyOf(doc, program, name)
  }

  ghost predicate HoldsBodyOf(doc: Doc, program: map<string, Block>, name: string)
    requires name in program
  {
    && name in doc.types && Compile(doc, doc.types[name], map[], 0).Code?
    && program[name] == Compile(doc, doc.types[name], map[], 0).block
  }

  /** Every function that a program calls is in it, and its mappers are well named. */
  ghost predicate AllFit(doc: Doc, program: map<string, Block>) {
    forall name {:trigger FitsProgram(doc, program, name)} :: name in program ==> FitsProgram(doc, program, name)
  }

  ghost predicate FitsProgram(doc: Doc, program: map<string, Block>, name: string) {
    name in doc.types && Fits(doc, program.Keys, doc.types[name])
  }

  ghost predicate Sound(i: Input, program: map<string, Block>) {
    WellTyped(i.wire) && Compiled(i.doc, program) && AllFit(i.doc, program)
  }

  // The simulation between what the compiler knows of fields and the fields themselves.

  ghost predicate HasKind(v: Value, k: Kind) {
    match k
    case Integer => v.Whole? && IsInteger(v.prim)
    case Boolean => v.Whole? && v.prim == Bool
    case Floating => v.Finite?
  }

  /** The variable of a capture holds the selector's value, and the compiler has its kind and mapper right. */
  ghost predicate Captures(doc: Doc, c: Capture, selector: Selector, store: map<nat, Value>, counter: nat) {
    && c.variable <= counter && c.variable in store && store[c.variable] == selector.value
    && HasKind(selector.value, c.kind)
    && c.mappings.Some? == selector.table.Some?
    && (selector.table.Some? ==>
          WellNamed(doc, selector.table.value) && c.mappings == Invert(doc, selector.table.value))
  }

  ghost predicate Simulates(doc: Doc, known: map<string, Capture>, env: map<string, Selector>,
                            store: map<nat, Value>, counter: nat) {
    known.Keys == env.Keys && forall name <- known :: Captures(doc, known[name], env[name], store, counter)
  }

  /** Variables up to `counter` keep their values. */
  ghost predicate Extends(store: map<nat, Value>, later: map<nat, Value>, counter: nat) {
    forall v :: v in store && v <= counter ==> v in later && later[v] == store[v]
  }

  lemma SimulationGrows(doc: Doc, known: map<string, Capture>, env: map<string, Selector>,
                        store: map<nat, Value>, counter: nat, later: map<nat, Value>, counter': nat)
    requires Simulates(doc, known, env, store, counter) && Extends(store, later, counter) && counter <= counter'
    ensures Simulates(doc, known, env, later, counter')
  {
    forall name <- known ensures Captures(doc, known[name], env[name], later, counter') {
      assert Captures(doc, known[name], env[name], store, counter);
    }
  }

  lemma FreshKeepsSimulation(doc: Doc, known: map<string, Capture>, env: map<string, Selector>,
                             store: map<nat, Value>, counter: nat, v: nat, value: Value, counter': nat)
    requires Simulates(doc, known, env, store, counter) && counter < v && counter <= counter'
    ensures Simulates(doc, known, env, store[v := value], counter')
  {
    SimulationGrows(doc, known, env, store, counter, store[v := value], counter');
  }

  /** A run agrees with a verdict: both refuse, or both succeed at the same place. */
  ghost predicate Agrees(r: Outcome, v: Verdict, store: map<nat, Value>, counter: nat) {
    match v
    case Reject => r.Rejected?
    case Accept(at) => r.Running? && r.at == at && Extends(store, r.store, counter)
  }

  ghost predicate AgreesOnSelector(doc: Doc, r: Outcome, v: Reading, c: SelectorCode, store: map<nat, Value>,
                                   counter: nat)
    requires c.SelectorCode?
  {
    match v
    case NoReading => r.Rejected?
    case Reading(selector, at) =>
      r.Running? && r.at == at && Extends(store, r.store, counter)
      && Captures(doc, c.capture, selector, r.store, c.counter)
  }

  function MachineFor(i: Input, program: map<string, Block>): Machine {
    Machine(program, i.wire, i.data)
  }

  lemma {:induction false} ScalarReadIsCorrect(i: Input, program: map<string, Block>, p: Prim, v: nat,
                                               store: map<nat, Value>, at: nat, depth: nat)
    requires at <= |i.data|
    ensures var r := Run(MachineFor(i, program), ReadScalar(p, v), store, at, depth);
            var got := ReadAt(i.wire, p, i.data, at);
            if got.NoParse? || (IsFloat(p) && got.value.NotFinite?) then r == Rejected
            else r == Running(store[v := got.value], at + got.size)
  {
    var m := MachineFor(i, program);
    var got := ReadAt(i.wire, p, i.data, at);
    if got.Parsed? {
      var rest := if IsFloat(p) then Single(FailIf(IsNonFinite, v)) else End;
      assert ReadScalar(p, v) == Then(ReadInto(p, v), rest);
      var store' := store[v := got.value];
      assert Step(m, ReadInto(p, v), store, at, depth) == Running(store', at + got.size);
      assert Run(m, End, store', at + got.size, depth) == Running(store', at + got.size);
      if IsFloat(p) {
        assert Step(m, FailIf(IsNonFinite, v), store', at + got.size, depth)
            == if got.value.NotFinite? then Rejected else Running(store', at + got.size);
      }
    }
  }

  /** A run that keeps what was read in the variable that the code names agrees with the reading. */
  lemma KeptAgrees(doc: Doc, p: Prim, value: Value, c: SelectorCode, store: map<nat, Value>, counter: nat, at: nat)
    requires HasType(value, p) && !value.NotFinite? && KindOf(p).Some? && c.SelectorCode?
    requires c.capture == Capture(counter + 1, KindOf(p).value, None) && c.counter == counter + 1
    ensures AgreesOnSelector(doc, Running(store[counter + 1 := value], at), Reading(Selector(value, None), at), c, store,
                             counter)
  {}

  lemma ScalarIsCorrect(i: Input, program: map<string, Block>, p: Prim, counter: nat, inlined: set<string>,
                        store: map<nat, Value>, at: nat, depth: nat)
    requires at <= |i.data| && WellTyped(i.wire) && CompileSelector(i.doc, Primitive(p), counter, inlined).SelectorCode?
    ensures var c := CompileSelector(i.doc, Primitive(p), counter, inlined);
            AgreesOnSelector(i.doc, Run(MachineFor(i, program), c.block, store, at, depth),
                             ReadSelector(i, Primitive(p), inlined, at), c, store, counter)
  {
    ScalarReadIsCorrect(i, program, p, counter + 1, store, at, depth);
    var r := ReadAt(i.wire, p, i.data, at);
    if r.Parsed? && !r.value.NotFinite? {
      assert HasType(i.wire.read(p, i.data[at..]).value, p);
      KeptAgrees(i.doc, p, r.value, CompileSelector(i.doc, Primitive(p), counter, inlined), store, counter, at + r.size);
    }
  }

  lemma {:induction false} SelectorIsCorrect(i: Input, program: map<string, Block>, s: Schema, counter: nat,
                                             inlined: set<string>, store: map<nat, Value>, at: nat, depth: nat)
    requires at <= |i.data| && Sound(i, program) && Fits(i.doc, program.Keys, s)
    requires CompileSelector(i.doc, s, counter, inlined).SelectorCode?
    ensures var c := CompileSelector(i.doc, s, counter, inlined);
            AgreesOnSelector(i.doc, Run(MachineFor(i, program), c.block, store, at, depth),
                             ReadSelector(i, s, inlined, at), c, store, counter)
    decreases i.doc.types.Keys - inlined, Size(s)
  {
    match s
    case Primitive(p) => ScalarIsCorrect(i, program, p, counter, inlined, store, at, depth);
    case Alias(name) =>
      assert FitsProgram(i.doc, program, name);
      SelectorIsCorrect(i, program, i.doc.types[name], counter, inlined + {name}, store, at, depth);
    case Mapper(base, table) =>
      SelectorIsCorrect(i, program, base, counter, inlined, store, at, depth);
      MapperIsCorrect(i, program, base, table, counter, inlined, store, at, depth);
    case Bitflags(base) =>
      SelectorIsCorrect(i, program, base, counter, inlined, store, at, depth);
  }

  lemma {:induction false} MapperIsCorrect(i: Input, program: map<string, Block>, base: Schema, table: seq<Entry>,
                                           counter: nat, inlined: set<string>, store: map<nat, Value>, at: nat,
                                           depth: nat)
    requires at <= |i.data| && WellNamed(i.doc, table)
    requires CompileSelector(i.doc, Mapper(base, table), counter, inlined).SelectorCode?
    requires var c := CompileSelector(i.doc, base, counter, inlined);
             AgreesOnSelector(i.doc, Run(MachineFor(i, program), c.block, store, at, depth),
                              ReadSelector(i, base, inlined, at), c, store, counter)
    ensures var c := CompileSelector(i.doc, Mapper(base, table), counter, inlined);
            AgreesOnSelector(i.doc, Run(MachineFor(i, program), c.block, store, at, depth),
                             ReadSelector(i, Mapper(base, table), inlined, at), c, store, counter)
  {
    var m := MachineFor(i, program);
    var parsed := CompileSelector(i.doc, base, counter, inlined);
    var ids := Invert(i.doc, table);
    var v := parsed.capture.variable;
    InvertIsFaithful(i.doc, table);
    assert table[0] in table;
    assert ids.value[table[0].name] in ids.value.Values;
    var check := Single(FailIf(IsNoneOf(ids.value.Values), v));
    RunAppend(m, parsed.block, check, store, at, depth);
    var r := Run(m, parsed.block, store, at, depth);
    if r.Running? {
      MembershipIsDeclared(i.doc, table, r.store[v]);
      assert Step(m, FailIf(IsNoneOf(ids.value.Values), v), r.store, r.at, depth)
          == if Holds(IsNoneOf(ids.value.Values), r.store[v]) then Rejected else r;
      assert Run(m, End, r.store, r.at, depth) == r;
    }
  }

  // Switches: the sorted chain runs the case the schema picks.

  function FirstEqual(arms: seq<Arm>, v: Value): (r: Option<Arm>)
    ensures r.Some? ==> r.value in arms
  {
    if arms == [] then None
    else if EqualsLiteral(v, arms[0].id) then Some(arms[0])
    else FirstEqual(arms[1..], v)
  }

  ghost predicate SortedArms(arms: seq<Arm>) {
    forall j, k :: 0 <= j < k < |arms| ==> arms[j].id <= arms[k].id
  }

  lemma {:induction false} InsertKeepsOrder(arm: Arm, sorted: seq<Arm>)
    requires SortedArms(sorted)
    ensures SortedArms(InsertArm(arm, sorted))
  {
    if sorted != [] && arm.id > sorted[0].id {
      var tail := InsertArm(arm, sorted[1..]);
      InsertKeepsOrder(arm, sorted[1..]);
      forall k | 0 <= k < |tail| ensures sorted[0].id <= tail[k].id {
        assert tail[k] in tail;
      }
    }
  }

  lemma {:induction false} InsertFirstEqual(arm: Arm, sorted: seq<Arm>, v: Value)
    requires SortedArms(sorted)
    ensures var before := FirstEqual(sorted, v);
            FirstEqual(InsertArm(arm, sorted), v)
            == if EqualsLiteral(v, arm.id) && (before.None? || arm.id <= before.value.id) then Some(arm) else before
  {
    if sorted == [] || arm.id <= sorted[0].id {
      assert ([arm] + sorted)[1..] == sorted;
    } else {
      InsertFirstEqual(arm, sorted[1..], v);
      assert ([sorted[0]] + InsertArm(arm, sorted[1..]))[1..] == InsertArm(arm, sorted[1..]);
    }
  }

  lemma {:induction false} SortIsSorted(arms: seq<Arm>)
    ensures SortedArms(SortArms(arms))
  {
    if arms != [] {
      SortIsSorted(arms[1..]);
      InsertKeepsOrder(arms[0], SortArms(arms[1..]));
    }
  }

  lemma KeysAgree(doc: Doc, c: Capture, selector: Selector, store: map<nat, Value>, counter: nat, key: string)
    requires Captures(doc, c, selector, store, counter)
    ensures RawKey(doc, c, key) == KeyId(doc, selector, key)
  {
    if selector.table.Some? {
      var table := selector.table.value;
      InvertIsFaithful(doc, table);
      IdOfIsInverse(doc, table, c.mappings.value, key);
    }
  }

  lemma {:induction false} SortedArmsPick(doc: Doc, c: Capture, selector: Selector, cases: Cases,
                                          store: map<nat, Value>, counter: nat)
    requires Captures(doc, c, selector, store, counter)
    requires ArmsOf(doc, c, cases).Some?
    ensures FirstEqual(SortArms(ArmsOf(doc, c, cases).value), selector.value) == Pick(doc, selector, cases)
  {
    if cases.Case? {
      SortedArmsPick(doc, c, selector, cases.rest, store, counter);
      KeysAgree(doc, c, selector, store, counter, cases.key);
      var rest := ArmsOf(doc, c, cases.rest).value;
      var arms := ArmsOf(doc, c, cases).value;
      assert arms[0] == Arm(RawKey(doc, c, cases.key).value, cases.body) && arms[1..] == rest;
      SortIsSorted(rest);
      InsertFirstEqual(arms[0], SortArms(rest), selector.value);
    }
  }

  // References: the compiler captures the fields that are asked for, and no others.

  lemma {:induction false} ReferencesAreMentions(s: Schema, name: string)
    ensures name in References(s) <==> Mentions(s, name)
    decreases s
  {
    match s
    case Mapper(base, _) => ReferencesAreMentions(base, name);
    case Bitflags(base) => ReferencesAreMentions(base, name);
    case Container(fields) => FieldReferencesAreMentions(fields, name);
    case Array(_, countType, element) =>
      if countType.Some? { ReferencesAreMentions(countType.value, name); }
      ReferencesAreMentions(element, name);
    case Optional(inner) => ReferencesAreMentions(inner, name);
    case Switch(_, cases, fallback) =>
      CaseReferencesAreMentions(cases, name);
      if fallback.Some? { ReferencesAreMentions(fallback.value, name); }
    case RegistryHolder(inline) => ReferencesAreMentions(inline, name);
    case RegistryHolderSet(base, member) =>
      ReferencesAreMentions(base, name);
      ReferencesAreMentions(member, name);
    case _ =>
  }

  lemma {:induction false} FieldReferencesAreMentions(fields: Fields, name: string)
    ensures name in FieldReferences(fields) <==> FieldsMention(fields, name)
    decreases fields
  {
    if fields.Field? {
      ReferencesAreMentions(fields.schema, name);
      FieldReferencesAreMentions(fields.rest, name);
    }
  }

  lemma {:induction false} CaseReferencesAreMentions(cases: Cases, name: string)
    ensures name in CaseReferences(cases) <==> CasesMention(cases, name)
    decreases cases
  {
    if cases.Case? {
      ReferencesAreMentions(cases.body, name);
      CaseReferencesAreMentions(cases.rest, name);
    }
  }

  // The correctness proof, one lemma for each kind of node.

  ghost predicate IsCode(doc: Doc, s: Schema, known: map<string, Capture>, counter: nat, code: Code) {
    code.Code? && code == Compile(doc, s, known, counter)
  }

  /** Code for a schema, and a store that simulates the fields in scope. */
  ghost predicate Ready(i: Input, program: map<string, Block>, s: Schema, known: map<string, Capture>,
                        env: map<string, Selector>, counter: nat, store: map<nat, Value>, depth: nat, code: Code) {
    && depth <= MAX_DEPTH && Sound(i, program) && Fits(i.doc, program.Keys, s)
    && IsCode(i.doc, s, known, counter, code) && Simulates(i.doc, known, env, store, counter)
  }

  /** A block reads what a schema means. */
  ghost predicate Matches(i: Input, program: map<string, Block>, s: Schema, env: map<string, Selector>, counter: nat,
                          block: Block, store: map<nat, Value>, at: nat, depth: nat)
    requires at <= |i.data|
  {
    Agrees(Run(MachineFor(i, program), block, store, at, depth), Read(i, s, env, at, depth), store, counter)
  }

  lemma {:induction false} CompileIsCorrect(i: Input, program: map<string, Block>, s: Schema,
                                            known: map<string, Capture>, env: map<string, Selector>, counter: nat,
                                            store: map<nat, Value>, at: nat, depth: nat, code: Code)
    requires at <= |i.data| && Ready(i, program, s, known, env, counter, store, depth, code)
    ensures Matches(i, program, s, env, counter, code.block, store, at, depth)
    decreases Headroom(depth), Size(s), 1
  {
    match s
    case Primitive(p) => PrimitiveIsCorrect(i, program, p, counter + 1, store, at, depth);
    case Alias(name) => AliasIsCorrect(i, program, name, known, env, counter, store, at, depth, code);
    case Mapper(_, _) => SelectorIsCorrect(i, program, s, counter, {}, store, at, depth);
    case Bitflags(base) => CompileIsCorrect(i, program, base, known, env, counter, store, at, depth, code);
    case Container(fields) =>
      FieldsAreCorrect(i, program, s, fields, known, env, counter, store, at, depth, code);
    case Array(_, _, _) => ArrayIsCorrect(i, program, s, known, env, counter, store, at, depth, code);
    case Optional(inner) => OptionalIsCorrect(i, program, inner, known, env, counter, store, at, depth, code);
    case Switch(_, _, _) => SwitchIsCorrect(i, program, s, known, env, counter, store, at, depth, code);
    case RegistryHolder(inline) => HolderIsCorrect(i, program, inline, known, env, counter, store, at, depth, code);
    case RegistryHolderSet(base, member) =>
      HolderSetIsCorrect(i, program, base, member, known, env, counter, store, at, depth, code);
  }

  ghost predicate FieldsReady(i: Input, program: map<string, Block>, whole: Schema, fields: Fields,
                              known: map<string, Capture>, env: map<string, Selector>, counter: nat,
                              store: map<nat, Value>, depth: nat, code: Code) {
    && depth <= MAX_DEPTH && Sound(i, program) && FieldsFit(i.doc, program.Keys, fields)
    && code.Code? && code == CompileFields(i.doc, fields, References(whole), known, counter)
    && Simulates(i.doc, known, env, store, counter)
  }

  ghost predicate FieldsMatch(i: Input, program: map<string, Block>, whole: Schema, fields: Fields,
                              env: map<string, Selector>, counter: nat, block: Block, store: map<nat, Value>,
                              at: nat, depth: nat)
    requires at <= |i.data|
  {
    Agrees(Run(MachineFor(i, program), block, store, at, depth), ReadFields(i, whole, fields, env, at, depth), store,
           counter)
  }

  lemma {:induction false} FieldsAreCorrect(i: Input, program: map<string, Block>, whole: Schema, fields: Fields,
                                            known: map<string, Capture>, env: map<string, Selector>, counter: nat,
                                            store: map<nat, Value>, at: nat, depth: nat, code: Code)
    requires at <= |i.data| && FieldsReady(i, program, whole, fields, known, env, counter, store, depth, code)
    ensures FieldsMatch(i, program, whole, fields, env, counter, code.block, store, at, depth)
    decreases Headroom(depth), FieldsSize(fields), 1
  {
    if fields.Field? {
      if fields.name.Some? { ReferencesAreMentions(whole, fields.name.value); }
      if fields.name.Some? && fields.name.value in References(whole) {
        CapturedFieldIsCorrect(i, program, whole, fields, known, env, counter, store, at, depth, code);
      } else {
        SkippedFieldIsCorrect(i, program, whole, fields, known, env, counter, store, at, depth, code);
      }
    }
  }

  lemma {:induction false} CapturedFieldIsCorrect(i: Input, program: map<string, Block>, whole: Schema,
                                                  fields: Fields, known: map<string, Capture>,
                                                  env: map<string, Selector>, counter: nat,
                                                  store: map<nat, Value>, at: nat, depth: nat, code: Code)
    requires at <= |i.data| && FieldsReady(i, program, whole, fields, known, env, counter, store, depth, code)
    requires fields.Field? && fields.name.Some?
    requires fields.name.value in References(whole) && Mentions(whole, fields.name.value)
    ensures FieldsMatch(i, program, whole, fields, env, counter, code.block, store, at, depth)
    decreases Headroom(depth), FieldsSize(fields), 0
  {
    var m, name := MachineFor(i, program), fields.name.value;
    var parsed := CompileSelector(i.doc, fields.schema, counter, {});
    var known' := known[name := parsed.capture];
    var tail := CompileFields(i.doc, fields.rest, References(whole), known', parsed.counter);
    SelectorIsCorrect(i, program, fields.schema, counter, {}, store, at, depth);
    RunAppend(m, parsed.block, tail.block, store, at, depth);
    var r := Run(m, parsed.block, store, at, depth);
    var read := ReadSelector(i, fields.schema, {}, at);
    if read.Reading? {
      var env' := env[name := read.selector];
      SimulationGrows(i.doc, known, env, store, counter, r.store, parsed.counter);
      assert Simulates(i.doc, known', env', r.store, parsed.counter);
      FieldsAreCorrect(i, program, whole, fields.rest, known', env', parsed.counter, r.store, r.at, depth, tail);
    }
  }

  lemma {:induction false} SkippedFieldIsCorrect(i: Input, program: map<string, Block>, whole: Schema,
                                                 fields: Fields, known: map<string, Capture>,
                                                 env: map<string, Selector>, counter: nat,
                                                 store: map<nat, Value>, at: nat, depth: nat, code: Code)
    requires at <= |i.data| && FieldsReady(i, program, whole, fields, known, env, counter, store, depth, code)
    requires fields.Field?
    requires fields.name.Some? ==>
               fields.name.value !in References(whole) && !Mentions(whole, fields.name.value)
    ensures FieldsMatch(i, program, whole, fields, env, counter, code.block, store, at, depth)
    decreases Headroom(depth), FieldsSize(fields), 0
  {
    var m := MachineFor(i, program);
    var head := Compile(i.doc, fields.schema, known, counter);
    var tail := CompileFields(i.doc, fields.rest, References(whole), known, head.counter);
    CompileIsCorrect(i, program, fields.schema, known, env, counter, store, at, depth, head);
    RunAppend(m, head.block, tail.block, store, at, depth);
    var r := Run(m, head.block, store, at, depth);
    if r.Running? {
      SimulationGrows(i.doc, known, env, store, counter, r.store, head.counter);
      FieldsAreCorrect(i, program, whole, fields.rest, known, env, head.counter, r.store, r.at, depth, tail);
    }
  }

  /** Agreement of a loop. */
  ghost predicate LoopAgrees(r: Outcome, v: Verdict) {
    match v
    case Reject => r.Rejected?
    case Accept(at) => r.Running? && r.at == at
  }

  ghost predicate LoopMatches(i: Input, program: map<string, Block>, s: Schema, env: map<string, Selector>,
                              block: Block, n: nat, store: map<nat, Value>, at: nat, depth: nat)
    requires at <= |i.data|
  {
    LoopAgrees(Loop(MachineFor(i, program), block, n, store, at, depth), Repeat(i, s, env, n, at, depth))
  }

  lemma {:induction false} LoopIsCorrect(i: Input, program: map<string, Block>, s: Schema,
                                         known: map<string, Capture>, env: map<string, Selector>, counter: nat,
                                         n: nat, store: map<nat, Value>, at: nat, depth: nat, code: Code)
    requires at <= |i.data| && Ready(i, program, s, known, env, counter, store, depth, code)
    ensures LoopMatches(i, program, s, env, code.block, n, store, at, depth)
    decreases Headroom(depth), Size(s), n + 2
  {
    if n > 0 {
      CompileIsCorrect(i, program, s, known, env, counter, store, at, depth, code);
      var r := Read(i, s, env, at, depth);
      if r.Accept? { LoopIsCorrect(i, program, s, known, env, counter, n - 1, store, r.at, depth, code); }
    }
  }

  /** A loop with a fresh variable for its count. The index variable takes the counter after that. */
  lemma {:induction false} CountedLoopIsCorrect(i: Input, program: map<string, Block>, s: Schema,
                                                known: map<string, Capture>, env: map<string, Selector>,
                                                counter: nat, count: nat, n: nat, store: map<nat, Value>, at: nat,
                                                depth: nat, code: Code)
    requires at <= |i.data| && depth <= MAX_DEPTH && Sound(i, program) && Fits(i.doc, program.Keys, s)
    requires count > counter && IsCode(i.doc, s, known, count + 1, code)
    requires Simulates(i.doc, known, env, store, counter)
    ensures LoopMatches(i, program, s, env, code.block, n, store[count := Whole(U32, n)], at, depth)
    decreases Headroom(depth), Size(s), n + 3
  {
    FreshKeepsSimulation(i.doc, known, env, store, counter, count, Whole(U32, n), count + 1);
    LoopIsCorrect(i, program, s, known, env, count + 1, n, store[count := Whole(U32, n)], at, depth, code);
  }

  lemma {:induction false} ArrayCode(doc: Doc, s: Schema, known: map<string, Capture>, counter: nat, code: Code)
    returns (n: SelectorCode, body: Code)
    requires s.Array? && IsCode(doc, s, known, counter, code)
    ensures n == CompileCount(doc, s.count, s.countType, known, counter) && n.SelectorCode? && counter <= n.counter
    ensures IsCode(doc, s.element, known, n.counter + 1 + 1, body)
    ensures code.block == Append(n.block, ArrayLoop(n.capture.variable, n.counter + 1, body.block))
  {
    assert code == CompileArray(doc, s, known, counter);
    n := CompileCount(doc, s.count, s.countType, known, counter);
    body := Compile(doc, s.element, known, n.counter + 1 + 1);
  }

  lemma {:induction false} ArrayIsCorrect(i: Input, program: map<string, Block>, s: Schema,
                                          known: map<string, Capture>, env: map<string, Selector>, counter: nat,
                                          store: map<nat, Value>, at: nat, depth: nat, code: Code)
    requires at <= |i.data| && Ready(i, program, s, known, env, counter, store, depth, code) && s.Array?
    ensures Matches(i, program, s, env, counter, code.block, store, at, depth)
    decreases Headroom(depth), Size(s), 0
  {
    var n, body := ArrayCode(i.doc, s, known, counter, code);
    CountIsCorrect(i, program, s, known, env, counter, store, at, depth);
    var r := Run(MachineFor(i, program), n.block, store, at, depth);
    var read := ReadCount(i, s.count, s.countType, env, at);
    if read.Reading? && !OutOfRange(read.selector.value) {
      SimulationGrows(i.doc, known, env, store, counter, r.store, n.counter);
      CountedLoopIsCorrect(i, program, s.element, known, env, n.counter, n.counter + 1,
                           Truncated(read.selector.value), r.store, r.at, depth, body);
    }
    ArrayAgrees(i, program, s, env, n, counter, n.counter + 1, body.block, store, at, depth);
  }

  lemma {:induction false} ArrayAgrees(i: Input, program: map<string, Block>, s: Schema, env: map<string, Selector>,
                                       n: SelectorCode, counter: nat, count: nat, body: Block,
                                       store: map<nat, Value>, at: nat, depth: nat)
    requires at <= |i.data| && s.Array? && n.SelectorCode? && count > counter
    requires var r := Run(MachineFor(i, program), n.block, store, at, depth);
             var read := ReadCount(i, s.count, s.countType, env, at);
             && AgreesOnSelector(i.doc, r, read, n, store, counter)
             && (read.Reading? && !OutOfRange(read.selector.value) ==>
                   var k := Truncated(read.selector.value);
                   var store' := r.store[count := Whole(U32, k)];
                   LoopAgrees(Loop(MachineFor(i, program), body, k, store', r.at, depth),
                              Repeat(i, s.element, env, k, r.at, depth)))
    ensures Agrees(Run(MachineFor(i, program), Append(n.block, ArrayLoop(n.capture.variable, count, body)),
                       store, at, depth),
                   Read(i, s, env, at, depth), store, counter)
  {
    var m := MachineFor(i, program);
    RunAppend(m, n.block, ArrayLoop(n.capture.variable, count, body), store, at, depth);
    var r := Run(m, n.block, store, at, depth);
    if r.Running? { ArrayLoopRuns(m, n.capture.variable, count, body, r.store, r.at, depth); }
  }

  lemma {:induction false} CountIsCorrect(i: Input, program: map<string, Block>, s: Schema,
                                          known: map<string, Capture>, env: map<string, Selector>, counter: nat,
                                          store: map<nat, Value>, at: nat, depth: nat)
    requires at <= |i.data| && Sound(i, program) && Fits(i.doc, program.Keys, s)
    requires s.Array? && CompileCount(i.doc, s.count, s.countType, known, counter).SelectorCode?
    requires Simulates(i.doc, known, env, store, counter)
    ensures var c := CompileCount(i.doc, s.count, s.countType, known, counter);
            AgreesOnSelector(i.doc, Run(MachineFor(i, program), c.block, store, at, depth),
                             ReadCount(i, s.count, s.countType, env, at), c, store, counter)
  {
    if s.countType.Some? {
      SelectorIsCorrect(i, program, s.countType.value, counter, {}, store, at, depth);
    } else {
      assert Captures(i.doc, known[s.count.value], env[s.count.value], store, counter);
    }
  }

  lemma {:induction false} ArrayLoopRuns(m: Machine, source: nat, count: nat, body: Block, store: map<nat, Value>,
                                         at: nat, depth: nat)
    requires at <= |m.data| && source in store
    ensures var v := store[source];
            Run(m, ArrayLoop(source, count, body), store, at, depth)
            == if OutOfRange(v) then Rejected
               else var store' := store[count := Whole(U32, Truncated(v))];
                    Leave(store', Loop(m, body, Truncated(v), store', at, depth))
  {
    var v := store[source];
    var loop := For(count, body);
    var check, assign := FailIf(IsOutOfRange, source), Let(count, source, 0);
    assert ArrayLoop(source, count, body) == Then(check, Then(assign, Single(loop)));
    assert Step(m, check, store, at, depth) == if OutOfRange(v) then Rejected else Running(store, at);
    if !OutOfRange(v) {
      var store' := store[count := Whole(U32, Truncated(v))];
      assert Step(m, assign, store, at, depth) == Running(store', at);
      SingleRuns(m, loop, store', at, depth);
    }
  }

  lemma SingleRuns(m: Machine, s: Stmt, store: map<nat, Value>, at: nat, depth: nat)
    requires at <= |m.data|
    ensures Run(m, Single(s), store, at, depth) == Step(m, s, store, at, depth)
  {
    var r := Step(m, s, store, at, depth);
    assert r.Running? ==> Run(m, End, r.store, r.at, depth) == r;
  }

  /** A chain of one branch. */
  lemma ChainRuns(m: Machine, v: nat, cond: Cond, body: Block, otherwise: Option<Block>, store: map<nat, Value>,
                  at: nat, depth: nat)
    requires at <= |m.data| && v in store
    ensures Step(m, Chain(v, Branch(cond, body, NoBranches), otherwise), store, at, depth)
         == if Holds(cond, store[v]) then Leave(store, Run(m, body, store, at, depth))
            else if otherwise.None? then Running(store, at)
            else Leave(store, Run(m, otherwise.value, store, at, depth))
  {
    assert Choose(NoBranches, otherwise, store[v]) == otherwise;
  }

  /** A node compiled after one more variable was read, and run with that variable set. */
  lemma {:induction false} NestedIsCorrect(i: Input, program: map<string, Block>, s: Schema,
                                           known: map<string, Capture>, env: map<string, Selector>, counter: nat,
                                           got: Value, store: map<nat, Value>, at: nat, depth: nat, code: Code)
    requires at <= |i.data| && depth <= MAX_DEPTH && Sound(i, program) && Fits(i.doc, program.Keys, s)
    requires IsCode(i.doc, s, known, counter + 1, code) && Simulates(i.doc, known, env, store, counter)
    ensures Matches(i, program, s, env, counter + 1, code.block, store[counter + 1 := got], at, depth)
    decreases Headroom(depth), Size(s), 2
  {
    FreshKeepsSimulation(i.doc, known, env, store, counter, counter + 1, got, counter + 1);
    CompileIsCorrect(i, program, s, known, env, counter + 1, store[counter + 1 := got], at, depth, code);
  }

  lemma {:induction false} OptionalRuns(m: Machine, present: nat, body: Block, store: map<nat, Value>, at: nat,
                                        depth: nat)
    requires at <= |m.data|
    ensures var got := ReadAt(m.wire, Bool, m.data, at);
            Run(m, OptionalBlock(present, body), store, at, depth)
            == if got.NoParse? then Rejected else
                 var store' := store[present := got.value];
                 if EqualsLiteral(got.value, 0) then Running(store', at + got.size)
                 else Leave(store', Run(m, body, store', at + got.size, depth))
  {
    var got := ReadAt(m.wire, Bool, m.data, at);
    if got.Parsed? {
      var store' := store[present := got.value];
      assert Step(m, ReadInto(Bool, present), store, at, depth) == Running(store', at + got.size);
      SingleRuns(m, Chain(present, Branch(IsTrue, body, NoBranches), None), store', at + got.size, depth);
      ChainRuns(m, present, IsTrue, body, None, store', at + got.size, depth);
    }
  }

  lemma {:induction false} OptionalAgrees(i: Input, program: map<string, Block>, inner: Schema,
                                          env: map<string, Selector>, counter: nat, body: Block, block: Block,
                                          store: map<nat, Value>, at: nat, depth: nat)
    requires at <= |i.data| && block == OptionalBlock(counter + 1, body)
    requires var got := ReadAt(i.wire, Bool, i.data, at);
             got.Parsed? ==> Matches(i, program, inner, env, counter + 1, body, store[counter + 1 := got.value],
                                     at + got.size, depth)
    ensures Matches(i, program, Optional(inner), env, counter, block, store, at, depth)
  {
    OptionalRuns(MachineFor(i, program), counter + 1, body, store, at, depth);
  }

  lemma OptionalCode(doc: Doc, inner: Schema, known: map<string, Capture>, counter: nat, code: Code)
    returns (body: Code)
    requires IsCode(doc, Optional(inner), known, counter, code)
    ensures IsCode(doc, inner, known, counter + 1, body) && code.block == OptionalBlock(counter + 1, body.block)
  {
    body := Compile(doc, inner, known, counter + 1);
    assert body.Code?;
  }

  lemma {:induction false} OptionalIsCorrect(i: Input, program: map<string, Block>, inner: Schema,
                                             known: map<string, Capture>, env: map<string, Selector>, counter: nat,
                                             store: map<nat, Value>, at: nat, depth: nat, code: Code)
    requires at <= |i.data| && Ready(i, program, Optional(inner), known, env, counter, store, depth, code)
    ensures Matches(i, program, Optional(inner), env, counter, code.block, store, at, depth)
    decreases Headroom(depth), Size(Optional(inner)), 0
  {
    var body := OptionalCode(i.doc, inner, known, counter, code);
    var got := ReadAt(i.wire, Bool, i.data, at);
    if got.Parsed? {
      NestedIsCorrect(i, program, inner, known, env, counter, got.value, store, at + got.size, depth, body);
    }
    OptionalAgrees(i, program, inner, env, counter, body.block, code.block, store, at, depth);
  }

  /** After a holder is read and found not negative, the chain on it runs. */
  lemma {:induction false} HolderRuns(m: Machine, holder: nat, rest: Stmt, store: map<nat, Value>, at: nat,
                                      depth: nat)
    requires at <= |m.data|
    ensures var got := ReadAt(m.wire, VarInt, m.data, at);
            Run(m, ReadHolder(holder, rest), store, at, depth)
            == if got.NoParse? || IsNegative(got.value) then Rejected
               else Step(m, rest, store[holder := got.value], at + got.size, depth)
  {
    var got := ReadAt(m.wire, VarInt, m.data, at);
    var check := FailIf(IsNegativeNumber, holder);
    assert ReadHolder(holder, rest) == Then(ReadInto(VarInt, holder), Then(check, Single(rest)));
    if got.Parsed? {
      var store' := store[holder := got.value];
      assert Step(m, ReadInto(VarInt, holder), store, at, depth) == Running(store', at + got.size);
      assert Step(m, check, store', at + got.size, depth)
          == if IsNegative(got.value) then Rejected else Running(store', at + got.size);
      SingleRuns(m, rest, store', at + got.size, depth);
    }
  }

  lemma {:induction false} HolderBlockRuns(m: Machine, holder: nat, body: Block, store: map<nat, Value>, at: nat,
                                           depth: nat)
    requires at <= |m.data|
    ensures var got := ReadAt(m.wire, VarInt, m.data, at);
            Run(m, HolderBlock(holder, body), store, at, depth)
            == if got.NoParse? || IsNegative(got.value) then Rejected else
               var store' := store[holder := got.value];
               if EqualsLiteral(got.value, 0) then Leave(store', Run(m, body, store', at + got.size, depth))
               else Running(store', at + got.size)
  {
    var got := ReadAt(m.wire, VarInt, m.data, at);
    HolderRuns(m, holder, Chain(holder, Branch(IsEqualTo(0), body, NoBranches), None), store, at, depth);
    if got.Parsed? && !IsNegative(got.value) {
      ChainRuns(m, holder, IsEqualTo(0), body, None, store[holder := got.value], at + got.size, depth);
    }
  }

  lemma {:induction false} HolderAgrees(i: Input, program: map<string, Block>, inline: Schema,
                                        env: map<string, Selector>, counter: nat, body: Block, block: Block,
                                        store: map<nat, Value>, at: nat, depth: nat)
    requires at <= |i.data| && block == HolderBlock(counter + 1, body)
    requires var got := ReadAt(i.wire, VarInt, i.data, at);
             got.Parsed? ==> Matches(i, program, inline, env, counter + 1, body, store[counter + 1 := got.value],
                                     at + got.size, depth)
    ensures Matches(i, program, RegistryHolder(inline), env, counter, block, store, at, depth)
  {
    HolderBlockRuns(MachineFor(i, program), counter + 1, body, store, at, depth);
  }

  lemma HolderCode(doc: Doc, inline: Schema, known: map<string, Capture>, counter: nat, code: Code)
    returns (body: Code)
    requires IsCode(doc, RegistryHolder(inline), known, counter, code)
    ensures IsCode(doc, inline, known, counter + 1, body) && code.block == HolderBlock(counter + 1, body.block)
  {
    body := Compile(doc, inline, known, counter + 1);
    assert body.Code?;
  }

  lemma {:induction false} HolderIsCorrect(i: Input, program: map<string, Block>, inline: Schema,
                                           known: map<string, Capture>, env: map<string, Selector>, counter: nat,
                                           store: map<nat, Value>, at: nat, depth: nat, code: Code)
    requires at <= |i.data| && Ready(i, program, RegistryHolder(inline), known, env, counter, store, depth, code)
    ensures Matches(i, program, RegistryHolder(inline), env, counter, code.block, store, at, depth)
    decreases Headroom(depth), Size(RegistryHolder(inline)), 0
  {
    var body := HolderCode(i.doc, inline, known, counter, code);
    var got := ReadAt(i.wire, VarInt, i.data, at);
    if got.Parsed? {
      NestedIsCorrect(i, program, inline, known, env, counter, got.value, store, at + got.size, depth, body);
    }
    HolderAgrees(i, program, inline, env, counter, body.block, code.block, store, at, depth);
  }

  lemma {:induction false} HolderLoopRuns(m: Machine, holder: nat, count: nat, body: Block, store: map<nat, Value>,
                                          at: nat, depth: nat)
    requires at <= |m.data| && holder in store && Truncated(store[holder]) >= 1
    ensures var n := Truncated(store[holder]) - 1;
            Run(m, HolderLoop(holder, count, body), store, at, depth)
            == if n > MAX_ARRAY_COUNT then Rejected
               else var store' := store[count := Whole(U32, n)];
                    Leave(store', Loop(m, body, n, store', at, depth))
  {
    var n := Truncated(store[holder]) - 1;
    var store' := store[count := Whole(U32, n)];
    var check := FailIf(IsAboveLimit, count);
    assert HolderLoop(holder, count, body) == Then(Let(count, holder, 1), Then(check, Single(For(count, body))));
    assert Step(m, Let(count, holder, 1), store, at, depth) == Running(store', at);
    assert Step(m, check, store', at, depth) == if n > MAX_ARRAY_COUNT then Rejected else Running(store', at);
    SingleRuns(m, For(count, body), store', at, depth);
  }

  /** The whole of a holder set's code, on the machine alone. */
  lemma {:induction false} HolderSetRuns(m: Machine, holder: nat, base: Block, count: nat, member: Block,
                                         store: map<nat, Value>, at: nat, depth: nat)
    requires at <= |m.data| && WellTyped(m.wire)
    ensures var got := ReadAt(m.wire, VarInt, m.data, at);
            Run(m, HolderSetBlock(holder, base, count, member), store, at, depth)
            == if got.NoParse? || IsNegative(got.value) then Rejected else
               var store' := store[holder := got.value];
               var n := Truncated(got.value) - 1;
               if EqualsLiteral(got.value, 0) then Leave(store', Run(m, base, store', at + got.size, depth))
               else if !(0 <= n <= MAX_ARRAY_COUNT) then Rejected
               else Leave(store', Loop(m, member, n, store'[count := Whole(U32, n)], at + got.size, depth))
  {
    var got := ReadAt(m.wire, VarInt, m.data, at);
    var members := HolderLoop(holder, count, member);
    HolderRuns(m, holder, Chain(holder, Branch(IsEqualTo(0), base, NoBranches), Some(members)), store, at, depth);
    if got.Parsed? && !IsNegative(got.value) {
      assert HasType(m.wire.read(VarInt, m.data[at..]).value, VarInt);
      var store' := store[holder := got.value];
      ChainRuns(m, holder, IsEqualTo(0), base, Some(members), store', at + got.size, depth);
      if !EqualsLiteral(got.value, 0) { HolderLoopRuns(m, holder, count, member, store', at + got.size, depth); }
    }
  }

  /** Both alternatives of a holder set agree, after the holder was read into its variable. */
  ghost predicate HolderSetPartsAgree(i: Input, program: map<string, Block>, base: Schema, member: Schema,
                                      env: map<string, Selector>, counter: nat, body: Block, count: nat,
                                      element: Block, store: map<nat, Value>, at: nat, depth: nat, got: Value)
    requires at <= |i.data|
  {
    var store' := store[counter + 1 := got];
    && Agrees(Run(MachineFor(i, program), body, store', at, depth), Read(i, base, env, at, depth), store', counter + 1)
    && (Truncated(got) >= 1 ==>
          var n := Truncated(got) - 1;
          LoopAgrees(Loop(MachineFor(i, program), element, n, store'[count := Whole(U32, n)], at, depth),
                     Repeat(i, member, env, n, at, depth)))
  }

  ghost predicate HolderSetPartsAgreeIfRead(i: Input, program: map<string, Block>, base: Schema, member: Schema,
                                            env: map<string, Selector>, counter: nat, body: Block, count: nat,
                                            element: Block, store: map<nat, Value>, at: nat, depth: nat)
    requires at <= |i.data|
  {
    var got := ReadAt(i.wire, VarInt, i.data, at);
    got.Parsed? ==> HolderSetPartsAgree(i, program, base, member, env, counter, body, count, element, store,
                                        at + got.size, depth, got.value)
  }

  lemma {:induction false} HolderSetAgrees(i: Input, program: map<string, Block>, base: Schema, member: Schema,
                                           env: map<string, Selector>, counter: nat, body: Block, count: nat,
                                           element: Block, block: Block, store: map<nat, Value>, at: nat, depth: nat)
    requires at <= |i.data| && WellTyped(i.wire) && block == HolderSetBlock(counter + 1, body, count, element)
    requires HolderSetPartsAgreeIfRead(i, program, base, member, env, counter, body, count, element, store, at, depth)
    ensures Matches(i, program, RegistryHolderSet(base, member), env, counter, block, store, at, depth)
  {
    HolderSetRuns(MachineFor(i, program), counter + 1, body, count, element, store, at, depth);
  }

  lemma {:induction false} HolderSetPartsAreCorrect(i: Input, program: map<string, Block>, base: Schema,
                                                    member: Schema, known: map<string, Capture>,
                                                    env: map<string, Selector>, counter: nat, count: nat,
                                                    store: map<nat, Value>, at: nat, depth: nat, got: Value,
                                                    body: Code, element: Code)
    requires at <= |i.data| && depth <= MAX_DEPTH && Sound(i, program)
    requires Fits(i.doc, program.Keys, base) && Fits(i.doc, program.Keys, member) && counter + 1 < count
    requires IsCode(i.doc, base, known, counter + 1, body) && IsCode(i.doc, member, known, count + 1, element)
    requires Simulates(i.doc, known, env, store, counter)
    ensures HolderSetPartsAgree(i, program, base, member, env, counter, body.block, count, element.block, store, at,
                                depth, got)
    decreases Headroom(depth), Size(base) + Size(member), 0
  {
    NestedIsCorrect(i, program, base, known, env, counter, got, store, at, depth, body);
    if Truncated(got) >= 1 {
      FreshKeepsSimulation(i.doc, known, env, store, counter, counter + 1, got, counter + 1);
      CountedLoopIsCorrect(i, program, member, known, env, counter + 1, count, Truncated(got) - 1,
                           store[counter + 1 := got], at, depth, element);
    }
  }

  lemma HolderSetCodeIs(doc: Doc, base: Schema, member: Schema, known: map<string, Capture>, counter: nat, code: Code,
                        body: Code, element: Code)
    requires IsCode(doc, RegistryHolderSet(base, member), known, counter, code)
    requires body == Compile(doc, base, known, counter + 1)
    requires body.Code? ==> element == Compile(doc, member, known, body.counter + 1 + 1)
    ensures body.Code? && counter + 1 <= body.counter && element.Code?
    ensures code.block == HolderSetBlock(counter + 1, body.block, body.counter + 1, element.block)
  {
    assert code == CompileHolderSet(doc, base, member, known, counter);
  }

  lemma HolderSetCode(doc: Doc, base: Schema, member: Schema, known: map<string, Capture>, counter: nat, code: Code)
    returns (body: Code, element: Code)
    requires IsCode(doc, RegistryHolderSet(base, member), known, counter, code)
    ensures IsCode(doc, base, known, counter + 1, body) && counter + 1 <= body.counter
    ensures IsCode(doc, member, known, body.counter + 1 + 1, element)
    ensures code.block == HolderSetBlock(counter + 1, body.block, body.counter + 1, element.block)
  {
    body := Compile(doc, base, known, counter + 1);
    element := if body.Code? then Compile(doc, member, known, body.counter + 1 + 1) else Refused;
    HolderSetCodeIs(doc, base, member, known, counter, code, body, element);
  }

  lemma {:induction false} HolderSetPartsIfRead(i: Input, program: map<string, Block>, base: Schema, member: Schema,
                                                known: map<string, Capture>, env: map<string, Selector>, counter: nat,
                                                count: nat, store: map<nat, Value>, at: nat, depth: nat, body: Code,
                                                element: Code)
    requires at <= |i.data| && depth <= MAX_DEPTH && Sound(i, program)
    requires Fits(i.doc, program.Keys, base) && Fits(i.doc, program.Keys, member) && counter + 1 < count
    requires IsCode(i.doc, base, known, counter + 1, body) && IsCode(i.doc, member, known, count + 1, element)
    requires Simulates(i.doc, known, env, store, counter)
    ensures HolderSetPartsAgreeIfRead(i, program, base, member, env, counter, body.block, count, element.block, store, at,
                                      depth)
    decreases Headroom(depth), Size(base) + Size(member), 1
  {
    var got := ReadAt(i.wire, VarInt, i.data, at);
    if got.Parsed? {
      HolderSetPartsAreCorrect(i, program, base, member, known, env, counter, count, store, at + got.size, depth,
                               got.value, body, element);
    }
  }

  lemma {:induction false} HolderSetIsCorrect(i: Input, program: map<string, Block>, base: Schema, member: Schema,
                                              known: map<string, Capture>, env: map<string, Selector>, counter: nat,
                                              store: map<nat, Value>, at: nat, depth: nat, code: Code)
    requires at <= |i.data|
    requires Ready(i, program, RegistryHolderSet(base, member), known, env, counter, store, depth, code)
    ensures Matches(i, program, RegistryHolderSet(base, member), env, counter, code.block, store, at, depth)
    decreases Headroom(depth), Size(RegistryHolderSet(base, member)), 0
  {
    var body, element := HolderSetCode(i.doc, base, member, known, counter, code);
    HolderSetPartsIfRead(i, program, base, member, known, env, counter, body.counter + 1, store, at, depth, body,
                         element);
    HolderSetAgrees(i, program, base, member, env, counter, body.block, body.counter + 1, element.block, code.block,
                    store, at, depth);
  }

  ghost predicate IsArmsCode(doc: Doc, arms: seq<Arm>, bound: nat, known: map<string, Capture>, counter: nat,
                             code: BranchCode) {
    && (forall arm <- arms :: Size(arm.body) < bound)
    && code.BranchCode? && code == CompileArms(doc, arms, bound, known, counter)
  }

  /** The code of a switch's sorted arms and of its default. */
  lemma SwitchCode(doc: Doc, s: Schema, known: map<string, Capture>, counter: nat, code: Code)
    returns (arms: seq<Arm>, compiled: BranchCode, default: Code)
    requires s.Switch? && IsCode(doc, s, known, counter, code)
    ensures s.compareTo in known && ArmsOf(doc, known[s.compareTo], s.cases) == Some(arms)
    ensures IsArmsCode(doc, SortArms(arms), Size(s), known, counter, compiled) && counter <= compiled.counter
    ensures s.fallback.Some? ==>
              && IsCode(doc, s.fallback.value, known, compiled.counter, default)
              && code.block == Single(Chain(known[s.compareTo].variable, compiled.branches, Some(default.block)))
    ensures s.fallback.None? ==> code.block == SwitchBlock(known[s.compareTo].variable, compiled.branches)
  {
    arms := ArmsOf(doc, known[s.compareTo], s.cases).value;
    compiled := CompileArms(doc, SortArms(arms), Size(s), known, counter);
    default := if s.fallback.Some? then Compile(doc, s.fallback.value, known, compiled.counter) else Refused;
  }

  /** A switch reads as its arms and its default do. */
  lemma SwitchMatches(i: Input, program: map<string, Block>, s: Schema, env: map<string, Selector>, counter: nat,
                      variable: nat, arms: seq<Arm>, branches: Branches, otherwise: Option<Block>,
                      store: map<nat, Value>, at: nat, depth: nat)
    requires at <= |i.data| && s.Switch? && s.compareTo in env
    requires variable in store && store[variable] == env[s.compareTo].value
    requires FirstEqual(arms, store[variable]) == Pick(i.doc, env[s.compareTo], s.cases)
    requires ArmsMatch(i, program, arms, env, counter, branches, otherwise, store[variable], store, at, depth)
    requires otherwise.Some? == s.fallback.Some?
    requires otherwise.Some? ==> Matches(i, program, s.fallback.value, env, counter, otherwise.value, store, at, depth)
    ensures Matches(i, program, s, env, counter, Single(Chain(variable, branches, otherwise)), store, at, depth)
    ensures otherwise.None? ==> Matches(i, program, s, env, counter, SwitchBlock(variable, branches), store, at, depth)
  {
    var m := MachineFor(i, program);
    SingleRuns(m, Chain(variable, branches, otherwise), store, at, depth);
    assert Run(m, End, store, at, depth) == Running(store, at);
  }

  lemma {:induction false} SwitchIsCorrect(i: Input, program: map<string, Block>, s: Schema,
                                           known: map<string, Capture>, env: map<string, Selector>, counter: nat,
                                           store: map<nat, Value>, at: nat, depth: nat, code: Code)
    requires at <= |i.data| && Ready(i, program, s, known, env, counter, store, depth, code) && s.Switch?
    ensures Matches(i, program, s, env, counter, code.block, store, at, depth)
    decreases Headroom(depth), Size(s), 0
  {
    var arms, compiled, default := SwitchCode(i.doc, s, known, counter, code);
    var c, selector := known[s.compareTo], env[s.compareTo];
    var otherwise := if s.fallback.Some? then Some(default.block) else None;
    assert Captures(i.doc, c, selector, store, counter);
    SortedArmsPick(i.doc, c, selector, s.cases, store, counter);
    ArmsFit(i, program, c, s.cases);
    if s.fallback.Some? {
      SimulationGrows(i.doc, known, env, store, counter, store, compiled.counter);
      CompileIsCorrect(i, program, s.fallback.value, known, env, compiled.counter, store, at, depth, default);
      MatchesLater(i, program, s.fallback.value, env, counter, compiled.counter, default.block, store, at, depth);
    }
    ArmsAreCorrect(i, program, SortArms(arms), Size(s), known, env, counter, otherwise, selector.value, store, at,
                   depth, compiled);
    SwitchMatches(i, program, s, env, counter, c.variable, SortArms(arms), compiled.branches, otherwise, store, at,
                  depth);
  }

  lemma {:induction false} ArmsFit(i: Input, program: map<string, Block>, c: Capture, cases: Cases)
    requires CasesFit(i.doc, program.Keys, cases)
    requires ArmsOf(i.doc, c, cases).Some?
    ensures forall arm <- ArmsOf(i.doc, c, cases).value :: Fits(i.doc, program.Keys, arm.body)
  {
    if cases.Case? { ArmsFit(i, program, c, cases.rest); }
  }

  /** What a chain runs is what reads the first arm that is equal to the value. */
  ghost predicate ArmsMatch(i: Input, program: map<string, Block>, arms: seq<Arm>, env: map<string, Selector>,
                            counter: nat, branches: Branches, otherwise: Option<Block>, v: Value,
                            store: map<nat, Value>, at: nat, depth: nat)
    requires at <= |i.data|
  {
    var chosen := Choose(branches, otherwise, v);
    match FirstEqual(arms, v)
    case None => chosen == otherwise
    case Some(arm) => chosen.Some? && Matches(i, program, arm.body, env, counter, chosen.value, store, at, depth)
  }

  lemma {:induction false} ArmsAreCorrect(i: Input, program: map<string, Block>, arms: seq<Arm>, bound: nat,
                                          known: map<string, Capture>, env: map<string, Selector>, counter: nat,
                                          otherwise: Option<Block>, v: Value, store: map<nat, Value>, at: nat,
                                          depth: nat, code: BranchCode)
    requires at <= |i.data| && depth <= MAX_DEPTH && Sound(i, program)
    requires forall arm <- arms :: Fits(i.doc, program.Keys, arm.body)
    requires IsArmsCode(i.doc, arms, bound, known, counter, code) && Simulates(i.doc, known, env, store, counter)
    ensures ArmsMatch(i, program, arms, env, counter, code.branches, otherwise, v, store, at, depth)
    decreases Headroom(depth), bound - 1, 2, |arms|
  {
    if arms != [] {
      var body, rest := FirstArmCode(i.doc, arms, bound, known, counter, code);
      if EqualsLiteral(v, arms[0].id) {
        CompileIsCorrect(i, program, arms[0].body, known, env, counter, store, at, depth, body);
      } else {
        SimulationGrows(i.doc, known, env, store, counter, store, body.counter);
        ArmsAreCorrect(i, program, arms[1..], bound, known, env, body.counter, otherwise, v, store, at, depth, rest);
        LaterArmsMatch(i, program, arms, env, counter, body.counter, body.block, rest.branches, otherwise, v, store, at,
                       depth);
      }
    }
  }

  lemma LaterArmsMatch(i: Input, program: map<string, Block>, arms: seq<Arm>, env: map<string, Selector>, counter: nat,
                       later: nat, body: Block, branches: Branches, otherwise: Option<Block>, v: Value,
                       store: map<nat, Value>, at: nat, depth: nat)
    requires at <= |i.data| && arms != [] && !EqualsLiteral(v, arms[0].id) && counter <= later
    requires ArmsMatch(i, program, arms[1..], env, later, branches, otherwise, v, store, at, depth)
    ensures ArmsMatch(i, program, arms, env, counter, Branch(IsEqualTo(arms[0].id), body, branches), otherwise, v, store,
                      at, depth)
  {
    if FirstEqual(arms[1..], v).Some? {
      MatchesLater(i, program, FirstEqual(arms[1..], v).value.body, env, counter, later,
                   Choose(branches, otherwise, v).value, store, at, depth);
    }
  }

  lemma FirstArmCode(doc: Doc, arms: seq<Arm>, bound: nat, known: map<string, Capture>, counter: nat,
                     code: BranchCode) returns (body: Code, rest: BranchCode)
    requires arms != [] && IsArmsCode(doc, arms, bound, known, counter, code)
    ensures IsCode(doc, arms[0].body, known, counter, body) && counter <= body.counter
    ensures IsArmsCode(doc, arms[1..], bound, known, body.counter, rest)
    ensures code.branches == Branch(IsEqualTo(arms[0].id), body.block, rest.branches)
  {
    body := Compile(doc, arms[0].body, known, counter);
    rest := CompileArms(doc, arms[1..], bound, known, body.counter);
  }

  /** What keeps more variables keeps fewer. */
  lemma MatchesLater(i: Input, program: map<string, Block>, s: Schema, env: map<string, Selector>, counter: nat,
                     later: nat, block: Block, store: map<nat, Value>, at: nat, depth: nat)
    requires at <= |i.data| && counter <= later && Matches(i, program, s, env, later, block, store, at, depth)
    ensures Matches(i, program, s, env, counter, block, store, at, depth)
  {
  }

  lemma {:induction false} PrimitiveIsCorrect(i: Input, program: map<string, Block>, p: Prim, v: nat,
                                              store: map<nat, Value>, at: nat, depth: nat)
    requires at <= |i.data| && v > 0
    ensures Agrees(Run(MachineFor(i, program), CompilePrimitive(p, v), store, at, depth), ReadPrimitive(i, p, at),
                   store, v - 1)
  {
    var m := MachineFor(i, program);
    if p == Uuid || p == Nbt {
      var r := Step(m, Skip(p), store, at, depth);
      assert r.Running? ==> Run(m, End, r.store, r.at, depth) == r;
    } else if p != Void {
      ScalarReadIsCorrect(i, program, p, v, store, at, depth);
    }
  }

  lemma {:induction false} AliasIsCorrect(i: Input, program: map<string, Block>, name: string,
                                          known: map<string, Capture>, env: map<string, Selector>, counter: nat,
                                          store: map<nat, Value>, at: nat, depth: nat, code: Code)
    requires at <= |i.data| && Ready(i, program, Alias(name), known, env, counter, store, depth, code)
    ensures Matches(i, program, Alias(name), env, counter, code.block, store, at, depth)
    decreases Headroom(depth), Size(Alias(name)), 0
  {
    var m := MachineFor(i, program);
    var call := if name == SLOT then CallSlot else Call(name);
    var r := Step(m, call, store, at, depth);
    assert r.Running? ==> Run(m, End, r.store, r.at, depth) == r;
    if name != SLOT {
      assert name in program;
      if depth < MAX_DEPTH { ValidatorIsCorrect(i, program, name, at, depth + 1); }
    }
  }

  /** The main theorem: whatever the bytes, the offset and the depth, a generated function accepts exactly when the
    * reading of its alias does, and stops at the same offset; and it is never stuck, so that every variable is set
    * before it is used, every function called is defined, and no loop exceeds the array limit. */
  lemma {:induction false} ValidatorIsCorrect(i: Input, program: map<string, Block>, name: string, at: nat,
                                              depth: nat)
    requires at <= |i.data| && Sound(i, program) && name in program
    ensures var r := Validate(MachineFor(i, program), name, at, depth);
            match ReadAlias(i, name, at, depth)
            case Reject => r.Rejected?
            case Accept(end) => r.Running? && r.at == end
    decreases Headroom(depth) + 1, 0, 0
  {
    assert HoldsBodyOf(i.doc, program, name) && FitsProgram(i.doc, program, name);
    if depth <= MAX_DEPTH {
      CompileIsCorrect(i, program, i.doc.types[name], map[], map[], 0, map[], at, depth,
                       Compile(i.doc, i.doc.types[name], map[], 0));
    }
  }
}
