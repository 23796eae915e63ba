/** How C reads the text of a validator. The compiler prints a switch that has a default but no cases as an `else`
  * alone, which C attaches to whatever `if` stands before it. */
module ComponentText {
  import opened Wrappers
  import opened ComponentSchema
  import opened ComponentCode
  import opened ComponentCompiler
  import Wire

  /** What stands before a statement, as far as an `else` can see: no `if` it could belong to, an `if` that returns,
    * or an `if` without an `else` that goes on. */
  datatype Before = Nothing | Returning | Open

  predicate IsBareElse(s: Stmt) {
    s.Chain? && s.branches.NoBranches? && s.otherwise.Some?
  }

  function Behind(s: Stmt): Before {
    match s
    case Chain(_, branches, otherwise) => if branches.Branch? && otherwise.None? then Open else Nothing
    case Let(_, _, _) | For(_, _) => Nothing
    case _ => Returning
  }

  /** Whether a bare `else` with this body means the same wherever it is attached: behind an `if` that returns it
    * always runs, and an empty one does nothing. */
  predicate Attaches(before: Before, body: Block) {
    before.Returning? || (before.Open? && body.End?)
  }

  /** The statements that C makes of a printed block; None when the text is no C. */
  function CReads(b: Block, before: Before): Option<Block> {
    match b
    case End => Some(End)
    case Then(first, rest) =>
      if IsBareElse(first) && !Attaches(before, first.otherwise.value) then None
      else if first.Chain? && Behind(first).Open? && rest.Then? && IsBareElse(rest.first)
              && !rest.first.otherwise.value.End? then
        var branches := CReadsBranches(first.branches);
        var body, tail := CReads(rest.first.otherwise.value, Nothing), CReads(rest.rest, Nothing);
        if branches.None? || body.None? || tail.None? then None
        else Some(Then(Chain(first.variable, branches.value, Some(body.value)), tail.value))
      else
        var head, tail := CReadsStmt(first), CReads(rest, Behind(first));
        if head.None? || tail.None? then None else Some(Then(head.value, tail.value))
  }

  function CReadsStmt(s: Stmt): Option<Stmt> {
    match s
    case Chain(v, branches, otherwise) =>
      var read, body := CReadsBranches(branches), if otherwise.Some? then CReads(otherwise.value, Nothing) else None;
      if read.None? || (otherwise.Some? && body.None?) then None else Some(Chain(v, read.value, body))
    case For(v, body) =>
      var read := CReads(body, Nothing);
      if read.None? then None else Some(For(v, read.value))
    case _ => Some(s)
  }

  function CReadsBranches(b: Branches): Option<Branches> {
    match b
    case NoBranches => Some(NoBranches)
    case Branch(cond, body, rest) =>
      var read, more := CReads(body, Nothing), CReadsBranches(rest);
      if read.None? || more.None? then None else Some(Branch(cond, read.value, more.value))
  }

  /** A function's body stands behind its depth check, which returns. */
  predicate IsReadAsMeant(body: Block) {
    CReads(body, Returning) == Some(body)
  }

  // Which blocks C reads as they are meant.

  ghost predicate Sits(b: Block, before: Before) {
    match b
    case End => true
    case Then(first, rest) => SitsStmt(first, before) && Sits(rest, Behind(first))
  }

  ghost predicate SitsStmt(s: Stmt, before: Before) {
    match s
    case Chain(_, branches, otherwise) =>
      && (IsBareElse(s) ==> Attaches(before, otherwise.value))
      && (otherwise.Some? ==> Sits(otherwise.value, Nothing))
      && SitsBranches(branches)
    case For(_, body) => Sits(body, Nothing)
    case _ => true
  }

  ghost predicate SitsBranches(b: Branches) {
    b.Branch? ==> Sits(b.body, Nothing) && SitsBranches(b.rest)
  }

  lemma {:induction false} ReadAsMeantWhenSits(b: Block, before: Before)
    ensures CReads(b, before) == Some(b) <==> Sits(b, before)
    decreases b
  {
    if b.Then? {
      StmtReadAsMeant(b.first, before);
      ReadAsMeantWhenSits(b.rest, Behind(b.first));
    }
  }

  lemma {:induction false} StmtReadAsMeant(s: Stmt, before: Before)
    ensures CReadsStmt(s) == Some(s) && (IsBareElse(s) ==> Attaches(before, s.otherwise.value))
       <==> SitsStmt(s, before)
    decreases s
  {
    match s
    case Chain(_, branches, otherwise) =>
      BranchesReadAsMeant(branches);
      if otherwise.Some? { ReadAsMeantWhenSits(otherwise.value, Nothing); }
    case For(_, body) => ReadAsMeantWhenSits(body, Nothing);
    case _ =>
  }

  lemma {:induction false} BranchesReadAsMeant(b: Branches)
    ensures CReadsBranches(b) == Some(b) <==> SitsBranches(b)
    decreases b
  {
    if b.Branch? {
      ReadAsMeantWhenSits(b.body, Nothing);
      BranchesReadAsMeant(b.rest);
    }
  }

  function BehindAll(b: Block, before: Before): Before {
    match b
    case End => before
    case Then(first, rest) => BehindAll(rest, Behind(first))
  }

  lemma {:induction false} SitsAppend(a: Block, b: Block, before: Before)
    ensures Sits(Append(a, b), before) <==> Sits(a, before) && Sits(b, BehindAll(a, before))
    ensures BehindAll(Append(a, b), before) == BehindAll(b, BehindAll(a, before))
  {
    if a.Then? { SitsAppend(a.rest, b, Behind(a.first)); }
  }

  lemma SitsSingle(s: Stmt, before: Before)
    ensures Sits(Single(s), before) <==> SitsStmt(s, before)
    ensures BehindAll(Single(s), before) == Behind(s)
  {
    assert Sits(End, Behind(s)) && BehindAll(End, Behind(s)) == Behind(s);
  }

  lemma SitsThen(s: Stmt, rest: Block, before: Before)
    ensures Sits(Then(s, rest), before) <==> SitsStmt(s, before) && Sits(rest, Behind(s))
    ensures BehindAll(Then(s, rest), before) == BehindAll(rest, Behind(s))
  {
  }

  // The same of schemas.

  /** Whether nothing is printed for a schema. */
  predicate IsSilent(s: Schema) {
    match s
    case Primitive(p) => p.Void?
    case Bitflags(base) => IsSilent(base)
    case Container(fields) => AreSilent(fields)
    case Switch(_, cases, fallback) => cases.NoCases? && fallback.None?
    case _ => false
  }

  predicate AreSilent(fields: Fields) {
    fields.Field? ==> IsSilent(fields.schema) && AreSilent(fields.rest)
  }

  /** What stands behind the text of a schema. */
  function After(s: Schema, before: Before): Before {
    match s
    case Primitive(p) => if p.Void? then before else Returning
    case Bitflags(base) => After(base, before)
    case Container(fields) => AfterFields(fields, before)
    case Array(_, _, _) => Nothing
    case Optional(_) | RegistryHolder(_) => Open
    case Switch(_, cases, fallback) =>
      if fallback.Some? then Nothing else if cases.NoCases? then before else Open
    case RegistryHolderSet(_, _) => Nothing
    case _ => Returning
  }

  function AfterFields(fields: Fields, before: Before): Before {
    if fields.NoFields? then before else AfterFields(fields.rest, After(fields.schema, before))
  }

  /** Every switch inlined in `s` with a default but no cases stands right behind something that returns on failure,
    * or reads nothing by default and stands behind some `if`. */
  predicate DefaultsSit(s: Schema, before: Before) {
    match s
    case Bitflags(base) => DefaultsSit(base, before)
    case Container(fields) => FieldDefaultsSit(fields, before)
    case Array(_, _, element) => DefaultsSit(element, Nothing)
    case Optional(inner) => DefaultsSit(inner, Nothing)
    case Switch(_, cases, fallback) =>
      && (fallback.Some? && cases.NoCases? ==> before.Returning? || (before.Open? && IsSilent(fallback.value)))
      && (fallback.Some? ==> DefaultsSit(fallback.value, Nothing))
      && CaseDefaultsSit(cases)
    case RegistryHolder(inline) => DefaultsSit(inline, Nothing)
    case RegistryHolderSet(base, member) => DefaultsSit(base, Nothing) && DefaultsSit(member, Nothing)
    case _ => true
  }

  predicate FieldDefaultsSit(fields: Fields, before: Before) {
    fields.Field? ==> DefaultsSit(fields.schema, before) && FieldDefaultsSit(fields.rest, After(fields.schema, before))
  }

  predicate CaseDefaultsSit(cases: Cases) {
    cases.Case? ==> DefaultsSit(cases.body, Nothing) && CaseDefaultsSit(cases.rest)
  }

  /** What a schema prints, against what it says of itself. */
  ghost predicate TextIs(code: Block, before: Before, sits: bool, after: Before, silent: bool) {
    && (Sits(code, before) <==> sits)
    && BehindAll(code, before) == after
    && (code.End? <==> silent)
  }

  lemma ReadText(p: Wire.Prim, v: nat, before: Before)
    ensures TextIs(ReadScalar(p, v), before, true, Returning, false)
  {
    SitsSingle(FailIf(IsNonFinite, v), Returning);
    SitsThen(ReadInto(p, v), if Wire.IsFloat(p) then Single(FailIf(IsNonFinite, v)) else End, before);
    assert Sits(End, Returning) && BehindAll(End, Returning).Returning?;
  }

  lemma PrimitiveText(p: Wire.Prim, v: nat, before: Before)
    ensures TextIs(CompilePrimitive(p, v), before, true, After(Primitive(p), before), IsSilent(Primitive(p)))
  {
    ReadText(p, v, before);
    SitsSingle(Skip(p), before);
    assert Sits(End, before) && BehindAll(End, before) == before;
  }

  lemma OptionalText(present: nat, body: Block, before: Before)
    ensures TextIs(OptionalBlock(present, body), before, Sits(body, Nothing), Open, false)
  {
    var chain := Chain(present, Branch(IsTrue, body, NoBranches), None);
    SitsSingle(chain, Returning);
    SitsThen(ReadInto(Wire.Bool, present), Single(chain), before);
    assert SitsBranches(NoBranches);
  }

  lemma ReadHolderText(holder: nat, rest: Stmt, before: Before)
    ensures TextIs(ReadHolder(holder, rest), before, SitsStmt(rest, Returning), Behind(rest), false)
  {
    SitsSingle(rest, Returning);
    SitsThen(FailIf(IsNegativeNumber, holder), Single(rest), Returning);
    SitsThen(ReadInto(Wire.VarInt, holder), Then(FailIf(IsNegativeNumber, holder), Single(rest)), before);
  }

  lemma HolderText(holder: nat, body: Block, before: Before)
    ensures TextIs(HolderBlock(holder, body), before, Sits(body, Nothing), Open, false)
  {
    var chain := Chain(holder, Branch(IsEqualTo(0), body, NoBranches), None);
    assert SitsBranches(NoBranches);
    assert SitsStmt(chain, Returning) <==> Sits(body, Nothing);
    ReadHolderText(holder, chain, before);
  }

  lemma HolderSetText(holder: nat, base: Block, count: nat, member: Block, before: Before)
    ensures TextIs(HolderSetBlock(holder, base, count, member), before, Sits(base, Nothing) && Sits(member, Nothing),
                   Nothing, false)
  {
    var members := HolderLoop(holder, count, member);
    SitsSingle(For(count, member), Returning);
    SitsThen(FailIf(IsAboveLimit, count), Single(For(count, member)), Nothing);
    SitsThen(Let(count, holder, 1), Then(FailIf(IsAboveLimit, count), Single(For(count, member))), Nothing);
    var chain := Chain(holder, Branch(IsEqualTo(0), base, NoBranches), Some(members));
    assert SitsBranches(NoBranches);
    assert SitsStmt(chain, Returning) <==> Sits(base, Nothing) && Sits(members, Nothing);
    ReadHolderText(holder, chain, before);
  }

  lemma LoopText(source: nat, count: nat, body: Block, before: Before)
    ensures TextIs(ArrayLoop(source, count, body), before, Sits(body, Nothing), Nothing, false)
  {
    SitsSingle(For(count, body), Nothing);
    SitsThen(Let(count, source, 0), Single(For(count, body)), Returning);
    SitsThen(FailIf(IsOutOfRange, source), Then(Let(count, source, 0), Single(For(count, body))), before);
  }

  lemma AppendText(a: Block, b: Block, before: Before, sitsA: bool, middle: Before, silentA: bool, sitsB: bool,
                   after: Before, silentB: bool)
    requires TextIs(a, before, sitsA, middle, silentA) && TextIs(b, middle, sitsB, after, silentB)
    ensures TextIs(Append(a, b), before, sitsA && sitsB, after, silentA && silentB)
  {
    SitsAppend(a, b, before);
  }

  /** A field read for its value is a scalar, which holds no switch. */
  lemma {:induction false} SelectorText(doc: Doc, s: Schema, counter: nat, inlined: set<string>, before: Before)
    requires CompileSelector(doc, s, counter, inlined).SelectorCode?
    ensures TextIs(CompileSelector(doc, s, counter, inlined).block, before, true, Returning, false)
    ensures DefaultsSit(s, before) && After(s, before) == Returning && !IsSilent(s)
    decreases doc.types.Keys - inlined, Size(s)
  {
    match s
    case Primitive(p) => ReadText(p, counter + 1, before);
    case Alias(name) => SelectorText(doc, doc.types[name], counter, inlined + {name}, before);
    case Mapper(base, table) =>
      var ids := Invert(doc, table).value.Values;
      var parsed := CompileSelector(doc, base, counter, inlined);
      var check := if ids == {} then End else Single(FailIf(IsNoneOf(ids), parsed.capture.variable));
      SelectorText(doc, base, counter, inlined, before);
      SitsSingle(FailIf(IsNoneOf(ids), parsed.capture.variable), Returning);
      assert Sits(End, Returning) && BehindAll(End, Returning).Returning?;
      AppendText(parsed.block, check, before, true, Returning, false, true, Returning, ids == {});
    case Bitflags(base) => SelectorText(doc, base, counter, inlined, before);
  }

  /** C reads the text of a schema as it is meant if and only if its bare defaults sit where an `else` may stand. */
  lemma {:induction false} SchemaText(doc: Doc, s: Schema, env: map<string, Capture>, counter: nat, before: Before)
    requires Compile(doc, s, env, counter).Code?
    ensures TextIs(Compile(doc, s, env, counter).block, before, DefaultsSit(s, before), After(s, before), IsSilent(s))
    decreases Size(s), 1, 0
  {
    match s
    case Primitive(p) => PrimitiveText(p, counter + 1, before);
    case Alias(name) => SitsSingle(if name == SLOT then CallSlot else Call(name), before);
    case Mapper(_, _) => SelectorText(doc, s, counter, {}, before);
    case Bitflags(base) => SchemaText(doc, base, env, counter, before);
    case Container(fields) => FieldsText(doc, fields, References(s), env, counter, before);
    case Array(_, _, _) => ArrayText(doc, s, env, counter, before);
    case Optional(inner) =>
      SchemaText(doc, inner, env, counter + 1, Nothing);
      OptionalText(counter + 1, Compile(doc, inner, env, counter + 1).block, before);
    case Switch(_, _, _) => SwitchText(doc, s, env, counter, before);
    case RegistryHolder(inline) =>
      SchemaText(doc, inline, env, counter + 1, Nothing);
      HolderText(counter + 1, Compile(doc, inline, env, counter + 1).block, before);
    case RegistryHolderSet(base, member) =>
      var body := Compile(doc, base, env, counter + 1);
      SchemaText(doc, base, env, counter + 1, Nothing);
      SchemaText(doc, member, env, body.counter + 2, Nothing);
      HolderSetText(counter + 1, body.block, body.counter + 1, Compile(doc, member, env, body.counter + 2).block,
                    before);
  }

  lemma {:induction false} ArrayText(doc: Doc, s: Schema, env: map<string, Capture>, counter: nat, before: Before)
    requires s.Array? && Compile(doc, s, env, counter).Code?
    ensures TextIs(Compile(doc, s, env, counter).block, before, DefaultsSit(s, before), Nothing, false)
    decreases Size(s), 0, 0
  {
    var n := CompileCount(doc, s.count, s.countType, env, counter);
    var body := Compile(doc, s.element, env, n.counter + 2);
    var loop := ArrayLoop(n.capture.variable, n.counter + 1, body.block);
    SchemaText(doc, s.element, env, n.counter + 2, Nothing);
    if s.countType.Some? {
      SelectorText(doc, s.countType.value, counter, {}, before);
      LoopText(n.capture.variable, n.counter + 1, body.block, Returning);
      AppendText(n.block, loop, before, true, Returning, false, Sits(body.block, Nothing), Nothing, false);
    } else {
      LoopText(n.capture.variable, n.counter + 1, body.block, before);
    }
  }

  lemma {:induction false} SwitchText(doc: Doc, s: Schema, env: map<string, Capture>, counter: nat, before: Before)
    requires s.Switch? && Compile(doc, s, env, counter).Code?
    ensures TextIs(Compile(doc, s, env, counter).block, before, DefaultsSit(s, before), After(s, before), IsSilent(s))
    decreases Size(s), 0, 0
  {
    var selector := env[s.compareTo];
    var arms := ArmsOf(doc, selector, s.cases).value;
    var branches := CompileArms(doc, SortArms(arms), Size(s), env, counter);
    ArmsText(doc, SortArms(arms), Size(s), env, counter);
    SortKeepsArms(arms);
    CasesAreArms(doc, selector, s.cases);
    var otherwise := None;
    if s.fallback.Some? {
      otherwise := Some(Compile(doc, s.fallback.value, env, branches.counter).block);
      SchemaText(doc, s.fallback.value, env, branches.counter, Nothing);
    }
    SitsSingle(Chain(selector.variable, branches.branches, otherwise), before);
    assert Sits(End, before) && BehindAll(End, before) == before;
  }

  lemma {:induction false} FieldsText(doc: Doc, fields: Fields, wanted: set<string>, env: map<string, Capture>,
                                      counter: nat, before: Before)
    requires CompileFields(doc, fields, wanted, env, counter).Code?
    ensures TextIs(CompileFields(doc, fields, wanted, env, counter).block, before, FieldDefaultsSit(fields, before),
                   AfterFields(fields, before), AreSilent(fields))
    decreases FieldsSize(fields), 1, 0
  {
    if fields.NoFields? {
      assert Sits(End, before) && BehindAll(End, before) == before;
    } else if fields.name.Some? && fields.name.value in wanted {
      var parsed := CompileSelector(doc, fields.schema, counter, {});
      var env' := env[fields.name.value := parsed.capture];
      SelectorText(doc, fields.schema, counter, {}, before);
      FieldsText(doc, fields.rest, wanted, env', parsed.counter, Returning);
      AppendText(parsed.block, CompileFields(doc, fields.rest, wanted, env', parsed.counter).block, before,
                 true, Returning, false,
                 FieldDefaultsSit(fields.rest, Returning), AfterFields(fields.rest, Returning), AreSilent(fields.rest));
    } else {
      var head, middle := Compile(doc, fields.schema, env, counter), After(fields.schema, before);
      SchemaText(doc, fields.schema, env, counter, before);
      FieldsText(doc, fields.rest, wanted, env, head.counter, middle);
      AppendText(head.block, CompileFields(doc, fields.rest, wanted, env, head.counter).block, before,
                 DefaultsSit(fields.schema, before), middle, IsSilent(fields.schema),
                 FieldDefaultsSit(fields.rest, middle), AfterFields(fields.rest, middle), AreSilent(fields.rest));
    }
  }

  lemma {:induction false} ArmsText(doc: Doc, arms: seq<Arm>, bound: nat, env: map<string, Capture>, counter: nat)
    requires forall arm <- arms :: Size(arm.body) < bound
    requires CompileArms(doc, arms, bound, env, counter).BranchCode?
    ensures var b := CompileArms(doc, arms, bound, env, counter).branches;
            b.Branch? == (arms != []) && (SitsBranches(b) <==> forall arm <- arms :: DefaultsSit(arm.body, Nothing))
    decreases bound - 1, 2, |arms|
  {
    if arms != [] {
      var body := Compile(doc, arms[0].body, env, counter);
      SchemaText(doc, arms[0].body, env, counter, Nothing);
      ArmsText(doc, arms[1..], bound, env, body.counter);
      assert forall arm <- arms :: arm == arms[0] || arm in arms[1..];
    }
  }

  lemma {:induction false} SortKeepsArms(arms: seq<Arm>)
    ensures forall arm :: arm in SortArms(arms) <==> arm in arms
  {
    if arms != [] {
      SortKeepsArms(arms[1..]);
      InsertKeepsArms(arms[0], SortArms(arms[1..]));
      assert arms == [arms[0]] + arms[1..];
    }
  }

  lemma {:induction false} InsertKeepsArms(arm: Arm, sorted: seq<Arm>)
    ensures forall a :: a in InsertArm(arm, sorted) <==> a == arm || a in sorted
  {
    if sorted != [] && arm.id > sorted[0].id {
      InsertKeepsArms(arm, sorted[1..]);
      assert sorted == [sorted[0]] + sorted[1..];
    }
  }

  lemma {:induction false} CasesAreArms(doc: Doc, c: Capture, cases: Cases)
    requires ArmsOf(doc, c, cases).Some?
    ensures var arms := ArmsOf(doc, c, cases).value;
            cases.Case? == (arms != [])
            && (CaseDefaultsSit(cases) <==> forall arm <- arms :: DefaultsSit(arm.body, Nothing))
  {
    if cases.Case? {
      CasesAreArms(doc, c, cases.rest);
      var arms, rest := ArmsOf(doc, c, cases).value, ArmsOf(doc, c, cases.rest).value;
      assert arms[0].body == cases.body && arms[1..] == rest;
      assert forall arm <- arms :: arm == arms[0] || arm in rest;
    }
  }

  /** C reads the body of a generated function as the compiler means it if and only if the defaults of its schema sit
    * where an `else` may stand. */
  lemma ReadAsMeantExactly(doc: Doc, s: Schema)
    requires Compile(doc, s, map[], 0).Code?
    ensures IsReadAsMeant(Compile(doc, s, map[], 0).block) <==> DefaultsSit(s, Returning)
  {
    SchemaText(doc, s, map[], 0, Returning);
    ReadAsMeantWhenSits(Compile(doc, s, map[], 0).block, Returning);
  }
}
