/** A whole document's validators: what is found, compiled, read by C and run, against what the document means. */
module ComponentValidators {
  import opened Bytes
  import opened Wrappers
  import opened Wire
  import opened ComponentSchema
  import opened ComponentCode
  import opened ComponentCompiler
  import opened ComponentCorrect
  import opened ComponentText
  import opened AliasClosure
  import Runtime

  /** `running` is what C makes of the text of `program`. */
  ghost predicate IsReadByC(program: map<string, Block>, running: map<string, Block>) {
    && running.Keys == program.Keys
    && forall name <- program :: CReads(program[name], Returning) == Some(running[name])
  }

  /** In the definitions that `root` needs, bare defaults sit where an `else` may stand. */
  ghost predicate DefaultsSitBelow(doc: Doc, root: string) {
    forall a <- doc.types :: a != SLOT && Reachable(doc, root, a) ==> DefaultsSit(doc.types[a], Returning)
  }

  /** C reads every validator of a document as it is meant if and only if the document's defaults sit well. */
  lemma DocumentIsReadAsMeantExactly(doc: Doc, root: string, program: map<string, Block>)
    requires IsCompiled(doc, root, program)
    ensures IsReadByC(program, program) <==> DefaultsSitBelow(doc, root)
  {
    CompiledNames(doc, root, program);
    forall name <- program ensures IsReadAsMeant(program[name]) <==> DefaultsSit(doc.types[name], Returning) {
      ReadAsMeantExactly(doc, doc.types[name]);
    }
    if IsReadByC(program, program) {
      forall a <- doc.types | a != SLOT && Reachable(doc, root, a) ensures DefaultsSit(doc.types[a], Returning) {
        assert a in program && CReads(program[a], Returning) == Some(program[a]);
      }
    }
  }

  lemma OneReading(program: map<string, Block>, running: map<string, Block>)
    requires IsReadByC(program, program) && IsReadByC(program, running)
    ensures running == program
  {
    forall name <- program ensures running[name] == program[name] {
      assert CReads(program[name], Returning) == Some(program[name]);
    }
  }

  /** A validator accepts what an alias means, and stops where it does. */
  ghost predicate Validates(i: Input, running: map<string, Block>, name: string, at: nat, depth: nat)
    requires at <= |i.data|
  {
    var r := Validate(Machine(running, i.wire, i.data), name, at, depth);
    match ReadAlias(i, name, at, depth)
    case Reject => r.Rejected?
    case Accept(end) => r.Running? && r.at == end
  }

  /** Every validator that is generated for a document reads exactly what the document says, on any readers whose
    * values have their C types. It is asked of the document that its mappers list something and have no name for
    * two ids, and that its bare defaults sit where an `else` may stand. */
  lemma DocumentIsCorrect(i: Input, root: string, program: map<string, Block>, running: map<string, Block>,
                          name: string, at: nat, depth: nat)
    requires WellTyped(i.wire) && IsCompiled(i.doc, root, program) && IsReadByC(program, running)
    requires WellNamedBelow(i.doc, root) && DefaultsSitBelow(i.doc, root)
    requires Reachable(i.doc, root, name) && name != SLOT && at <= |i.data|
    ensures name in running && Validates(i, running, name, at, depth)
  {
    CompiledNames(i.doc, root, program);
    LinkedFits(i.doc, root, program);
    DocumentIsReadAsMeantExactly(i.doc, root, program);
    OneReading(program, running);
    ValidatorIsCorrect(i, program, name, at, depth);
  }

  /** The same on the runtime's own readers, in either mode and with any nested item parser. */
  lemma RuntimeDocumentIsCorrect(i: Input, mode: Runtime.Mode, known: bool, slot: (seq<byte>, nat) -> Parsed,
                                 root: string, program: map<string, Block>, running: map<string, Block>,
                                 name: string, at: nat, depth: nat)
    requires i.wire == Runtime.WireOf(mode, known, slot)
    requires IsCompiled(i.doc, root, program) && IsReadByC(program, running)
    requires WellNamedBelow(i.doc, root) && DefaultsSitBelow(i.doc, root)
    requires Reachable(i.doc, root, name) && name != SLOT && at <= |i.data|
    ensures name in running && Validates(i, running, name, at, depth)
  {
    Runtime.RuntimeIsTyped(mode, known, slot);
    DocumentIsCorrect(i, root, program, running, name, at, depth);
  }

  // A default that C attaches to the wrong `if`.

  /** A number `k`, an optional number `o`, and a number that is the default of a switch on `k` without cases. */
  function Misread(): (s: Schema) {
    var number := Primitive(VarInt);
    Container(Field(Some("k"), number, Field(Some("o"), Optional(number),
              Field(Some("s"), Switch("k", NoCases, Some(number)), NoFields))))
  }

  /** What is printed for it. */
  function Printed(): Block {
    Then(ReadInto(VarInt, 1), Then(ReadInto(Bool, 2),
    Then(Chain(2, Branch(IsTrue, Single(ReadInto(VarInt, 3)), NoBranches), None),
    Single(Chain(1, NoBranches, Some(Single(ReadInto(VarInt, 4))))))))
  }

  /** What C makes of that. */
  function Attached(): Block {
    Then(ReadInto(VarInt, 1), Then(ReadInto(Bool, 2),
    Single(Chain(2, Branch(IsTrue, Single(ReadInto(VarInt, 3)), NoBranches), Some(Single(ReadInto(VarInt, 4)))))))
  }

  lemma MisreadIsPrinted(doc: Doc)
    ensures Compile(doc, Misread(), map[], 0).Code? && Compile(doc, Misread(), map[], 0).block == Printed()
  {
    var number := Primitive(VarInt);
    var last := Field(Some("s"), Switch("k", NoCases, Some(number)), NoFields);
    var middle := Field(Some("o"), Optional(number), last);
    var all := Field(Some("k"), number, middle);
    var wanted := References(Misread());
    var env := map["k" := Capture(1, Integer, None)];
    assert FieldReferences(last) == {"k"};
    assert FieldReferences(middle) == {"k"};
    assert FieldReferences(all) == {"k"};
    assert "o" !in wanted && "s" !in wanted;
    assert SortArms([]) == [];
    var default := Single(Chain(1, NoBranches, Some(Single(ReadInto(VarInt, 4)))));
    assert Compile(doc, Switch("k", NoCases, Some(number)), env, 3) == Code(default, 4);
    assert CompileFields(doc, last, wanted, env, 3) == Code(Append(default, End), 4);
    var option := OptionalBlock(2, Single(ReadInto(VarInt, 3)));
    assert Compile(doc, Optional(number), env, 1) == Code(option, 3);
    assert CompileFields(doc, middle, wanted, env, 1) == Code(Append(option, default), 4);
    assert CompileFields(doc, all, wanted, map[], 0)
        == Code(Append(Single(ReadInto(VarInt, 1)), Append(option, default)), 4);
  }

  lemma PrintedIsAttached()
    ensures CReads(Printed(), Returning) == Some(Attached())
  {
    var read := Single(ReadInto(VarInt, 3));
    assert CReads(read, Nothing) == Some(read);
    assert CReads(Single(ReadInto(VarInt, 4)), Nothing) == Some(Single(ReadInto(VarInt, 4)));
    assert CReadsBranches(Branch(IsTrue, read, NoBranches)) == Some(Branch(IsTrue, read, NoBranches));
  }

  lemma MisreadFits(doc: Doc)
    ensures Fits(doc, {}, Misread()) && !DefaultsSit(Misread(), Returning)
  {
    var number := Primitive(VarInt);
    var last := Field(Some("s"), Switch("k", NoCases, Some(number)), NoFields);
    assert FieldsFit(doc, {}, NoFields) && CasesFit(doc, {}, NoCases) && Fits(doc, {}, number);
    assert Fits(doc, {}, Optional(number)) && Fits(doc, {}, Switch("k", NoCases, Some(number)));
    assert FieldsFit(doc, {}, last);
    assert FieldsFit(doc, {}, Field(Some("o"), Optional(number), last));
    assert !FieldDefaultsSit(last, Open);
    assert After(Optional(number), Returning) == Open && After(number, Returning) == Returning;
    assert !FieldDefaultsSit(Field(Some("o"), Optional(number), last), Returning);
  }

  /** Four numbers, of which the schema reads all: `k`, the mark that `o` is there, `o`, and the default. */
  function Sample(): seq<byte> {
    [5, 1, 7, 9]
  }

  lemma OneByteNumber(mode: Runtime.Mode, known: bool, slot: (seq<byte>, nat) -> Parsed, at: nat)
    requires at < 4
    ensures ReadAt(Runtime.WireOf(mode, known, slot), VarInt, Sample(), at) == Parsed(Whole(VarInt, Sample()[at]), 1)
  {
    Runtime.OneByteVarInt(mode, Sample()[at..]);
  }

  lemma SampleMark(mode: Runtime.Mode, known: bool, slot: (seq<byte>, nat) -> Parsed)
    ensures ReadAt(Runtime.WireOf(mode, known, slot), Bool, Sample(), 1) == Parsed(Whole(Bool, 1), 1)
  {
    Runtime.OneByteBool(mode, Sample()[1..]);
  }

  lemma MisreadMentions()
    ensures Mentions(Misread(), "k") && !Mentions(Misread(), "o") && !Mentions(Misread(), "s")
  {
    var number := Primitive(VarInt);
    var last := Field(Some("s"), Switch("k", NoCases, Some(number)), NoFields);
    var middle := Field(Some("o"), Optional(number), last);
    assert FieldsMention(last, "k") && !FieldsMention(last, "o") && !FieldsMention(last, "s");
    assert FieldsMention(middle, "k") && !FieldsMention(middle, "o") && !FieldsMention(middle, "s");
  }

  lemma SampleEndIsRead(i: Input, mode: Runtime.Mode, known: bool, slot: (seq<byte>, nat) -> Parsed,
                        env: map<string, Selector>)
    requires i.wire == Runtime.WireOf(mode, known, slot) && i.data == Sample()
    requires env == map["k" := Selector(Whole(VarInt, 5), None)]
    ensures ReadFields(i, Misread(), Field(Some("s"), Switch("k", NoCases, Some(Primitive(VarInt))), NoFields), env, 3, 0)
         == Accept(4)
  {
    var number := Primitive(VarInt);
    var choice := Switch("k", NoCases, Some(number));
    MisreadMentions();
    OneByteNumber(mode, known, slot, 3);
    assert Read(i, number, env, 3, 0) == Accept(4);
    assert Pick(i.doc, env["k"], NoCases).None?;
    assert Read(i, choice, env, 3, 0) == Accept(4);
    assert ReadFields(i, Misread(), NoFields, env, 4, 0) == Accept(4);
  }

  /** The schema reads the default behind the option. */
  lemma SampleIsRead(i: Input, mode: Runtime.Mode, known: bool, slot: (seq<byte>, nat) -> Parsed)
    requires i.wire == Runtime.WireOf(mode, known, slot) && i.data == Sample()
    ensures Read(i, Misread(), map[], 0, 0) == Accept(4)
  {
    var number := Primitive(VarInt);
    var last := Field(Some("s"), Switch("k", NoCases, Some(number)), NoFields);
    var middle := Field(Some("o"), Optional(number), last);
    var env := map["k" := Selector(Whole(VarInt, 5), None)];
    MisreadMentions();
    OneByteNumber(mode, known, slot, 0);
    SampleMark(mode, known, slot);
    OneByteNumber(mode, known, slot, 2);
    SampleEndIsRead(i, mode, known, slot, env);
    assert Read(i, number, env, 2, 0) == Accept(3);
    assert Read(i, Optional(number), env, 1, 0) == Accept(3);
    assert ReadFields(i, Misread(), middle, env, 1, 0) == Accept(4);
    assert map[]["k" := Selector(Whole(VarInt, 5), None)] == env;
    assert ReadSelector(i, number, {}, 0) == Reading(Selector(Whole(VarInt, 5), None), 1);
  }

  /** What C makes of the text leaves it unread. */
  lemma SampleIsNotRead(m: Machine, mode: Runtime.Mode, known: bool, slot: (seq<byte>, nat) -> Parsed)
    requires m.wire == Runtime.WireOf(mode, known, slot) && m.data == Sample()
    ensures var r := Run(m, Attached(), map[], 0, 0); r.Running? && r.at == 3
  {
    OneByteNumber(mode, known, slot, 0);
    SampleMark(mode, known, slot);
    OneByteNumber(mode, known, slot, 2);
    var one := map[1 := Whole(VarInt, 5)];
    var two := one[2 := Whole(Bool, 1)];
    var read, last := Single(ReadInto(VarInt, 3)), Single(ReadInto(VarInt, 4));
    var chain := Chain(2, Branch(IsTrue, read, NoBranches), Some(last));
    SingleRuns(m, ReadInto(VarInt, 3), two, 2, 0);
    assert Choose(chain.branches, chain.otherwise, two[2]) == Some(read);
    assert Step(m, chain, two, 2, 0) == Running(two, 3);
    SingleRuns(m, chain, two, 2, 0);
    assert Step(m, ReadInto(Bool, 2), one, 1, 0) == Running(two, 2);
    assert Run(m, Then(ReadInto(Bool, 2), Single(chain)), one, 1, 0) == Run(m, Single(chain), two, 2, 0);
    assert Step(m, ReadInto(VarInt, 1), map[], 0, 0) == Running(one, 1);
  }

  lemma MisreadIsCompiled(doc: Doc, program: map<string, Block>, running: map<string, Block>)
    requires doc.types == map["t" := Misread()]
    requires program == map["t" := Printed()] && running == map["t" := Attached()]
    ensures Compiled(doc, program) && AllFit(doc, program) && IsReadByC(program, running)
  {
    MisreadIsPrinted(doc);
    MisreadFits(doc);
    PrintedIsAttached();
    FitsMore(doc, {}, program.Keys, Misread());
  }

  /** A document that compiles to legal C, has no mapper at all, and whose validator loses a default: it stops a byte
    * before the end of what the document says. */
  lemma DefaultIsLost(i: Input, mode: Runtime.Mode, known: bool, slot: (seq<byte>, nat) -> Parsed,
                      program: map<string, Block>, running: map<string, Block>)
    requires i.doc.types == map["t" := Misread()]
    requires i.wire == Runtime.WireOf(mode, known, slot) && i.data == Sample()
    requires program == map["t" := Printed()] && running == map["t" := Attached()]
    ensures Compiled(i.doc, program) && AllFit(i.doc, program) && IsReadByC(program, running)
    ensures var r := Validate(Machine(running, i.wire, i.data), "t", 0, 0);
            r.Running? && ReadAlias(i, "t", 0, 0) == Accept(r.at + 1)
  {
    MisreadIsCompiled(i.doc, program, running);
    SampleIsRead(i, mode, known, slot);
    SampleIsNotRead(Machine(running, i.wire, i.data), mode, known, slot);
  }
}
