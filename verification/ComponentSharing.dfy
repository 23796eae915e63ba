/** The generated validators as the runtime calls them: through the switches over protocols, shared between protocols,
  * and with the nested item parser that calls them in turn. */
module ComponentSharing {
  import opened Bytes
  import opened Wrappers
  import opened Wire
  import opened ComponentSchema
  import opened ComponentWires
  import opened ComponentCode
  import opened ComponentCompiler
  import opened ComponentCorrect
  import opened ComponentText
  import opened ComponentValidators
  import opened AliasClosure
  import opened NestedItems
  import D = ValidatorDispatch
  import Locality = ComponentLocality
  import R = Runtime

  /** The runtime holds what C makes of the generated code. */
  ghost predicate Runs(g: D.Generated, w: World) {
    && w.cases == g.cases
    && forall p <- g.validators :: p in w.running && IsReadByC(g.validators[p].program, w.running[p])
  }

  /** The readers of the validators of a representative. */
  function WireFor(w: World, first: int): Wire {
    R.WireOf(w.mode, w.known(first), RunItem(w, first, LEVELS))
  }

  /** What either switch returns for a protocol. */
  function Called(w: World, number: int, name: string, data: seq<byte>, at: nat, depth: nat): Parsed
    requires Dispatched(w, number) && at <= |data|
  {
    var first := w.cases[number];
    Ended(Validate(Machine(w.running[first], WireFor(w, first), data), name, at, depth))
  }

  /** What a protocol's own document says of the same bytes. */
  function Says(w: World, doc: Doc, number: int, name: string, data: seq<byte>, at: nat, depth: nat): Parsed
    requires at <= |data|
  {
    var p := Known(w, number);
    AsParsed(ReadAlias(Input(doc, R.WireOf(w.mode, p.known, MeantItem(doc, w.mode, p)), data), name, at, depth))
  }

  /** The document's mappers list something and have no name for two ids, its bare defaults sit where an `else` may
    * stand, and its components need the alias for their ids. */
  ghost predicate IsSound(doc: Doc) {
    WellNamedBelow(doc, COMPONENT) && DefaultsSitBelow(doc, COMPONENT) && Reachable(doc, COMPONENT, COMPONENT_TYPE)
  }

  lemma RepresentativeImplements(l: D.Library, o: D.Overlay, specs: seq<D.Specification>, g: D.Generated, w: World,
                                 i: nat)
    requires i < |specs| && D.OwnOf(l, o, specs[i]).Ok? && D.Dispatches(l, o, specs, g) && Runs(g, w)
    requires D.RunsItsOwn(l, o, specs, g, i) && IsSound(D.DocOf(l, o, specs[i]))
    ensures var first := g.cases[specs[i].protocol];
            Implements(w, first, D.DocOf(l, o, specs[i]), g.validators[first].program)
  {
    var j := D.Representative(l, o, specs, i);
    D.SameRepresentative(l, o, specs, i, j);
    assert D.DispatchesOne(l, o, specs, g, i) && D.DispatchesOne(l, o, specs, g, j);
  }

  /** What is read through items that agree is the same. */
  lemma SaysTheSame(doc: Doc, mode: R.Mode, known: bool, a: Slot, b: Slot, data: seq<byte>, name: string, at: nat,
                    depth: nat)
    requires SlotsAgree(a, b, -1) && at <= |data|
    ensures ReadAlias(Input(doc, R.WireOf(mode, known, a), data), name, at, depth)
         == ReadAlias(Input(doc, R.WireOf(mode, known, b), data), name, at, depth)
  {
    RuntimesAgree(mode, known, a, b, -1);
    AliasesAlike(Input(doc, R.WireOf(mode, known, a), data), R.WireOf(mode, known, b), name, at, depth);
  }

  lemma AgreeThrough(a: Slot, b: Slot, c: Slot)
    requires SlotsAgree(a, b, -1) && SlotsAgree(b, c, -1)
    ensures SlotsAgree(a, c, -1)
  {}

  /** The switches read for any protocol what the shared document says of its representative, whatever the numbers. */
  lemma CalledIsRepresentatives(w: World, number: int, doc: Doc, program: map<string, Block>, name: string,
                                data: seq<byte>, at: nat, depth: nat)
    requires Dispatched(w, number) && Implements(w, w.cases[number], doc, program)
    requires (name == COMPONENT || name == COMPONENT_TYPE) && at <= |data|
    ensures Called(w, number, name, data, at, depth) == Says(w, doc, w.cases[number], name, data, at, depth)
  {
    var first := w.cases[number];
    var a, b := RunItem(w, first, LEVELS), MeantItem(doc, w.mode, Known(w, first));
    R.RuntimeIsTyped(w.mode, w.known(first), a);
    PartIsMeant(w, first, doc, program, WireFor(w, first), name, data, at, depth);
    RunIsMeant(w, first, doc, program, LEVELS, a, b);
    SaysTheSame(doc, w.mode, w.known(first), a, b, data, name, at, depth);
  }

  /** The aliases that components need. */
  ghost function ScopeOf(doc: Doc, positions: bool, items: bool): Scope {
    Scope((iset name: string | name != SLOT && Reachable(doc, COMPONENT, name)), positions, items)
  }

  /** What components need uses positions at most where `positions` says so, and nested items where `items` does. */
  ghost predicate UsesAtMost(doc: Doc, positions: bool, items: bool) {
    DocWithin(doc, ScopeOf(doc, positions, items))
  }

  lemma EveryDocUsesAtMostBoth(doc: Doc)
    ensures UsesAtMost(doc, true, true)
  {
    var c := ScopeOf(doc, true, true);
    forall name ensures DefinitionWithin(doc, c, name) {
      if name in doc.types && name in c.names {
        forall b <- Aliases(doc.types[name]) ensures b == SLOT || b in c.names { ReachableIsClosed(doc, COMPONENT, name, b); }
        AllIsWithin(doc.types[name], c);
      }
    }
  }

  /** Two protocols read a document alike: the runtime knows both or neither, unless no positions are used; and their
    * numbers agree as far as the decode mode can tell, unless no nested items are used. */
  ghost predicate AreReadAlike(mode: R.Mode, doc: Doc, p: Protocol, q: Protocol) {
    exists positions: bool, items: bool :: UsesAtMost(doc, positions, items)
      && (positions ==> p.known == q.known) && (items ==> SameNumbers(mode, p.number, q.number))
  }

  /** The runtime knowing both protocols or neither, and numbers that agree, are enough for every document. */
  lemma AgreeingProtocolsReadAlike(mode: R.Mode, doc: Doc, p: Protocol, q: Protocol)
    requires p.known == q.known && SameNumbers(mode, p.number, q.number)
    ensures AreReadAlike(mode, doc, p, q)
  {
    EveryDocUsesAtMostBoth(doc);
  }

  /** A document that uses neither positions nor nested items is read alike, whatever the protocols. */
  lemma PlainDocumentsAreReadAlike(mode: R.Mode, doc: Doc, p: Protocol, q: Protocol)
    requires UsesAtMost(doc, false, false)
    ensures AreReadAlike(mode, doc, p, q)
  {}

  lemma SaysAlike(w: World, doc: Doc, n: int, m: int, name: string, data: seq<byte>, at: nat, depth: nat)
    requires AreReadAlike(w.mode, doc, Known(w, n), Known(w, m)) && Reachable(doc, COMPONENT, COMPONENT_TYPE)
    requires (name == COMPONENT || name == COMPONENT_TYPE) && at <= |data|
    ensures Says(w, doc, n, name, data, at, depth) == Says(w, doc, m, name, data, at, depth)
  {
    var p, q := Known(w, n), Known(w, m);
    var positions, items :| UsesAtMost(doc, positions, items)
      && (positions ==> p.known == q.known) && (items ==> SameNumbers(w.mode, n, m));
    var c, a, b := ScopeOf(doc, positions, items), MeantItem(doc, w.mode, p), MeantItem(doc, w.mode, q);
    RootIsReachable(doc, COMPONENT);
    assert |COMPONENT| != |SLOT| && |COMPONENT_TYPE| != |SLOT|;
    if items { ItemsAgreeExactly(doc, c, w.mode, p, q); }
    RuntimesAgreeOn(c, w.mode, p, q, a, b);
    AliasesAlikeOn(c, Input(doc, R.WireOf(w.mode, p.known, a), data), R.WireOf(w.mode, q.known, b), name, at, depth);
  }

  /** Where protocols of one source with the same components corrected agree on the replacements, the switches read for
    * every protocol what its own document says of its representative, nested items included; and that is what the
    * document says of the protocol, if the two are read alike. */
  lemma SharedValidatorsAreCorrect(l: D.Library, o: D.Overlay, specs: seq<D.Specification>, g: D.Generated, w: World,
                                   i: nat, name: string, data: seq<byte>, at: nat, depth: nat)
    requires D.AllApart(l, specs) && D.Dispatches(l, o, specs, g) && Runs(g, w)
    requires forall k :: 0 <= k < |specs| ==> D.OwnOf(l, o, specs[k]).Ok?
    requires forall k :: 0 <= k < |specs| ==> D.NoPlus(D.NamesFor(o.corrections, specs[k].protocol))
    requires i < |specs| && D.Agreed(o, specs, D.Representative(l, o, specs, i), i)
    requires IsSound(D.DocOf(l, o, specs[i])) && specs[i].protocol in g.cases
    requires (name == COMPONENT || name == COMPONENT_TYPE) && at <= |data|
    ensures var number, doc := specs[i].protocol, D.DocOf(l, o, specs[i]);
            && Dispatched(w, number)
            && Called(w, number, name, data, at, depth) == Says(w, doc, g.cases[number], name, data, at, depth)
            && (AreReadAlike(w.mode, doc, Known(w, g.cases[number]), Known(w, number)) ==>
                  Called(w, number, name, data, at, depth) == Says(w, doc, number, name, data, at, depth))
  {
    var number, doc := specs[i].protocol, D.DocOf(l, o, specs[i]);
    D.RunsItsOwnIfAgreed(l, o, specs, g, i);
    RepresentativeImplements(l, o, specs, g, w, i);
    CalledIsRepresentatives(w, number, doc, g.validators[g.cases[number]].program, name, data, at, depth);
    if AreReadAlike(w.mode, doc, Known(w, g.cases[number]), Known(w, number)) {
      SaysAlike(w, doc, g.cases[number], number, name, data, at, depth);
    }
  }

  /** With the readers that they are given, nested items included, the generated validators are prefix-free. */
  lemma CalledIsPrefixFree(w: World, first: int, name: string, data: seq<byte>, at: nat, depth: nat, e: seq<byte>, q: nat,
                           n: nat)
    requires first in w.running && at <= |data| && q <= |e| && n <= |e| - q
    requires var r := Validate(Machine(w.running[first], WireFor(w, first), data), name, at, depth);
             r.Running? && n <= r.at - at && SameBytes(data, at, e, q, n)
    ensures var m := Machine(w.running[first], WireFor(w, first), data);
            var r, r' := Validate(m, name, at, depth), Validate(m.(data := e), name, q, depth);
            && (n == r.at - at ==> r'.Running? && r'.at == q + n)
            && (n < r.at - at && |e| == q + n ==> !r'.Running?)
  {
    RunDelimits(w, first, LEVELS, RunItem(w, first, LEVELS));
    Locality.ValidatorsArePrefixFree(Machine(w.running[first], WireFor(w, first), data), name, at, depth, e, q, n);
  }

  /** Every function that the switches call is defined. */
  ghost predicate SwitchesAreLinked(g: D.Generated) {
    forall p <- g.cases :: g.cases[p] in g.validators && HasBoth(g.validators[g.cases[p]].program)
  }

  predicate HasBoth(program: map<string, Block>) {
    COMPONENT in program && COMPONENT_TYPE in program
  }

  /** The second switch calls a function for component ids whether or not there is one: there is exactly when the
    * components of every representative's document need that alias. */
  lemma SwitchesAreLinkedExactly(l: D.Library, o: D.Overlay, specs: seq<D.Specification>, g: D.Generated)
    requires D.Dispatches(l, o, specs, g)
    ensures SwitchesAreLinked(g) <==> forall i :: 0 <= i < |specs| ==> NeedsIds(l, o, specs, i)
  {
    forall i | 0 <= i < |specs|
      ensures D.DispatchesOne(l, o, specs, g, i)
      ensures HasBoth(g.validators[g.cases[specs[i].protocol]].program) <==> NeedsIds(l, o, specs, i)
    {
      var first := specs[D.Representative(l, o, specs, i)];
      assert D.DispatchesOne(l, o, specs, g, i);
      var doc := D.DocOf(l, o, first);
      RootIsReachable(doc, COMPONENT);
      assert |COMPONENT| != |SLOT| && |COMPONENT_TYPE| != |SLOT|;
      CompiledNames(doc, COMPONENT, g.validators[first.protocol].program);
    }
    forall p <- g.cases ensures exists i :: 0 <= i < |specs| && specs[i].protocol == p {}
  }

  ghost predicate NeedsIds(l: D.Library, o: D.Overlay, specs: seq<D.Specification>, i: nat)
    requires i < |specs|
  {
    var first := specs[D.Representative(l, o, specs, i)];
    D.OwnOf(l, o, first).Ok? && Reachable(D.DocOf(l, o, first), COMPONENT, COMPONENT_TYPE)
  }

  /** Of a document whose components are numbered in place, the second switch calls a function that is not there. */
  lemma PlainIsNotLinked(l: D.Library, o: D.Overlay, s: D.Specification, g: D.Generated)
    requires D.OwnOf(l, o, s).Ok? && D.TypesOf(l, o, s) == D.Plain(Primitive(Bool)) && D.Dispatches(l, o, [s], g)
    ensures !SwitchesAreLinked(g)
  {
    PlainIsAccepted(D.DocOf(l, o, s), Bool);
    assert |COMPONENT| != |COMPONENT_TYPE|;
    assert !NeedsIds(l, o, [s], 0);
    SwitchesAreLinkedExactly(l, o, [s], g);
  }

  /** The levels that are modelled are all there are: an item of the generated code is read by the equation that the C
    * functions are written as. */
  lemma RunItemsAreRecursive(w: World, first: int, doc: Doc, program: map<string, Block>)
    requires Implements(w, first, doc, program)
    ensures SlotsAgree(RunItem(w, first, LEVELS), RunLevel(w, first, RunItem(w, first, LEVELS)), -1)
  {
    var a, b := RunItem(w, first, LEVELS), RunItem(w, first, LEVELS + 1);
    var c, d := Meant(doc, w.mode, Known(w, first), LEVELS), Meant(doc, w.mode, Known(w, first), LEVELS + 1);
    RunIsMeant(w, first, doc, program, LEVELS, a, c);
    RunIsMeant(w, first, doc, program, LEVELS + 1, b, d);
    LevelsSuffice(doc, w.mode, Known(w, first), LEVELS, LEVELS + 1, -1, c, d);
    AgreeThrough(a, c, d);
    SwapSides(b, d);
    AgreeThrough(a, d, b);
  }

  lemma SwapSides(a: Slot, b: Slot)
    requires SlotsAgree(a, b, -1)
    ensures SlotsAgree(b, a, -1)
  {}

  // The conflict of ValidatorDispatch is not refused by the compiler either.

  lemma PlainIsAccepted(doc: Doc, p: Prim)
    requires doc.types == D.Plain(Primitive(p))
    ensures Accepts(doc.types, {COMPONENT}, {})
    ensures forall name :: Reachable(doc, COMPONENT, name) ==> name == COMPONENT
  {
    ReachesThroughAlias(doc.types, COMPONENT, {});
    assert Aliases(doc.types[COMPONENT]) == {};
  }

  lemma PlainSwitchCompiles(doc: Doc, p: Prim, env: map<string, Capture>)
    requires doc.literal("0") == Some(0) && env == map["type" := Capture(1, Integer, None)]
    ensures Compile(doc, Switch("type", Case("0", Primitive(p), NoCases), None), env, 1).Code?
  {
    var body := Primitive(p);
    var choice := Switch("type", Case("0", body, NoCases), None);
    assert ArmsOf(doc, env["type"], NoCases) == Some([]);
    assert ArmsOf(doc, env["type"], choice.cases) == Some([Arm(0, body)] + []);
    assert SortArms([Arm(0, body)]) == [Arm(0, body)] by { assert SortArms([]) == []; }
    var arms := [Arm(0, body)];
    assert arms[1..] == [];
    assert CompileArms(doc, arms, Size(choice), env, 1).BranchCode?;
  }

  lemma PlainBodyCompiles(doc: Doc, p: Prim)
    requires doc.types == D.Plain(Primitive(p)) && doc.literal("0") == Some(0)
    ensures Compile(doc, doc.types[COMPONENT], map[], 0).Code?
  {
    var last := Field(Some(D.DATA), Switch("type", Case("0", Primitive(p), NoCases), None), NoFields);
    var all := Field(Some("type"), Primitive(VarInt), last);
    var env := map["type" := Capture(1, Integer, None)];
    assert doc.types[COMPONENT] == Container(all);
    assert FieldReferences(last) == {"type"} && FieldReferences(all) == {"type"};
    assert D.DATA !in {"type"};
    PlainSwitchCompiles(doc, p, env);
    assert CompileFields(doc, last, {"type"}, env, 1).Code?;
    assert CompileFields(doc, all, {"type"}, map[], 0).Code?;
  }

  lemma PlainCompiles(doc: Doc, p: Prim)
    requires doc.types == D.Plain(Primitive(p)) && doc.literal("0") == Some(0)
    ensures !RefusesDocument(doc, COMPONENT)
  {
    PlainIsAccepted(doc, p);
    PlainBodyCompiles(doc, p);
  }

  lemma ConflictCompiles(l: D.Library, raw: seq<byte>)
    requires l.parse(raw) == D.Plain(Primitive(Bool)) && l.literal("0") == Some(0)
    ensures D.AllCompile(l, D.Conflicting(), [D.Specification(1, raw), D.Specification(2, raw)])
  {
    D.ConflictingOwn(l, raw, 1);
    D.ConflictingOwn(l, raw, 2);
    PlainCompiles(Doc(D.Plain(Primitive(U8)), l.literal), U8);
    PlainCompiles(Doc(D.Plain(Primitive(U16)), l.literal), U16);
  }

  // The conditions under which two protocols read a document alike are needed.

  /** A component is one thing of a kind, and then a number. */
  function Holding(inside: Schema): D.Types {
    map[COMPONENT := Container(Field(None, inside, Field(None, Alias(COMPONENT_TYPE), NoFields))),
        COMPONENT_TYPE := Primitive(VarInt), SLOT := Primitive(Void)]
  }

  /** The input of a protocol at the start of a component. */
  function InputOf(w: World, doc: Doc, number: int, data: seq<byte>): Input {
    var p := Known(w, number);
    Input(doc, R.WireOf(w.mode, p.known, MeantItem(doc, w.mode, p)), data)
  }

  lemma HoldingReads(i: Input, w: World, inside: Schema, end: nat)
    requires i.doc.types == Holding(inside) && end < |i.data| && i.data[end] < 128
    requires forall s: seq<byte> :: i.wire.read(VarInt, s) == R.ReadVarInt(w.mode, s)
    requires Read(i, inside, map[], 0, 0) == Reject || Read(i, inside, map[], 0, 0) == Accept(end)
    ensures ReadAlias(i, COMPONENT, 0, 0) == if Read(i, inside, map[], 0, 0).Reject? then Reject else Accept(end + 1)
  {
    R.OneByteVarInt(w.mode, i.data[end..]);
    var last := Field(None, Alias(COMPONENT_TYPE), NoFields);
    var all := Container(Field(None, inside, last));
    assert i.doc.types[COMPONENT] == all && i.doc.types[COMPONENT_TYPE] == Primitive(VarInt);
    assert |COMPONENT_TYPE| != |SLOT|;
    assert Read(i, Primitive(VarInt), map[], end, 1) == Accept(end + 1);
    assert ReadAlias(i, COMPONENT_TYPE, end, 1) == Accept(end + 1);
    assert Read(i, Alias(COMPONENT_TYPE), map[], end, 0) == Accept(end + 1);
    assert ReadFields(i, all, NoFields, map[], end + 1, 0) == Accept(end + 1);
    assert ReadFields(i, all, last, map[], end, 0) == Accept(end + 1);
  }

  /** What is said of a component that holds an empty stack, with a count of one byte or two, and the number 5. */
  lemma ItemSays(w: World, doc: Doc, number: int, long: bool)
    requires doc.types == Holding(Alias(SLOT)) && (long ==> w.mode.Compatible? && number >= 766)
    ensures var data: seq<byte> := if long then [0x80, 0, 5] else [0, 5];
            Says(w, doc, number, COMPONENT, data, 0, 0)
              == if number < 766 || (long && number == 766) then NoParse else Parsed(Uninspected, |data|)
  {
    var data: seq<byte> := if long then [0x80, 0, 5] else [0, 5];
    var i := InputOf(w, doc, number, data);
    assert data[0..] == data;
    if long { OldItemsDiffer(doc, Known(w, number), data, 1); } else { EmptyStack(doc, w.mode, Known(w, number), data, 1); }
    HoldingReads(i, w, Alias(SLOT), |data| - 1);
  }

  /** Of documents whose components hold an item, two protocols read all bytes alike if and only if their numbers agree
    * as far as the decode mode can tell. */
  lemma ItemsAreReadAlikeExactly(w: World, doc: Doc, n: int, m: int)
    requires doc.types == Holding(Alias(SLOT))
    ensures SaysTheSameOfAll(w, doc, n, m) <==> SameNumbers(w.mode, n, m)
  {
    HoldingNeedsIds(doc, Alias(SLOT));
    if SameNumbers(w.mode, n, m) {
      HoldingUses(doc, Alias(SLOT));
      AllAreReadAlike(w, doc, n, m);
    } else if n < 766 <==> m < 766 {
      ItemSays(w, doc, n, true);
      ItemSays(w, doc, m, true);
      assert !SaysTheSameOf(w, doc, n, m, [0x80, 0, 5]);
    } else {
      ItemSays(w, doc, n, false);
      ItemSays(w, doc, m, false);
      assert !SaysTheSameOf(w, doc, n, m, [0, 5]);
    }
  }

  lemma PositionSays(w: World, doc: Doc, number: int)
    requires doc.types == Holding(Primitive(Position))
    ensures Says(w, doc, number, COMPONENT, [0, 0, 0, 0, 0, 0, 0, 0, 5], 0, 0)
         == if w.known(number) then Parsed(Uninspected, 9) else NoParse
  {
    var data: seq<byte> := [0, 0, 0, 0, 0, 0, 0, 0, 5];
    assert data[0..] == data;
    HoldingReads(InputOf(w, doc, number, data), w, Primitive(Position), 8);
  }

  /** The same for positions: the runtime must know both protocols, or neither. */
  lemma PositionsAreReadAlikeExactly(w: World, doc: Doc, n: int, m: int)
    requires doc.types == Holding(Primitive(Position))
    ensures SaysTheSameOfAll(w, doc, n, m) <==> w.known(n) == w.known(m)
  {
    HoldingNeedsIds(doc, Primitive(Position));
    if w.known(n) == w.known(m) {
      HoldingUses(doc, Primitive(Position));
      AllAreReadAlike(w, doc, n, m);
    } else {
      PositionSays(w, doc, n);
      PositionSays(w, doc, m);
      assert !SaysTheSameOf(w, doc, n, m, [0, 0, 0, 0, 0, 0, 0, 0, 5]);
    }
  }

  ghost predicate SaysTheSameOf(w: World, doc: Doc, n: int, m: int, data: seq<byte>) {
    Says(w, doc, n, COMPONENT, data, 0, 0) == Says(w, doc, m, COMPONENT, data, 0, 0)
  }

  ghost predicate SaysTheSameOfAll(w: World, doc: Doc, n: int, m: int) {
    forall data: seq<byte> :: SaysTheSameOf(w, doc, n, m, data)
  }

  lemma AllAreReadAlike(w: World, doc: Doc, n: int, m: int)
    requires AreReadAlike(w.mode, doc, Known(w, n), Known(w, m)) && Reachable(doc, COMPONENT, COMPONENT_TYPE)
    ensures SaysTheSameOfAll(w, doc, n, m)
  {
    forall data: seq<byte> ensures SaysTheSameOf(w, doc, n, m, data) {
      SaysAlike(w, doc, n, m, COMPONENT, data, 0, 0);
    }
  }

  lemma HoldingNeedsIds(doc: Doc, inside: Schema)
    requires doc.types == Holding(inside)
    ensures Reachable(doc, COMPONENT, COMPONENT_TYPE)
  {
    RootIsReachable(doc, COMPONENT);
    var last := Field(None, Alias(COMPONENT_TYPE), NoFields);
    assert FieldAliases(last) == {COMPONENT_TYPE} + FieldAliases(NoFields);
    assert COMPONENT_TYPE in FieldAliases(Field(None, inside, last));
    assert doc.types[COMPONENT] == Container(Field(None, inside, last));
    ReachableIsClosed(doc, COMPONENT, COMPONENT, COMPONENT_TYPE);
  }

  lemma HoldingUses(doc: Doc, inside: Schema)
    requires doc.types == Holding(inside) && (inside == Alias(SLOT) || inside == Primitive(Position))
    ensures UsesAtMost(doc, inside.Primitive?, inside.Alias?)
  {
    var c := ScopeOf(doc, inside.Primitive?, inside.Alias?);
    HoldingNeedsIds(doc, inside);
    assert |COMPONENT_TYPE| != |SLOT|;
    var last := Field(None, Alias(COMPONENT_TYPE), NoFields);
    assert Within(Alias(COMPONENT_TYPE), c) && Within(inside, c);
    assert FieldsWithin(last, c) && FieldsWithin(Field(None, inside, last), c);
    forall name ensures DefinitionWithin(doc, c, name) {}
  }

  // A shared validator that misreads an item.

  lemma HoldingAliases(doc: Doc, inside: Schema)
    requires doc.types == Holding(inside) && (inside == Alias(SLOT) || inside == Primitive(Position))
    ensures Aliases(doc.types[COMPONENT]) == Aliases(inside) + {COMPONENT_TYPE}
    ensures Aliases(doc.types[COMPONENT_TYPE]) == {} && Aliases(doc.types[SLOT]) == {}
  {
    var last := Field(None, Alias(COMPONENT_TYPE), NoFields);
    assert doc.types[COMPONENT] == Container(Field(None, inside, last));
    assert FieldAliases(last) == {COMPONENT_TYPE} + FieldAliases(NoFields);
  }

  lemma HoldingReaches(doc: Doc, inside: Schema, name: string)
    requires doc.types == Holding(inside) && (inside == Alias(SLOT) || inside == Primitive(Position))
    requires Reaches(doc.types, {COMPONENT}, {}, name)
    ensures name in doc.types && Shaped(doc.types[name])
  {
    HoldingAliases(doc, inside);
    var q :| Walk(doc.types, {COMPONENT}, {}, q) && q[|q| - 1] == name;
    if |q| > 1 { assert q[|q| - 2] in doc.types && q[|q| - 2 + 1] in Aliases(doc.types[q[|q| - 2]]); }
    var last := Field(None, Alias(COMPONENT_TYPE), NoFields);
    assert FieldsShaped(last);
  }

  lemma HoldingCompiles(doc: Doc, inside: Schema)
    requires doc.types == Holding(inside) && (inside == Alias(SLOT) || inside == Primitive(Position))
    ensures !RefusesDocument(doc, COMPONENT)
  {
    forall name | Reaches(doc.types, {COMPONENT}, {}, name) ensures name in doc.types && Shaped(doc.types[name]) {
      HoldingReaches(doc, inside, name);
    }
    var last := Field(None, Alias(COMPONENT_TYPE), NoFields);
    var all := Field(None, inside, last);
    assert doc.types[COMPONENT] == Container(all);
    var wanted := References(Container(all));
    forall counter: nat ensures CompileFields(doc, last, wanted, map[], counter).Code? {
      assert Compile(doc, Alias(COMPONENT_TYPE), map[], counter).Code?;
      assert CompileFields(doc, NoFields, wanted, map[], counter).Code?;
    }
    assert Compile(doc, inside, map[], 0).Code?;
    assert CompileFields(doc, last, wanted, map[], Compile(doc, inside, map[], 0).counter).Code?;
    assert CompileFields(doc, all, wanted, map[], 0).Code?;
  }

  lemma HoldingIsSound(doc: Doc, inside: Schema)
    requires doc.types == Holding(inside) && (inside == Alias(SLOT) || inside == Primitive(Position))
    ensures IsSound(doc)
  {
    HoldingNeedsIds(doc, inside);
    HoldingAliases(doc, inside);
    var last := Field(None, Alias(COMPONENT_TYPE), NoFields);
    var names := Aliases(doc.types[COMPONENT]);
    assert Fits(doc, names, Alias(COMPONENT_TYPE)) && Fits(doc, names, inside);
    assert FieldsFit(doc, names, last) && FieldsFit(doc, names, Field(None, inside, last));
    assert FieldDefaultsSit(last, After(inside, Returning));
    assert FieldDefaultsSit(Field(None, inside, last), Returning);
  }

  /** Two protocols of one source, and no corrections. */
  function OldAndNext(raw: seq<byte>): seq<D.Specification> {
    [D.Specification(766, raw), D.Specification(767, raw)]
  }

  function NoOverlay(): D.Overlay {
    D.Overlay(map[], [])
  }

  lemma HoldingOwn(l: D.Library, s: D.Specification)
    requires l.parse(s.raw) == Holding(Alias(SLOT))
    ensures D.OwnOf(l, NoOverlay(), s) == D.Ok(D.Own(Holding(Alias(SLOT)), []))
  {
    var types := l.parse(s.raw);
    var last := Field(None, Alias(COMPONENT_TYPE), NoFields);
    assert types[COMPONENT] == Container(Field(None, Alias(SLOT), last));
    assert D.DataCases(last).None? && D.DataCases(Field(None, Alias(SLOT), last)).None?;
    assert D.Renamed(types, map[]) == types && D.Branches(types).None?;
  }

  lemma OldAndNextAreShared(l: D.Library, raw: seq<byte>)
    requires l.parse(raw) == Holding(Alias(SLOT))
    ensures D.Refusal(l, NoOverlay(), OldAndNext(raw)).None? && D.AllCompile(l, NoOverlay(), OldAndNext(raw))
    ensures D.Representative(l, NoOverlay(), OldAndNext(raw), 1) == 0
  {
    var o, specs := NoOverlay(), OldAndNext(raw);
    HoldingOwn(l, specs[0]);
    HoldingOwn(l, specs[1]);
    D.NothingToRefuse(l, o, specs);
    HoldingCompiles(Doc(Holding(Alias(SLOT)), l.literal), Alias(SLOT));
  }

  lemma NextRunsItsOwn(l: D.Library, raw: seq<byte>, g: D.Generated)
    requires l.parse(raw) == Holding(Alias(SLOT)) && D.Dispatches(l, NoOverlay(), OldAndNext(raw), g)
    requires D.OwnOf(l, NoOverlay(), OldAndNext(raw)[1]).Ok?
    ensures 767 in g.cases && g.cases[767] == 766 && D.RunsItsOwn(l, NoOverlay(), OldAndNext(raw), g, 1)
  {
    HoldingOwn(l, OldAndNext(raw)[0]);
    HoldingOwn(l, OldAndNext(raw)[1]);
    OldAndNextAreShared(l, raw);
    assert D.DispatchesOne(l, NoOverlay(), OldAndNext(raw), g, 1);
  }

  /** A source that generates, and whose later protocol's own document says that an item is three bytes that the
    * validator it shares refuses. */
  lemma ItemIsMisread(l: D.Library, raw: seq<byte>, g: D.Generated, w: World)
    requires l.parse(raw) == Holding(Alias(SLOT)) && w.mode.Compatible?
    requires D.Dispatches(l, NoOverlay(), OldAndNext(raw), g) && Runs(g, w)
    ensures D.Refusal(l, NoOverlay(), OldAndNext(raw)).None? && D.AllCompile(l, NoOverlay(), OldAndNext(raw))
    ensures Dispatched(w, 767) && D.OwnOf(l, NoOverlay(), D.Specification(767, raw)).Ok?
    ensures Called(w, 767, COMPONENT, [0x80, 0, 5], 0, 0) == NoParse
    ensures Says(w, D.DocOf(l, NoOverlay(), D.Specification(767, raw)), 767, COMPONENT, [0x80, 0, 5], 0, 0)
         == Parsed(Uninspected, 3)
  {
    var o, specs := NoOverlay(), OldAndNext(raw);
    HoldingOwn(l, specs[0]);
    HoldingOwn(l, specs[1]);
    OldAndNextAreShared(l, raw);
    var doc := D.DocOf(l, o, specs[1]);
    HoldingIsSound(doc, Alias(SLOT));
    NextRunsItsOwn(l, raw, g);
    RepresentativeImplements(l, o, specs, g, w, 1);
    CalledIsRepresentatives(w, 767, doc, g.validators[766].program, COMPONENT, [0x80, 0, 5], 0, 0);
    ItemSays(w, doc, 766, true);
    ItemSays(w, doc, 767, true);
  }
}
