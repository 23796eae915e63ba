/** The nested item parser of api.c. The generated validators call it, and it calls them: this module ties the knot, for
  * what a schema means and for the generated code, and proves that the two are the same. */
module NestedItems {
  import opened Bytes
  import opened Wire
  import opened ComponentSchema
  import opened ComponentWires
  import opened ComponentCode
  import opened AliasClosure
  import opened ComponentValidators
  import Locality = ComponentLocality
  import opened Readers
  import R = Runtime

  // api.h limits.
  const MAX_COMPONENTS: nat := 256
  const MAX_STACK: nat := 127

  /** The readers of a component and of a component's id. */
  datatype Parts = Parts(component: Slot, kind: Slot)

  function Off(r: Parsed, s: seq<byte>): Read<Value> {
    if r.NoParse? || r.size > |s| then Fail else Got(r.value, s[r.size..])
  }

  function ReadNumber(mode: R.Mode, s: seq<byte>): (r: Read<Value>)
    ensures r.Got? ==> r.value.Whole?
  {
    Off(R.ReadVarInt(mode, s), s)
  }

  /** The count of protocol 766 is one byte. */
  function ReadAmount(mode: R.Mode, protocol: int, s: seq<byte>): (r: Read<Value>)
    ensures r.Got? ==> r.value.Whole?
  {
    if protocol == 766 then Off(R.ReadFixed(mode, I8, s), s) else ReadNumber(mode, s)
  }

  function OneOf(slot: Slot, depth: nat): seq<byte> -> Read<()> {
    (s: seq<byte>) => var r := Off(slot(s, depth), s); if r.Fail? then Fail else Got((), r.rest)
  }

  /** The components that are added, and the ids of those removed. */
  function SkipParts(parts: Parts, added: nat, removed: nat, depth: nat, s: seq<byte>): Read<()> {
    var first := ReadList(OneOf(parts.component, depth), added, s);
    if first.Fail? then Fail else
      var more := ReadList(OneOf(parts.kind, depth), removed, first.rest);
      if more.Fail? then Fail else Got((), more.rest)
  }

  function SkipRemoved(mode: R.Mode, parts: Parts, added: int, depth: nat, s: seq<byte>): Read<()> {
    var removed := ReadNumber(mode, s);
    if removed.Fail? || added < 0 || removed.value.number < 0 || added + removed.value.number > MAX_COMPONENTS then Fail
    else SkipParts(parts, added, removed.value.number, depth, removed.rest)
  }

  function SkipAdded(mode: R.Mode, parts: Parts, depth: nat, s: seq<byte>): Read<()> {
    var added := ReadNumber(mode, s);
    if added.Fail? then Fail else SkipRemoved(mode, parts, added.value.number, depth, added.rest)
  }

  /** An item from its id on. */
  function SkipBody(mode: R.Mode, parts: Parts, depth: nat, s: seq<byte>): Read<()> {
    var id := ReadNumber(mode, s);
    if id.Fail? || id.value.number <= 0 then Fail else SkipAdded(mode, parts, depth, id.rest)
  }

  /** typed_skip_nested_item_stack. */
  function SkipItem(mode: R.Mode, protocol: int, parts: Parts, depth: nat, s: seq<byte>): Read<()> {
    if protocol < 766 || depth > MAX_DEPTH then Fail else
      var amount := ReadAmount(mode, protocol, s);
      if amount.Fail? then Fail
      else SkipStack(mode, parts, amount.value.number, depth, amount.rest)
  }

  function SkipStack(mode: R.Mode, parts: Parts, amount: int, depth: nat, s: seq<byte>): Read<()> {
    if amount == 0 then Got((), s)
    else if !(0 < amount <= MAX_STACK) then Fail
    else SkipBody(mode, parts, depth + 1, s)
  }

  function ItemOf(mode: R.Mode, protocol: int, parts: Parts): Slot {
    (s: seq<byte>, depth: nat) => Extent(SkipItem(mode, protocol, parts, depth, s), s)
  }

  /** How many bytes were taken off. */
  function Extent(r: Read<()>, s: seq<byte>): Parsed {
    if r.Fail? || |r.rest| > |s| then NoParse else Parsed(Uninspected, |s| - |r.rest|)
  }

  function NoSlot(): Slot {
    (s: seq<byte>, depth: nat) => NoParse
  }

  // What the schema means.

  function AsParsed(r: Verdict): Parsed {
    if r.Reject? then NoParse else Parsed(Uninspected, r.at)
  }

  function MeantPart(doc: Doc, wire: Wire, name: string): Slot {
    (s: seq<byte>, depth: nat) => AsParsed(ReadAlias(Input(doc, wire, s), name, 0, depth))
  }

  function MeantParts(doc: Doc, wire: Wire): Parts {
    Parts(MeantPart(doc, wire, COMPONENT), MeantPart(doc, wire, COMPONENT_TYPE))
  }

  /** The protocol whose items are read: whether the runtime knows it, and its number. */
  datatype Protocol = Protocol(known: bool, number: int)

  /** One level more, of items whose components the document describes. */
  function Level(doc: Doc, mode: R.Mode, p: Protocol, below: Slot): Slot {
    ItemOf(mode, p.number, MeantParts(doc, R.WireOf(mode, p.known, below)))
  }

  /** Items whose components the document describes, nested at most `n` deep. */
  function Meant(doc: Doc, mode: R.Mode, p: Protocol, n: nat): Slot {
    if n == 0 then NoSlot() else Level(doc, mode, p, Meant(doc, mode, p, n - 1))
  }

  // What the generated code does.

  /** The protocols that the runtime knows, the representative of each protocol, and what C makes of the validators of
    * each representative. */
  datatype World = World(mode: R.Mode, known: int -> bool, cases: map<int, int>,
                         running: map<int, map<string, Block>>)

  function Ended(r: Outcome): Parsed {
    if r.Running? then Parsed(Uninspected, r.at) else NoParse
  }

  function RunPart(program: map<string, Block>, wire: Wire, name: string): Slot {
    (s: seq<byte>, depth: nat) => Ended(Validate(Machine(program, wire, s), name, 0, depth))
  }

  predicate Dispatched(w: World, number: int) {
    number in w.cases && w.cases[number] in w.running
  }

  function PartsOf(program: map<string, Block>, wire: Wire): Parts {
    Parts(RunPart(program, wire, COMPONENT), RunPart(program, wire, COMPONENT_TYPE))
  }

  /** One level more: typed_skip_nested_item_stack. Its parts, mc_generated_skip_slot_component and
    * mc_generated_skip_slot_component_type, are the validators of the protocol's representative, which read everything
    * as of the representative, with the items `below`. */
  function RunLevel(w: World, number: int, below: Slot): Slot
    requires Dispatched(w, number)
  {
    var first := w.cases[number];
    ItemOf(w.mode, number, PartsOf(w.running[first], R.WireOf(w.mode, w.known(first), below)))
  }

  /** The generated code's items, nested at most `n` deep. */
  function RunItem(w: World, number: int, n: nat): Slot
    decreases n
  {
    if n == 0 || !Dispatched(w, number) then NoSlot()
    else RunLevel(w, number, RunItem(w, w.cases[number], n - 1))
  }

  // Readers that agree.

  ghost predicate PartsAgree(a: Parts, b: Parts, depth: int) {
    SlotsAgree(a.component, b.component, depth) && SlotsAgree(a.kind, b.kind, depth)
  }

  lemma {:induction false} ListsAgree(one: seq<byte> -> Read<()>, two: seq<byte> -> Read<()>, n: nat, s: seq<byte>)
    requires forall t: seq<byte> :: one(t) == two(t)
    ensures ReadList(one, n, s) == ReadList(two, n, s)
  {
    if n > 0 && one(s).Got? { ListsAgree(one, two, n - 1, one(s).rest); }
  }

  lemma PartsReadAlike(a: Parts, b: Parts, added: nat, removed: nat, depth: nat, s: seq<byte>)
    requires depth > 0 && PartsAgree(a, b, depth - 1)
    ensures SkipParts(a, added, removed, depth, s) == SkipParts(b, added, removed, depth, s)
  {
    ListsAgree(OneOf(a.component, depth), OneOf(b.component, depth), added, s);
    var first := ReadList(OneOf(a.component, depth), added, s);
    if first.Got? { ListsAgree(OneOf(a.kind, depth), OneOf(b.kind, depth), removed, first.rest); }
  }

  lemma AddedAlike(mode: R.Mode, a: Parts, b: Parts, depth: nat, s: seq<byte>)
    requires depth > 0 && PartsAgree(a, b, depth - 1)
    ensures SkipAdded(mode, a, depth, s) == SkipAdded(mode, b, depth, s)
  {
    var added := ReadNumber(mode, s);
    if added.Got? && added.value.number >= 0 {
      var removed := ReadNumber(mode, added.rest);
      if removed.Got? && removed.value.number >= 0 {
        PartsReadAlike(a, b, added.value.number, removed.value.number, depth, removed.rest);
      }
    }
  }

  /** An item calls its parts one level further down. */
  lemma ItemsAlike(mode: R.Mode, protocol: int, a: Parts, b: Parts, depth: nat, s: seq<byte>)
    requires PartsAgree(a, b, depth)
    ensures SkipItem(mode, protocol, a, depth, s) == SkipItem(mode, protocol, b, depth, s)
  {
    var amount := ReadAmount(mode, protocol, s);
    if amount.Got? {
      var id := ReadNumber(mode, amount.rest);
      if id.Got? { AddedAlike(mode, a, b, depth + 1, id.rest); }
    }
  }

  // Items cannot nest without end.

  /** Nothing is read below MAX_DEPTH, so that this many levels are all there are. */
  const LEVELS: nat := MAX_DEPTH + 1

  lemma ItemSlotsAgree(mode: R.Mode, protocol: int, a: Parts, b: Parts, depth: int)
    requires PartsAgree(a, b, depth + 1)
    ensures SlotsAgree(ItemOf(mode, protocol, a), ItemOf(mode, protocol, b), depth)
  {
    forall s: seq<byte>, d: nat | d > depth ensures ItemOf(mode, protocol, a)(s, d) == ItemOf(mode, protocol, b)(s, d) {
      ItemsAlike(mode, protocol, a, b, d, s);
    }
  }

  lemma MeantPartsAgree(doc: Doc, v: Wire, w: Wire, depth: int)
    requires WiresAgree(v, w, depth)
    ensures PartsAgree(MeantParts(doc, v), MeantParts(doc, w), depth)
  {
    forall name, s: seq<byte>, d: nat | d > depth ensures MeantPart(doc, v, name)(s, d) == MeantPart(doc, w, name)(s, d) {
      AliasesAlike(Input(doc, v, s), w, name, 0, d);
    }
  }

  lemma RuntimesAgree(mode: R.Mode, known: bool, a: Slot, b: Slot, depth: int)
    requires SlotsAgree(a, b, depth)
    ensures WiresAgree(R.WireOf(mode, known, a), R.WireOf(mode, known, b), depth)
  {}

  lemma LevelsAgree(doc: Doc, mode: R.Mode, p: Protocol, a: Slot, b: Slot, depth: int, a': Slot, b': Slot)
    requires SlotsAgree(a, b, depth + 1) && a' == Level(doc, mode, p, a) && b' == Level(doc, mode, p, b)
    ensures SlotsAgree(a', b', depth)
  {
    var v, w := R.WireOf(mode, p.known, a), R.WireOf(mode, p.known, b);
    RuntimesAgree(mode, p.known, a, b, depth + 1);
    MeantPartsAgree(doc, v, w, depth + 1);
    ItemSlotsAgree(mode, p.number, MeantParts(doc, v), MeantParts(doc, w), depth);
  }

  /** More levels than there is room for below a depth change nothing there. */
  lemma {:induction false} LevelsSuffice(doc: Doc, mode: R.Mode, p: Protocol, n: nat, m: nat, depth: int, a: Slot,
                                         b: Slot)
    requires n + depth >= MAX_DEPTH && m + depth >= MAX_DEPTH
    requires a == Meant(doc, mode, p, n) && b == Meant(doc, mode, p, m)
    ensures SlotsAgree(a, b, depth)
    decreases n
  {
    if depth >= MAX_DEPTH {
      NothingIsDeeper(doc, mode, p, n);
      NothingIsDeeper(doc, mode, p, m);
    } else {
      var c, d := Meant(doc, mode, p, n - 1), Meant(doc, mode, p, m - 1);
      LevelsSuffice(doc, mode, p, n - 1, m - 1, depth + 1, c, d);
      LevelsAgree(doc, mode, p, c, d, depth, a, b);
    }
  }

  lemma NothingIsDeeper(doc: Doc, mode: R.Mode, p: Protocol, n: nat)
    ensures SlotsAgree(Meant(doc, mode, p, n), NoSlot(), MAX_DEPTH)
  {}

  /** The nested items of a document, however deep. */
  function MeantItem(doc: Doc, mode: R.Mode, p: Protocol): Slot {
    Meant(doc, mode, p, LEVELS)
  }

  /** An item is read by reading components that are read with items that are read so: the equation that the C
    * functions are written as. */
  lemma ItemsAreRecursive(doc: Doc, mode: R.Mode, p: Protocol, s: seq<byte>, depth: nat)
    ensures MeantItem(doc, mode, p)(s, depth)
         == Level(doc, mode, p, MeantItem(doc, mode, p))(s, depth)
  {
    var item := MeantItem(doc, mode, p);
    LevelsSuffice(doc, mode, p, LEVELS, LEVELS + 1, -1, item, Level(doc, mode, p, item));
  }

  // The generated code reads items as they are meant.

  /** The validators of the representative `number` are what C makes of what `doc` compiles to. */
  ghost predicate Implements(w: World, number: int, doc: Doc, program: map<string, Block>) {
    && Dispatched(w, number) && w.cases[number] == number
    && IsCompiled(doc, COMPONENT, program) && IsReadByC(program, w.running[number])
    && WellNamedBelow(doc, COMPONENT) && DefaultsSitBelow(doc, COMPONENT)
    && Reachable(doc, COMPONENT, COMPONENT_TYPE)
  }

  lemma RootIsReachable(doc: Doc, root: string)
    ensures Reachable(doc, root, root)
  {
    assert Walk(doc.types, {root}, {}, [root]);
  }

  /** Either validator ends where what it validates does. */
  lemma PartIsMeant(w: World, number: int, doc: Doc, program: map<string, Block>, wire: Wire, name: string,
                    s: seq<byte>, at: nat, depth: nat)
    requires Implements(w, number, doc, program) && WellTyped(wire) && at <= |s|
    requires name == COMPONENT || name == COMPONENT_TYPE
    ensures Ended(Validate(Machine(w.running[number], wire, s), name, at, depth))
         == AsParsed(ReadAlias(Input(doc, wire, s), name, at, depth))
  {
    RootIsReachable(doc, COMPONENT);
    assert COMPONENT[4] != ' ' && |COMPONENT| != |SLOT| && |COMPONENT_TYPE| != |SLOT|;
    DocumentIsCorrect(Input(doc, wire, s), COMPONENT, program, w.running[number], name, at, depth);
  }

  function Known(w: World, number: int): Protocol {
    Protocol(w.known(number), number)
  }

  /** Where the items below agree, so do those of one level more. */
  ghost predicate LevelMatches(w: World, number: int, doc: Doc, a: Slot, b: Slot)
    requires Dispatched(w, number)
  {
    SlotsAgree(a, b, -1) ==> SlotsAgree(RunLevel(w, number, a), Level(doc, w.mode, Known(w, number), b), -1)
  }

  ghost predicate LevelsMatch(w: World, number: int, doc: Doc) {
    Dispatched(w, number) && w.cases[number] == number && forall a: Slot, b: Slot :: LevelMatches(w, number, doc, a, b)
  }

  lemma OneMoreLevel(w: World, number: int, doc: Doc, a: Slot, b: Slot, a': Slot, b': Slot)
    requires LevelsMatch(w, number, doc) && SlotsAgree(a, b, -1)
    requires a' == RunLevel(w, number, a) && b' == Level(doc, w.mode, Known(w, number), b)
    ensures SlotsAgree(a', b', -1)
  {
    assert LevelMatches(w, number, doc, a, b);
  }

  lemma {:induction false} RunByLevels(w: World, number: int, doc: Doc, n: nat, a: Slot, b: Slot)
    requires LevelsMatch(w, number, doc)
    requires a == RunItem(w, number, n) && b == Meant(doc, w.mode, Known(w, number), n)
    ensures SlotsAgree(a, b, -1)
    decreases n
  {
    if n > 0 {
      var c, d := RunItem(w, number, n - 1), Meant(doc, w.mode, Known(w, number), n - 1);
      RunByLevels(w, number, doc, n - 1, c, d);
      OneMoreLevel(w, number, doc, c, d, a, b);
    }
  }

  /** The generated code's items are those that the document means. */
  lemma RunIsMeant(w: World, number: int, doc: Doc, program: map<string, Block>, n: nat, a: Slot, b: Slot)
    requires Implements(w, number, doc, program)
    requires a == RunItem(w, number, n) && b == Meant(doc, w.mode, Known(w, number), n)
    ensures SlotsAgree(a, b, -1)
  {
    forall c: Slot, d: Slot ensures LevelMatches(w, number, doc, c, d) {
      if SlotsAgree(c, d, -1) {
        RunLevelAgrees(w, number, doc, program, c, d, RunLevel(w, number, c), Level(doc, w.mode, Known(w, number), d));
      }
    }
    RunByLevels(w, number, doc, n, a, b);
  }

  lemma RunLevelAgrees(w: World, number: int, doc: Doc, program: map<string, Block>, a: Slot, b: Slot, a': Slot,
                       b': Slot)
    requires Implements(w, number, doc, program) && SlotsAgree(a, b, -1)
    requires a' == RunLevel(w, number, a)
    requires b' == Level(doc, w.mode, Known(w, number), b)
    ensures SlotsAgree(a', b', -1)
  {
    var v, m := R.WireOf(w.mode, w.known(number), a), R.WireOf(w.mode, w.known(number), b);
    RuntimesAgree(w.mode, w.known(number), a, b, -1);
    R.RuntimeIsTyped(w.mode, w.known(number), a);
    RunPartsAgree(w, number, doc, program, v, m);
    ItemSlotsAgree(w.mode, number, PartsOf(w.running[number], v), MeantParts(doc, m), -1);
  }

  lemma RunPartsAgree(w: World, number: int, doc: Doc, program: map<string, Block>, v: Wire, m: Wire)
    requires Implements(w, number, doc, program) && WiresAgree(v, m, -1) && WellTyped(v)
    ensures PartsAgree(PartsOf(w.running[number], v), MeantParts(doc, m), -1)
  {
    forall name, s: seq<byte>, d: nat | name == COMPONENT || name == COMPONENT_TYPE
      ensures RunPart(w.running[number], v, name)(s, d) == MeantPart(doc, m, name)(s, d)
    {
      PartIsMeant(w, number, doc, program, v, name, s, 0, d);
      AliasesAlike(Input(doc, v, s), m, name, 0, d);
    }
  }

  // What an item is read as depends on the protocol's number.

  /** Items are there from 766 on; protocol 766 has a one-byte count, which differs only where a count may be longer than
    * the shortest. */
  predicate SameNumbers(mode: R.Mode, n: int, m: int) {
    (n < 766 <==> m < 766) && (mode.Strict? || (n == 766 <==> m == 766))
  }

  lemma ShortNumber(s: seq<byte>)
    requires s != [] && s[0] >= 128 && R.ReadVarInt(R.Strict, s).Parsed?
    ensures !(0 <= R.ReadVarInt(R.Strict, s).value.number < 128)
  {
    R.P.WordHolds(s);
    var d := R.V.DecodeUnder(s, 5, 0x0f);
    assert d.size >= 2;
    assert |R.V.Encode(d.value)| >= 2;
  }

  lemma OneByteAmount(mode: R.Mode, s: seq<byte>)
    requires s != []
    ensures var b: int := s[0]; R.ReadFixed(mode, I8, s) == Parsed(Whole(I8, if b < 128 then b else b - 0x100), 1)
  {
    assert s[..1][..0] == [] && R.Big(s[..1]) == s[0];
    R.Limits();
  }

  /** In strict mode a count of one byte reads alike, and no other is accepted. */
  lemma StrictItems(n: int, parts: Parts, depth: nat, s: seq<byte>)
    requires n > 766
    ensures SkipItem(R.Strict, 766, parts, depth, s) == SkipItem(R.Strict, n, parts, depth, s)
  {
    if s != [] {
      OneByteAmount(R.Strict, s);
      if s[0] < 128 { R.OneByteVarInt(R.Strict, s); } else if R.ReadVarInt(R.Strict, s).Parsed? { ShortNumber(s); }
    }
  }

  lemma NumbersAlike(mode: R.Mode, n: int, m: int, parts: Parts)
    requires SameNumbers(mode, n, m)
    ensures SlotsAgree(ItemOf(mode, n, parts), ItemOf(mode, m, parts), -1)
  {
    forall s: seq<byte>, d: nat ensures ItemOf(mode, n, parts)(s, d) == ItemOf(mode, m, parts)(s, d) {
      if mode.Strict? && n == 766 && m > 766 { StrictItems(m, parts, d, s); }
      if mode.Strict? && m == 766 && n > 766 { StrictItems(n, parts, d, s); }
    }
  }

  /** Components and their ids stay in a scope. */
  ghost predicate PartsWithin(doc: Doc, c: Scope) {
    DocWithin(doc, c) && COMPONENT in c.names && COMPONENT_TYPE in c.names
  }

  lemma RuntimesAgreeOn(c: Scope, mode: R.Mode, p: Protocol, q: Protocol, a: Slot, b: Slot)
    requires (c.positions ==> p.known == q.known) && (c.items ==> SlotsAgree(a, b, -1))
    ensures WiresAgreeOn(c, R.WireOf(mode, p.known, a), R.WireOf(mode, q.known, b), -1)
  {}

  lemma MeantPartsAgreeOn(doc: Doc, c: Scope, v: Wire, w: Wire)
    requires PartsWithin(doc, c) && WiresAgreeOn(c, v, w, -1)
    ensures PartsAgree(MeantParts(doc, v), MeantParts(doc, w), -1)
  {
    forall name, s: seq<byte>, d: nat | name == COMPONENT || name == COMPONENT_TYPE
      ensures MeantPart(doc, v, name)(s, d) == MeantPart(doc, w, name)(s, d)
    {
      AliasesAlikeOn(c, Input(doc, v, s), w, name, 0, d);
    }
  }

  lemma EitherLevel(doc: Doc, c: Scope, mode: R.Mode, p: Protocol, q: Protocol, a: Slot, b: Slot, a': Slot, b': Slot)
    requires PartsWithin(doc, c) && (c.positions ==> p.known == q.known) && SameNumbers(mode, p.number, q.number)
    requires SlotsAgree(a, b, -1) && a' == Level(doc, mode, p, a) && b' == Level(doc, mode, q, b)
    ensures SlotsAgree(a', b', -1)
  {
    var v, w := R.WireOf(mode, p.known, a), R.WireOf(mode, q.known, b);
    RuntimesAgreeOn(c, mode, p, q, a, b);
    MeantPartsAgreeOn(doc, c, v, w);
    ItemSlotsAgree(mode, p.number, MeantParts(doc, v), MeantParts(doc, w), -1);
    NumbersAlike(mode, p.number, q.number, MeantParts(doc, w));
  }

  lemma {:induction false} ItemsOfEither(doc: Doc, c: Scope, mode: R.Mode, p: Protocol, q: Protocol, n: nat, a: Slot,
                                         b: Slot)
    requires PartsWithin(doc, c) && (c.positions ==> p.known == q.known) && SameNumbers(mode, p.number, q.number)
    requires a == Meant(doc, mode, p, n) && b == Meant(doc, mode, q, n)
    ensures SlotsAgree(a, b, -1)
    decreases n
  {
    if n > 0 {
      var d, e := Meant(doc, mode, p, n - 1), Meant(doc, mode, q, n - 1);
      ItemsOfEither(doc, c, mode, p, q, n - 1, d, e);
      EitherLevel(doc, c, mode, p, q, d, e, a, b);
    }
  }

  /** A whole item that is an empty stack. */
  lemma EmptyStack(doc: Doc, mode: R.Mode, p: Protocol, s: seq<byte>, depth: nat)
    requires s != [] && s[0] == 0 && depth <= MAX_DEPTH
    ensures MeantItem(doc, mode, p)(s, depth) == if p.number < 766 then NoParse else Parsed(Uninspected, 1)
  {
    OneByteAmount(mode, s);
    R.OneByteVarInt(mode, s);
  }

  lemma TwoByteZero(s: seq<byte>)
    requires |s| >= 2 && s[0] == 0x80 && s[1] == 0
    ensures R.ReadVarInt(R.Compatible, s) == Parsed(Whole(VarInt, 0), 2)
  {
    assert s[1..][0] == 0;
    assert R.V.ExtentUnder(s[1..], 4, 0x0f) == R.V.Ends(1);
    assert R.V.ExtentUnder(s, 5, 0x0f) == R.V.Ends(2);
    assert s[..2][1..] == [0] && [0][1..] == [];
    assert R.V.Digits([0]) == 0;
    assert R.V.Digits(s[..2]) == 0;
  }

  /** An empty stack whose count takes two bytes: refused as of protocol 766, and read as of those that follow. */
  lemma OldItemsDiffer(doc: Doc, p: Protocol, s: seq<byte>, depth: nat)
    requires |s| >= 2 && s[0] == 0x80 && s[1] == 0 && depth <= MAX_DEPTH && p.number >= 766
    ensures MeantItem(doc, R.Compatible, p)(s, depth) == if p.number == 766 then NoParse else Parsed(Uninspected, 2)
  {
    TwoByteZero(s);
    OneByteAmount(R.Compatible, s);
  }

  /** Items of two protocols are the same if and only if the numbers agree as far as the decode mode can tell. */
  lemma ItemsAgreeExactly(doc: Doc, c: Scope, mode: R.Mode, p: Protocol, q: Protocol)
    requires PartsWithin(doc, c) && (c.positions ==> p.known == q.known)
    ensures SlotsAgree(MeantItem(doc, mode, p), MeantItem(doc, mode, q), -1) <==> SameNumbers(mode, p.number, q.number)
  {
    var a, b := MeantItem(doc, mode, p), MeantItem(doc, mode, q);
    if SameNumbers(mode, p.number, q.number) {
      ItemsOfEither(doc, c, mode, p, q, LEVELS, a, b);
    } else if p.number < 766 <==> q.number < 766 {
      OldItemsDiffer(doc, p, [0x80, 0], 0);
      OldItemsDiffer(doc, q, [0x80, 0], 0);
      assert a([0x80, 0], 0) != b([0x80, 0], 0);
    } else {
      EmptyStack(doc, mode, p, [0], 0);
      EmptyStack(doc, mode, q, [0], 0);
      assert a([0], 0) != b([0], 0);
    }
  }

  // Items delimit themselves.

  lemma OffStays(r: Parsed, s: seq<byte>, r': Parsed, t: seq<byte>)
    requires Decided(r, s, r', t)
    ensures StaysAt(Off(r, s), s, Off(r', t), t)
  {
    if r.Parsed? && r.size <= |s| && Starts(s, t, r.size) { assert s[..r.size] <= t; }
  }

  lemma NumberStays(mode: R.Mode, s: seq<byte>, t: seq<byte>)
    ensures StaysAt(ReadNumber(mode, s), s, ReadNumber(mode, t), t)
  {
    R.VarIntIsDecided(mode, s, t);
    OffStays(R.ReadVarInt(mode, s), s, R.ReadVarInt(mode, t), t);
  }

  lemma AmountStays(mode: R.Mode, protocol: int, s: seq<byte>, t: seq<byte>)
    ensures StaysAt(ReadAmount(mode, protocol, s), s, ReadAmount(mode, protocol, t), t)
  {
    if protocol == 766 {
      R.FixedIsDecided(mode, I8, s, t);
      OffStays(R.ReadFixed(mode, I8, s), s, R.ReadFixed(mode, I8, t), t);
    } else {
      NumberStays(mode, s, t);
    }
  }

  ghost predicate PartsDelimit(parts: Parts) {
    R.SlotDelimits(parts.component) && R.SlotDelimits(parts.kind)
  }

  lemma OneStays(slot: Slot, depth: nat)
    requires R.SlotDelimits(slot)
    ensures Stays(OneOf(slot, depth))
  {
    forall s: seq<byte>, t: seq<byte> ensures StaysAt(OneOf(slot, depth)(s), s, OneOf(slot, depth)(t), t) {
      assert Decided(slot(s, depth), s, slot(t, depth), t);
      OffStays(slot(s, depth), s, slot(t, depth), t);
    }
  }

  lemma PartsStay(parts: Parts, added: nat, removed: nat, depth: nat, s: seq<byte>, t: seq<byte>)
    requires PartsDelimit(parts)
    ensures StaysAt(SkipParts(parts, added, removed, depth, s), s, SkipParts(parts, added, removed, depth, t), t)
  {
    var a, b := OneOf(parts.component, depth), OneOf(parts.kind, depth);
    OneStays(parts.component, depth);
    OneStays(parts.kind, depth);
    var first := ReadList(a, added, s);
    if first.Got? {
      var t' := Behind(s, t, first.rest);
      ListStays(a, added, s, t);
      ListStays(b, removed, first.rest, t');
      BothStay(s, t, first, ReadList(a, added, t), ReadList(b, removed, first.rest), ReadList(b, removed, t'),
               SkipParts(parts, added, removed, depth, s), SkipParts(parts, added, removed, depth, t));
    }
  }

  lemma RemovedStays(mode: R.Mode, parts: Parts, added: int, depth: nat, s: seq<byte>, t: seq<byte>)
    requires PartsDelimit(parts)
    ensures StaysAt(SkipRemoved(mode, parts, added, depth, s), s, SkipRemoved(mode, parts, added, depth, t), t)
  {
    var r := ReadNumber(mode, s);
    if r.Got? && added >= 0 && r.value.number >= 0 {
      var t', n := Behind(s, t, r.rest), r.value.number;
      NumberStays(mode, s, t);
      PartsStay(parts, added, n, depth, r.rest, t');
      BothStay(s, t, r, ReadNumber(mode, t), SkipParts(parts, added, n, depth, r.rest),
               SkipParts(parts, added, n, depth, t'), SkipRemoved(mode, parts, added, depth, s),
               SkipRemoved(mode, parts, added, depth, t));
    }
  }

  lemma AddedStays(mode: R.Mode, parts: Parts, depth: nat, s: seq<byte>, t: seq<byte>)
    requires PartsDelimit(parts)
    ensures StaysAt(SkipAdded(mode, parts, depth, s), s, SkipAdded(mode, parts, depth, t), t)
  {
    var r := ReadNumber(mode, s);
    if r.Got? {
      var t', n := Behind(s, t, r.rest), r.value.number;
      NumberStays(mode, s, t);
      RemovedStays(mode, parts, n, depth, r.rest, t');
      BothStay(s, t, r, ReadNumber(mode, t), SkipRemoved(mode, parts, n, depth, r.rest),
               SkipRemoved(mode, parts, n, depth, t'), SkipAdded(mode, parts, depth, s),
               SkipAdded(mode, parts, depth, t));
    }
  }

  lemma BodyStays(mode: R.Mode, parts: Parts, depth: nat, s: seq<byte>, t: seq<byte>)
    requires PartsDelimit(parts)
    ensures StaysAt(SkipBody(mode, parts, depth, s), s, SkipBody(mode, parts, depth, t), t)
  {
    var r := ReadNumber(mode, s);
    if r.Got? {
      var t' := Behind(s, t, r.rest);
      NumberStays(mode, s, t);
      AddedStays(mode, parts, depth, r.rest, t');
      BothStay(s, t, r, ReadNumber(mode, t), SkipAdded(mode, parts, depth, r.rest), SkipAdded(mode, parts, depth, t'),
               SkipBody(mode, parts, depth, s), SkipBody(mode, parts, depth, t));
    }
  }

  lemma StackStays(mode: R.Mode, parts: Parts, amount: int, depth: nat, s: seq<byte>, t: seq<byte>)
    requires PartsDelimit(parts)
    ensures StaysAt(SkipStack(mode, parts, amount, depth, s), s, SkipStack(mode, parts, amount, depth, t), t)
  {
    if amount == 0 {
      assert t[0..] == t && s[0..] == s;
    } else if 0 < amount <= MAX_STACK {
      BodyStays(mode, parts, depth + 1, s, t);
    }
  }

  lemma ItemStays(mode: R.Mode, protocol: int, parts: Parts, depth: nat, s: seq<byte>, t: seq<byte>)
    requires PartsDelimit(parts)
    ensures StaysAt(SkipItem(mode, protocol, parts, depth, s), s, SkipItem(mode, protocol, parts, depth, t), t)
  {
    var r := ReadAmount(mode, protocol, s);
    if r.Got? && protocol >= 766 && depth <= MAX_DEPTH {
      var t', n := Behind(s, t, r.rest), r.value.number;
      AmountStays(mode, protocol, s, t);
      StackStays(mode, parts, n, depth, r.rest, t');
      BothStay(s, t, r, ReadAmount(mode, protocol, t), SkipStack(mode, parts, n, depth, r.rest),
               SkipStack(mode, parts, n, depth, t'), SkipItem(mode, protocol, parts, depth, s),
               SkipItem(mode, protocol, parts, depth, t));
    }
  }

  lemma ExtentIsDecided(r: Read<()>, s: seq<byte>, r': Read<()>, t: seq<byte>)
    requires StaysAt(r, s, r', t)
    ensures Decided(Extent(r, s), s, Extent(r', t), t)
  {
    var n := Extent(r, s);
    if n.Parsed? && s[..n.size] <= t { assert s[..n.size] == t[..n.size]; }
  }

  lemma ItemDelimits(mode: R.Mode, protocol: int, parts: Parts)
    requires PartsDelimit(parts)
    ensures R.SlotDelimits(ItemOf(mode, protocol, parts))
  {
    var slot := ItemOf(mode, protocol, parts);
    forall depth: nat, s: seq<byte>, t: seq<byte> ensures Decided(slot(s, depth), s, slot(t, depth), t) {
      ItemStays(mode, protocol, parts, depth, s, t);
      ExtentIsDecided(SkipItem(mode, protocol, parts, depth, s), s, SkipItem(mode, protocol, parts, depth, t), t);
    }
  }

  lemma PartDelimits(program: map<string, Block>, wire: Wire, name: string)
    requires SelfDelimiting(wire)
    ensures R.SlotDelimits(RunPart(program, wire, name))
  {
    var slot := RunPart(program, wire, name);
    forall depth: nat, s: seq<byte>, t: seq<byte> ensures Decided(slot(s, depth), s, slot(t, depth), t) {
      var m := Machine(program, wire, s);
      var r := Validate(m, name, 0, depth);
      if r.Running? && s[..r.at] <= t {
        assert s[..r.at] == t[..r.at];
        assert SameBytes(s, 0, t, 0, r.at) by {
          forall k | 0 <= k < r.at ensures s[k] == t[k] { assert s[k] == s[..r.at][k] == t[..r.at][k]; }
        }
        Locality.ValidateIsLocal(m, name, 0, depth, t, 0);
      }
    }
  }

  /** The generated code's items delimit themselves, and so do all readers of its validators. */
  lemma {:induction false} RunDelimits(w: World, number: int, n: nat, a: Slot)
    requires a == RunItem(w, number, n)
    ensures R.SlotDelimits(a) && SelfDelimiting(R.WireOf(w.mode, w.known(number), a))
    decreases n
  {
    if n > 0 && Dispatched(w, number) {
      var first := w.cases[number];
      var below := RunItem(w, first, n - 1);
      RunDelimits(w, first, n - 1, below);
      RunLevelDelimits(w, number, below, a);
    }
    R.RuntimeDelimitsItself(w.mode, w.known(number), a);
  }

  lemma RunLevelDelimits(w: World, number: int, below: Slot, a: Slot)
    requires Dispatched(w, number) && SelfDelimiting(R.WireOf(w.mode, w.known(w.cases[number]), below))
    requires a == RunLevel(w, number, below)
    ensures R.SlotDelimits(a)
  {
    var first := w.cases[number];
    var running, wire := w.running[first], R.WireOf(w.mode, w.known(first), below);
    PartDelimits(running, wire, COMPONENT);
    PartDelimits(running, wire, COMPONENT_TYPE);
    ItemDelimits(w.mode, number, PartsOf(running, wire));
  }
}
