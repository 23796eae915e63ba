/** What a schema means depends on the readers that it uses, and on its nested item parser only below the depth where it
  * is read. */
module ComponentWires {
  import opened Bytes
  import opened Wire
  import opened ComponentSchema

  /** A reader of the front of some bytes at a depth. */
  type Slot = (seq<byte>, nat) -> Parsed

  /** Two parsers agree below a depth. */
  ghost predicate SlotsAgree(a: Slot, b: Slot, depth: int) {
    forall s: seq<byte>, d: nat :: d > depth ==> a(s, d) == b(s, d)
  }

  ghost predicate WiresAgree(a: Wire, b: Wire, depth: int) {
    (forall p, s: seq<byte> :: a.read(p, s) == b.read(p, s)) && SlotsAgree(a.slot, b.slot, depth)
  }

  /** Some aliases, and whether what they stand for uses positions and nested items. */
  datatype Scope = Scope(names: iset<string>, positions: bool, items: bool)

  /** A schema uses no aliases and no readers but those in scope. A mapper is read as a scalar, and so is a count. */
  ghost predicate Within(s: Schema, c: Scope) {
    match s
    case Primitive(p) => InScope(c, p)
    case Alias(name) => if name == SLOT then c.items else name in c.names
    case Bitflags(base) => Within(base, c)
    case Container(fields) => FieldsWithin(fields, c)
    case Array(_, _, element) => Within(element, c)
    case Optional(inner) => Within(inner, c)
    case Switch(_, cases, fallback) => CasesWithin(cases, c) && (fallback.Some? ==> Within(fallback.value, c))
    case RegistryHolder(inline) => Within(inline, c)
    case RegistryHolderSet(base, member) => Within(base, c) && Within(member, c)
    case _ => true
  }

  ghost predicate FieldsWithin(fields: Fields, c: Scope) {
    fields.Field? ==> Within(fields.schema, c) && FieldsWithin(fields.rest, c)
  }

  ghost predicate CasesWithin(cases: Cases, c: Scope) {
    cases.Case? ==> Within(cases.body, c) && CasesWithin(cases.rest, c)
  }

  ghost predicate DefinitionWithin(doc: Doc, c: Scope, name: string) {
    name in doc.types && name in c.names ==> Within(doc.types[name], c)
  }

  /** The definitions of all aliases in scope stay in it. */
  ghost predicate DocWithin(doc: Doc, c: Scope) {
    forall name :: DefinitionWithin(doc, c, name)
  }

  /** Two wires agree on the readers in scope, and below a depth on nested items. */
  ghost predicate WiresAgreeOn(c: Scope, a: Wire, b: Wire, depth: int) {
    ReadsAgree(c, a, b) && (c.items ==> SlotsAgree(a.slot, b.slot, depth))
  }

  predicate InScope(c: Scope, p: Prim) {
    p == Position ==> c.positions
  }

  ghost predicate ReadsAgree(c: Scope, a: Wire, b: Wire) {
    forall p, s: seq<byte> :: InScope(c, p) ==> a.read(p, s) == b.read(p, s)
  }

  /** The scope of everything. */
  ghost function Everything(): Scope {
    Scope((iset name: string | |name| >= 0), true, true)
  }

  ghost predicate AliasesIn(names: set<string>, c: Scope) {
    forall name <- names :: name == SLOT || name in c.names
  }

  /** Where positions and items are in scope, so is all that uses no other aliases. */
  lemma {:induction false} AllIsWithin(s: Schema, c: Scope)
    requires c.positions && c.items && AliasesIn(Aliases(s), c)
    ensures Within(s, c)
    decreases s
  {
    match s
    case Bitflags(base) => AllIsWithin(base, c);
    case Container(fields) => AllFieldsAreWithin(fields, c);
    case Array(_, _, element) => AllIsWithin(element, c);
    case Optional(inner) => AllIsWithin(inner, c);
    case Switch(_, cases, fallback) =>
      AllCasesAreWithin(cases, c);
      if fallback.Some? { AllIsWithin(fallback.value, c); }
    case RegistryHolder(inline) => AllIsWithin(inline, c);
    case RegistryHolderSet(base, member) =>
      AllIsWithin(base, c);
      AllIsWithin(member, c);
    case _ =>
  }

  lemma {:induction false} AllFieldsAreWithin(fields: Fields, c: Scope)
    requires c.positions && c.items && AliasesIn(FieldAliases(fields), c)
    ensures FieldsWithin(fields, c)
    decreases fields
  {
    if fields.Field? {
      AllIsWithin(fields.schema, c);
      AllFieldsAreWithin(fields.rest, c);
    }
  }

  lemma {:induction false} AllCasesAreWithin(cases: Cases, c: Scope)
    requires c.positions && c.items && AliasesIn(CaseAliases(cases), c)
    ensures CasesWithin(cases, c)
    decreases cases
  {
    if cases.Case? {
      AllIsWithin(cases.body, c);
      AllCasesAreWithin(cases.rest, c);
    }
  }

  lemma {:induction false} PickedIsWithin(doc: Doc, selector: Selector, cases: Cases, c: Scope)
    requires CasesWithin(cases, c) && Pick(doc, selector, cases).Some?
    ensures Within(Pick(doc, selector, cases).value.body, c)
    decreases cases
  {
    if Pick(doc, selector, cases.rest).Some? { PickedIsWithin(doc, selector, cases.rest, c); }
  }

  /** What an alias means at a depth depends on its readers, and on the nested item parser only at greater depths. */
  lemma AliasesAlike(i: Input, w: Wire, name: string, at: nat, depth: nat)
    requires at <= |i.data| && WiresAgree(i.wire, w, depth)
    ensures ReadAlias(i.(wire := w), name, at, depth) == ReadAlias(i, name, at, depth)
  {
    forall name ensures DefinitionWithin(i.doc, Everything(), name) {
      if name in i.doc.types { AllIsWithin(i.doc.types[name], Everything()); }
    }
    AliasesAlikeOn(Everything(), i, w, name, at, depth);
  }

  lemma SelectorsAlike(c: Scope, i: Input, w: Wire, s: Schema, inlined: set<string>, at: nat)
    requires at <= |i.data| && ReadsAgree(c, i.wire, w)
    ensures ReadSelector(i.(wire := w), s, inlined, at) == ReadSelector(i, s, inlined, at)
    decreases i.doc.types.Keys - inlined, Size(s)
  {
    match s
    case Primitive(p) => if p != Position { assert i.wire.read(p, i.data[at..]) == w.read(p, i.data[at..]); }
    case Alias(name) =>
      if name in i.doc.types && name !in inlined { SelectorsAlike(c, i, w, i.doc.types[name], inlined + {name}, at); }
    case Mapper(base, _) => SelectorsAlike(c, i, w, base, inlined, at);
    case Bitflags(base) => SelectorsAlike(c, i, w, base, inlined, at);
    case _ =>
  }

  /** The same for what stays in a scope, of readers that agree there. */
  lemma {:induction false} AliasesAlikeOn(c: Scope, i: Input, w: Wire, name: string, at: nat, depth: nat)
    requires at <= |i.data| && WiresAgreeOn(c, i.wire, w, depth)
    requires DocWithin(i.doc, c) && name in c.names
    ensures ReadAlias(i.(wire := w), name, at, depth) == ReadAlias(i, name, at, depth)
    decreases Headroom(depth) + 1, 0, 0
  {
    assert DefinitionWithin(i.doc, c, name);
    if depth <= MAX_DEPTH && name in i.doc.types { ReadsAlike(c, i, w, i.doc.types[name], map[], at, depth); }
  }

  // The same reading with other readers.

  ghost predicate ReadAlike(i: Input, w: Wire, s: Schema, env: map<string, Selector>, at: nat, depth: nat)
    requires at <= |i.data|
  {
    Read(i.(wire := w), s, env, at, depth) == Read(i, s, env, at, depth)
  }

  ghost predicate RepeatAlike(i: Input, w: Wire, s: Schema, env: map<string, Selector>, n: nat, at: nat, depth: nat)
    requires at <= |i.data|
  {
    Repeat(i.(wire := w), s, env, n, at, depth) == Repeat(i, s, env, n, at, depth)
  }

  ghost predicate FieldAlike(i: Input, w: Wire, whole: Schema, fields: Fields, env: map<string, Selector>, at: nat,
                             depth: nat)
    requires at <= |i.data|
  {
    ReadFields(i.(wire := w), whole, fields, env, at, depth) == ReadFields(i, whole, fields, env, at, depth)
  }

  lemma PrimitivesAlike(c: Scope, i: Input, w: Wire, p: Prim, at: nat)
    requires at <= |i.data| && ReadsAgree(c, i.wire, w) && InScope(c, p)
    ensures ReadAt(w, p, i.data, at) == ReadAt(i.wire, p, i.data, at)
  {
    assert i.wire.read(p, i.data[at..]) == w.read(p, i.data[at..]);
  }

  lemma ArraysAlike(c: Scope, i: Input, w: Wire, s: Schema, env: map<string, Selector>, at: nat, depth: nat)
    requires at <= |i.data| && WiresAgreeOn(c, i.wire, w, depth) && s.Array?
    requires forall n: nat, start: nat :: start <= |i.data| ==> RepeatAlike(i, w, s.element, env, n, start, depth)
    ensures ReadAlike(i, w, s, env, at, depth)
  {
    if s.countType.Some? { SelectorsAlike(c, i, w, s.countType.value, {}, at); }
    var r := ReadCount(i, s.count, s.countType, env, at);
    if r.Reading? && !OutOfRange(r.selector.value) {
      assert RepeatAlike(i, w, s.element, env, Truncated(r.selector.value), r.at, depth);
    }
  }

  lemma OptionalsAlike(i: Input, w: Wire, inner: Schema, env: map<string, Selector>, at: nat, depth: nat, r: Parsed)
    requires at <= |i.data| && r == ReadAt(i.wire, Bool, i.data, at) && r == ReadAt(w, Bool, i.data, at)
    requires r.Parsed? ==> ReadAlike(i, w, inner, env, at + r.size, depth)
    ensures ReadAlike(i, w, Optional(inner), env, at, depth)
  {}

  lemma HoldersAlike(i: Input, w: Wire, inline: Schema, env: map<string, Selector>, at: nat, depth: nat, r: Parsed)
    requires at <= |i.data| && r == ReadAt(i.wire, VarInt, i.data, at) && r == ReadAt(w, VarInt, i.data, at)
    requires r.Parsed? ==> ReadAlike(i, w, inline, env, at + r.size, depth)
    ensures ReadAlike(i, w, RegistryHolder(inline), env, at, depth)
  {}

  lemma BasesAlike(i: Input, w: Wire, base: Schema, member: Schema, env: map<string, Selector>, at: nat, depth: nat,
                   r: Parsed)
    requires at <= |i.data| && r == ReadAt(i.wire, VarInt, i.data, at) && r == ReadAt(w, VarInt, i.data, at)
    requires r.Parsed? && !IsNegative(r.value) && EqualsLiteral(r.value, 0)
    requires ReadAlike(i, w, base, env, at + r.size, depth)
    ensures ReadAlike(i, w, RegistryHolderSet(base, member), env, at, depth)
  {}

  lemma HolderSetsAlike(i: Input, w: Wire, base: Schema, member: Schema, env: map<string, Selector>, at: nat, depth: nat,
                        r: Parsed)
    requires at <= |i.data| && r == ReadAt(i.wire, VarInt, i.data, at) && r == ReadAt(w, VarInt, i.data, at)
    requires r.Parsed? ==> !EqualsLiteral(r.value, 0)
    requires r.Parsed? && Truncated(r.value) >= 1 ==>
               RepeatAlike(i, w, member, env, Truncated(r.value) - 1, at + r.size, depth)
    ensures ReadAlike(i, w, RegistryHolderSet(base, member), env, at, depth)
  {}

  lemma NegativesAlike(i: Input, w: Wire, base: Schema, member: Schema, env: map<string, Selector>, at: nat, depth: nat,
                       r: Parsed)
    requires at <= |i.data| && r == ReadAt(i.wire, VarInt, i.data, at) && r == ReadAt(w, VarInt, i.data, at)
    requires r.Parsed? ==> IsNegative(r.value)
    ensures ReadAlike(i, w, RegistryHolderSet(base, member), env, at, depth)
  {}

  lemma {:induction false} ReadsAlike(c: Scope, i: Input, w: Wire, s: Schema, env: map<string, Selector>, at: nat, depth: nat)
    requires at <= |i.data| && WiresAgreeOn(c, i.wire, w, depth)
    requires DocWithin(i.doc, c) && Within(s, c)
    ensures ReadAlike(i, w, s, env, at, depth)
    decreases Headroom(depth), Size(s), 1
  {
    match s
    case Primitive(p) => PrimitivesAlike(c, i, w, p, at);
    case Alias(name) =>
      if name == SLOT {
        assert i.wire.slot(i.data[at..], depth + 1) == w.slot(i.data[at..], depth + 1);
      } else if depth < MAX_DEPTH {
        AliasesAlikeOn(c, i, w, name, at, depth + 1);
      }
    case Mapper(_, _) => SelectorsAlike(c, i, w, s, {}, at);
    case Bitflags(base) => ReadsAlike(c, i, w, base, env, at, depth);
    case Container(fields) => FieldsAlike(c, i, w, s, fields, env, at, depth);
    case Array(_, _, element) =>
      forall n: nat, start: nat | start <= |i.data| ensures RepeatAlike(i, w, element, env, n, start, depth) {
        RepeatsAlike(c, i, w, element, env, n, start, depth);
      }
      ArraysAlike(c, i, w, s, env, at, depth);
    case Optional(_) => OptionsAlike(c, i, w, s, env, at, depth);
    case Switch(_, _, _) => SwitchesAlike(c, i, w, s, env, at, depth);
    case RegistryHolder(_) => OptionsAlike(c, i, w, s, env, at, depth);
    case RegistryHolderSet(_, _) => SetsAlike(c, i, w, s, env, at, depth);
    case Malformed =>
  }

  lemma {:induction false} SwitchesAlike(c: Scope, i: Input, w: Wire, s: Schema, env: map<string, Selector>, at: nat, depth: nat)
    requires at <= |i.data| && WiresAgreeOn(c, i.wire, w, depth) && s.Switch?
    requires DocWithin(i.doc, c) && Within(s, c)
    ensures ReadAlike(i, w, s, env, at, depth)
    decreases Headroom(depth), Size(s), 0
  {
    if s.compareTo in env {
      var arm := Pick(i.doc, env[s.compareTo], s.cases);
      if arm.Some? {
        PickedIsWithin(i.doc, env[s.compareTo], s.cases, c);
        ReadsAlike(c, i, w, arm.value.body, env, at, depth);
      }
      if arm.None? && s.fallback.Some? { ReadsAlike(c, i, w, s.fallback.value, env, at, depth); }
    }
  }

  /** An option or a registry holder. */
  lemma {:induction false} OptionsAlike(c: Scope, i: Input, w: Wire, s: Schema, env: map<string, Selector>, at: nat,
                                        depth: nat)
    requires at <= |i.data| && WiresAgreeOn(c, i.wire, w, depth) && (s.Optional? || s.RegistryHolder?)
    requires DocWithin(i.doc, c) && Within(s, c)
    ensures ReadAlike(i, w, s, env, at, depth)
    decreases Headroom(depth), Size(s), 0
  {
    var p, inside := if s.Optional? then Bool else VarInt, if s.Optional? then s.inner else s.inline;
    PrimitivesAlike(c, i, w, p, at);
    var r := ReadAt(i.wire, p, i.data, at);
    if r.Parsed? { ReadsAlike(c, i, w, inside, env, at + r.size, depth); }
    if s.Optional? { OptionalsAlike(i, w, inside, env, at, depth, r); } else { HoldersAlike(i, w, inside, env, at, depth, r); }
  }

  lemma {:induction false} SetsAlike(c: Scope, i: Input, w: Wire, s: Schema, env: map<string, Selector>, at: nat,
                                     depth: nat)
    requires at <= |i.data| && WiresAgreeOn(c, i.wire, w, depth) && s.RegistryHolderSet?
    requires DocWithin(i.doc, c) && Within(s, c)
    ensures ReadAlike(i, w, s, env, at, depth)
    decreases Headroom(depth), Size(s), 0
  {
    PrimitivesAlike(c, i, w, VarInt, at);
    var r := ReadAt(i.wire, VarInt, i.data, at);
    if r.Parsed? {
      var end := at + r.size;
      ReadsAlike(c, i, w, s.base, env, end, depth);
      if Truncated(r.value) >= 1 { RepeatsAlike(c, i, w, s.member, env, Truncated(r.value) - 1, end, depth); }
    }
    if r.NoParse? || IsNegative(r.value) { NegativesAlike(i, w, s.base, s.member, env, at, depth, r); }
    else if EqualsLiteral(r.value, 0) { BasesAlike(i, w, s.base, s.member, env, at, depth, r); }
    else { HolderSetsAlike(i, w, s.base, s.member, env, at, depth, r); }
  }

  lemma {:induction false} FieldsAlike(c: Scope, i: Input, w: Wire, whole: Schema, fields: Fields, env: map<string, Selector>,
                                       at: nat, depth: nat)
    requires at <= |i.data| && WiresAgreeOn(c, i.wire, w, depth)
    requires DocWithin(i.doc, c) && FieldsWithin(fields, c)
    ensures FieldAlike(i, w, whole, fields, env, at, depth)
    decreases Headroom(depth), FieldsSize(fields), 0
  {
    match fields
    case NoFields =>
    case Field(name, s, rest) =>
      if name.Some? && Mentions(whole, name.value) {
        SelectorsAlike(c, i, w, s, {}, at);
        var r := ReadSelector(i, s, {}, at);
        if r.Reading? { FieldsAlike(c, i, w, whole, rest, env[name.value := r.selector], r.at, depth); }
      } else {
        ReadsAlike(c, i, w, s, env, at, depth);
        var r := Read(i, s, env, at, depth);
        if r.Accept? { FieldsAlike(c, i, w, whole, rest, env, r.at, depth); }
      }
  }

  lemma {:induction false} RepeatsAlike(c: Scope, i: Input, w: Wire, s: Schema, env: map<string, Selector>, n: nat, at: nat,
                                        depth: nat)
    requires at <= |i.data| && WiresAgreeOn(c, i.wire, w, depth)
    requires DocWithin(i.doc, c) && Within(s, c)
    ensures RepeatAlike(i, w, s, env, n, at, depth)
    decreases Headroom(depth), Size(s), n + 2
  {
    if n > 0 {
      ReadsAlike(c, i, w, s, env, at, depth);
      var r := Read(i, s, env, at, depth);
      if r.Accept? { RepeatsAlike(c, i, w, s, env, n - 1, r.at, depth); }
    }
  }
}
