/** Component schemas and what they mean: a reading of bytes that knows nothing of the generated code. */
module ComponentSchema {
  import opened Bytes
  import opened Wrappers
  import opened Wire

  // api.h limits.
  const MAX_ARRAY_COUNT: nat := 0x10_0000
  const MAX_DEPTH: nat := 64

  /** The one alias whose values the runtime parses by hand. */
  const SLOT := "Slot"

  /** The aliases that a document's validators are generated for, and called by. */
  const COMPONENT := "SlotComponent"
  const COMPONENT_TYPE := "SlotComponentType"

  /** One mapper entry: the raw id as written in the document, and the name it stands for. */
  datatype Entry = Entry(raw: string, name: string)

  /** A schema node. A name in the document is a `Primitive` when it is one of the component primitives and an
    * `Alias` otherwise; `Malformed` stands for every node of an unknown kind or a wrong shape. */
  datatype Schema =
    | Primitive(prim: Prim)
    | Alias(name: string)
    | Mapper(base: Schema, table: seq<Entry>)
    | Bitflags(base: Schema)
    | Container(fields: Fields)
    | Array(count: Option<string>, countType: Option<Schema>, element: Schema)
    | Optional(inner: Schema)
    | Switch(compareTo: string, cases: Cases, fallback: Option<Schema>)
    | RegistryHolder(inline: Schema)
    | RegistryHolderSet(base: Schema, member: Schema)
    | Malformed

  datatype Fields = NoFields | Field(name: Option<string>, schema: Schema, rest: Fields)

  datatype Cases = NoCases | Case(key: string, body: Schema, rest: Cases)

  /** A document's types, and the reading of an integer literal in a key (None when it is not one). */
  datatype Doc = Doc(types: map<string, Schema>, literal: string -> Option<int>)

  function Size(s: Schema): (n: nat)
    ensures n > 0
  {
    match s
    case Primitive(_) => 1
    case Alias(_) => 1
    case Mapper(base, _) => 1 + Size(base)
    case Bitflags(base) => 1 + Size(base)
    case Container(fields) => 1 + FieldsSize(fields)
    case Array(_, countType, element) => 1 + (if countType.Some? then Size(countType.value) else 0) + Size(element)
    case Optional(inner) => 1 + Size(inner)
    case Switch(_, cases, fallback) => 1 + CasesSize(cases) + (if fallback.Some? then Size(fallback.value) else 0)
    case RegistryHolder(inline) => 1 + Size(inline)
    case RegistryHolderSet(base, member) => 1 + Size(base) + Size(member)
    case Malformed => 1
  }

  function FieldsSize(fields: Fields): nat {
    match fields
    case NoFields => 0
    case Field(_, s, rest) => 1 + Size(s) + FieldsSize(rest)
  }

  function CasesSize(cases: Cases): nat {
    match cases
    case NoCases => 0
    case Case(_, body, rest) => 1 + Size(body) + CasesSize(rest)
  }

  /** Whether an array or switch inlined in `s` asks for the value of the field `name`. Aliases are separate
    * readers with fields of their own. */
  predicate Mentions(s: Schema, name: string) {
    match s
    case Mapper(base, _) => Mentions(base, name)
    case Bitflags(base) => Mentions(base, name)
    case Container(fields) => FieldsMention(fields, name)
    case Array(count, countType, element) =>
      count == Some(name) || (countType.Some? && Mentions(countType.value, name)) || Mentions(element, name)
    case Optional(inner) => Mentions(inner, name)
    case Switch(compareTo, cases, fallback) =>
      compareTo == name || CasesMention(cases, name) || (fallback.Some? && Mentions(fallback.value, name))
    case RegistryHolder(inline) => Mentions(inline, name)
    case RegistryHolderSet(base, member) => Mentions(base, name) || Mentions(member, name)
    case _ => false
  }

  predicate FieldsMention(fields: Fields, name: string) {
    fields.Field? && (Mentions(fields.schema, name) || FieldsMention(fields.rest, name))
  }

  predicate CasesMention(cases: Cases, name: string) {
    cases.Case? && (Mentions(cases.body, name) || CasesMention(cases.rest, name))
  }

  /** The aliases that occur in a schema, not looking into the aliases themselves. */
  function Aliases(s: Schema): set<string> {
    match s
    case Alias(name) => {name}
    case Mapper(base, _) => Aliases(base)
    case Bitflags(base) => Aliases(base)
    case Container(fields) => FieldAliases(fields)
    case Array(_, countType, element) =>
      (if countType.Some? then Aliases(countType.value) else {}) + Aliases(element)
    case Optional(inner) => Aliases(inner)
    case Switch(_, cases, fallback) =>
      CaseAliases(cases) + (if fallback.Some? then Aliases(fallback.value) else {})
    case RegistryHolder(inline) => Aliases(inline)
    case RegistryHolderSet(base, member) => Aliases(base) + Aliases(member)
    case _ => {}
  }

  function FieldAliases(fields: Fields): set<string> {
    match fields
    case NoFields => {}
    case Field(_, s, rest) => Aliases(s) + FieldAliases(rest)
  }

  function CaseAliases(cases: Cases): set<string> {
    match cases
    case NoCases => {}
    case Case(_, body, rest) => Aliases(body) + CaseAliases(rest)
  }

  // Selectors: scalar values that counts and switches refer to.

  /** The value a field was read as, with the entries of its mapper if it has one. */
  datatype Selector = Selector(value: Value, table: Option<seq<Entry>>)

  datatype Reading = NoReading | Reading(selector: Selector, at: nat)

  datatype Verdict = Reject | Accept(at: nat)

  /** What is being read and with which readers. */
  datatype Input = Input(doc: Doc, wire: Wire, data: seq<byte>)

  predicate Denotes(doc: Doc, e: Entry, v: Value) {
    doc.literal(e.raw).Some? && EqualsLiteral(v, doc.literal(e.raw).value)
  }

  /** The id of the first entry called `name`. */
  function IdOf(doc: Doc, table: seq<Entry>, name: string): Option<int> {
    if table == [] then None
    else if table[0].name == name then doc.literal(table[0].raw)
    else IdOf(doc, table[1..], name)
  }

  /** The number a switch key stands for when it is compared with `selector`. */
  function KeyId(doc: Doc, selector: Selector, key: string): Option<int> {
    if selector.table.Some? then IdOf(doc, selector.table.value, key)
    else if selector.value.Whole? && selector.value.prim == Bool && key in {"true", "false"} then
      Some(if key == "true" then 1 else 0)
    else doc.literal(key)
  }

  datatype Arm = Arm(id: int, body: Schema)

  /** The case of a switch that applies to a value: the one with the least id among those equal to the value, and
    * the first listed of those. */
  function Pick(doc: Doc, selector: Selector, cases: Cases): (r: Option<Arm>)
    ensures r.Some? ==> Size(r.value.body) < CasesSize(cases)
  {
    if cases.NoCases? then None else
      var rest := Pick(doc, selector, cases.rest);
      var id := KeyId(doc, selector, cases.key);
      if id.Some? && EqualsLiteral(selector.value, id.value) && (rest.None? || id.value <= rest.value.id)
      then Some(Arm(id.value, cases.body))
      else rest
  }

  /** Reads a scalar for its value. Aliases met on the way are read in place; `inlined` are those already open. */
  function ReadSelector(i: Input, s: Schema, inlined: set<string>, at: nat): (r: Reading)
    requires at <= |i.data|
    ensures r.Reading? ==> at <= r.at <= |i.data|
    decreases i.doc.types.Keys - inlined, Size(s)
  {
    match s
    case Primitive(p) =>
      var r := ReadAt(i.wire, p, i.data, at);
      if r.NoParse? || !(p == Bool || IsInteger(p) || IsFloat(p)) || (IsFloat(p) && r.value.NotFinite?)
      then NoReading
      else Reading(Selector(r.value, None), at + r.size)
    case Alias(name) =>
      if name !in i.doc.types || name == SLOT || name in inlined then NoReading
      else ReadSelector(i, i.doc.types[name], inlined + {name}, at)
    case Mapper(base, table) =>
      var r := ReadSelector(i, base, inlined, at);
      if r.Reading? && r.selector.value.Whole? && (exists e <- table :: Denotes(i.doc, e, r.selector.value))
      then Reading(Selector(r.selector.value, Some(table)), r.at)
      else NoReading
    case Bitflags(base) => ReadSelector(i, base, inlined, at)
    case _ => NoReading
  }

  /** How far alias calls can still nest; every call steps down from a reader to an alias to a reader. */
  function Headroom(depth: nat): nat {
    if depth <= MAX_DEPTH then 2 * (MAX_DEPTH + 1 - depth) else 0
  }

  /** Reads one value of an alias at nesting `depth`: nothing nests deeper than MAX_DEPTH. */
  function ReadAlias(i: Input, name: string, at: nat, depth: nat): (r: Verdict)
    requires at <= |i.data|
    ensures r.Accept? ==> at <= r.at <= |i.data|
    decreases Headroom(depth) + 1, 0, 0
  {
    if depth > MAX_DEPTH || name !in i.doc.types then Reject
    else Read(i, i.doc.types[name], map[], at, depth)
  }

  /** Reads one value of a schema. `env` holds, for every name that is asked for, the value read for the nearest
    * preceding field of that name in the enclosing containers. */
  function Read(i: Input, s: Schema, env: map<string, Selector>, at: nat, depth: nat): (r: Verdict)
    requires at <= |i.data|
    ensures r.Accept? ==> at <= r.at <= |i.data|
    decreases Headroom(depth), Size(s), 0
  {
    match s
    case Primitive(p) => ReadPrimitive(i, p, at)
    case Alias(name) =>
      if name == SLOT then
        var r := SlotAt(i.wire, i.data, at, depth + 1);
        if r.Parsed? then Accept(at + r.size) else Reject
      else if depth >= MAX_DEPTH then Reject
      else ReadAlias(i, name, at, depth + 1)
    case Mapper(_, _) =>
      var r := ReadSelector(i, s, {}, at);
      if r.Reading? then Accept(r.at) else Reject
    case Bitflags(base) => Read(i, base, env, at, depth)
    case Container(fields) => ReadFields(i, s, fields, env, at, depth)
    case Array(count, countType, element) =>
      var r := ReadCount(i, count, countType, env, at);
      if r.NoReading? || OutOfRange(r.selector.value) then Reject
      else Repeat(i, element, env, Truncated(r.selector.value), r.at, depth)
    case Optional(inner) =>
      var r := ReadAt(i.wire, Bool, i.data, at);
      if r.NoParse? then Reject
      else if EqualsLiteral(r.value, 0) then Accept(at + r.size)
      else Read(i, inner, env, at + r.size, depth)
    case Switch(compareTo, cases, fallback) =>
      if compareTo !in env then Reject else
        var arm := Pick(i.doc, env[compareTo], cases);
        if arm.Some? then Read(i, arm.value.body, env, at, depth)
        else if fallback.Some? then Read(i, fallback.value, env, at, depth)
        else Accept(at)
    case RegistryHolder(inline) =>
      var r := ReadAt(i.wire, VarInt, i.data, at);
      if r.NoParse? || IsNegative(r.value) then Reject
      else if EqualsLiteral(r.value, 0) then Read(i, inline, env, at + r.size, depth)
      else Accept(at + r.size)
    case RegistryHolderSet(base, member) =>
      var r := ReadAt(i.wire, VarInt, i.data, at);
      if r.NoParse? || IsNegative(r.value) then Reject
      else if EqualsLiteral(r.value, 0) then Read(i, base, env, at + r.size, depth)
      else if !(1 <= Truncated(r.value) <= MAX_ARRAY_COUNT + 1) then Reject
      else Repeat(i, member, env, Truncated(r.value) - 1, at + r.size, depth)
    case Malformed => Reject
  }

  /** A count is refused when it is negative or above the array limit. */
  predicate OutOfRange(v: Value) {
    IsNegative(v) || Truncated(v) > MAX_ARRAY_COUNT
  }

  function ReadPrimitive(i: Input, p: Prim, at: nat): (r: Verdict)
    requires at <= |i.data|
    ensures r.Accept? ==> at <= r.at <= |i.data|
  {
    if p == Void then Accept(at) else
      var r := ReadAt(i.wire, p, i.data, at);
      if r.NoParse? || (IsFloat(p) && r.value.NotFinite?) then Reject else Accept(at + r.size)
  }

  function ReadCount(i: Input, count: Option<string>, countType: Option<Schema>, env: map<string, Selector>, at: nat)
    : (r: Reading)
    requires at <= |i.data|
    ensures r.Reading? ==> at <= r.at <= |i.data|
  {
    if countType.Some? then
      var r := ReadSelector(i, countType.value, {}, at);
      if r.Reading? && r.selector.value.Whole? && IsInteger(r.selector.value.prim) then r else NoReading
    else if count.Some? && count.value in env then Reading(env[count.value], at)
    else NoReading
  }

  /** The fields of `whole` from `fields` on; those that `whole` asks for are read for their value. */
  function ReadFields(i: Input, whole: Schema, fields: Fields, env: map<string, Selector>, at: nat, depth: nat)
    : (r: Verdict)
    requires at <= |i.data|
    ensures r.Accept? ==> at <= r.at <= |i.data|
    decreases Headroom(depth), FieldsSize(fields), 0
  {
    match fields
    case NoFields => Accept(at)
    case Field(name, s, rest) =>
      if name.Some? && Mentions(whole, name.value) then
        var r := ReadSelector(i, s, {}, at);
        if r.NoReading? then Reject
        else ReadFields(i, whole, rest, env[name.value := r.selector], r.at, depth)
      else
        var r := Read(i, s, env, at, depth);
        if r.Reject? then Reject else ReadFields(i, whole, rest, env, r.at, depth)
  }

  function Repeat(i: Input, s: Schema, env: map<string, Selector>, n: nat, at: nat, depth: nat): (r: Verdict)
    requires at <= |i.data|
    ensures r.Accept? ==> at <= r.at <= |i.data|
    decreases Headroom(depth), Size(s), n + 1
  {
    if n == 0 then Accept(at) else
      var r := Read(i, s, env, at, depth);
      if r.Reject? then Reject else Repeat(i, s, env, n - 1, r.at, depth)
  }
}
