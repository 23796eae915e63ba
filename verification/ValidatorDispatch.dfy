/** Which component validator each protocol runs: renames, corrections, and one validator for equal sources. */
module ValidatorDispatch {
  import opened Bytes
  import opened Wrappers
  import opened ComponentSchema
  import Code = ComponentCode
  import opened AliasClosure
  import Wire

  type Types = map<string, Schema>

  const DATA := "data"

  datatype Correction = Correction(protocols: seq<int>, component: string, expected: Schema, replacement: Schema)
  datatype Overlay = Overlay(renames: map<string, string>, corrections: seq<Correction>)

  datatype Specification = Specification(protocol: int, raw: seq<byte>)

  /** JSON parsing, the reading of integer literals, and SHA-256. */
  datatype Library = Library(parse: seq<byte> -> Types, literal: string -> Option<int>, digest: seq<byte> -> string)

  datatype Failure =
    | NoDataSwitch(protocol: int)
    | UnknownComponent(protocol: int, name: string)
    | NoMatch(protocol: int, name: string)
    | RenameNotFound(names: set<string>)
    | NoProfile(protocols: set<int>)
    | DoesNotCompile(protocol: int)

  datatype Result<+T> = Ok(value: T) | Err(failure: Failure)

  // Where a document keeps its components.

  /** The cases of the first field called data that is a switch. */
  function DataCases(fields: Fields): Option<Cases> {
    match fields
    case NoFields => None
    case Field(name, s, rest) => if name == Some(DATA) && s.Switch? then Some(s.cases) else DataCases(rest)
  }

  function WithDataCases(fields: Fields, cases: Cases): Fields {
    match fields
    case NoFields => NoFields
    case Field(name, s, rest) =>
      if name == Some(DATA) && s.Switch? then Field(name, Switch(s.compareTo, cases, s.fallback), rest)
      else Field(name, s, WithDataCases(rest, cases))
  }

  /** slot_component_branches. */
  function Branches(types: Types): Option<Cases> {
    if COMPONENT in types && types[COMPONENT].Container? then DataCases(types[COMPONENT].fields) else None
  }

  function WithBranches(types: Types, cases: Cases): Types
    requires Branches(types).Some?
  {
    types[COMPONENT := Container(WithDataCases(types[COMPONENT].fields, cases))]
  }

  lemma {:induction false} DataCasesBack(fields: Fields, cases: Cases, more: Cases)
    requires DataCases(fields).Some?
    ensures DataCases(WithDataCases(fields, cases)) == Some(cases)
    ensures WithDataCases(WithDataCases(fields, cases), more) == WithDataCases(fields, more)
    ensures WithDataCases(fields, DataCases(fields).value) == fields
    decreases fields
  {
    if !(fields.name == Some(DATA) && fields.schema.Switch?) { DataCasesBack(fields.rest, cases, more); }
  }

  /** A document's branches are what was put there last, and putting back what was there changes nothing. */
  lemma BranchesBack(types: Types, cases: Cases, more: Cases)
    requires Branches(types).Some?
    ensures Branches(WithBranches(types, cases)) == Some(cases)
    ensures WithBranches(WithBranches(types, cases), more) == WithBranches(types, more)
    ensures WithBranches(types, Branches(types).value) == types
  {
    DataCasesBack(types[COMPONENT].fields, cases, more);
  }

  function CaseOf(cases: Cases, name: string): Option<Schema> {
    match cases
    case NoCases => None
    case Case(key, body, rest) => if key == name then Some(body) else CaseOf(rest, name)
  }

  function WithCase(cases: Cases, name: string, body: Schema): Cases {
    match cases
    case NoCases => NoCases
    case Case(key, former, rest) => Case(key, if key == name then body else former, WithCase(rest, name, body))
  }

  // One document.

  function RenamedEntry(e: Entry, renames: map<string, string>): Entry {
    if e.name in renames then Entry(e.raw, renames[e.name]) else e
  }

  function RenamedTable(table: seq<Entry>, renames: map<string, string>): seq<Entry> {
    seq(|table|, k requires 0 <= k < |table| => RenamedEntry(table[k], renames))
  }

  predicate HasMappings(types: Types) {
    COMPONENT_TYPE in types && types[COMPONENT_TYPE].Mapper?
  }

  /** The names that component ids stand for, renamed. */
  function Renamed(types: Types, renames: map<string, string>): Types {
    if !HasMappings(types) then types else
      var mapper := types[COMPONENT_TYPE];
      types[COMPONENT_TYPE := Mapper(mapper.base, RenamedTable(mapper.table, renames))]
  }

  function RenamesUsed(types: Types, renames: map<string, string>): set<string> {
    if !HasMappings(types) then {}
    else set e | e in types[COMPONENT_TYPE].table && e.name in renames :: e.name
  }

  datatype Fixed = Fixed(branches: Option<Cases>, names: seq<string>)

  /** The branches with every correction for the protocol applied in turn, and the names corrected. */
  function Corrected(branches: Option<Cases>, protocol: int, corrections: seq<Correction>): Result<Fixed> {
    if corrections == [] then Ok(Fixed(branches, [])) else
      var before := Corrected(branches, protocol, corrections[..|corrections| - 1]);
      if before.Err? then before else CorrectedOnce(before.value, protocol, corrections[|corrections| - 1])
  }

  function CorrectedOnce(before: Fixed, protocol: int, c: Correction): Result<Fixed> {
    if protocol !in c.protocols then Ok(before)
    else if before.branches.None? then Err(NoDataSwitch(protocol))
    else
      var body := CaseOf(before.branches.value, c.component);
      if body.None? then Err(UnknownComponent(protocol, c.component))
      else if body.value != c.expected then Err(NoMatch(protocol, c.component))
      else Ok(Fixed(Some(WithCase(before.branches.value, c.component, c.replacement)), before.names + [c.component]))
  }

  /** The document with other branches, if it has any. */
  function Updated(types: Types, branches: Option<Cases>): Types {
    if branches.Some? && Branches(types).Some? then WithBranches(types, branches.value) else types
  }

  class Document {
    var types: Types

    constructor (types: Types)
      ensures this.types == types
    {
      this.types := types;
    }

    /** The renaming of generated_component_validators. */
    method Rename(renames: map<string, string>) returns (used: set<string>)
      modifies this
      ensures types == Renamed(old(types), renames)
      ensures used == RenamesUsed(old(types), renames)
    {
      used := {};
      if HasMappings(types) {
        var mapper := types[COMPONENT_TYPE];
        var table := mapper.table;
        for k := 0 to |table|
          invariant |table| == |mapper.table|
          invariant forall j :: 0 <= j < k ==> table[j] == RenamedEntry(mapper.table[j], renames)
          invariant forall j :: k <= j < |table| ==> table[j] == mapper.table[j]
          invariant used == set e | e in mapper.table[..k] && e.name in renames :: e.name
        {
          assert mapper.table[..k + 1] == mapper.table[..k] + [mapper.table[k]];
          var name := table[k].name;
          if name in renames {
            table := table[k := Entry(table[k].raw, renames[name])];
            used := used + {name};
          }
        }
        assert mapper.table[..|table|] == mapper.table;
        assert table == RenamedTable(mapper.table, renames);
        types := types[COMPONENT_TYPE := Mapper(mapper.base, table)];
      }
    }

    /** apply_component_schema_corrections. */
    method Correct(protocol: int, corrections: seq<Correction>) returns (applied: Result<seq<string>>)
      modifies this
      ensures var fixed := Corrected(Branches(old(types)), protocol, corrections);
              if fixed.Ok? then applied == Ok(fixed.value.names)
                                && types == Updated(old(types), fixed.value.branches)
              else applied == Err(fixed.failure)
    {
      var names: seq<string> := [];
      ghost var was := types;
      if Branches(was).Some? { BranchesBack(was, NoCases, NoCases); }
      for i := 0 to |corrections|
        invariant types == Updated(was, Branches(types))
        invariant Branches(types).Some? <==> Branches(was).Some?
        invariant Corrected(Branches(was), protocol, corrections[..i]) == Ok(Fixed(Branches(types), names))
      {
        var c := corrections[i];
        OneMore(Branches(was), protocol, corrections, i);
        if protocol !in c.protocols { continue; }
        var branches := Branches(types);
        if branches.None? {
          FailureLasts(Branches(was), protocol, corrections, i + 1);
          return Err(NoDataSwitch(protocol));
        }
        var body := CaseOf(branches.value, c.component);
        if body.None? {
          FailureLasts(Branches(was), protocol, corrections, i + 1);
          return Err(UnknownComponent(protocol, c.component));
        }
        if body.value != c.expected {
          FailureLasts(Branches(was), protocol, corrections, i + 1);
          return Err(NoMatch(protocol, c.component));
        }
        var now := WithCase(branches.value, c.component, c.replacement);
        BranchesBack(types, now, now);
        BranchesBack(was, branches.value, now);
        types := WithBranches(types, now);
        names := names + [c.component];
      }
      assert corrections[..|corrections|] == corrections;
      return Ok(names);
    }
  }

  lemma OneMore(branches: Option<Cases>, protocol: int, corrections: seq<Correction>, i: nat)
    requires i < |corrections| && Corrected(branches, protocol, corrections[..i]).Ok?
    ensures Corrected(branches, protocol, corrections[..i + 1])
         == CorrectedOnce(Corrected(branches, protocol, corrections[..i]).value, protocol, corrections[i])
  {
    assert corrections[..i + 1][..i] == corrections[..i];
  }

  lemma {:induction false} FailureLasts(branches: Option<Cases>, protocol: int, corrections: seq<Correction>, i: nat)
    requires i <= |corrections| && Corrected(branches, protocol, corrections[..i]).Err?
    ensures Corrected(branches, protocol, corrections) == Corrected(branches, protocol, corrections[..i])
  {
    if i < |corrections| {
      var front := corrections[..|corrections| - 1];
      assert front[..i] == corrections[..i];
      FailureLasts(branches, protocol, front, i);
    } else {
      assert corrections[..i] == corrections;
    }
  }

  // All documents.

  datatype Own = Own(types: Types, names: seq<string>)

  /** A protocol's own document, renamed and corrected. */
  function OwnOf(l: Library, o: Overlay, s: Specification): Result<Own> {
    var types := Renamed(l.parse(s.raw), o.renames);
    var fixed := Corrected(Branches(types), s.protocol, o.corrections);
    if fixed.Ok? then Ok(Own(Updated(types, fixed.value.branches), fixed.value.names)) else Err(fixed.failure)
  }

  function Joined(names: seq<string>): string {
    if names == [] then "" else "+" + names[0] + Joined(names[1..])
  }

  /** Protocols with the same key share a validator. */
  function Key(l: Library, o: Overlay, s: Specification): string {
    var own := OwnOf(l, o, s);
    l.digest(s.raw) + Joined(if own.Ok? then own.value.names else [])
  }

  /** The index of the first of `specs` with the key of the `i`th. */
  function Representative(l: Library, o: Overlay, specs: seq<Specification>, i: nat): (j: nat)
    requires i < |specs|
    ensures j <= i && Key(l, o, specs[j]) == Key(l, o, specs[i])
    ensures forall k :: 0 <= k < j ==> Key(l, o, specs[k]) != Key(l, o, specs[i])
  {
    FirstWith(l, o, specs, Key(l, o, specs[i]), i, 0)
  }

  function FirstWith(l: Library, o: Overlay, specs: seq<Specification>, key: string, i: nat, from: nat): (j: nat)
    requires from <= i < |specs| && Key(l, o, specs[i]) == key
    requires forall k :: 0 <= k < from ==> Key(l, o, specs[k]) != key
    ensures j <= i && Key(l, o, specs[j]) == key
    ensures forall k :: 0 <= k < j ==> Key(l, o, specs[k]) != key
    decreases i - from
  {
    if Key(l, o, specs[from]) == key then from else FirstWith(l, o, specs, key, i, from + 1)
  }

  predicate DistinctProtocols(specs: seq<Specification>) {
    forall i, j :: 0 <= i < j < |specs| ==> specs[i].protocol != specs[j].protocol
  }

  predicate Ascending(specs: seq<Specification>) {
    forall i, j :: 0 <= i < j < |specs| ==> specs[i].protocol < specs[j].protocol
  }

  /** The specifications by protocol. */
  function Sorted(specs: seq<Specification>): (r: seq<Specification>)
    ensures |r| == |specs|
  {
    if specs == [] then [] else Inserted(specs[0], Sorted(specs[1..]))
  }

  function Inserted(s: Specification, sorted: seq<Specification>): (r: seq<Specification>)
    ensures |r| == 1 + |sorted|
  {
    if sorted == [] || s.protocol <= sorted[0].protocol then [s] + sorted
    else [sorted[0]] + Inserted(s, sorted[1..])
  }

  lemma {:induction false} InsertedKeeps(s: Specification, sorted: seq<Specification>)
    ensures multiset(Inserted(s, sorted)) == multiset{s} + multiset(sorted)
  {
    if sorted != [] && s.protocol > sorted[0].protocol {
      assert sorted == [sorted[0]] + sorted[1..];
      InsertedKeeps(s, sorted[1..]);
    }
  }

  lemma {:induction false} InsertedAscends(s: Specification, sorted: seq<Specification>)
    requires Ascending(sorted) && forall t <- sorted :: t.protocol != s.protocol
    ensures Ascending(Inserted(s, sorted))
    ensures forall t :: t in Inserted(s, sorted) <==> t == s || t in sorted
  {
    if sorted != [] {
      var rest := sorted[1..];
      assert sorted == [sorted[0]] + rest;
      if s.protocol > sorted[0].protocol {
        InsertedAscends(s, rest);
        FirstAscends(sorted[0], Inserted(s, rest));
      } else {
        FirstAscends(s, sorted);
      }
    }
  }

  lemma FirstAscends(s: Specification, more: seq<Specification>)
    requires Ascending(more) && forall t <- more :: s.protocol < t.protocol
    ensures Ascending([s] + more)
  {
    forall j | 0 <= j < |more| ensures s.protocol < more[j].protocol { assert more[j] in more; }
  }

  /** Sorting keeps the specifications, and leaves each protocol before the later ones. */
  lemma {:induction false} SortedAscends(specs: seq<Specification>)
    requires DistinctProtocols(specs)
    ensures Ascending(Sorted(specs)) && multiset(Sorted(specs)) == multiset(specs)
    ensures forall t :: t in Sorted(specs) <==> t in specs
  {
    if specs != [] {
      assert specs == [specs[0]] + specs[1..];
      SortedAscends(specs[1..]);
      InsertedAscends(specs[0], Sorted(specs[1..]));
      InsertedKeeps(specs[0], Sorted(specs[1..]));
    }
  }

  /** The validators compiled for a representative, and the types that they were compiled from. */
  datatype Validators = Validators(types: Types, program: map<string, Code.Block>)

  /** The generated code: the validators of each representative, and the two switches, which call those of a
    * protocol's representative. */
  datatype Generated = Generated(validators: map<int, Validators>, cases: map<int, int>)

  function TypesOf(l: Library, o: Overlay, s: Specification): Types
    requires OwnOf(l, o, s).Ok?
  {
    OwnOf(l, o, s).value.types
  }

  function DocOf(l: Library, o: Overlay, s: Specification): Doc
    requires OwnOf(l, o, s).Ok?
  {
    Doc(TypesOf(l, o, s), l.literal)
  }

  function FirstFailure(l: Library, o: Overlay, specs: seq<Specification>): Option<Failure> {
    if specs == [] then None else
      var before, last := FirstFailure(l, o, specs[..|specs| - 1]), OwnOf(l, o, specs[|specs| - 1]);
      if before.None? && last.Err? then Some(last.failure) else before
  }

  function AllRenamesUsed(l: Library, o: Overlay, specs: seq<Specification>): set<string> {
    if specs == [] then {}
    else AllRenamesUsed(l, o, specs[..|specs| - 1]) + RenamesUsed(l.parse(specs[|specs| - 1].raw), o.renames)
  }

  function ProtocolsCorrected(l: Library, o: Overlay, specs: seq<Specification>): set<int> {
    if specs == [] then {} else
      var before, last := ProtocolsCorrected(l, o, specs[..|specs| - 1]), OwnOf(l, o, specs[|specs| - 1]);
      if last.Ok? && last.value.names != [] then before + {specs[|specs| - 1].protocol} else before
  }

  function ProtocolsNamed(corrections: seq<Correction>): set<int> {
    set c, p | c in corrections && p in c.protocols :: p
  }

  /** Why nothing is generated: a document that a correction does not fit, a rename or a correction without use. */
  function Refusal(l: Library, o: Overlay, specs: seq<Specification>): Option<Failure> {
    var failure := FirstFailure(l, o, specs);
    var unknown := o.renames.Keys - AllRenamesUsed(l, o, specs);
    var unused := ProtocolsNamed(o.corrections) - ProtocolsCorrected(l, o, specs);
    if specs == [] then None
    else if failure.Some? then failure
    else if unknown != {} then Some(RenameNotFound(unknown))
    else if unused != {} then Some(NoProfile(unused))
    else None
  }

  lemma {:induction false} NoFailure(l: Library, o: Overlay, specs: seq<Specification>)
    requires forall s <- specs :: OwnOf(l, o, s).Ok?
    ensures FirstFailure(l, o, specs).None?
  {
    if specs != [] { NoFailure(l, o, specs[..|specs| - 1]); }
  }

  /** Without renames and corrections only a document can be refused. */
  lemma NothingToRefuse(l: Library, o: Overlay, specs: seq<Specification>)
    requires o.renames == map[] && o.corrections == [] && forall s <- specs :: OwnOf(l, o, s).Ok?
    ensures Refusal(l, o, specs).None?
  {
    NoFailure(l, o, specs);
    assert ProtocolsNamed([]) == {};
  }

  function Protocols(specs: seq<Specification>): set<int> {
    set i | 0 <= i < |specs| :: specs[i].protocol
  }

  ghost predicate Dispatches(l: Library, o: Overlay, specs: seq<Specification>, g: Generated) {
    && g.cases.Keys == Protocols(specs)
    && forall i :: 0 <= i < |specs| ==> DispatchesOne(l, o, specs, g, i)
  }

  ghost predicate DispatchesOne(l: Library, o: Overlay, specs: seq<Specification>, g: Generated, i: nat)
    requires i < |specs|
  {
    var first := specs[Representative(l, o, specs, i)];
    && specs[i].protocol in g.cases && g.cases[specs[i].protocol] == first.protocol
    && OwnOf(l, o, first).Ok?
    && Emitted(l, g.validators, Validator(first.protocol, TypesOf(l, o, first)))
  }

  /** One entry of the table of validators: the protocol to compile for, and from which types. */
  datatype Validator = Validator(protocol: int, types: Types)

  type Table = map<string, Validator>

  /** What the table holds for the key of the `i`th protocol. */
  predicate TableSays(l: Library, o: Overlay, specs: seq<Specification>, table: Table, i: nat)
    requires i < |specs|
  {
    var first := specs[Representative(l, o, specs, i)];
    && OwnOf(l, o, first).Ok?
    && Key(l, o, specs[i]) in table
    && table[Key(l, o, specs[i])] == Validator(first.protocol, TypesOf(l, o, first))
  }

  /** The table after `n` protocols. */
  ghost predicate TableUpTo(l: Library, o: Overlay, specs: seq<Specification>, table: Table, n: nat)
    requires n <= |specs|
  {
    && (forall i :: 0 <= i < n ==> TableSays(l, o, specs, table, i))
    && (forall key <- table :: HasKey(l, o, specs, n, key))
  }

  ghost predicate HasKey(l: Library, o: Overlay, specs: seq<Specification>, n: nat, key: string)
    requires n <= |specs|
  {
    exists i :: 0 <= i < n && Key(l, o, specs[i]) == key
  }

  function WithKey(table: Table, key: string, v: Validator): Table {
    if key in table then table else table[key := v]
  }

  lemma TableKeeps(l: Library, o: Overlay, specs: seq<Specification>, table: Table, after: Table, n: nat)
    requires n <= |specs| && forall k :: 0 <= k < n ==> TableSays(l, o, specs, table, k)
    requires forall known <- table :: known in after && after[known] == table[known]
    ensures forall k :: 0 <= k < n ==> TableSays(l, o, specs, after, k)
  {
    forall k | 0 <= k < n ensures TableSays(l, o, specs, after, k) { assert TableSays(l, o, specs, table, k); }
  }

  /** The first protocol with a key enters the table; later ones find it there. */
  lemma TableSaysNext(l: Library, o: Overlay, specs: seq<Specification>, table: Table, i: nat)
    requires i < |specs| && OwnOf(l, o, specs[i]).Ok? && TableUpTo(l, o, specs, table, i)
    ensures TableSays(l, o, specs, WithKey(table, Key(l, o, specs[i]),
                      Validator(specs[i].protocol, TypesOf(l, o, specs[i]))), i)
  {
    var key := Key(l, o, specs[i]);
    if key in table {
      assert HasKey(l, o, specs, i, key);
      var k :| 0 <= k < i && Key(l, o, specs[k]) == key;
      SameRepresentative(l, o, specs, k, i);
      assert TableSays(l, o, specs, table, k);
    } else {
      forall k | 0 <= k < i ensures Key(l, o, specs[k]) != key { assert TableSays(l, o, specs, table, k); }
    }
  }

  lemma TableGrows(l: Library, o: Overlay, specs: seq<Specification>, table: Table, i: nat)
    requires i < |specs| && OwnOf(l, o, specs[i]).Ok? && TableUpTo(l, o, specs, table, i)
    ensures TableUpTo(l, o, specs, WithKey(table, Key(l, o, specs[i]),
                      Validator(specs[i].protocol, TypesOf(l, o, specs[i]))), i + 1)
  {
    var key := Key(l, o, specs[i]);
    var after := WithKey(table, key, Validator(specs[i].protocol, TypesOf(l, o, specs[i])));
    TableSaysNext(l, o, specs, table, i);
    TableKeeps(l, o, specs, table, after, i);
    forall other <- after ensures HasKey(l, o, specs, i + 1, other) {
      if other != key { HasKeyStill(l, o, specs, i, other); }
    }
  }

  lemma HasKeyStill(l: Library, o: Overlay, specs: seq<Specification>, n: nat, key: string)
    requires n < |specs| && HasKey(l, o, specs, n, key)
    ensures HasKey(l, o, specs, n + 1, key)
  {
  }

  lemma SameRepresentative(l: Library, o: Overlay, specs: seq<Specification>, i: nat, j: nat)
    requires i < |specs| && j < |specs| && Key(l, o, specs[i]) == Key(l, o, specs[j])
    ensures Representative(l, o, specs, i) == Representative(l, o, specs, j)
  {
  }

  ghost predicate CasesUpTo(l: Library, o: Overlay, specs: seq<Specification>, cases: map<int, int>, n: nat)
    requires n <= |specs|
  {
    && cases.Keys == Protocols(specs[..n])
    && forall i :: 0 <= i < n ==> CaseSays(l, o, specs, cases, i)
  }

  predicate CaseSays(l: Library, o: Overlay, specs: seq<Specification>, cases: map<int, int>, i: nat)
    requires i < |specs|
  {
    specs[i].protocol in cases && cases[specs[i].protocol] == specs[Representative(l, o, specs, i)].protocol
  }

  lemma CasesGrow(l: Library, o: Overlay, specs: seq<Specification>, cases: map<int, int>, i: nat)
    requires DistinctProtocols(specs) && i < |specs| && CasesUpTo(l, o, specs, cases, i)
    ensures CasesUpTo(l, o, specs,
                      cases[specs[i].protocol := specs[Representative(l, o, specs, i)].protocol], i + 1)
  {
    var after := cases[specs[i].protocol := specs[Representative(l, o, specs, i)].protocol];
    forall k | 0 <= k < i + 1 ensures CaseSays(l, o, specs, after, k) {
      if k < i { assert CaseSays(l, o, specs, cases, k); }
    }
    ProtocolsGrow(specs, i);
  }

  lemma ProtocolsGrow(specs: seq<Specification>, i: nat)
    requires i < |specs|
    ensures Protocols(specs[..i + 1]) == Protocols(specs[..i]) + {specs[i].protocol}
  {
    var before, now := specs[..i], specs[..i + 1];
    forall p | p in Protocols(now) && p != specs[i].protocol ensures p in Protocols(before) {
      var k :| 0 <= k < |now| && now[k].protocol == p;
      assert before[k].protocol == p;
    }
    forall p | p in Protocols(before) ensures p in Protocols(now) {
      var k :| 0 <= k < |before| && before[k].protocol == p;
      assert now[k].protocol == p;
    }
    assert now[i] == specs[i];
  }

  /** The loop's notes on the protocols read so far, none of which failed. */
  predicate Noted(l: Library, o: Overlay, read: seq<Specification>, renamed: set<string>, corrected: set<int>) {
    && FirstFailure(l, o, read).None?
    && renamed == AllRenamesUsed(l, o, read)
    && corrected == ProtocolsCorrected(l, o, read)
  }

  lemma NotesGrow(l: Library, o: Overlay, specs: seq<Specification>, i: nat, renamed: set<string>, corrected: set<int>)
    requires i < |specs| && Noted(l, o, specs[..i], renamed, corrected)
    ensures var own := OwnOf(l, o, specs[i]);
            if own.Err? then Refusal(l, o, specs) == Some(own.failure)
            else Noted(l, o, specs[..i + 1], renamed + RenamesUsed(l.parse(specs[i].raw), o.renames),
                       if own.value.names != [] then corrected + {specs[i].protocol} else corrected)
  {
    assert specs[..i + 1][..i] == specs[..i];
    if OwnOf(l, o, specs[i]).Err? { FirstFailureLasts(l, o, specs, i + 1); }
  }

  /** The document of one protocol, parsed, renamed and corrected. */
  method ReadDocument(l: Library, o: Overlay, s: Specification) returns (own: Result<Own>, used: set<string>)
    ensures own == OwnOf(l, o, s)
    ensures used == RenamesUsed(l.parse(s.raw), o.renames)
  {
    var document := new Document(l.parse(s.raw));
    used := document.Rename(o.renames);
    var names := document.Correct(s.protocol, o.corrections);
    own := if names.Ok? then Ok(Own(document.types, names.value)) else Err(names.failure);
  }

  /** The `i`th protocol is the first with its key, and its document does not compile. */
  ghost predicate IsUncompilable(l: Library, o: Overlay, specs: seq<Specification>, i: nat)
    requires i < |specs|
  {
    Representative(l, o, specs, i) == i && OwnOf(l, o, specs[i]).Ok?
    && RefusesDocument(DocOf(l, o, specs[i]), COMPONENT)
  }

  ghost predicate AllCompile(l: Library, o: Overlay, specs: seq<Specification>) {
    forall i :: 0 <= i < |specs| ==> !IsUncompilable(l, o, specs, i)
  }

  /** generated_component_validators. The callers list each protocol once. */
  method GenerateValidators(l: Library, o: Overlay, given: seq<Specification>) returns (r: Result<Generated>)
    requires DistinctProtocols(given)
    ensures r.Ok? <==> Refusal(l, o, Sorted(given)).None? && AllCompile(l, o, Sorted(given))
    ensures Refusal(l, o, Sorted(given)).Some? ==> r == Err(Refusal(l, o, Sorted(given)).value)
    ensures r.Err? && Refusal(l, o, Sorted(given)).None? ==>
              exists i :: 0 <= i < |given| && IsUncompilable(l, o, Sorted(given), i)
                          && r.failure == DoesNotCompile(Sorted(given)[i].protocol)
    ensures r.Ok? ==> Dispatches(l, o, Sorted(given), r.value)
  {
    SortedAscends(given);
    r := GenerateInOrder(l, o, Sorted(given));
  }

  method GenerateInOrder(l: Library, o: Overlay, specs: seq<Specification>) returns (r: Result<Generated>)
    requires DistinctProtocols(specs)
    ensures r.Ok? <==> Refusal(l, o, specs).None? && AllCompile(l, o, specs)
    ensures Refusal(l, o, specs).Some? ==> r == Err(Refusal(l, o, specs).value)
    ensures r.Err? && Refusal(l, o, specs).None? ==>
              exists i :: 0 <= i < |specs| && IsUncompilable(l, o, specs, i)
                          && r.failure == DoesNotCompile(specs[i].protocol)
    ensures r.Ok? ==> Dispatches(l, o, specs, r.value)
  {
    if specs == [] { return Ok(Generated(map[], map[])); }
    var table: Table := map[];
    var cases: map<int, int> := map[];
    var renamed: set<string> := {};
    var corrected: set<int> := {};
    for i := 0 to |specs|
      invariant Noted(l, o, specs[..i], renamed, corrected)
      invariant TableUpTo(l, o, specs, table, i)
      invariant CasesUpTo(l, o, specs, cases, i)
    {
      var s := specs[i];
      NotesGrow(l, o, specs, i, renamed, corrected);
      var own, used := ReadDocument(l, o, s);
      if own.Err? { return Err(own.failure); }
      renamed := renamed + used;
      if own.value.names != [] { corrected := corrected + {s.protocol}; }
      TableGrows(l, o, specs, table, i);
      CasesGrow(l, o, specs, cases, i);
      var key := l.digest(s.raw) + Joined(own.value.names);
      if key !in table {
        table := table[key := Validator(s.protocol, own.value.types)];
      }
      assert TableSays(l, o, specs, table, i);
      cases := cases[s.protocol := table[key].protocol];
    }
    assert specs[..|specs|] == specs;
    if o.renames.Keys - renamed != {} { return Err(RenameNotFound(o.renames.Keys - renamed)); }
    var unused := ProtocolsNamed(o.corrections) - corrected;
    if unused != {} { return Err(NoProfile(unused)); }
    KeysHaveOwnProtocols(l, o, specs, table);
    TableCompiles(l, o, specs, table);
    var validators := Emit(l, table);
    if validators.Err? { return Err(validators.failure); }
    DispatchesAll(l, o, specs, table, Generated(validators.value, cases));
    return Ok(Generated(validators.value, cases));
  }

  /** What the table holds is what the first protocol with each key needs compiled. */
  lemma TableCompiles(l: Library, o: Overlay, specs: seq<Specification>, table: Table)
    requires TableUpTo(l, o, specs, table, |specs|)
    ensures (forall key <- table :: !IsRefused(l, table[key])) <==> AllCompile(l, o, specs)
    ensures forall key <- table :: IsRefused(l, table[key]) ==>
              exists i :: 0 <= i < |specs| && IsUncompilable(l, o, specs, i)
                          && table[key].protocol == specs[i].protocol
  {
    forall i | 0 <= i < |specs| && IsUncompilable(l, o, specs, i)
      ensures exists key <- table :: IsRefused(l, table[key])
    {
      assert TableSays(l, o, specs, table, i);
      assert IsRefused(l, table[Key(l, o, specs[i])]);
    }
    forall key <- table | IsRefused(l, table[key])
      ensures exists i :: 0 <= i < |specs| && IsUncompilable(l, o, specs, i)
                          && table[key].protocol == specs[i].protocol
    {
      assert HasKey(l, o, specs, |specs|, key);
      var k :| 0 <= k < |specs| && Key(l, o, specs[k]) == key;
      assert TableSays(l, o, specs, table, k);
      var i := Representative(l, o, specs, k);
      SameRepresentative(l, o, specs, i, k);
      assert IsUncompilable(l, o, specs, i);
    }
  }

  predicate OwnProtocols(table: Table) {
    forall a, b :: a in table && b in table && a != b ==> table[a].protocol != table[b].protocol
  }

  lemma KeysHaveOwnProtocols(l: Library, o: Overlay, specs: seq<Specification>, table: Table)
    requires DistinctProtocols(specs) && TableUpTo(l, o, specs, table, |specs|)
    ensures OwnProtocols(table)
  {
    forall a, b | a in table && b in table && a != b ensures table[a].protocol != table[b].protocol {
      assert HasKey(l, o, specs, |specs|, a) && HasKey(l, o, specs, |specs|, b);
      var i :| 0 <= i < |specs| && Key(l, o, specs[i]) == a;
      var j :| 0 <= j < |specs| && Key(l, o, specs[j]) == b;
      assert TableSays(l, o, specs, table, i) && TableSays(l, o, specs, table, j);
      var p, q := Representative(l, o, specs, i), Representative(l, o, specs, j);
      assert p < q || q < p;
    }
  }

  lemma DispatchesAll(l: Library, o: Overlay, specs: seq<Specification>, table: Table, g: Generated)
    requires TableUpTo(l, o, specs, table, |specs|) && CasesUpTo(l, o, specs, g.cases, |specs|)
    requires forall key <- table :: Emitted(l, g.validators, table[key])
    ensures Dispatches(l, o, specs, g)
  {
    assert specs[..|specs|] == specs;
    forall i | 0 <= i < |specs| ensures DispatchesOne(l, o, specs, g, i) {
      assert TableSays(l, o, specs, table, i) && CaseSays(l, o, specs, g.cases, i);
      assert Emitted(l, g.validators, table[Key(l, o, specs[i])]);
    }
  }

  ghost predicate IsRefused(l: Library, v: Validator) {
    RefusesDocument(Doc(v.types, l.literal), COMPONENT)
  }

  /** Compiles the validators of every entry in the table. */
  method Emit(l: Library, table: Table) returns (r: Result<map<int, Validators>>)
    requires OwnProtocols(table)
    ensures r.Ok? ==> forall key <- table :: Emitted(l, r.value, table[key])
    ensures r.Ok? ==> forall key <- table :: !IsRefused(l, table[key])
    ensures r.Err? ==> exists key <- table :: IsRefused(l, table[key])
                                              && r.failure == DoesNotCompile(table[key].protocol)
  {
    var validators: map<int, Validators> := map[];
    var left := table.Keys;
    while left != {}
      invariant left <= table.Keys
      invariant forall key <- table.Keys - left :: Emitted(l, validators, table[key]) && !IsRefused(l, table[key])
    {
      var key :| key in left;
      var v := table[key];
      var program := CompileDocument(Doc(v.types, l.literal), COMPONENT);
      if program.None? { return Err(DoesNotCompile(v.protocol)); }
      validators := validators[v.protocol := Validators(v.types, program.value)];
      left := left - {key};
    }
    return Ok(validators);
  }

  /** The validators of an entry are there, compiled from its types. */
  ghost predicate Emitted(l: Library, validators: map<int, Validators>, v: Validator) {
    && v.protocol in validators && validators[v.protocol].types == v.types
    && IsCompiled(Doc(v.types, l.literal), COMPONENT, validators[v.protocol].program)
  }

  lemma {:induction false} FirstFailureLasts(l: Library, o: Overlay, specs: seq<Specification>, i: nat)
    requires i <= |specs| && FirstFailure(l, o, specs[..i]).Some?
    ensures FirstFailure(l, o, specs) == FirstFailure(l, o, specs[..i])
  {
    if i < |specs| {
      assert specs[..|specs| - 1][..i] == specs[..i];
      FirstFailureLasts(l, o, specs[..|specs| - 1], i);
    } else {
      assert specs[..i] == specs;
    }
  }

  // When every protocol runs a validator of its own document.

  /** The digests of two sources have one length and tell them apart. */
  predicate Apart(l: Library, s: Specification, t: Specification) {
    |l.digest(s.raw)| == |l.digest(t.raw)| && (l.digest(s.raw) == l.digest(t.raw) ==> s.raw == t.raw)
  }

  predicate AllApart(l: Library, specs: seq<Specification>) {
    forall i, j :: 0 <= i < |specs| && 0 <= j < |specs| ==> Apart(l, specs[i], specs[j])
  }

  /** A digest that marks which of some sources its argument is. */
  function Marks(specs: seq<Specification>): seq<byte> -> string {
    (x: seq<byte>) => seq(|specs|, k requires 0 <= k < |specs| => if x == specs[k].raw then 'x' else '.')
  }

  /** The sources of any specifications can be told apart. */
  lemma ApartIsPossible(l: Library, specs: seq<Specification>)
    ensures AllApart(l.(digest := Marks(specs)), specs)
  {
    var digest := Marks(specs);
    forall i, j | 0 <= i < |specs| && 0 <= j < |specs| ensures Apart(l.(digest := digest), specs[i], specs[j]) {
      assert digest(specs[i].raw)[i] == 'x';
      assert digest(specs[j].raw)[i] == if specs[j].raw == specs[i].raw then 'x' else '.';
    }
  }

  /** The components that the corrections name for a protocol, in order. */
  function NamesFor(corrections: seq<Correction>, protocol: int): seq<string> {
    if corrections == [] then [] else
      var before, c := NamesFor(corrections[..|corrections| - 1], protocol), corrections[|corrections| - 1];
      if protocol in c.protocols then before + [c.component] else before
  }

  /** The last replacement for a component that is meant for a protocol. */
  function LastFor(corrections: seq<Correction>, protocol: int, name: string): Option<Schema> {
    if corrections == [] then None else
      var c := corrections[|corrections| - 1];
      if protocol in c.protocols && c.component == name then Some(c.replacement)
      else LastFor(corrections[..|corrections| - 1], protocol, name)
  }

  /** Every case with the last replacement that is meant for it. */
  function Replaced(before: Cases, protocol: int, cs: seq<Correction>): Cases {
    match before
    case NoCases => NoCases
    case Case(key, body, rest) =>
      var last := LastFor(cs, protocol, key);
      Case(key, if last.Some? then last.value else body, Replaced(rest, protocol, cs))
  }

  lemma {:induction false} ReplacedSays(cases: Cases, protocol: int, cs: seq<Correction>, name: string)
    ensures var last := LastFor(cs, protocol, name);
            CaseOf(Replaced(cases, protocol, cs), name)
              == if CaseOf(cases, name).Some? && last.Some? then last else CaseOf(cases, name)
    decreases cases
  {
    if cases.Case? { ReplacedSays(cases.rest, protocol, cs, name); }
  }

  lemma {:induction false} ReplacedOnce(cases: Cases, protocol: int, cs: seq<Correction>)
    requires cs != []
    ensures var front, c := cs[..|cs| - 1], cs[|cs| - 1];
            Replaced(cases, protocol, cs)
              == if protocol in c.protocols then WithCase(Replaced(cases, protocol, front), c.component, c.replacement)
                 else Replaced(cases, protocol, front)
    decreases cases
  {
    if cases.Case? { ReplacedOnce(cases.rest, protocol, cs); }
  }

  lemma {:induction false} NothingReplaced(cases: Cases, protocol: int)
    ensures Replaced(cases, protocol, []) == cases
    decreases cases
  {
    if cases.Case? { NothingReplaced(cases.rest, protocol); }
  }

  /** Corrections that apply leave every named component with its last replacement and the others as they were. */
  lemma {:induction false} CorrectedSays(branches: Option<Cases>, protocol: int, cs: seq<Correction>)
    requires Corrected(branches, protocol, cs).Ok?
    ensures var fixed := Corrected(branches, protocol, cs).value;
            && fixed.names == NamesFor(cs, protocol)
            && (fixed.branches.None? <==> branches.None?)
            && (branches.None? ==> fixed.names == [])
            && (branches.Some? ==> fixed.branches == Some(Replaced(branches.value, protocol, cs)))
            && (branches.Some? ==> forall name <- fixed.names :: CaseOf(branches.value, name).Some?)
    ensures forall name :: name in NamesFor(cs, protocol) <==> LastFor(cs, protocol, name).Some?
  {
    if cs == [] {
      if branches.Some? { NothingReplaced(branches.value, protocol); }
    } else {
      var front, c := cs[..|cs| - 1], cs[|cs| - 1];
      CorrectedSays(branches, protocol, front);
      if branches.Some? {
        ReplacedOnce(branches.value, protocol, cs);
        ReplacedSays(branches.value, protocol, front, c.component);
      }
    }
  }

  /** The corrections put the same schemas in place for both protocols. */
  predicate SameReplacements(corrections: seq<Correction>, p: int, q: int) {
    && NamesFor(corrections, p) == NamesFor(corrections, q)
    && forall name <- NamesFor(corrections, p) :: LastFor(corrections, p, name) == LastFor(corrections, q, name)
  }

  lemma {:induction false} SameCases(cases: Cases, cs: seq<Correction>, p: int, q: int)
    requires SameReplacements(cs, p, q)
    requires forall name, x <- {p, q} :: name in NamesFor(cs, x) <==> LastFor(cs, x, name).Some?
    ensures Replaced(cases, p, cs) == Replaced(cases, q, cs)
    decreases cases
  {
    if cases.Case? { SameCases(cases.rest, cs, p, q); }
  }

  /** For one source and the same components corrected, the documents are equal exactly when the replacements are. */
  lemma OwnTypesAgree(l: Library, o: Overlay, s: Specification, s': Specification)
    requires OwnOf(l, o, s).Ok? && OwnOf(l, o, s').Ok? && s.raw == s'.raw
    requires NamesFor(o.corrections, s.protocol) == NamesFor(o.corrections, s'.protocol)
    ensures TypesOf(l, o, s) == TypesOf(l, o, s') <==> SameReplacements(o.corrections, s.protocol, s'.protocol)
  {
    var types, cs, p, q := Renamed(l.parse(s.raw), o.renames), o.corrections, s.protocol, s'.protocol;
    var branches := Branches(types);
    CorrectedSays(branches, p, cs);
    CorrectedSays(branches, q, cs);
    if branches.Some? {
      var a, b := Replaced(branches.value, p, cs), Replaced(branches.value, q, cs);
      BranchesBack(types, a, b);
      BranchesBack(types, b, a);
      if SameReplacements(cs, p, q) {
        SameCases(branches.value, cs, p, q);
      }
      if a == b {
        forall name <- NamesFor(cs, p) ensures LastFor(cs, p, name) == LastFor(cs, q, name) {
          ReplacedSays(branches.value, p, cs, name);
          ReplacedSays(branches.value, q, cs, name);
        }
      }
    }
  }

  predicate NoPlus(names: seq<string>) {
    forall k :: 0 <= k < |names| ==> '+' !in names[k]
  }

  /** The rest of a key: nothing, or another name. */
  predicate IsTail(s: string) {
    s == "" || s[0] == '+'
  }

  /** The first plus sign of a name and a tail is where the name ends. */
  lemma NameEnds(x: string, r: string, k: nat)
    requires '+' !in x && IsTail(r)
    ensures k < |x| ==> !PlusAt(x + r, k)
    ensures PlusAt(x + r, |x|)
  {
  }

  predicate PlusAt(s: string, k: nat) {
    k < |s| ==> s[k] == '+'
  }

  lemma SameHead(x: string, r: string, y: string, r': string)
    requires '+' !in x && '+' !in y && IsTail(r) && IsTail(r') && x + r == y + r'
    ensures x == y && r == r'
  {
    var s := x + r;
    NameEnds(x, r, |y|);
    NameEnds(y, r', |x|);
    assert x == s[..|x|] && y == s[..|y|];
    assert r == s[|x|..] && r' == s[|y|..];
  }

  lemma {:induction false} JoinedTellsNames(a: seq<string>, b: seq<string>)
    requires NoPlus(a) && NoPlus(b) && Joined(a) == Joined(b)
    ensures a == b
  {
    if a != [] && b != [] {
      assert Joined(a)[1..] == a[0] + Joined(a[1..]);
      assert Joined(b)[1..] == b[0] + Joined(b[1..]);
      SameHead(a[0], Joined(a[1..]), b[0], Joined(b[1..]));
      JoinedTellsNames(a[1..], b[1..]);
    }
  }

  /** A name with a plus sign can make two lists of names look the same in a key. */
  lemma PlusConfuses()
    ensures Joined(["a+b"]) == Joined(["a", "b"])
  {
    assert Joined(["b"]) == "+b" by { assert ["b"][1..] == []; }
    assert ["a", "b"][1..] == ["b"] && ["a+b"][1..] == [];
    assert Joined(["a", "b"]) == "+" + "a" + "+b" == "+a+b";
    assert Joined(["a+b"]) == "+" + "a+b" + "";
  }

  /** Keys are the same exactly for the same source and the same corrected names. */
  lemma KeysTellSources(l: Library, o: Overlay, s: Specification, s': Specification)
    requires Apart(l, s, s') && OwnOf(l, o, s).Ok? && OwnOf(l, o, s').Ok?
    requires NoPlus(NamesFor(o.corrections, s.protocol)) && NoPlus(NamesFor(o.corrections, s'.protocol))
    ensures Key(l, o, s) == Key(l, o, s')
       <==> s.raw == s'.raw && NamesFor(o.corrections, s.protocol) == NamesFor(o.corrections, s'.protocol)
  {
    CorrectedSays(Branches(Renamed(l.parse(s.raw), o.renames)), s.protocol, o.corrections);
    CorrectedSays(Branches(Renamed(l.parse(s'.raw), o.renames)), s'.protocol, o.corrections);
    if Key(l, o, s) == Key(l, o, s') {
      var n := |l.digest(s.raw)|;
      assert n == |l.digest(s'.raw)|;
      assert l.digest(s.raw) == Key(l, o, s)[..n] && l.digest(s'.raw) == Key(l, o, s')[..n];
      assert Joined(NamesFor(o.corrections, s.protocol)) == Key(l, o, s)[n..];
      assert Joined(NamesFor(o.corrections, s'.protocol)) == Key(l, o, s')[n..];
      JoinedTellsNames(NamesFor(o.corrections, s.protocol), NamesFor(o.corrections, s'.protocol));
    }
  }

  /** The validators that the switches call for the `i`th protocol are compiled from that protocol's own document. */
  predicate RunsItsOwn(l: Library, o: Overlay, specs: seq<Specification>, g: Generated, i: nat)
    requires i < |specs| && OwnOf(l, o, specs[i]).Ok?
  {
    && specs[i].protocol in g.cases && g.cases[specs[i].protocol] in g.validators
    && g.validators[g.cases[specs[i].protocol]].types == TypesOf(l, o, specs[i])
  }

  /** Protocols of one source with the same components corrected have them replaced by the same schemas. */
  predicate Agreed(o: Overlay, specs: seq<Specification>, i: nat, j: nat)
    requires i < |specs| && j < |specs|
  {
    var p, q := specs[i].protocol, specs[j].protocol;
    (specs[i].raw == specs[j].raw && NamesFor(o.corrections, p) == NamesFor(o.corrections, q))
    ==> SameReplacements(o.corrections, p, q)
  }

  lemma RunsItsOwnIfAgreed(l: Library, o: Overlay, specs: seq<Specification>, g: Generated, i: nat)
    requires AllApart(l, specs) && Dispatches(l, o, specs, g) && i < |specs|
    requires forall k :: 0 <= k < |specs| ==> OwnOf(l, o, specs[k]).Ok?
    requires forall k :: 0 <= k < |specs| ==> NoPlus(NamesFor(o.corrections, specs[k].protocol))
    ensures Agreed(o, specs, Representative(l, o, specs, i), i) <==> RunsItsOwn(l, o, specs, g, i)
  {
    var j := Representative(l, o, specs, i);
    assert DispatchesOne(l, o, specs, g, i);
    KeysTellSources(l, o, specs[j], specs[i]);
    OwnTypesAgree(l, o, specs[j], specs[i]);
  }

  /** Sharing validators keeps every protocol's meaning exactly when protocols of one source, with the same
    * components corrected, agree on the replacements: the key holds the names but not the replacements. */
  lemma SharingIsSound(l: Library, o: Overlay, specs: seq<Specification>, g: Generated)
    requires AllApart(l, specs) && Dispatches(l, o, specs, g)
    requires forall k :: 0 <= k < |specs| ==> OwnOf(l, o, specs[k]).Ok?
    requires forall k :: 0 <= k < |specs| ==> NoPlus(NamesFor(o.corrections, specs[k].protocol))
    ensures (forall i :: 0 <= i < |specs| ==> RunsItsOwn(l, o, specs, g, i))
       <==> (forall i, j :: 0 <= i < |specs| && 0 <= j < |specs| ==> Agreed(o, specs, i, j))
  {
    forall i | 0 <= i < |specs|
      ensures Agreed(o, specs, Representative(l, o, specs, i), i) <==> RunsItsOwn(l, o, specs, g, i)
    {
      RunsItsOwnIfAgreed(l, o, specs, g, i);
    }
    if forall i :: 0 <= i < |specs| ==> RunsItsOwn(l, o, specs, g, i) {
      forall i, j | 0 <= i < |specs| && 0 <= j < |specs| ensures Agreed(o, specs, i, j) {
        if specs[i].raw == specs[j].raw
           && NamesFor(o.corrections, specs[i].protocol) == NamesFor(o.corrections, specs[j].protocol) {
          KeysTellSources(l, o, specs[i], specs[j]);
          SameRepresentative(l, o, specs, i, j);
          assert RunsItsOwn(l, o, specs, g, i) && RunsItsOwn(l, o, specs, g, j);
          assert DispatchesOne(l, o, specs, g, i) && DispatchesOne(l, o, specs, g, j);
          OwnTypesAgree(l, o, specs[i], specs[j]);
        }
      }
    }
  }

  // A conflict.

  /** A component is a number, and for 0 a truth value. */
  function Plain(body: Schema): Types {
    map[COMPONENT := Container(Field(Some("type"), Primitive(Wire.VarInt),
                               Field(Some(DATA), Switch("type", Case("0", body, NoCases), None), NoFields)))]
  }

  /** Two corrections of one component, one for each of two protocols that share their source. */
  function Conflicting(): (o: Overlay) {
    Overlay(map[], [Correction([1], "0", Primitive(Wire.Bool), Primitive(Wire.U8)),
                    Correction([2], "0", Primitive(Wire.Bool), Primitive(Wire.U16))])
  }

  lemma ConflictingNames()
    ensures ProtocolsNamed(Conflicting().corrections) == {1, 2}
  {
    var cs := Conflicting().corrections;
    assert 1 in cs[0].protocols && 2 in cs[1].protocols;
    assert cs[0] in cs && cs[1] in cs;
  }

  lemma ConflictingOwn(l: Library, raw: seq<byte>, p: int)
    requires l.parse(raw) == Plain(Primitive(Wire.Bool)) && (p == 1 || p == 2)
    ensures OwnOf(l, Conflicting(), Specification(p, raw))
         == Ok(Own(Plain(Primitive(if p == 1 then Wire.U8 else Wire.U16)), ["0"]))
  {
    var types, cs := l.parse(raw), Conflicting().corrections;
    var branches := Some(Case("0", Primitive(Wire.Bool), NoCases));
    assert Branches(types) == branches && Renamed(types, map[]) == types;
    assert cs[..1] == [cs[0]] && [cs[0]][..0] == [];
    assert Corrected(branches, p, [cs[0]]) == CorrectedOnce(Fixed(branches, []), p, cs[0]);
    assert Corrected(branches, p, cs) == CorrectedOnce(Corrected(branches, p, [cs[0]]).value, p, cs[1]);
    var now := Case("0", Primitive(if p == 1 then Wire.U8 else Wire.U16), NoCases);
    var c := cs[p - 1];
    assert p in c.protocols && 1 in cs[0].protocols && 2 in cs[1].protocols;
    assert 2 !in cs[0].protocols && 1 !in cs[1].protocols;
    assert CaseOf(branches.value, "0") == Some(Primitive(Wire.Bool));
    assert WithCase(branches.value, "0", c.replacement) == now && [] + ["0"] == ["0"];
    assert CorrectedOnce(Fixed(branches, []), p, c) == Ok(Fixed(Some(now), ["0"]));
    assert Corrected(branches, p, cs) == Ok(Fixed(Some(now), ["0"]));
    var last := Field(Some(DATA), Switch("type", branches.value, None), NoFields);
    assert WithDataCases(last, now) == Field(Some(DATA), Switch("type", now, None), NoFields);
    var first := Field(Some("type"), Primitive(Wire.VarInt), last);
    assert WithDataCases(first, now) == first.(rest := WithDataCases(last, now));
    assert types[COMPONENT] == Container(first) && Plain(now.body)[COMPONENT] == Container(WithDataCases(first, now));
    assert types.Keys == {COMPONENT} == Plain(now.body).Keys;
    assert WithBranches(types, now) == Plain(now.body);
  }

  lemma ConflictIsNotRefused(l: Library, raw: seq<byte>)
    requires l.parse(raw) == Plain(Primitive(Wire.Bool))
    ensures Refusal(l, Conflicting(), [Specification(1, raw), Specification(2, raw)]).None?
  {
    var o, specs := Conflicting(), [Specification(1, raw), Specification(2, raw)];
    ConflictingOwn(l, raw, 1);
    ConflictingOwn(l, raw, 2);
    ConflictingNames();
    assert specs[..1] == [specs[0]] && [specs[0]][..0] == [];
    assert FirstFailure(l, o, [specs[0]]).None?;
    assert ProtocolsCorrected(l, o, [specs[0]]) == {1};
    assert ProtocolsCorrected(l, o, specs) == {1, 2};
  }

  /** Nothing is refused, and the second protocol reads its component as the first one's. */
  lemma ConflictGoesUnnoticed(l: Library, raw: seq<byte>, g: Generated)
    requires l.parse(raw) == Plain(Primitive(Wire.Bool))
    requires Dispatches(l, Conflicting(), [Specification(1, raw), Specification(2, raw)], g)
    ensures Refusal(l, Conflicting(), [Specification(1, raw), Specification(2, raw)]).None?
    ensures OwnOf(l, Conflicting(), Specification(2, raw)).Ok?
    ensures !RunsItsOwn(l, Conflicting(), [Specification(1, raw), Specification(2, raw)], g, 1)
  {
    var o, specs := Conflicting(), [Specification(1, raw), Specification(2, raw)];
    ConflictIsNotRefused(l, raw);
    ConflictingOwn(l, raw, 1);
    ConflictingOwn(l, raw, 2);
    assert DispatchesOne(l, o, specs, g, 1);
    assert Representative(l, o, specs, 1) == 0;
    assert Branches(TypesOf(l, o, specs[0])) != Branches(TypesOf(l, o, specs[1]));
  }
}
