/** The structs and the codecs that are compiled from packet schemas. */
module PacketCodec {
  import opened Bytes
  import opened Wrappers
  import opened SchemaResolution
  import Wire

  /** How one member is written and read: which pair of runtime functions. A counted buffer has a count of four bytes
    * when it is wide, and a VarInt otherwise. */
  datatype Format = Place | Scalar(prim: Wire.Prim) | Counted(wide: bool)

  /** A declared C member: a scalar or an anonymous struct. */
  datatype Shape = Leaf(format: Format) | Struct(members: Members)
  datatype Members = NoMembers | Member(name: string, shape: Shape, rest: Members)

  type Path = seq<string>

  /** One statement of a codec, on the member `path` of the value. */
  datatype Action = Put(format: Format, path: Path) | Get(format: Format, path: Path)

  /** buffer_suffix, of a buffer node. */
  function BufferFormat(t: Types, countType: Node): Option<Format> {
    var r := Resolved(t, countType, {});
    if r.Done? && r.node.Name? && r.node.name in {"i32", "varint"} then Some(Counted(r.node.name == "i32")) else None
  }

  /** Compiler.declaration. `opened` are the aliases of the containers it is inside of: coming to one of them again
    * would nest containers without end. */
  function Declaration(t: Types, schema: Node, inside: set<string>): Option<Shape>
    decreases Aliases(t) - inside, Size(schema)
  {
    if schema == Name(POSITION) then Some(Leaf(Place)) else
      var r := Resolved(t, schema, {});
      if !r.Done? then None else
        match r.node
        case Name(name) => if name in t.primitives then Some(Leaf(Scalar(t.primitives[name]))) else None
        case Buffer(countType) =>
          var f := BufferFormat(t, countType);
          if f.Some? then Some(Leaf(f.value)) else None
        case Container(fields) =>
          if r.passed !! inside then
            var members := Declarations(t, fields, inside + r.passed);
            if members.Some? then Some(Struct(members.value)) else None
          else None
        case _ => None
  }

  function Declarations(t: Types, fields: Fields, inside: set<string>): Option<Members>
    decreases Aliases(t) - inside, FieldsSize(fields)
  {
    match fields
    case NoFields => Some(NoMembers)
    case Field(name, schema, rest) =>
      var shape, more := Declaration(t, schema, inside), Declarations(t, rest, inside);
      if shape.Some? && more.Some? then Some(Member(t.cName(name), shape.value, more.value)) else None
  }

  function Statement(encode: bool, format: Format, path: Path): seq<Action> {
    [if encode then Put(format, path) else Get(format, path)]
  }

  /** Compiler.codec. */
  function Codec(t: Types, schema: Node, path: Path, encode: bool, inside: set<string>): Option<seq<Action>>
    decreases Aliases(t) - inside, Size(schema)
  {
    if schema == Name(POSITION) then Some(Statement(encode, Place, path)) else
      var r := Resolved(t, schema, {});
      if !r.Done? then None else
        match r.node
        case Name(name) =>
          if name in t.primitives then Some(Statement(encode, Scalar(t.primitives[name]), path)) else None
        case Buffer(countType) =>
          var f := BufferFormat(t, countType);
          if f.Some? then Some(Statement(encode, f.value, path)) else None
        case Container(fields) =>
          if r.passed !! inside then Codecs(t, fields, path, encode, inside + r.passed) else None
        case _ => None
  }

  function Codecs(t: Types, fields: Fields, path: Path, encode: bool, inside: set<string>): Option<seq<Action>>
    decreases Aliases(t) - inside, FieldsSize(fields)
  {
    match fields
    case NoFields => Some([])
    case Field(name, schema, rest) =>
      var first, more := Codec(t, schema, path + [t.cName(name)], encode, inside),
                         Codecs(t, rest, path, encode, inside);
      if first.Some? && more.Some? then Some(first.value + more.value) else None
  }

  /** The statements that a declared struct calls for: one for each scalar in it, in order. */
  function Actions(shape: Shape, path: Path, encode: bool): seq<Action> {
    match shape
    case Leaf(format) => Statement(encode, format, path)
    case Struct(members) => MemberActions(members, path, encode)
  }

  function MemberActions(members: Members, path: Path, encode: bool): seq<Action> {
    match members
    case NoMembers => []
    case Member(name, shape, rest) => Actions(shape, path + [name], encode) + MemberActions(rest, path, encode)
  }

  /** The declaration and both codecs accept the same schemas, and the codecs handle exactly the declared scalars, in
    * order and each in its own format. */
  lemma {:induction false} CodecFollowsDeclaration(t: Types, s: Node, path: Path, encode: bool, inside: set<string>)
    ensures var d, c := Declaration(t, s, inside), Codec(t, s, path, encode, inside);
            (c.Some? <==> d.Some?) && (d.Some? ==> c == Some(Actions(d.value, path, encode)))
    decreases Aliases(t) - inside, Size(s)
  {
    var r := Resolved(t, s, {});
    if s != Name(POSITION) && r.Done? && r.node.Container? && r.passed !! inside {
      CodecsFollowDeclarations(t, r.node.fields, path, encode, inside + r.passed);
    }
  }

  lemma {:induction false} CodecsFollowDeclarations(t: Types, fields: Fields, path: Path, encode: bool,
                                                    inside: set<string>)
    ensures var d, c := Declarations(t, fields, inside), Codecs(t, fields, path, encode, inside);
            (c.Some? <==> d.Some?) && (d.Some? ==> c == Some(MemberActions(d.value, path, encode)))
    decreases Aliases(t) - inside, FieldsSize(fields)
  {
    if fields.Field? {
      CodecFollowsDeclaration(t, fields.schema, path + [t.cName(fields.name)], encode, inside);
      CodecsFollowDeclarations(t, fields.rest, path, encode, inside);
    }
  }

  // What the codecs do.

  /** The writers and readers of scalars of type `V`. */
  datatype Scalars<!V> = Scalars(put: (Format, V) -> Option<seq<byte>>, get: (Format, seq<byte>) -> Option<(V, nat)>)

  ghost predicate ReadsOff<V>(w: Scalars<V>, f: Format, s: seq<byte>, v: V, size: nat) {
    w.get(f, s) == Some((v, size))
  }

  /** If the writer accepts a value, the reader of the same format reads it back, whatever follows. */
  ghost predicate ReadsBack<V(!new)>(w: Scalars<V>, f: Format, v: V) {
    w.put(f, v).Some? ==>
      forall rest: seq<byte> :: ReadsOff(w, f, w.put(f, v).value + rest, v, |w.put(f, v).value|)
  }

  /** If the writer accepts a value, the reader of the same format refuses it, whatever follows. */
  ghost predicate NeverReads<V(!new)>(w: Scalars<V>, f: Format, v: V) {
    w.put(f, v).Some? ==> forall rest: seq<byte> :: w.get(f, w.put(f, v).value + rest).None?
  }

  /** The members of a C value. */
  type Store<V> = map<Path, V>

  function Write<V>(w: Scalars<V>, puts: seq<Action>, value: Store<V>): Option<seq<byte>> {
    if puts == [] then Some([])
    else if puts[0].path !in value then None
    else
      var first, rest := w.put(puts[0].format, value[puts[0].path]), Write(w, puts[1..], value);
      if first.Some? && rest.Some? then Some(first.value + rest.value) else None
  }

  /** The members read, and how many bytes they took. */
  function ReadMembers<V>(w: Scalars<V>, gets: seq<Action>, data: seq<byte>): (r: Option<(Store<V>, nat)>)
    ensures r.Some? ==> r.value.1 <= |data|
  {
    if gets == [] then Some((map[], 0)) else
      var first := w.get(gets[0].format, data);
      if first.None? || first.value.1 > |data| then None else
        var rest := ReadMembers(w, gets[1..], data[first.value.1..]);
        if rest.None? then None
        else Some((map[gets[0].path := first.value.0] + rest.value.0, first.value.1 + rest.value.1))
  }

  /** A decoder accepts only when nothing remains. */
  function Decode<V>(w: Scalars<V>, gets: seq<Action>, data: seq<byte>): Option<Store<V>> {
    var r := ReadMembers(w, gets, data);
    if r.Some? && r.value.1 == |data| then Some(r.value.0) else None
  }

  /** C's own rule: the members of one struct have different names. */
  predicate DistinctNames(members: Members) {
    members.Member? ==>
      !HasName(members.rest, members.name) && DistinctNames(members.rest)
      && (members.shape.Struct? ==> DistinctNames(members.shape.members))
  }

  predicate HasName(members: Members, name: string) {
    members.Member? && (members.name == name || HasName(members.rest, name))
  }

  predicate DistinctPaths(actions: seq<Action>) {
    forall i, j :: 0 <= i < j < |actions| ==> actions[i].path != actions[j].path
  }

  /** Different names for the members of one struct give different paths to all scalars. */
  lemma {:induction false} NamesMakePaths(members: Members, path: Path, encode: bool)
    requires DistinctNames(members)
    ensures DistinctPaths(MemberActions(members, path, encode))
    decreases members
  {
    if members.Member? {
      var first := Actions(members.shape, path + [members.name], encode);
      var rest := MemberActions(members.rest, path, encode);
      if members.shape.Struct? { NamesMakePaths(members.shape.members, path + [members.name], encode); }
      NamesMakePaths(members.rest, path, encode);
      ActionsAreInside(members.shape, path + [members.name], encode);
      MembersAreInside(members.rest, path, encode);
      var all := first + rest;
      forall i, j | 0 <= i < j < |all| ensures all[i].path != all[j].path {
        if i < |first| <= j {
          IsFirst(first[i].path, path, members);
          assert IsAmong(rest[j - |first|].path, path, members.rest);
        }
      }
    }
  }

  predicate Inside(p: Path, path: Path) {
    |path| <= |p| && forall k :: 0 <= k < |path| ==> p[k] == path[k]
  }

  predicate AllInside(actions: seq<Action>, path: Path) {
    forall i :: 0 <= i < |actions| ==> Inside(actions[i].path, path)
  }

  /** Every path goes on from `path` with the name of a member. */
  predicate AllAmong(actions: seq<Action>, path: Path, members: Members) {
    forall i :: 0 <= i < |actions| ==> IsAmong(actions[i].path, path, members)
  }

  predicate IsAmong(p: Path, path: Path, members: Members) {
    Inside(p, path) && |path| < |p| && HasName(members, p[|path|])
  }

  lemma {:induction false} ActionsAreInside(shape: Shape, path: Path, encode: bool)
    ensures AllInside(Actions(shape, path, encode), path)
    decreases shape
  {
    if shape.Struct? {
      MembersAreInside(shape.members, path, encode);
      var a := MemberActions(shape.members, path, encode);
      forall i | 0 <= i < |a| ensures Inside(a[i].path, path) {
        assert IsAmong(a[i].path, path, shape.members);
      }
    }
  }

  lemma {:induction false} MembersAreInside(members: Members, path: Path, encode: bool)
    ensures AllAmong(MemberActions(members, path, encode), path, members)
    decreases members
  {
    if members.Member? {
      var longer := path + [members.name];
      var first, rest := Actions(members.shape, longer, encode), MemberActions(members.rest, path, encode);
      ActionsAreInside(members.shape, longer, encode);
      MembersAreInside(members.rest, path, encode);
      var all := first + rest;
      forall i | 0 <= i < |all| ensures IsAmong(all[i].path, path, members) {
        if i < |first| {
          IsFirst(first[i].path, path, members);
        } else {
          assert IsAmong(rest[i - |first|].path, path, members.rest);
        }
      }
    }
  }

  lemma IsFirst(p: Path, path: Path, members: Members)
    requires members.Member? && Inside(p, path + [members.name])
    ensures IsAmong(p, path, members) && p[|path|] == members.name
  {
    var longer := path + [members.name];
    assert p[|path|] == longer[|path|];
    forall k | 0 <= k < |path| ensures p[k] == path[k] { assert p[k] == longer[k]; }
  }

  // Round trips.

  /** An encoder and a decoder of the same members, in the same order and formats. */
  predicate Mirror(puts: seq<Action>, gets: seq<Action>) {
    |puts| == |gets| && forall k :: 0 <= k < |puts| ==> gets[k] == Get(puts[k].format, puts[k].path)
  }

  lemma {:induction false} MirrorBoth(puts: seq<Action>, gets: seq<Action>, puts': seq<Action>, gets': seq<Action>)
    requires Mirror(puts, gets) && Mirror(puts', gets')
    ensures Mirror(puts + puts', gets + gets')
  {
    forall k | 0 <= k < |puts + puts'|
      ensures (gets + gets')[k] == Get((puts + puts')[k].format, (puts + puts')[k].path)
    {
      if k >= |puts| { assert gets'[k - |puts|] == Get(puts'[k - |puts|].format, puts'[k - |puts|].path); }
    }
  }

  lemma {:induction false} ShapesMirror(shape: Shape, path: Path)
    ensures Mirror(Actions(shape, path, true), Actions(shape, path, false))
    decreases shape
  {
    if shape.Struct? { MembersMirror(shape.members, path); }
  }

  lemma {:induction false} MembersMirror(members: Members, path: Path)
    ensures Mirror(MemberActions(members, path, true), MemberActions(members, path, false))
    decreases members
  {
    if members.Member? {
      ShapesMirror(members.shape, path + [members.name]);
      MembersMirror(members.rest, path);
      MirrorBoth(Actions(members.shape, path + [members.name], true),
                 Actions(members.shape, path + [members.name], false),
                 MemberActions(members.rest, path, true), MemberActions(members.rest, path, false));
    }
  }

  function Paths(actions: seq<Action>): set<Path> {
    if actions == [] then {} else {actions[0].path} + Paths(actions[1..])
  }

  function Only<V>(value: Store<V>, paths: set<Path>): Store<V>
    requires paths <= value.Keys
  {
    map p | p in paths :: value[p]
  }

  lemma OnlyGrows<V>(value: Store<V>, p: Path, paths: set<Path>)
    requires p in value && paths <= value.Keys
    ensures map[p := value[p]] + Only(value, paths) == Only(value, {p} + paths)
  {
  }

  /** Each member that the actions write reads back. */
  ghost predicate AllReadBack<V(!new)>(w: Scalars<V>, puts: seq<Action>, value: Store<V>) {
    forall k :: 0 <= k < |puts| && puts[k].path in value ==> ReadsBack(w, puts[k].format, value[puts[k].path])
  }

  /** Each member that the actions write reads back whatever follows, or is refused whatever follows. */
  ghost predicate AllDecided<V(!new)>(w: Scalars<V>, puts: seq<Action>, value: Store<V>) {
    forall k :: 0 <= k < |puts| && puts[k].path in value ==>
      ReadsBack(w, puts[k].format, value[puts[k].path]) || NeverReads(w, puts[k].format, value[puts[k].path])
  }

  lemma {:induction false} LaterMembers<V(!new)>(w: Scalars<V>, puts: seq<Action>, gets: seq<Action>, value: Store<V>)
    requires Mirror(puts, gets) && puts != []
    ensures Mirror(puts[1..], gets[1..]) && gets[0] == Get(puts[0].format, puts[0].path)
    ensures AllReadBack(w, puts, value) ==> AllReadBack(w, puts[1..], value)
    ensures AllDecided(w, puts, value) ==> AllDecided(w, puts[1..], value)
    ensures (AllReadBack(w, puts[1..], value) && puts[0].path in value
             && ReadsBack(w, puts[0].format, value[puts[0].path])) ==> AllReadBack(w, puts, value)
  {
    forall k | 0 <= k < |puts[1..]| ensures gets[1..][k] == Get(puts[1..][k].format, puts[1..][k].path) {
      assert gets[k + 1] == Get(puts[k + 1].format, puts[k + 1].path);
    }
    forall k | 0 < k < |puts| ensures puts[1..][k - 1] == puts[k] {}
  }

  ghost predicate ReadsAs<V>(w: Scalars<V>, gets: seq<Action>, s: seq<byte>, value: Store<V>, size: nat) {
    ReadMembers(w, gets, s) == Some((value, size))
  }

  lemma ReadsFirst<V>(w: Scalars<V>, gets: seq<Action>, s: seq<byte>, n: nat, tail: seq<byte>, v: V, more: Store<V>,
                      size: nat)
    requires gets != [] && n <= |s| && tail == s[n..] && ReadsOff(w, gets[0].format, s, v, n)
    requires ReadsAs(w, gets[1..], tail, more, size)
    ensures ReadsAs(w, gets, s, map[gets[0].path := v] + more, n + size)
  {}

  lemma Splits(first: seq<byte>, more: seq<byte>, rest: seq<byte>)
    ensures first + more + rest == first + (more + rest) && (first + more + rest)[|first|..] == more + rest
  {}

  /** What was written reads back member by member, whatever follows it. */
  lemma {:induction false} WrittenReadsBack<V(!new)>(w: Scalars<V>, puts: seq<Action>, gets: seq<Action>,
                                                     value: Store<V>, rest: seq<byte>)
    requires AllReadBack(w, puts, value) && Mirror(puts, gets) && Write(w, puts, value).Some?
    ensures Paths(gets) <= value.Keys
    ensures var bytes := Write(w, puts, value).value;
            ReadsAs(w, gets, bytes + rest, Only(value, Paths(gets)), |bytes|)
  {
    if puts == [] {
      assert Only(value, {}) == map[];
    } else {
      var put := puts[0];
      var first, more := w.put(put.format, value[put.path]).value, Write(w, puts[1..], value).value;
      LaterMembers(w, puts, gets, value);
      WrittenReadsBack(w, puts[1..], gets[1..], value, rest);
      Splits(first, more, rest);
      assert ReadsOff(w, put.format, first + (more + rest), value[put.path], |first|);
      ReadsFirst(w, gets, first + more + rest, |first|, more + rest, value[put.path], Only(value, Paths(gets[1..])), |more|);
      OnlyGrows(value, put.path, Paths(gets[1..]));
    }
  }

  /** One member that is refused makes the whole be refused. */
  lemma {:induction false} WrittenIsRefused<V(!new)>(w: Scalars<V>, puts: seq<Action>, gets: seq<Action>,
                                                     value: Store<V>, rest: seq<byte>)
    requires AllDecided(w, puts, value) && !AllReadBack(w, puts, value)
    requires Mirror(puts, gets) && Write(w, puts, value).Some?
    ensures ReadMembers(w, gets, Write(w, puts, value).value + rest).None?
  {
    var put := puts[0];
    var first, more := w.put(put.format, value[put.path]).value, Write(w, puts[1..], value).value;
    LaterMembers(w, puts, gets, value);
    assert first + more + rest == first + (more + rest);
    if ReadsBack(w, put.format, value[put.path]) {
      WrittenIsRefused(w, puts[1..], gets[1..], value, rest);
      assert ReadsOff(w, put.format, first + (more + rest), value[put.path], |first|);
      assert (first + (more + rest))[|first|..] == more + rest;
    } else {
      assert NeverReads(w, put.format, value[put.path]);
    }
  }

  /** Every value that a reader yields can be written in the same format, and reads back. */
  ghost predicate CanWriteWhatItReads<V(!new)>(w: Scalars<V>) {
    forall f, s: seq<byte> :: w.get(f, s).Some? ==> IsWritable(w, f, w.get(f, s).value.0)
  }

  ghost predicate IsWritable<V(!new)>(w: Scalars<V>, f: Format, v: V) {
    w.put(f, v).Some? && ReadsBack(w, f, v)
  }

  /** Every value that a reader yields is written as the bytes it was read from. */
  ghost predicate WritesWhatItRead<V(!new)>(w: Scalars<V>) {
    forall f, s: seq<byte> :: w.get(f, s).Some? ==> IsWrittenAs(w, f, w.get(f, s).value.0, s, w.get(f, s).value.1)
  }

  ghost predicate IsWrittenAs<V>(w: Scalars<V>, f: Format, v: V, s: seq<byte>, size: nat) {
    size <= |s| && w.put(f, v) == Some(s[..size])
  }

  /** The values that the actions read, one by one. */
  lemma {:induction false} ReadsEach<V(!new)>(w: Scalars<V>, gets: seq<Action>, data: seq<byte>, k: nat)
    requires CanWriteWhatItReads(w) && DistinctPaths(gets) && ReadMembers(w, gets, data).Some? && k < |gets|
    ensures var value := ReadMembers(w, gets, data).value.0;
            gets[k].path in value && IsWritable(w, gets[k].format, value[gets[k].path])
  {
    var first := w.get(gets[0].format, data).value;
    FirstIsApart(gets);
    if k > 0 {
      ReadsEach(w, gets[1..], data[first.1..], k - 1);
    } else {
      ReadsNoOther(w, gets[1..], data[first.1..], gets[0].path);
    }
  }

  predicate NoneAt(actions: seq<Action>, p: Path) {
    forall k :: 0 <= k < |actions| ==> actions[k].path != p
  }

  lemma FirstIsApart(actions: seq<Action>)
    requires DistinctPaths(actions) && actions != []
    ensures DistinctPaths(actions[1..]) && NoneAt(actions[1..], actions[0].path)
  {}

  lemma {:induction false} ReadsNoOther<V>(w: Scalars<V>, gets: seq<Action>, data: seq<byte>, p: Path)
    requires ReadMembers(w, gets, data).Some?
    requires NoneAt(gets, p)
    ensures p !in ReadMembers(w, gets, data).value.0
  {
    if gets != [] {
      assert NoneAt(gets[1..], p);
      ReadsNoOther(w, gets[1..], data[w.get(gets[0].format, data).value.1..], p);
    }
  }

  lemma {:induction false} ReadsTheirPaths<V>(w: Scalars<V>, gets: seq<Action>, data: seq<byte>)
    requires ReadMembers(w, gets, data).Some?
    ensures ReadMembers(w, gets, data).value.0.Keys == Paths(gets)
  {
    if gets != [] {
      ReadsTheirPaths(w, gets[1..], data[w.get(gets[0].format, data).value.1..]);
    }
  }

  ghost predicate AllWritable<V(!new)>(w: Scalars<V>, puts: seq<Action>, value: Store<V>) {
    forall k :: 0 <= k < |puts| ==> puts[k].path in value && IsWritable(w, puts[k].format, value[puts[k].path])
  }

  lemma {:induction false} WritesWhenEachDoes<V(!new)>(w: Scalars<V>, puts: seq<Action>, value: Store<V>)
    requires AllWritable(w, puts, value)
    ensures Write(w, puts, value).Some?
  {
    if puts != [] {
      assert IsWritable(w, puts[0].format, value[puts[0].path]);
      forall k | 0 <= k < |puts[1..]|
        ensures puts[1..][k].path in value && IsWritable(w, puts[1..][k].format, value[puts[1..][k].path])
      {
        assert puts[1..][k] == puts[k + 1];
      }
      WritesWhenEachDoes(w, puts[1..], value);
    }
  }

  /** Two values agree on every member that the actions write. */
  ghost predicate SameMembers<V>(value: Store<V>, value': Store<V>, puts: seq<Action>) {
    forall k :: 0 <= k < |puts| ==>
      puts[k].path in value && puts[k].path in value' && value[puts[k].path] == value'[puts[k].path]
  }

  lemma {:induction false} WritesTheSame<V>(w: Scalars<V>, puts: seq<Action>, value: Store<V>, value': Store<V>)
    requires SameMembers(value, value', puts)
    ensures Write(w, puts, value) == Write(w, puts, value')
  {
    if puts != [] {
      forall k | 0 <= k < |puts[1..]| ensures puts[1..][k] == puts[k + 1] {}
      WritesTheSame(w, puts[1..], value, value');
    }
  }

  /** Reading one more member in front keeps those behind it. */
  lemma {:induction false} LaterAreKept<V(!new)>(w: Scalars<V>, puts: seq<Action>, gets: seq<Action>,
                                                 data: seq<byte>, p: Path, v: V)
    requires Mirror(puts, gets) && ReadMembers(w, gets, data).Some?
    ensures var later := ReadMembers(w, gets, data).value.0;
            SameMembers(map[p := v] + later, later, puts)
  {
    var later := ReadMembers(w, gets, data).value.0;
    ReadsTheirPaths(w, gets, data);
    forall k | 0 <= k < |puts| ensures puts[k].path in later {
      assert gets[k] == Get(puts[k].format, puts[k].path);
      PathsHold(gets, k);
    }
  }

  lemma WritesFirst<V>(w: Scalars<V>, puts: seq<Action>, value: Store<V>, first: seq<byte>, more: seq<byte>)
    requires puts != [] && puts[0].path in value && w.put(puts[0].format, value[puts[0].path]) == Some(first)
    requires Write(w, puts[1..], value) == Some(more)
    ensures Write(w, puts, value) == Some(first + more)
  {}

  lemma TakeBoth(data: seq<byte>, n: nat, m: nat)
    requires n <= |data| && m <= |data[n..]|
    ensures data[..n] + data[n..][..m] == data[..n + m]
  {}

  /** What was read is written as the bytes it was read from. */
  lemma {:induction false} ReadIsWritten<V(!new)>(w: Scalars<V>, puts: seq<Action>, gets: seq<Action>,
                                                  data: seq<byte>)
    requires WritesWhatItRead(w) && Mirror(puts, gets) && DistinctPaths(gets) && ReadMembers(w, gets, data).Some?
    ensures var r := ReadMembers(w, gets, data).value;
            Write(w, puts, r.0) == Some(data[..r.1])
  {
    if gets != [] {
      var r, first := ReadMembers(w, gets, data).value, w.get(gets[0].format, data).value;
      var tail := data[first.1..];
      var later := ReadMembers(w, gets[1..], tail).value;
      LaterMembers(w, puts, gets, r.0);
      FirstIsApart(gets);
      ReadIsWritten(w, puts[1..], gets[1..], tail);
      ReadsNoOther(w, gets[1..], tail, gets[0].path);
      LaterAreKept(w, puts[1..], gets[1..], tail, gets[0].path, first.0);
      WritesTheSame(w, puts[1..], r.0, later.0);
      assert IsWrittenAs(w, gets[0].format, first.0, data, first.1);
      WritesFirst(w, puts, r.0, data[..first.1], tail[..later.1]);
      TakeBoth(data, first.1, later.1);
    }
  }

  lemma {:induction false} PathsHold(actions: seq<Action>, k: nat)
    requires k < |actions|
    ensures actions[k].path in Paths(actions)
  {
    if k > 0 { PathsHold(actions[1..], k - 1); }
  }

  /** A value of the struct that is declared for a packet: one scalar for each member. */
  predicate IsValue<V>(value: Store<V>, members: Members) {
    value.Keys == Paths(MemberActions(members, [], false))
  }

  /** Both codecs of a packet whose declaration compiles. */
  lemma PacketCompiles(t: Types, fields: Fields)
    requires Declarations(t, fields, {}).Some?
    ensures var d := Declarations(t, fields, {}).value;
            && Codecs(t, fields, [], true, {}) == Some(MemberActions(d, [], true))
            && Codecs(t, fields, [], false, {}) == Some(MemberActions(d, [], false))
            && Mirror(MemberActions(d, [], true), MemberActions(d, [], false))
  {
    CodecsFollowDeclarations(t, fields, [], true, {});
    CodecsFollowDeclarations(t, fields, [], false, {});
    MembersMirror(Declarations(t, fields, {}).value, []);
  }

  /** For every packet that compiles: where every member either reads back or is refused, decoding what was encoded
    * gives the value back, and nothing remains, if and only if every member reads back. */
  lemma PacketsComeBack<V(!new)>(t: Types, fields: Fields, w: Scalars<V>, value: Store<V>)
    requires Declarations(t, fields, {}).Some? && IsValue(value, Declarations(t, fields, {}).value)
    ensures var puts, gets := Codecs(t, fields, [], true, {}), Codecs(t, fields, [], false, {});
            && puts.Some? && gets.Some?
            && (Write(w, puts.value, value).Some? && AllDecided(w, puts.value, value) ==>
                  Decode(w, gets.value, Write(w, puts.value, value).value)
                    == if AllReadBack(w, puts.value, value) then Some(value) else None)
  {
    PacketCompiles(t, fields);
    var puts, gets := Codecs(t, fields, [], true, {}).value, Codecs(t, fields, [], false, {}).value;
    if Write(w, puts, value).Some? && AllDecided(w, puts, value) {
      var bytes := Write(w, puts, value).value;
      assert bytes + [] == bytes;
      if AllReadBack(w, puts, value) {
        WrittenReadsBack(w, puts, gets, value, []);
        assert Only(value, Paths(gets)) == value;
      } else {
        WrittenIsRefused(w, puts, gets, value, []);
      }
    }
  }

  /** Where C accepts the struct, every decoded packet can be encoded again and comes back. */
  lemma DecodedPacketsComeBack<V(!new)>(t: Types, fields: Fields, w: Scalars<V>, data: seq<byte>)
    requires CanWriteWhatItReads(w)
    requires Declarations(t, fields, {}).Some? && DistinctNames(Declarations(t, fields, {}).value)
    ensures var puts, gets := Codecs(t, fields, [], true, {}), Codecs(t, fields, [], false, {});
            && puts.Some? && gets.Some?
            && var value := Decode(w, gets.value, data);
            value.Some? ==> Write(w, puts.value, value.value).Some?
                            && Decode(w, gets.value, Write(w, puts.value, value.value).value) == value
  {
    PacketCompiles(t, fields);
    var puts, gets := Codecs(t, fields, [], true, {}).value, Codecs(t, fields, [], false, {}).value;
    NamesMakePaths(Declarations(t, fields, {}).value, [], false);
    if Decode(w, gets, data).Some? {
      var value := Decode(w, gets, data).value;
      ReadsTheirPaths(w, gets, data);
      forall k | 0 <= k < |puts|
        ensures puts[k].path in value && IsWritable(w, puts[k].format, value[puts[k].path])
      {
        ReadsEach(w, gets, data, k);
        assert gets[k] == Get(puts[k].format, puts[k].path);
      }
      WritesWhenEachDoes(w, puts, value);
      PacketsComeBack(t, fields, w, value);
    }
  }

  /** Where moreover the readers accept only what the writers write, it comes back as the same bytes. */
  lemma DecodedPacketsAreTheirBytes<V(!new)>(t: Types, fields: Fields, w: Scalars<V>, data: seq<byte>)
    requires WritesWhatItRead(w)
    requires Declarations(t, fields, {}).Some? && DistinctNames(Declarations(t, fields, {}).value)
    ensures var puts, gets := Codecs(t, fields, [], true, {}), Codecs(t, fields, [], false, {});
            && puts.Some? && gets.Some?
            && var value := Decode(w, gets.value, data);
            value.Some? ==> Write(w, puts.value, value.value) == Some(data)
  {
    PacketCompiles(t, fields);
    var puts, gets := Codecs(t, fields, [], true, {}).value, Codecs(t, fields, [], false, {}).value;
    NamesMakePaths(Declarations(t, fields, {}).value, [], false);
    if Decode(w, gets, data).Some? {
      ReadIsWritten(w, puts, gets, data);
      assert data[..|data|] == data;
    }
  }
}
