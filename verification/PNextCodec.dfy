/** The generated codec for pNext chains and the structures in them (scripts/lava.py:278-314, 369-387;
    scripts/struct.py:137-148, 190-201; scripts/util.py:558-559, 988-989). */
module PNextCodec {
  import opened Bytes
  import Handles

  /** One member of a structure: a number, a string, a handle, an array of numbers or of structures whose length is
      another member, the pNext pointer, a structure by value, or any of these behind a presence byte. */
  datatype Kind =
    | Scalar(width: nat)
    | Text
    | Handle
    | Array(count: nat, width: nat)
    | Structs(count: nat, shape: Shape)
    | PNext
    | Embedded(shape: Shape)
    | Optional(kind: Kind)

  /** Members as declared; `early` are those that both generators move to the front. */
  datatype Shape = Shape(kinds: seq<Kind>, early: set<nat>)

  datatype Value =
    | Null
    | Number(v: nat)
    | Chars(text: seq<byte>)
    | Ref(index: nat, thread: nat, packet: nat) // an object, and the packet that last changed it
    | Numbers(vs: seq<nat>)
    | Bodies(bodies: seq<Body>)
    | Inner(body: Body)

  /** The members' values by position; the pNext pointer itself is kept apart. */
  datatype Body = Body(next: Chain, fields: seq<Value>)

  datatype Chain = End | Struct(sType: nat, body: Body)

  /** The known structure types, and the two that loaders put in front. */
  datatype Schema = Schema(shapes: map<nat, Shape>, loaderTypes: set<nat>)

  function Positions(n: nat, early: set<nat>, wanted: bool): (r: seq<nat>)
    ensures forall p: nat :: p in r <==> p < n && (p in early) == wanted
  {
    if n == 0 then [] else
      var front := Positions(n - 1, early, wanted);
      if (n - 1 in early) == wanted then
        InAppended(front, n - 1);
        front + [n - 1]
      else front
  }

  lemma InAppended(s: seq<nat>, v: nat)
    ensures forall p :: p in s + [v] <==> p in s || p == v
  {
    forall p ensures p in s + [v] <==> p in s || p == v {
      if p == v {
        assert (s + [v])[|s|] == v;
      }
    }
  }

  /** misordered + regular */
  function Order(shape: Shape): (r: seq<nat>)
    ensures forall p: nat :: p in r <==> p < |shape.kinds|
  {
    Positions(|shape.kinds|, shape.early, true) + Positions(|shape.kinds|, shape.early, false)
  }

  /** In the shared order: early members come before the others, and each group as declared. */
  predicate Precedes(shape: Shape, c: nat, p: nat) {
    if p in shape.early then c in shape.early && c < p else c in shape.early || c < p
  }

  predicate Increasing(s: seq<nat>) {
    forall i, j | 0 <= i < j < |s| :: s[i] < s[j]
  }

  lemma {:induction false} PositionsIncrease(n: nat, early: set<nat>, wanted: bool)
    ensures Increasing(Positions(n, early, wanted))
  {
    if n > 0 {
      PositionsIncrease(n - 1, early, wanted);
      var front := Positions(n - 1, early, wanted);
      forall i | 0 <= i < |front| ensures front[i] < n - 1 {
        assert front[i] in front;
      }
    }
  }

  /** Both generators move the early members to the front and keep the declared order otherwise. */
  lemma EarlyComeFirst(shape: Shape)
    ensures var r := Order(shape); forall i, j | 0 <= i < j < |r| :: Precedes(shape, r[i], r[j]) && !Precedes(shape, r[j], r[i])
    ensures NoRepeats(Order(shape))
  {
    var n, r := |shape.kinds|, Order(shape);
    PositionsIncrease(n, shape.early, true);
    PositionsIncrease(n, shape.early, false);
    var front, back := Positions(n, shape.early, true), Positions(n, shape.early, false);
    forall i, j | 0 <= i < j < |r| ensures Precedes(shape, r[i], r[j]) && !Precedes(shape, r[j], r[i]) {
      if i < |front| {
        assert front[i] in front && r[i] == front[i];
      } else {
        assert back[i - |front|] in back && r[i] == back[i - |front|];
      }
      if j < |front| {
        assert front[j] in front && r[j] == front[j];
      } else {
        assert back[j - |front|] in back && r[j] == back[j - |front|];
      }
    }
  }

  function Elements(s: seq<nat>): set<nat> {
    set p | p in s
  }

  function Before(shape: Shape, p: nat): set<nat> {
    set c | 0 <= c < |shape.kinds| && Precedes(shape, c, p)
  }

  /** What stands in front of a member in the shared order. */
  lemma InFront(shape: Shape, j: nat)
    requires j < |Order(shape)|
    ensures Before(shape, Order(shape)[j]) == Elements(Order(shape)[..j])
  {
    var order := Order(shape);
    EarlyComeFirst(shape);
    assert order[j] in order;
    forall c: nat ensures c in order[..j] <==> c < |shape.kinds| && Precedes(shape, c, order[j]) {
      if c < |shape.kinds| {
        assert c in order;
        var k :| 0 <= k < |order| && order[k] == c;
      }
    }
  }

  // ---- writing

  function EncodeAll(vs: seq<nat>, width: nat): seq<byte> {
    if vs == [] then [] else LittleEndian(vs[0], width) + EncodeAll(vs[1..], width)
  }

  /** What the 16-bit length field holds of a string's length. */
  function TextLength(text: seq<byte>): (n: nat)
    ensures n <= |text| && n < 0x1_0000
  {
    |text| % 0x1_0000
  }

  /** write_string */
  function WriteText(v: Value): seq<byte> {
    if v.Chars? then LittleEndian(TextLength(v.text), 2) + v.text[..TextLength(v.text)] else LittleEndian(0, 2)
  }

  /** What stands for the null handle. */
  const NULL_REF: Value := Ref(Handles.CONTAINER_NULL_VALUE, 0xFF, 0)

  /** write_handle; a thread is one signed byte. */
  function WriteHandle(v: Value): seq<byte> {
    var r := if v.Ref? then v else NULL_REF;
    LittleEndian(r.index, 4) + (LittleEndian(r.thread, 1) + LittleEndian(r.packet, 4))
  }

  /** write_extension: loader structures are skipped, an unknown one ends the chain. */
  function WriteChain(schema: Schema, c: Chain): seq<byte>
    decreases c, 0, 0
  {
    match c
    case End => LittleEndian(0, 4)
    case Struct(t, body) =>
      if t in schema.loaderTypes then WriteChain(schema, body.next)
      else if t !in schema.shapes then LittleEndian(0, 4)
      else LittleEndian(t, 4) + WriteBody(schema, schema.shapes[t], body)
  }

  function WriteBody(schema: Schema, shape: Shape, b: Body): seq<byte>
    decreases b, 3, 0
  {
    WriteMembers(schema, shape, b, Order(shape))
  }

  function WriteBodies(schema: Schema, shape: Shape, bodies: seq<Body>): seq<byte>
    decreases bodies, 4, 0
  {
    if bodies == [] then [] else WriteBody(schema, shape, bodies[0]) + WriteBodies(schema, shape, bodies[1..])
  }

  function WriteMembers(schema: Schema, shape: Shape, b: Body, order: seq<nat>): seq<byte>
    decreases b, 2, |order|
  {
    if order == [] then []
    else if order[0] >= |shape.kinds| then WriteMembers(schema, shape, b, order[1..])
    else WriteMember(schema, shape.kinds[order[0]], b, order[0]) + WriteMembers(schema, shape, b, order[1..])
  }

  function WriteMember(schema: Schema, kind: Kind, b: Body, pos: nat): seq<byte>
    decreases b, 1, kind
  {
    if pos >= |b.fields| then [] else
      match kind
      case Scalar(width) => if b.fields[pos].Number? then LittleEndian(b.fields[pos].v, width) else []
      case Text => WriteText(b.fields[pos])
      case Handle => WriteHandle(b.fields[pos])
      case Array(_, width) => if b.fields[pos].Numbers? then EncodeAll(b.fields[pos].vs, width) else []
      case Structs(_, shape) => if b.fields[pos].Bodies? then WriteBodies(schema, shape, b.fields[pos].bodies) else []
      case PNext => WriteChain(schema, b.next)
      case Embedded(shape) => if b.fields[pos].Inner? then WriteBody(schema, shape, b.fields[pos].body) else []
      case Optional(inner) => if b.fields[pos].Null? then [0] else [1] + WriteMember(schema, inner, b, pos)
  }

  // ---- reading

  datatype Parsed<T> = Parsed(value: T, rest: seq<byte>)

  function Depth(shape: Shape): nat
    decreases shape
  {
    1 + MaxDepth(shape.kinds)
  }

  function MaxDepth(kinds: seq<Kind>): (d: nat)
    ensures forall k | k in kinds :: KindDepth(k) <= d
    decreases kinds
  {
    if kinds == [] then 0 else
      var rest := MaxDepth(kinds[1..]);
      if KindDepth(kinds[0]) > rest then KindDepth(kinds[0]) else rest
  }

  function KindDepth(k: Kind): (d: nat)
    ensures d > 0
    decreases k
  {
    match k
    case Embedded(shape) => 1 + Depth(shape)
    case Structs(_, shape) => 1 + Depth(shape)
    case Optional(kind) => 1 + KindDepth(kind)
    case _ => 1
  }

  function DecodeAll(s: seq<byte>, n: nat, width: nat): (r: Option<Parsed<seq<nat>>>)
    ensures r.Some? ==> |r.value.rest| <= |s|
  {
    if n == 0 then Some(Parsed([], s))
    else if |s| < width then None
    else
      var more := DecodeAll(s[width..], n - 1, width);
      if more.None? then None
      else Some(Parsed([FromLittleEndian(s[..width])] + more.value.value, more.value.rest))
  }

  /** read_string: a length of zero gives the null pointer. */
  function ReadText(s: seq<byte>): (r: Option<Parsed<Value>>)
    ensures r.Some? ==> |r.value.rest| <= |s|
  {
    if |s| < 2 then None else
      var n := FromLittleEndian(s[..2]);
      if |s[2..]| < n then None
      else Some(Parsed(if n == 0 then Null else Chars(s[2..][..n]), s[2..][n..]))
  }

  /** The three fields of read_handle; its wait for the packet is not part of the value. */
  function ReadHandle(s: seq<byte>): (r: Option<Parsed<Value>>)
    ensures r.Some? ==> |r.value.rest| <= |s|
  {
    if |s| < 9 then None
    else
      var rest := s[4..];
      Some(Parsed(Ref(FromLittleEndian(s[..4]), FromLittleEndian(rest[..1]), FromLittleEndian(rest[1..][..4])), rest[1..][4..]))
  }

  /** read_extension; None stands for its aborts and for running out of data. */
  function ReadChain(schema: Schema, s: seq<byte>): (r: Option<Parsed<Chain>>)
    ensures r.Some? ==> |r.value.rest| <= |s|
    decreases |s|, 0, 0, 0
  {
    if |s| < 4 then None else
      var t := FromLittleEndian(s[..4]);
      if t in schema.loaderTypes then None
      else if t == 0 then Some(Parsed(End, s[4..]))
      else if t !in schema.shapes then None
      else
        var body := ReadBody(schema, schema.shapes[t], s[4..]);
        if body.None? then None else Some(Parsed(Struct(t, body.value.value), body.value.rest))
  }

  /** Into zeroed memory. */
  function ReadBody(schema: Schema, shape: Shape, s: seq<byte>): (r: Option<Parsed<Body>>)
    ensures r.Some? ==> |r.value.rest| <= |s|
    decreases |s|, Depth(shape), 2, 0
  {
    ReadMembers(schema, shape, s, Order(shape), Body(End, seq(|shape.kinds|, _ => Null)))
  }

  function ReadBodies(schema: Schema, shape: Shape, s: seq<byte>, n: nat): (r: Option<Parsed<seq<Body>>>)
    ensures r.Some? ==> |r.value.rest| <= |s|
    decreases |s|, Depth(shape), 3, n
  {
    if n == 0 then Some(Parsed([], s)) else
      var first := ReadBody(schema, shape, s);
      if first.None? then None else
        var more := ReadBodies(schema, shape, first.value.rest, n - 1);
        if more.None? then None else Some(Parsed([first.value.value] + more.value.value, more.value.rest))
  }

  function ReadMembers(schema: Schema, shape: Shape, s: seq<byte>, order: seq<nat>, acc: Body): (r: Option<Parsed<Body>>)
    ensures r.Some? ==> |r.value.rest| <= |s|
    decreases |s|, Depth(shape), 1, |order|
  {
    if order == [] then Some(Parsed(acc, s))
    else if order[0] >= |shape.kinds| then ReadMembers(schema, shape, s, order[1..], acc)
    else
      var next := ReadMember(schema, shape.kinds[order[0]], s, order[0], acc);
      if next.None? then None else ReadMembers(schema, shape, next.value.rest, order[1..], next.value.value)
  }

  function CountOf(acc: Body, count: nat): nat {
    if count < |acc.fields| && acc.fields[count].Number? then acc.fields[count].v else 0
  }

  function ReadMember(schema: Schema, kind: Kind, s: seq<byte>, pos: nat, acc: Body): (r: Option<Parsed<Body>>)
    ensures r.Some? ==> |r.value.rest| <= |s|
    decreases |s|, KindDepth(kind), 0, 0
  {
    if pos >= |acc.fields| then None else
      match kind
      case Scalar(width) =>
        if |s| < width then None
        else Some(Parsed(acc.(fields := acc.fields[pos := Number(FromLittleEndian(s[..width]))]), s[width..]))
      case Text =>
        var text := ReadText(s);
        if text.None? then None else Some(Parsed(acc.(fields := acc.fields[pos := text.value.value]), text.value.rest))
      case Handle =>
        var handle := ReadHandle(s);
        if handle.None? then None else Some(Parsed(acc.(fields := acc.fields[pos := handle.value.value]), handle.value.rest))
      case Array(count, width) =>
        var vs := DecodeAll(s, CountOf(acc, count), width);
        if vs.None? then None else Some(Parsed(acc.(fields := acc.fields[pos := Numbers(vs.value.value)]), vs.value.rest))
      case Structs(count, shape) =>
        var bs := ReadBodies(schema, shape, s, CountOf(acc, count));
        if bs.None? then None else Some(Parsed(acc.(fields := acc.fields[pos := Bodies(bs.value.value)]), bs.value.rest))
      case PNext =>
        var c := ReadChain(schema, s);
        if c.None? then None else Some(Parsed(acc.(next := c.value.value), c.value.rest))
      case Embedded(shape) =>
        var b := ReadBody(schema, shape, s);
        if b.None? then None else Some(Parsed(acc.(fields := acc.fields[pos := Inner(b.value.value)]), b.value.rest))
      case Optional(inner) =>
        if |s| < 1 then None
        else if s[0] == 0 then Some(Parsed(acc, s[1..]))
        else ReadMember(schema, inner, s[1..], pos, acc)
  }

  // ---- what comes back

  /** Loader structures dropped, cut at the first unknown one, all the way down. */
  function Kept(schema: Schema, c: Chain): Chain
    decreases c, 0, 0
  {
    match c
    case End => End
    case Struct(t, body) =>
      if t in schema.loaderTypes then Kept(schema, body.next)
      else if t !in schema.shapes then End
      else Struct(t, KeptBody(schema, schema.shapes[t], body))
  }

  function KeptBody(schema: Schema, shape: Shape, b: Body): Body
    decreases b, 2, 0
  {
    Body(if exists p :: 0 <= p < |shape.kinds| && shape.kinds[p].PNext? then Kept(schema, b.next) else End,
         seq(|shape.kinds|, p requires 0 <= p < |shape.kinds| => KeptValue(schema, shape.kinds[p], b, p)))
  }

  function KeptBodies(schema: Schema, shape: Shape, bodies: seq<Body>): (r: seq<Body>)
    ensures |r| == |bodies|
    decreases bodies, 3, 0
  {
    if bodies == [] then [] else [KeptBody(schema, shape, bodies[0])] + KeptBodies(schema, shape, bodies[1..])
  }

  /** Strings are cut to what their length field can hold, and empty ones become null. */
  function KeptText(v: Value): Value {
    if v.Chars? && TextLength(v.text) > 0 then Chars(v.text[..TextLength(v.text)]) else Null
  }

  function KeptValue(schema: Schema, kind: Kind, b: Body, pos: nat): Value
    decreases b, 1, kind
  {
    if pos >= |b.fields| then Null else
      match kind
      case PNext => Null
      case Text => KeptText(b.fields[pos])
      case Handle => if b.fields[pos].Ref? then b.fields[pos] else NULL_REF
      case Structs(_, shape) =>
        if b.fields[pos].Bodies? then Bodies(KeptBodies(schema, shape, b.fields[pos].bodies)) else Null
      case Embedded(shape) => if b.fields[pos].Inner? then Inner(KeptBody(schema, shape, b.fields[pos].body)) else Null
      case Optional(inner) => if b.fields[pos].Null? then Null else KeptValue(schema, inner, b, pos)
      case _ => b.fields[pos]
  }

  // ---- what is written at all

  ghost predicate TypedChain(schema: Schema, c: Chain)
    decreases c, 0, 0
  {
    match c
    case End => true
    case Struct(t, body) =>
      && t < U32_LIMIT
      && (if t in schema.loaderTypes then TypedChain(schema, body.next)
          else t in schema.shapes ==> TypedBody(schema, schema.shapes[t], body))
  }

  ghost predicate TypedBody(schema: Schema, shape: Shape, b: Body)
    decreases b, 2, 0
  {
    && |b.fields| == |shape.kinds|
    && (forall p | 0 <= p < |shape.kinds| :: TypedMember(schema, shape.kinds[p], b, p))
  }

  ghost predicate TypedBodies(schema: Schema, shape: Shape, bodies: seq<Body>)
    decreases bodies, 3, 0
  {
    bodies == [] || (TypedBody(schema, shape, bodies[0]) && TypedBodies(schema, shape, bodies[1..]))
  }

  predicate IsRef(v: Value) {
    v.Ref? && v.index < U32_LIMIT && v.thread < 0x100 && v.packet < U32_LIMIT
  }

  /** An array has as many elements as its count member says. */
  ghost predicate TypedMember(schema: Schema, kind: Kind, b: Body, pos: nat)
    decreases b, 1, kind
  {
    && pos < |b.fields|
    && match kind
       case Scalar(width) => b.fields[pos].Number? && b.fields[pos].v < Pow256(width)
       case Array(count, width) =>
         && b.fields[pos].Numbers? && (forall v | v in b.fields[pos].vs :: v < Pow256(width))
         && count < |b.fields| && b.fields[count] == Number(|b.fields[pos].vs|)
       case Text => b.fields[pos].Null? || b.fields[pos].Chars?
       case Handle => b.fields[pos].Null? || IsRef(b.fields[pos])
       case Structs(count, shape) =>
         && b.fields[pos].Bodies? && TypedBodies(schema, shape, b.fields[pos].bodies)
         && count < |b.fields| && b.fields[count] == Number(|b.fields[pos].bodies|)
       case PNext => b.fields[pos] == Null && TypedChain(schema, b.next)
       case Embedded(shape) => b.fields[pos].Inner? && TypedBody(schema, shape, b.fields[pos].body)
       case Optional(inner) => b.fields[pos].Null? || (!inner.PNext? && TypedMember(schema, inner, b, pos))
  }

  // ---- what the generator has to get right

  predicate CountReady(kind: Kind, seen: set<nat>) {
    match kind
    case Array(count, _) => count in seen
    case Structs(count, _) => count in seen
    case Optional(inner) => CountReady(inner, seen)
    case _ => true
  }

  /** Of one body: in this order every array comes after its count, or is empty. */
  predicate CountsFound(shape: Shape, b: Body, order: seq<nat>, seen: set<nat>) {
    order == []
    || (order[0] < |shape.kinds| && CountFound(shape.kinds[order[0]], b, order[0], seen)
        && CountsFound(shape, b, order[1..], seen + {order[0]}))
  }

  predicate CountFound(kind: Kind, b: Body, pos: nat, seen: set<nat>) {
    match kind
    case Array(count, _) =>
      count in seen || pos >= |b.fields| || !b.fields[pos].Numbers? || b.fields[pos].vs == []
    case Structs(count, _) =>
      count in seen || pos >= |b.fields| || !b.fields[pos].Bodies? || b.fields[pos].bodies == []
    case Optional(inner) => CountFound(inner, b, pos, seen)
    case _ => true
  }

  lemma ReadyIsFound(kind: Kind, b: Body, pos: nat, seen: set<nat>)
    requires CountReady(kind, seen)
    ensures CountFound(kind, b, pos, seen)
  {}

  /** The count of the array is early, or declared in front, unless the array is empty. */
  predicate FoundAt(shape: Shape, b: Body, p: nat) {
    p < |shape.kinds| && CountFound(shape.kinds[p], b, p, Before(shape, p))
  }

  lemma {:induction false} FoundFrom(shape: Shape, b: Body, order: seq<nat>, i: nat)
    requires order == Order(shape) && i <= |order|
    ensures CountsFound(shape, b, order[i..], Elements(order[..i]))
       <==> forall j | i <= j < |order| :: FoundAt(shape, b, order[j])
    decreases |order| - i
  {
    if i < |order| {
      assert order[i] in order && order[i..][0] == order[i] && order[i..][1..] == order[i + 1..];
      assert order[..i + 1] == order[..i] + [order[i]];
      assert Elements(order[..i + 1]) == Elements(order[..i]) + {order[i]};
      InFront(shape, i);
      FoundFrom(shape, b, order, i + 1);
    }
  }

  /** What the order has to get right, without the order. */
  lemma FoundExactly(shape: Shape, b: Body)
    ensures CountsFound(shape, b, Order(shape), {}) <==> forall p | 0 <= p < |shape.kinds| :: FoundAt(shape, b, p)
  {
    var order := Order(shape);
    FoundFrom(shape, b, order, 0);
    assert order[0..] == order && Elements(order[..0]) == {};
    if forall j | 0 <= j < |order| :: FoundAt(shape, b, order[j]) {
      forall p | 0 <= p < |shape.kinds| ensures FoundAt(shape, b, p) {
        assert p in order;
      }
    }
    assert forall j | 0 <= j < |order| :: order[j] in order;
  }

  /** Every array has its count among the members that come before it. */
  predicate GoodShape(shape: Shape)
    decreases shape
  {
    (forall p | 0 <= p < |shape.kinds| :: CountReady(shape.kinds[p], Before(shape, p))) && GoodKinds(shape.kinds)
  }

  predicate GoodKinds(kinds: seq<Kind>)
    decreases kinds
  {
    kinds == [] || (GoodKind(kinds[0]) && GoodKinds(kinds[1..]))
  }

  predicate GoodKind(k: Kind)
    decreases k
  {
    match k
    case Embedded(shape) => GoodShape(shape)
    case Structs(_, shape) => GoodShape(shape)
    case Optional(inner) => GoodKind(inner)
    case _ => true
  }

  predicate GoodSchema(schema: Schema) {
    && (forall t | t in schema.shapes :: GoodShape(schema.shapes[t]) && t !in schema.loaderTypes && 0 < t < U32_LIMIT)
    && 0 !in schema.loaderTypes
  }

  lemma {:induction false} GoodKindAt(kinds: seq<Kind>, p: nat)
    requires GoodKinds(kinds) && p < |kinds|
    ensures GoodKind(kinds[p])
  {
    if p > 0 {
      GoodKindAt(kinds[1..], p - 1);
    }
  }

  // ---- the round trip

  lemma {:induction false} NumbersRoundTrip(vs: seq<nat>, width: nat, rest: seq<byte>)
    requires forall v | v in vs :: v < Pow256(width)
    ensures DecodeAll(EncodeAll(vs, width) + rest, |vs|, width) == Some(Parsed(vs, rest))
    decreases |vs|
  {
    if vs == [] {
      assert EncodeAll(vs, width) + rest == rest;
    } else {
      assert vs[0] in vs && forall v | v in vs[1..] :: v in vs;
      var first, more := LittleEndian(vs[0], width), EncodeAll(vs[1..], width) + rest;
      Assoc(first, EncodeAll(vs[1..], width), rest);
      ConcatParts(first, more);
      DecodeEncode(vs[0], width);
      NumbersRoundTrip(vs[1..], width, rest);
      assert [vs[0]] + vs[1..] == vs;
    }
  }

  /** The members read so far. */
  ghost predicate Partly(schema: Schema, shape: Shape, b: Body, acc: Body, seen: set<nat>) {
    && |acc.fields| == |shape.kinds| == |b.fields|
    && (forall p | 0 <= p < |shape.kinds| :: acc.fields[p] == if p in seen then KeptValue(schema, shape.kinds[p], b, p) else Null)
    && acc.next == (if exists p :: 0 <= p < |shape.kinds| && shape.kinds[p].PNext? && p in seen then Kept(schema, b.next) else End)
  }

  lemma PartlyIsAll(schema: Schema, shape: Shape, b: Body, acc: Body, seen: set<nat>)
    requires Partly(schema, shape, b, acc, seen) && forall p | 0 <= p < |shape.kinds| :: p in seen
    ensures acc == KeptBody(schema, shape, b)
  {
    assert acc.fields == KeptBody(schema, shape, b).fields;
  }

  lemma ChainRoundTrip(schema: Schema, c: Chain, rest: seq<byte>)
    requires GoodSchema(schema) && TypedChain(schema, c)
    ensures ReadChain(schema, WriteChain(schema, c) + rest) == Some(Parsed(Kept(schema, c), rest))
    decreases c, 0, 0
  {
    Pow256Values();
    match c
    case End => HeaderReads(0, [], rest);
    case Struct(t, body) =>
      if t in schema.loaderTypes {
        ChainRoundTrip(schema, body.next, rest);
      } else if t !in schema.shapes {
        HeaderReads(0, [], rest);
      } else {
        HeaderReads(t, WriteBody(schema, schema.shapes[t], body), rest);
        BodyRoundTrip(schema, schema.shapes[t], body, rest);
      }
  }

  lemma HeaderReads(t: nat, more: seq<byte>, rest: seq<byte>)
    requires t < U32_LIMIT
    ensures var s := LittleEndian(t, 4) + more + rest;
      |s| >= 4 && FromLittleEndian(s[..4]) == t && s[4..] == more + rest
    ensures LittleEndian(t, 4) + [] == LittleEndian(t, 4)
  {
    Pow256Values();
    DecodeEncode(t, 4);
    Assoc(LittleEndian(t, 4), more, rest);
    ConcatParts(LittleEndian(t, 4), more + rest);
  }

  lemma BodyRoundTrip(schema: Schema, shape: Shape, b: Body, rest: seq<byte>)
    requires GoodSchema(schema) && GoodShape(shape) && TypedBody(schema, shape, b)
    ensures ReadBody(schema, shape, WriteBody(schema, shape, b) + rest) == Some(Parsed(KeptBody(schema, shape, b), rest))
    decreases b, 4, 0
  {
    forall p | 0 <= p < |shape.kinds| ensures FoundAt(shape, b, p) {
      ReadyIsFound(shape.kinds[p], b, p, Before(shape, p));
    }
    FoundExactly(shape, b);
    FoundRoundTrip(schema, shape, b, rest);
  }

  lemma FoundRoundTrip(schema: Schema, shape: Shape, b: Body, rest: seq<byte>)
    requires GoodSchema(schema) && GoodKinds(shape.kinds) && TypedBody(schema, shape, b)
    requires CountsFound(shape, b, Order(shape), {})
    ensures ReadBody(schema, shape, WriteBody(schema, shape, b) + rest) == Some(Parsed(KeptBody(schema, shape, b), rest))
    decreases b, 3, 0
  {
    var order := Order(shape);
    var empty := Body(End, seq(|shape.kinds|, _ => Null));
    var acc := MembersRoundTrip(schema, shape, b, order, empty, {}, rest);
    assert forall p | 0 <= p < |shape.kinds| :: p in order;
    PartlyIsAll(schema, shape, b, acc, {} + set p | p in order);
  }

  lemma {:induction false} BodiesRoundTrip(schema: Schema, shape: Shape, bodies: seq<Body>, rest: seq<byte>)
    requires GoodSchema(schema) && GoodShape(shape) && TypedBodies(schema, shape, bodies)
    ensures ReadBodies(schema, shape, WriteBodies(schema, shape, bodies) + rest, |bodies|)
         == Some(Parsed(KeptBodies(schema, shape, bodies), rest))
    decreases bodies, 5, 0
  {
    if bodies == [] {
      Unit(rest);
    } else {
      var more := WriteBodies(schema, shape, bodies[1..]);
      Assoc(WriteBody(schema, shape, bodies[0]), more, rest);
      BodyRoundTrip(schema, shape, bodies[0], more + rest);
      BodiesRoundTrip(schema, shape, bodies[1..], rest);
    }
  }

  lemma TextRoundTrip(v: Value, rest: seq<byte>)
    requires v.Null? || v.Chars?
    ensures ReadText(WriteText(v) + rest) == Some(Parsed(KeptText(v), rest))
  {
    var n := if v.Chars? then TextLength(v.text) else 0;
    var text: seq<byte> := if v.Chars? then v.text[..n] else [];
    assert Pow256(2) == 0x1_0000;
    DecodeEncode(n, 2);
    var header := LittleEndian(n, 2);
    assert WriteText(v) == header + text;
    Assoc(header, text, rest);
    ConcatParts(header, text + rest);
    ConcatParts(text, rest);
  }

  lemma HandleRoundTrip(v: Value, rest: seq<byte>)
    requires v.Null? || IsRef(v)
    ensures ReadHandle(WriteHandle(v) + rest) == Some(Parsed(if v.Ref? then v else NULL_REF, rest))
  {
    var r := if v.Ref? then v else NULL_REF;
    var a, b, c := LittleEndian(r.index, 4), LittleEndian(r.thread, 1), LittleEndian(r.packet, 4);
    Pow256Values();
    assert Pow256(1) == 0x100;
    DecodeEncode(r.index, 4);
    DecodeEncode(r.thread, 1);
    DecodeEncode(r.packet, 4);
    ThreeParts(a, b, c, rest);
  }

  /** Index, thread and packet in four, one and four bytes; the null handle is the null index, thread -1, packet 0. */
  lemma HandleLayout(v: Value)
    requires v.Null? || IsRef(v)
    ensures var s := WriteHandle(v);
      && |s| == 9 && FromLittleEndian(s[..4]) == (if v.Ref? then v.index else Handles.CONTAINER_NULL_VALUE)
      && s[4] == (if v.Ref? then v.thread else 255) && FromLittleEndian(s[5..]) == if v.Ref? then v.packet else 0
  {
    var r := if v.Ref? then v else NULL_REF;
    var a, b, c := LittleEndian(r.index, 4), LittleEndian(r.thread, 1), LittleEndian(r.packet, 4);
    Pow256Values();
    DecodeEncode(r.index, 4);
    DecodeEncode(r.packet, 4);
    assert LittleEndian(r.thread / 256, 0) == [] && b[0] == r.thread;
    assert WriteHandle(v)[..4] == a && WriteHandle(v)[4] == b[0] && WriteHandle(v)[5..] == c;
  }

  /** The length in two bytes, then the text; a null pointer is the length 0. */
  lemma TextLayout(v: Value)
    requires v.Null? || v.Chars?
    ensures var s, n := WriteText(v), if v.Chars? then |v.text| % 0x1_0000 else 0;
      |s| == 2 + n && FromLittleEndian(s[..2]) == n && (v.Chars? ==> s[2..] == v.text[..n])
  {
    var n := if v.Chars? then |v.text| % 0x1_0000 else 0;
    assert Pow256(2) == 0x1_0000;
    DecodeEncode(n, 2);
    assert WriteText(v)[..2] == LittleEndian(n, 2);
  }

  lemma ThreeParts(a: seq<byte>, b: seq<byte>, c: seq<byte>, rest: seq<byte>)
    ensures var s := a + (b + c) + rest;
      && s[..|a|] == a && s[|a|..][..|b|] == b
      && s[|a|..][|b|..][..|c|] == c && s[|a|..][|b|..][|c|..] == rest
  {
    Assoc(a, b + c, rest);
    ConcatParts(a, b + c + rest);
    Assoc(b, c, rest);
    ConcatParts(b, c + rest);
    ConcatParts(c, rest);
  }

  lemma MembersRoundTrip(schema: Schema, shape: Shape, b: Body, order: seq<nat>, acc: Body, seen: set<nat>, rest: seq<byte>)
    returns (all: Body)
    requires GoodSchema(schema) && GoodKinds(shape.kinds) && TypedBody(schema, shape, b)
    requires Partly(schema, shape, b, acc, seen) && CountsFound(shape, b, order, seen)
    ensures ReadMembers(schema, shape, WriteMembers(schema, shape, b, order) + rest, order, acc) == Some(Parsed(all, rest))
    ensures Partly(schema, shape, b, all, seen + set p | p in order)
    decreases b, 2, |order|
  {
    if order == [] {
      assert [] + rest == rest;
      assert seen + (set p | p in order) == seen;
      return acc;
    }
    var p, more := order[0], order[1..];
    var written := WriteMembers(schema, shape, b, more);
    GoodKindAt(shape.kinds, p);
    var next := MemberRoundTrip(schema, shape, shape.kinds[p], b, p, acc, seen, written + rest);
    all := MembersRoundTrip(schema, shape, b, more, next, seen + {p}, rest);
    FirstMember(schema, shape, b, order, acc, next, all, rest);
    SeenOneMore(order, seen);
  }

  lemma SeenOneMore(order: seq<nat>, seen: set<nat>)
    requires order != []
    ensures seen + {order[0]} + (set q | q in order[1..]) == seen + (set q | q in order)
  {}

  lemma FirstMember(schema: Schema, shape: Shape, b: Body, order: seq<nat>, acc: Body, next: Body, all: Body, rest: seq<byte>)
    requires order != [] && order[0] < |shape.kinds|
    requires var kind, behind := shape.kinds[order[0]], WriteMembers(schema, shape, b, order[1..]) + rest;
      && ReadMember(schema, kind, WriteMember(schema, kind, b, order[0]) + behind, order[0], acc) == Some(Parsed(next, behind))
      && ReadMembers(schema, shape, behind, order[1..], next) == Some(Parsed(all, rest))
    ensures ReadMembers(schema, shape, WriteMembers(schema, shape, b, order) + rest, order, acc) == Some(Parsed(all, rest))
  {
    Assoc(WriteMember(schema, shape.kinds[order[0]], b, order[0]), WriteMembers(schema, shape, b, order[1..]), rest);
  }

  /** A member that holds a number is kept as it is. */
  lemma NumberIsKept(schema: Schema, kind: Kind, b: Body, pos: nat)
    requires TypedMember(schema, kind, b, pos) && b.fields[pos].Number?
    ensures KeptValue(schema, kind, b, pos) == b.fields[pos]
    decreases kind
  {
    if kind.Optional? {
      NumberIsKept(schema, kind.kind, b, pos);
    }
  }

  /** What the reader takes for the length of an array of n elements. */
  lemma CountIsRight(schema: Schema, shape: Shape, b: Body, acc: Body, seen: set<nat>, count: nat, n: nat)
    requires TypedBody(schema, shape, b) && Partly(schema, shape, b, acc, seen)
    requires count < |b.fields| && b.fields[count] == Number(n) && (count in seen || n == 0)
    ensures CountOf(acc, count) == n
  {
    NumberIsKept(schema, shape.kinds[count], b, count);
  }

  lemma MemberRoundTrip(schema: Schema, shape: Shape, kind: Kind, b: Body, p: nat, acc: Body, seen: set<nat>, rest: seq<byte>)
    returns (next: Body)
    requires GoodSchema(schema) && GoodKind(kind) && TypedBody(schema, shape, b) && TypedMember(schema, kind, b, p)
    requires Partly(schema, shape, b, acc, seen) && CountFound(kind, b, p, seen) && p < |shape.kinds|
    requires KeptValue(schema, kind, b, p) == KeptValue(schema, shape.kinds[p], b, p) && (kind.PNext? <==> shape.kinds[p].PNext?)
    ensures ReadMember(schema, kind, WriteMember(schema, kind, b, p) + rest, p, acc) == Some(Parsed(next, rest))
    ensures Partly(schema, shape, b, next, seen + {p})
    decreases b, 1, kind, 0
  {
    match kind
    case Scalar(width) =>
      ConcatParts(LittleEndian(b.fields[p].v, width), rest);
      DecodeEncode(b.fields[p].v, width);
      next := SetField(schema, shape, b, p, acc, seen, b.fields[p]);
    case Text =>
      TextRoundTrip(b.fields[p], rest);
      next := SetField(schema, shape, b, p, acc, seen, KeptText(b.fields[p]));
    case Handle =>
      HandleRoundTrip(b.fields[p], rest);
      next := SetField(schema, shape, b, p, acc, seen, KeptValue(schema, kind, b, p));
    case Array(count, width) =>
      CountIsRight(schema, shape, b, acc, seen, count, |b.fields[p].vs|);
      NumbersRoundTrip(b.fields[p].vs, width, rest);
      next := SetField(schema, shape, b, p, acc, seen, b.fields[p]);
    case Structs(count, sub) =>
      CountIsRight(schema, shape, b, acc, seen, count, |b.fields[p].bodies|);
      BodiesRoundTrip(schema, sub, b.fields[p].bodies, rest);
      next := SetField(schema, shape, b, p, acc, seen, KeptValue(schema, kind, b, p));
    case PNext =>
      ChainRoundTrip(schema, b.next, rest);
      next := acc.(next := Kept(schema, b.next));
    case Embedded(sub) =>
      BodyRoundTrip(schema, sub, b.fields[p].body, rest);
      next := SetField(schema, shape, b, p, acc, seen, KeptValue(schema, kind, b, p));
    case Optional(inner) =>
      next := OptionalRoundTrip(schema, shape, inner, b, p, acc, seen, rest);
  }

  lemma SetField(schema: Schema, shape: Shape, b: Body, p: nat, acc: Body, seen: set<nat>, v: Value) returns (next: Body)
    requires Partly(schema, shape, b, acc, seen) && p < |shape.kinds| && !shape.kinds[p].PNext?
    requires v == KeptValue(schema, shape.kinds[p], b, p)
    ensures next == acc.(fields := acc.fields[p := v]) && Partly(schema, shape, b, next, seen + {p})
  {
    next := acc.(fields := acc.fields[p := v]);
  }

  lemma OptionalRoundTrip(schema: Schema, shape: Shape, inner: Kind, b: Body, p: nat, acc: Body, seen: set<nat>, rest: seq<byte>)
    returns (next: Body)
    requires GoodSchema(schema) && GoodKind(inner) && TypedBody(schema, shape, b) && TypedMember(schema, Optional(inner), b, p)
    requires Partly(schema, shape, b, acc, seen) && CountFound(inner, b, p, seen) && p < |shape.kinds|
    requires KeptValue(schema, Optional(inner), b, p) == KeptValue(schema, shape.kinds[p], b, p) && !shape.kinds[p].PNext?
    ensures ReadMember(schema, Optional(inner), WriteMember(schema, Optional(inner), b, p) + rest, p, acc) == Some(Parsed(next, rest))
    ensures Partly(schema, shape, b, next, seen + {p})
    decreases b, 1, inner, 1
  {
    if b.fields[p].Null? {
      ConcatParts([0 as byte], rest);
      next := SetField(schema, shape, b, p, acc, seen, Null);
      assert next == acc by {
        assert acc.fields[p] == Null;
        assert next.fields == acc.fields;
      }
    } else {
      var written := WriteMember(schema, inner, b, p);
      Assoc([1 as byte], written, rest);
      ConcatParts([1 as byte], written + rest);
      next := MemberRoundTrip(schema, shape, inner, b, p, acc, seen, rest);
    }
  }

  function TypesOf(c: Chain): seq<nat> {
    if c.End? then [] else [c.sType] + TypesOf(c.body.next)
  }

  function Surviving(schema: Schema, types: seq<nat>): seq<nat> {
    if types == [] then []
    else if types[0] in schema.loaderTypes then Surviving(schema, types[1..])
    else if types[0] !in schema.shapes then []
    else [types[0]] + Surviving(schema, types[1..])
  }

  predicate HasPNext(shape: Shape) {
    exists p :: 0 <= p < |shape.kinds| && shape.kinds[p].PNext?
  }

  /** Which structures come back: all but the loader's, up to the first unknown one. */
  lemma {:induction false} KeptTypes(schema: Schema, c: Chain)
    requires forall t | t in schema.shapes :: HasPNext(schema.shapes[t])
    ensures TypesOf(Kept(schema, c)) == Surviving(schema, TypesOf(c))
    decreases c
  {
    if c.Struct? {
      KeptTypes(schema, c.body.next);
      if c.sType !in schema.loaderTypes && c.sType in schema.shapes {
        assert HasPNext(schema.shapes[c.sType]);
      }
    }
  }

  /** A written chain starts with the type of the first structure that comes back, or with 0 when none does. */
  lemma ChainStartsWithType(schema: Schema, c: Chain)
    requires GoodSchema(schema) && TypedChain(schema, c)
    ensures var s, kept := WriteChain(schema, c), Surviving(schema, TypesOf(c));
      |s| >= 4 && FromLittleEndian(s[..4]) == (if kept == [] then 0 else kept[0]) && (kept == [] ==> |s| == 4)
    decreases c
  {
    Pow256Values();
    if c.Struct? && c.sType in schema.loaderTypes {
      ChainStartsWithType(schema, c.body.next);
    } else {
      var t := if c.Struct? && c.sType in schema.shapes then c.sType else 0;
      var more := if c.Struct? && c.sType in schema.shapes then WriteBody(schema, schema.shapes[t], c.body) else [];
      HeaderReads(t, more, []);
      Unit(LittleEndian(t, 4) + more);
      Unit(LittleEndian(t, 4));
    }
  }

  /** The numbers of an array come one behind the other, each as wide as their type. */
  lemma {:induction false} NumbersLayout(vs: seq<nat>, width: nat, k: nat)
    requires k < |vs|
    ensures EncodeAll(vs, width) == EncodeAll(vs[..k], width) + LittleEndian(vs[k], width) + EncodeAll(vs[k + 1..], width)
    decreases |vs|
  {
    if k == 0 {
      Unit(LittleEndian(vs[0], width));
    } else {
      NumbersLayout(vs[1..], width, k - 1);
      assert vs[1..][..k - 1] == vs[..k][1..] && vs[1..][k..] == vs[k + 1..];
      var first, front := LittleEndian(vs[0], width), EncodeAll(vs[..k][1..], width);
      Assoc(first, front + LittleEndian(vs[k], width), EncodeAll(vs[k + 1..], width));
      Assoc(first, front, LittleEndian(vs[k], width));
    }
  }

  /** A single number takes as many bytes as its type is wide. */
  lemma NumberLayout(schema: Schema, b: Body, pos: nat, width: nat)
    requires pos < |b.fields| && b.fields[pos].Number? && b.fields[pos].v < Pow256(width)
    ensures var s := WriteMember(schema, Scalar(width), b, pos); |s| == width && FromLittleEndian(s) == b.fields[pos].v
  {
    DecodeEncode(b.fields[pos].v, width);
  }

  /** A presence byte comes first: 0 alone for null, 1 and the member otherwise. */
  lemma PresenceComesFirst(schema: Schema, inner: Kind, b: Body, pos: nat)
    requires pos < |b.fields|
    ensures var s := WriteMember(schema, Optional(inner), b, pos);
      if b.fields[pos].Null? then s == [0] else s[0] == 1 && s[1..] == WriteMember(schema, inner, b, pos)
  {}

  // ---- a count behind its array

  /** Reading one member leaves the others alone. */
  lemma {:induction false} OthersStay(schema: Schema, kind: Kind, s: seq<byte>, pos: nat, acc: Body, q: nat)
    requires ReadMember(schema, kind, s, pos, acc).Some? && q < |acc.fields| && q != pos
    ensures var next := ReadMember(schema, kind, s, pos, acc).value.value;
      |next.fields| == |acc.fields| && next.fields[q] == acc.fields[q]
    decreases kind
  {
    if kind.Optional? && s[0] != 0 {
      OthersStay(schema, kind.kind, s[1..], pos, acc, q);
    }
  }

  lemma SizeStays(schema: Schema, kind: Kind, s: seq<byte>, pos: nat, acc: Body)
    requires ReadMember(schema, kind, s, pos, acc).Some?
    ensures |ReadMember(schema, kind, s, pos, acc).value.value.fields| == |acc.fields|
    decreases kind
  {
    if kind.Optional? && s[0] != 0 {
      SizeStays(schema, kind.kind, s[1..], pos, acc);
    }
  }

  lemma {:induction false} UnlistedStays(schema: Schema, shape: Shape, s: seq<byte>, order: seq<nat>, acc: Body, q: nat)
    requires ReadMembers(schema, shape, s, order, acc).Some? && q < |acc.fields| && q !in order
    ensures var r := ReadMembers(schema, shape, s, order, acc).value.value;
      |r.fields| == |acc.fields| && r.fields[q] == acc.fields[q]
    decreases |order|
  {
    if order != [] {
      if order[0] >= |shape.kinds| {
        UnlistedStays(schema, shape, s, order[1..], acc, q);
      } else {
        OthersStay(schema, shape.kinds[order[0]], s, order[0], acc, q);
        var next := ReadMember(schema, shape.kinds[order[0]], s, order[0], acc).value;
        UnlistedStays(schema, shape, next.rest, order[1..], next.value, q);
      }
    }
  }

  predicate UnreadAreNull(acc: Body, seen: set<nat>) {
    forall q: nat | q < |acc.fields| && q !in seen :: acc.fields[q] == Null
  }

  /** An array whose count was not read is taken to be empty. */
  lemma {:induction false} CountMissing(schema: Schema, kind: Kind, s: seq<byte>, pos: nat, acc: Body, seen: set<nat>, b: Body)
    requires UnreadAreNull(acc, seen) && pos !in seen && !CountFound(kind, b, pos, seen)
    requires ReadMember(schema, kind, s, pos, acc).Some?
    ensures var next := ReadMember(schema, kind, s, pos, acc).value.value;
      pos < |next.fields| && next.fields[pos] != KeptValue(schema, kind, b, pos)
    decreases kind
  {
    if kind.Optional? && s[0] != 0 {
      CountMissing(schema, kind.kind, s[1..], pos, acc, seen, b);
    } else if kind.Optional? {
      ListIsKept(schema, kind, b, pos, seen);
    }
  }

  lemma {:induction false} ListIsKept(schema: Schema, kind: Kind, b: Body, pos: nat, seen: set<nat>)
    requires !CountFound(kind, b, pos, seen)
    ensures KeptValue(schema, kind, b, pos) != Null
    decreases kind
  {
    if kind.Optional? {
      ListIsKept(schema, kind.kind, b, pos, seen);
    }
  }

  /** Whatever the bytes, some member does not get its value back. */
  lemma {:induction false} MembersAreLost(schema: Schema, shape: Shape, b: Body, s: seq<byte>, order: seq<nat>, acc: Body,
                                          seen: set<nat>)
    requires NoRepeats(order) && (forall p | p in order :: p !in seen && p < |shape.kinds|)
    requires UnreadAreNull(acc, seen) && !CountsFound(shape, b, order, seen)
    requires ReadMembers(schema, shape, s, order, acc).Some?
    ensures var r := ReadMembers(schema, shape, s, order, acc).value.value;
      exists p: nat :: p < |shape.kinds| && p < |r.fields| && r.fields[p] != KeptValue(schema, shape.kinds[p], b, p)
    decreases |order|
  {
    var p, more := order[0], order[1..];
    assert p in order && (forall q | q in more :: q in order && q != p);
    var next := ReadMember(schema, shape.kinds[p], s, p, acc).value;
    if !CountFound(shape.kinds[p], b, p, seen) {
      CountMissing(schema, shape.kinds[p], s, p, acc, seen, b);
      UnlistedStays(schema, shape, next.rest, more, next.value, p);
    } else {
      forall q: nat | q < |next.value.fields| && q !in seen + {p} ensures next.value.fields[q] == Null {
        SizeStays(schema, shape.kinds[p], s, p, acc);
        OthersStay(schema, shape.kinds[p], s, p, acc, q);
      }
      MembersAreLost(schema, shape, b, next.rest, more, next.value, seen + {p});
    }
  }

  /** Why counts have to be moved to the front: a body comes back if and only if each of its arrays is empty
      or read after its count. */
  lemma BodyReturnsExactly(schema: Schema, shape: Shape, b: Body, rest: seq<byte>)
    requires GoodSchema(schema) && GoodKinds(shape.kinds) && TypedBody(schema, shape, b)
    ensures ReadBody(schema, shape, WriteBody(schema, shape, b) + rest) == Some(Parsed(KeptBody(schema, shape, b), rest))
       <==> forall p | 0 <= p < |shape.kinds| :: FoundAt(shape, b, p)
  {
    FoundExactly(shape, b);
    if CountsFound(shape, b, Order(shape), {}) {
      FoundRoundTrip(schema, shape, b, rest);
    } else if ReadBody(schema, shape, WriteBody(schema, shape, b) + rest).Some? {
      EarlyComeFirst(shape);
      var empty := Body(End, seq(|shape.kinds|, _ => Null));
      MembersAreLost(schema, shape, b, WriteBody(schema, shape, b) + rest, Order(shape), empty, {});
    }
  }

  /** Such a body: an array of one byte, declared before its count. */
  lemma LateCountLosesArray(schema: Schema, rest: seq<byte>)
    requires GoodSchema(schema)
    ensures var shape, b := Shape([Array(1, 1), Scalar(1)], {}), Body(End, [Numbers([7]), Number(1)]);
      && TypedBody(schema, shape, b)
      && ReadBody(schema, shape, WriteBody(schema, shape, b) + rest) != Some(Parsed(KeptBody(schema, shape, b), rest))
  {
    var shape, b := Shape([Array(1, 1), Scalar(1)], {}), Body(End, [Numbers([7]), Number(1)]);
    assert !FoundAt(shape, b, 0);
    assert Pow256(1) == 256;
    assert shape.kinds[1..][1..] == [];
    BodyReturnsExactly(schema, shape, b, rest);
  }

  /** With the count moved to the front it is written first, and the same body does come back. */
  lemma EarlyCountReturns(schema: Schema, rest: seq<byte>)
    requires GoodSchema(schema)
    ensures var shape, b := Shape([Array(1, 1), Scalar(1)], {1}), Body(End, [Numbers([7]), Number(1)]);
      && GoodShape(shape) && TypedBody(schema, shape, b) && WriteBody(schema, shape, b) == [1, 7]
      && ReadBody(schema, shape, WriteBody(schema, shape, b) + rest) == Some(Parsed(KeptBody(schema, shape, b), rest))
  {
    var shape, b := Shape([Array(1, 1), Scalar(1)], {1}), Body(End, [Numbers([7]), Number(1)]);
    assert Pow256(1) == 256;
    assert shape.kinds[1..][1..] == [] && GoodKinds([]) && 1 in Before(shape, 0);
    BodyRoundTrip(schema, shape, b, rest);
    EarlyCountIsFirst(schema, shape, b);
  }

  lemma EarlyCountIsFirst(schema: Schema, shape: Shape, b: Body)
    requires shape == Shape([Array(1, 1), Scalar(1)], {1}) && b == Body(End, [Numbers([7]), Number(1)])
    ensures WriteBody(schema, shape, b) == [1, 7]
  {
    assert Positions(0, {1}, true) == [] == Positions(0, {1}, false);
    assert Positions(1, {1}, true) == [] && Positions(1, {1}, false) == [0];
    assert Order(shape) == [1, 0] && [1, 0][1..] == [0] && [0][1..] == [];
    assert LittleEndian(1, 1) == [1] && EncodeAll([7], 1) == [7];
    assert WriteMembers(schema, shape, b, [0]) == [7];
  }

  // ---- the generated code

  class Stream {
    var bytes: seq<byte>
    var at: nat

    ghost predicate Valid()
      reads this
    {
      at <= |bytes|
    }

    ghost function Left(): seq<byte>
      requires Valid()
      reads this
    {
      bytes[at..]
    }

    constructor ()
      ensures Valid() && bytes == []
    {
      bytes, at := [], 0;
    }

    method Append(data: seq<byte>)
      requires Valid()
      modifies this
      ensures Valid() && at == old(at) && bytes == old(bytes) + data
    {
      bytes := bytes + data;
    }

    method Take(n: nat) returns (data: Option<seq<byte>>)
      requires Valid()
      modifies this
      ensures Valid() && bytes == old(bytes)
      ensures if n <= |old(Left())| then data == Some(old(Left())[..n]) && Left() == old(Left())[n..]
              else data.None? && at == old(at)
    {
      if n > |bytes| - at {
        return None;
      }
      SliceOfRest(bytes, at, n);
      data := Some(bytes[at..at + n]);
      at := at + n;
    }
  }

  method WriteExtension(schema: Schema, out: Stream, chain: Chain)
    requires out.Valid()
    modifies out
    ensures out.Valid() && out.at == old(out.at) && out.bytes == old(out.bytes) + WriteChain(schema, chain)
    decreases chain, 0, 0
  {
    var c := chain;
    while c.Struct? && c.sType in schema.loaderTypes
      invariant WriteChain(schema, c) == WriteChain(schema, chain) && (c == chain || c < chain)
      decreases c
    {
      c := c.body.next;
    }
    if c.End? || c.sType !in schema.shapes {
      out.Append(LittleEndian(0, 4));
      return;
    }
    out.Append(LittleEndian(c.sType, 4));
    WriteStruct(schema, out, schema.shapes[c.sType], c.body);
  }

  method WriteStruct(schema: Schema, out: Stream, shape: Shape, b: Body)
    requires out.Valid()
    modifies out
    ensures out.Valid() && out.at == old(out.at) && out.bytes == old(out.bytes) + WriteBody(schema, shape, b)
    decreases b, 3, 0
  {
    var order := Order(shape);
    ghost var start := out.bytes;
    for i := 0 to |order|
      invariant out.Valid() && out.at == old(out.at)
      invariant out.bytes + WriteMembers(schema, shape, b, order[i..]) == start + WriteBody(schema, shape, b)
    {
      var p := order[i];
      assert p in order;
      ghost var before := out.bytes;
      Save(schema, out, shape.kinds[p], b, p);
      Assoc(before, WriteMember(schema, shape.kinds[p], b, p), WriteMembers(schema, shape, b, order[i + 1..]));
      assert order[i..][1..] == order[i + 1..];
    }
    Unit(out.bytes);
  }

  method SaveArray(out: Stream, vs: seq<nat>, width: nat)
    requires out.Valid()
    modifies out
    ensures out.Valid() && out.at == old(out.at) && out.bytes == old(out.bytes) + EncodeAll(vs, width)
  {
    for i := 0 to |vs|
      invariant out.Valid() && out.at == old(out.at)
      invariant out.bytes + EncodeAll(vs[i..], width) == old(out.bytes) + EncodeAll(vs, width)
    {
      Assoc(out.bytes, LittleEndian(vs[i], width), EncodeAll(vs[i + 1..], width));
      assert vs[i..][1..] == vs[i + 1..];
      out.Append(LittleEndian(vs[i], width));
    }
  }

  method SaveStructs(schema: Schema, out: Stream, shape: Shape, bodies: seq<Body>)
    requires out.Valid()
    modifies out
    ensures out.Valid() && out.at == old(out.at) && out.bytes == old(out.bytes) + WriteBodies(schema, shape, bodies)
    decreases bodies, 4, 0
  {
    for i := 0 to |bodies|
      invariant out.Valid() && out.at == old(out.at)
      invariant out.bytes + WriteBodies(schema, shape, bodies[i..]) == old(out.bytes) + WriteBodies(schema, shape, bodies)
    {
      Assoc(out.bytes, WriteBody(schema, shape, bodies[i]), WriteBodies(schema, shape, bodies[i + 1..]));
      assert bodies[i..][1..] == bodies[i + 1..];
      WriteStruct(schema, out, shape, bodies[i]);
    }
  }

  method Save(schema: Schema, out: Stream, kind: Kind, b: Body, p: nat)
    requires out.Valid()
    modifies out
    ensures out.Valid() && out.at == old(out.at) && out.bytes == old(out.bytes) + WriteMember(schema, kind, b, p)
    decreases b, 1, kind
  {
    if p >= |b.fields| {
      return;
    }
    var v := b.fields[p];
    match kind
    case Scalar(width) =>
      if v.Number? {
        out.Append(LittleEndian(v.v, width));
      }
    case Text =>
      out.Append(WriteText(v));
    case Handle =>
      out.Append(WriteHandle(v));
    case Array(_, width) =>
      if v.Numbers? {
        SaveArray(out, v.vs, width);
      }
    case Structs(_, shape) =>
      if v.Bodies? {
        SaveStructs(schema, out, shape, v.bodies);
      }
    case PNext =>
      WriteExtension(schema, out, b.next);
    case Embedded(shape) =>
      if v.Inner? {
        WriteStruct(schema, out, shape, v.body);
      }
    case Optional(inner) =>
      if v.Null? {
        out.Append([0]);
      } else {
        out.Append([1]);
        Save(schema, out, inner, b, p);
      }
  }

  /** The stream after a read, and what it gave: just what the function says. */
  twostate predicate Took<T>(input: Stream, new result: Option<T>, new expected: Option<Parsed<T>>)
    requires old(input.Valid())
    reads input
  {
    && input.Valid() && input.bytes == old(input.bytes)
    && (result.Some? <==> expected.Some?)
    && (result.Some? ==> result.value == expected.value.value && input.Left() == expected.value.rest)
  }

  method ReadExtension(schema: Schema, input: Stream) returns (chain: Option<Chain>)
    requires input.Valid()
    modifies input
    ensures Took(input, chain, ReadChain(schema, old(input.Left())))
    decreases |input.Left()|, 0, 0, 0
  {
    var header := input.Take(4);
    if header.None? {
      return None;
    }
    var t := FromLittleEndian(header.value);
    if t in schema.loaderTypes {
      return None;
    }
    if t == 0 {
      return Some(End);
    }
    if t !in schema.shapes {
      return None;
    }
    var body := ReadStruct(schema, input, schema.shapes[t]);
    chain := if body.None? then None else Some(Struct(t, body.value));
  }

  method ReadStruct(schema: Schema, input: Stream, shape: Shape) returns (body: Option<Body>)
    requires input.Valid()
    modifies input
    ensures Took(input, body, ReadBody(schema, shape, old(input.Left())))
    decreases |input.Left()|, Depth(shape), 2, 0
  {
    var order := Order(shape);
    var acc := Body(End, seq(|shape.kinds|, _ => Null));
    ghost var start := input.Left();
    for i := 0 to |order|
      invariant input.Valid() && input.bytes == old(input.bytes) && |input.Left()| <= |start|
      invariant ReadMembers(schema, shape, input.Left(), order[i..], acc) == ReadBody(schema, shape, start)
    {
      var p := order[i];
      assert p in order && order[i..][1..] == order[i + 1..];
      var next := Load(schema, input, shape.kinds[p], p, acc);
      if next.None? {
        return None;
      }
      acc := next.value;
    }
    body := Some(acc);
  }

  method Load(schema: Schema, input: Stream, kind: Kind, p: nat, acc: Body) returns (next: Option<Body>)
    requires input.Valid()
    modifies input
    ensures Took(input, next, ReadMember(schema, kind, old(input.Left()), p, acc))
    decreases |input.Left()|, KindDepth(kind), 0, 0
  {
    if p >= |acc.fields| {
      return None;
    }
    match kind
    case Scalar(width) =>
      var data := input.Take(width);
      next := if data.None? then None else Some(acc.(fields := acc.fields[p := Number(FromLittleEndian(data.value))]));
    case Text =>
      var text := LoadText(input);
      next := if text.None? then None else Some(acc.(fields := acc.fields[p := text.value]));
    case Handle =>
      var handle := LoadHandle(input);
      next := if handle.None? then None else Some(acc.(fields := acc.fields[p := handle.value]));
    case Array(count, width) =>
      var vs := LoadArray(input, CountOf(acc, count), width);
      next := if vs.None? then None else Some(acc.(fields := acc.fields[p := Numbers(vs.value)]));
    case Structs(count, shape) =>
      var bodies := LoadStructs(schema, input, shape, CountOf(acc, count));
      next := if bodies.None? then None else Some(acc.(fields := acc.fields[p := Bodies(bodies.value)]));
    case PNext =>
      var c := ReadExtension(schema, input);
      next := if c.None? then None else Some(acc.(next := c.value));
    case Embedded(shape) =>
      var b := ReadStruct(schema, input, shape);
      next := if b.None? then None else Some(acc.(fields := acc.fields[p := Inner(b.value)]));
    case Optional(inner) =>
      var present := input.Take(1);
      if present.None? {
        return None;
      }
      if present.value[0] == 0 {
        return Some(acc);
      }
      next := Load(schema, input, inner, p, acc);
  }

  method LoadText(input: Stream) returns (v: Option<Value>)
    requires input.Valid()
    modifies input
    ensures Took(input, v, ReadText(old(input.Left())))
  {
    var header := input.Take(2);
    if header.None? {
      return None;
    }
    var n := FromLittleEndian(header.value);
    var text := input.Take(n);
    if text.None? {
      return None;
    }
    v := Some(if n == 0 then Null else Chars(text.value));
  }

  method LoadHandle(input: Stream) returns (v: Option<Value>)
    requires input.Valid()
    modifies input
    ensures Took(input, v, ReadHandle(old(input.Left())))
  {
    if |input.bytes| - input.at < 9 {
      return None;
    }
    var index := input.Take(4);
    var thread := input.Take(1);
    var packet := input.Take(4);
    v := Some(Ref(FromLittleEndian(index.value), FromLittleEndian(thread.value), FromLittleEndian(packet.value)));
  }

  method LoadStructs(schema: Schema, input: Stream, shape: Shape, n: nat) returns (bodies: Option<seq<Body>>)
    requires input.Valid()
    modifies input
    ensures Took(input, bodies, ReadBodies(schema, shape, old(input.Left()), n))
    decreases |input.Left()|, Depth(shape), 3, n
  {
    var read: seq<Body> := [];
    ghost var start := input.Left();
    if ReadBodies(schema, shape, start, n).Some? {
      Unit(ReadBodies(schema, shape, start, n).value.value);
    }
    for i := 0 to n
      invariant input.Valid() && input.bytes == old(input.bytes) && |input.Left()| <= |start|
      invariant Prepended(read, ReadBodies(schema, shape, input.Left(), n - i)) == ReadBodies(schema, shape, start, n)
    {
      var body := ReadStruct(schema, input, shape);
      if body.None? {
        return None;
      }
      PrependedOneMore(read, body.value, ReadBodies(schema, shape, input.Left(), n - i - 1));
      read := read + [body.value];
    }
    Unit(read);
    bodies := Some(read);
  }

  method LoadArray(input: Stream, n: nat, width: nat) returns (vs: Option<seq<nat>>)
    requires input.Valid()
    modifies input
    ensures Took(input, vs, DecodeAll(old(input.Left()), n, width))
  {
    var read: seq<nat> := [];
    ghost var start := input.Left();
    if DecodeAll(start, n, width).Some? {
      Unit(DecodeAll(start, n, width).value.value);
    }
    for i := 0 to n
      invariant input.Valid() && input.bytes == old(input.bytes)
      invariant Prepended(read, DecodeAll(input.Left(), n - i, width)) == DecodeAll(start, n, width)
    {
      var data := input.Take(width);
      if data.None? {
        return None;
      }
      PrependedOneMore(read, FromLittleEndian(data.value), DecodeAll(input.Left(), n - i - 1, width));
      read := read + [FromLittleEndian(data.value)];
    }
    Unit(read);
    vs := Some(read);
  }

  ghost function Prepended<T>(read: seq<T>, more: Option<Parsed<seq<T>>>): Option<Parsed<seq<T>>> {
    if more.None? then None else Some(Parsed(read + more.value.value, more.value.rest))
  }

  lemma PrependedOneMore<T>(read: seq<T>, v: T, more: Option<Parsed<seq<T>>>)
    ensures Prepended(read + [v], more) == Prepended(read, Prepended([v], more))
  {
    if more.Some? {
      Assoc(read, [v], more.value.value);
    }
  }
}
