/** The incremental checksum over a buffer with some spans substituted
    (src/hardcode_read.cpp:4160-4190, 4418-4455; src/util.h:229-239). */
module MarkedChecksum {
  import opened Bytes
  import opened Sorting

  const MOD_ADLER: nat := 65521

  // ---- Adler-32

  datatype Sums = Sums(a: nat, b: nat)

  function Advance(s: Sums, d: byte): Sums {
    var a := (s.a + d) % MOD_ADLER;
    Sums(a, (s.b + a) % MOD_ADLER)
  }

  function Run(s: Sums, data: seq<byte>): Sums
    decreases |data|
  {
    if data == [] then s else Run(Advance(s, data[0]), data[1..])
  }

  function Unpack(checksum: nat): Sums {
    Sums(checksum % 0x1_0000, checksum / 0x1_0000)
  }

  function Pack(s: Sums): nat {
    s.b * 0x1_0000 + s.a
  }

  function Update(checksum: nat, data: seq<byte>): nat {
    Pack(Run(Unpack(checksum), data))
  }

  /** adler32(): the checksum of a whole buffer. */
  function Adler32(data: seq<byte>): nat {
    Pack(Run(Sums(1, 0), data))
  }

  method Adler32Update(checksum: nat, data: seq<byte>) returns (updated: nat)
    requires checksum < U32_LIMIT
    ensures updated == Update(checksum, data) < U32_LIMIT
    ensures forall built: seq<byte> | checksum == Adler32(built) :: updated == Adler32(built + data)
  {
    RunStaysInRange(Unpack(checksum), data);
    forall built: seq<byte> | checksum == Adler32(built) ensures Update(checksum, data) == Adler32(built + data) {
      AdlerExtends(built, data);
    }
    var a: nat, b: nat := checksum % 0x1_0000, checksum / 0x1_0000;
    for i := 0 to |data|
      invariant Run(Sums(a, b), data[i..]) == Run(Unpack(checksum), data)
    {
      a := (a + data[i]) % MOD_ADLER;
      b := (b + a) % MOD_ADLER;
    }
    updated := b * 0x1_0000 + a;
  }

  lemma {:induction false} RunStaysInRange(s: Sums, data: seq<byte>)
    requires s.a < 0x1_0000 && s.b < 0x1_0000
    ensures Run(s, data).a < 0x1_0000 && Run(s, data).b < 0x1_0000
    decreases |data|
  {
    if data != [] {
      RunStaysInRange(Advance(s, data[0]), data[1..]);
    }
  }

  lemma {:induction false} RunConcat(s: Sums, x: seq<byte>, y: seq<byte>)
    ensures Run(Run(s, x), y) == Run(s, x + y)
    decreases |x|
  {
    if x == [] {
      assert x + y == y;
    } else {
      RunConcat(Advance(s, x[0]), x[1..], y);
      assert (x + y)[1..] == x[1..] + y;
    }
  }

  lemma UnpackPack(s: Sums)
    requires s.a < 0x1_0000 && s.b < 0x1_0000
    ensures Unpack(Pack(s)) == s && Pack(s) < U32_LIMIT
  {}

  /** Updating in two steps is updating once with both parts. */
  lemma UpdateConcat(checksum: nat, x: seq<byte>, y: seq<byte>)
    requires checksum < U32_LIMIT
    ensures Update(checksum, x) < U32_LIMIT
    ensures Update(Update(checksum, x), y) == Update(checksum, x + y)
  {
    RunStaysInRange(Unpack(checksum), x);
    var s := Run(Unpack(checksum), x);
    UnpackPack(s);
    RunConcat(Unpack(checksum), x, y);
  }

  /** Continuing from the checksum of a text gives the checksum of the longer text. */
  lemma AdlerExtends(built: seq<byte>, more: seq<byte>)
    ensures Update(Adler32(built), more) == Adler32(built + more) < U32_LIMIT
  {
    RunStaysInRange(Sums(1, 0), built);
    RunStaysInRange(Sums(1, 0), built + more);
    RunConcat(Sums(1, 0), built, more);
    UnpackPack(Run(Sums(1, 0), built));
    UnpackPack(Run(Sums(1, 0), built + more));
  }

  // The definition of section 2.2 of RFC 1950, without intermediate reductions.

  function ByteSum(data: seq<byte>): nat {
    if data == [] then 1 else ByteSum(data[..|data| - 1]) + data[|data| - 1]
  }

  function SumOfSums(data: seq<byte>): nat {
    if data == [] then 0 else SumOfSums(data[..|data| - 1]) + ByteSum(data)
  }

  lemma ReduceEarly(x: nat, y: nat)
    ensures (x % MOD_ADLER + y) % MOD_ADLER == (x + y) % MOD_ADLER
    ensures (x + y % MOD_ADLER) % MOD_ADLER == (x + y) % MOD_ADLER
  {}

  /** Reducing after every byte leaves the remainders of the two sums. */
  lemma {:induction false} RunReduces(data: seq<byte>)
    ensures Run(Sums(1, 0), data) == Sums(ByteSum(data) % MOD_ADLER, SumOfSums(data) % MOD_ADLER)
    decreases |data|
  {
    if data != [] {
      var last := |data| - 1;
      var front, d := data[..last], data[last];
      RunReduces(front);
      assert data == front + [d];
      RunConcat(Sums(1, 0), front, [d]);
      var s := Run(Sums(1, 0), front);
      assert Run(s, [d]) == Run(Advance(s, d), []);
      ReduceEarly(ByteSum(front), d);
      ReduceEarly(SumOfSums(front), ByteSum(data));
      ReduceEarly(SumOfSums(front) % MOD_ADLER, ByteSum(data));
    }
  }

  /** The checksum of the standard: the sum of sums above the sum of bytes. */
  lemma AdlerMeetsStandard(data: seq<byte>)
    ensures Adler32(data) == (SumOfSums(data) % 65521) * 0x1_0000 + ByteSum(data) % 65521 < U32_LIMIT
  {
    RunReduces(data);
  }

  /** What the two sums are, byte by byte from the front. */
  lemma {:induction false} SumsFromFront(d: byte, data: seq<byte>)
    ensures ByteSum([d] + data) == d + ByteSum(data)
    ensures SumOfSums([d] + data) == 1 + (|data| + 1) * d + SumOfSums(data)
    decreases |data|
  {
    var all := [d] + data;
    if data == [] {
      assert all[..0] == [];
    } else {
      var n := |data| - 1;
      assert all[..|all| - 1] == [d] + data[..n];
      SumsFromFront(d, data[..n]);
    }
  }

  // ---- substituting spans

  /** Bytes that replace those at `offset`; kind and index say which mark they come from. */
  datatype Span = Span(offset: nat, bytes: seq<byte>, kind: nat, index: nat)

  predicate Covers(s: Span, k: nat) {
    s.offset <= k < s.offset + |s.bytes|
  }

  predicate InRange(spans: seq<Span>, size: nat) {
    forall s | s in spans :: s.bytes != [] && s.offset + |s.bytes| <= size
  }

  predicate SameSpan(s: Span, t: Span) {
    s.kind == t.kind && s.bytes == t.bytes
  }

  /** Spans may repeat, but must not otherwise meet. */
  predicate Compatible(spans: seq<Span>) {
    forall s, t | s in spans && t in spans ::
      if s.offset == t.offset then SameSpan(s, t)
      else s.offset < t.offset ==> s.offset + |s.bytes| <= t.offset
  }

  /** The buffer with every span substituted. */
  function Substituted(data: seq<byte>, spans: seq<Span>): (r: seq<byte>)
    requires InRange(spans, |data|)
    ensures |r| == |data|
  {
    if spans == [] then data else
      assert spans[0] in spans;
      Splice(Substituted(data, spans[1..]), spans[0].offset, spans[0].bytes)
  }

  /** v is what byte k should be. */
  predicate IsByte(data: seq<byte>, spans: seq<Span>, k: nat, v: byte)
    requires k < |data|
  {
    if exists s :: s in spans && Covers(s, k) then exists s :: s in spans && Covers(s, k) && v == s.bytes[k - s.offset]
    else v == data[k]
  }

  lemma {:induction false} SubstitutedAt(data: seq<byte>, spans: seq<Span>, k: nat)
    requires InRange(spans, |data|) && k < |data|
    ensures IsByte(data, spans, k, Substituted(data, spans)[k])
  {
    if spans != [] {
      var first, rest := spans[0], spans[1..];
      assert first in spans;
      SubstitutedAt(data, rest, k);
      if !Covers(first, k) {
        if s :| s in rest && Covers(s, k) {
          var t :| t in rest && Covers(t, k) && Substituted(data, rest)[k] == t.bytes[k - t.offset];
          assert t in spans;
        } else {
          assert forall s | s in spans :: s == first || s in rest;
        }
      }
    }
  }

  lemma ByteIsUnique(data: seq<byte>, spans: seq<Span>, k: nat, v: byte, w: byte)
    requires Compatible(spans) && k < |data| && IsByte(data, spans, k, v) && IsByte(data, spans, k, w)
    ensures v == w
  {}

  predicate SortedSpans(spans: seq<Span>) {
    forall i, j | 0 <= i < j < |spans| :: spans[i].offset <= spans[j].offset
  }

  /** By offset, then index. */
  predicate Less(a: Span, b: Span) {
    a.offset < b.offset || (a.offset == b.offset && a.index < b.index)
  }

  /** What the loop has written so far is right for every byte it has passed. */
  ghost predicate BuiltFrom(data: seq<byte>, spans: seq<Span>, built: seq<byte>) {
    && |built| <= |data|
    && (forall s | s in spans :: s.offset + |s.bytes| <= |built|)
    && (forall k | 0 <= k < |built| :: IsByte(data, spans, k, built[k]))
  }

  lemma AddSpan(data: seq<byte>, spans: seq<Span>, built: seq<byte>, s: Span)
    requires BuiltFrom(data, spans, built) && |built| <= s.offset && s.offset + |s.bytes| <= |data|
    ensures BuiltFrom(data, spans + [s], built + data[|built|..s.offset] + s.bytes)
  {
    var all, next := spans + [s], built + data[|built|..s.offset] + s.bytes;
    forall k | 0 <= k < |next| ensures IsByte(data, all, k, next[k]) {
      if k < |built| {
        assert IsByte(data, spans, k, built[k]);
        assert forall t | t in all && Covers(t, k) :: t in spans;
        assert forall t | t in spans :: t in all;
      } else if k < s.offset {
        assert forall t | t in all :: !Covers(t, k);
      } else {
        assert s in all && Covers(s, k);
      }
    }
  }

  lemma AddDuplicate(data: seq<byte>, spans: seq<Span>, built: seq<byte>, s: Span, first: Span)
    requires BuiltFrom(data, spans, built) && first in spans && s.offset == first.offset && s.bytes == first.bytes
    ensures BuiltFrom(data, spans + [s], built)
  {
    var all := spans + [s];
    forall k | 0 <= k < |built| ensures IsByte(data, all, k, built[k]) {
      assert IsByte(data, spans, k, built[k]);
      assert forall t | t in spans :: t in all;
      assert forall t | t in all && Covers(t, k) :: t in spans || Covers(first, k);
    }
  }

  lemma FinishBuilding(data: seq<byte>, spans: seq<Span>, built: seq<byte>)
    requires BuiltFrom(data, spans, built) && InRange(spans, |data|) && Compatible(spans)
    ensures built + data[|built|..] == Substituted(data, spans)
  {
    var r := built + data[|built|..];
    forall k | 0 <= k < |data| ensures r[k] == Substituted(data, spans)[k] {
      SubstitutedAt(data, spans, k);
      if k < |built| {
        assert IsByte(data, spans, k, built[k]);
        ByteIsUnique(data, spans, k, built[k], Substituted(data, spans)[k]);
      } else {
        assert forall t | t in spans :: !Covers(t, k);
      }
    }
  }

  lemma SubstitutedIsOrderFree(data: seq<byte>, spans: seq<Span>, others: seq<Span>)
    requires InRange(spans, |data|) && InRange(others, |data|) && Compatible(spans)
    requires forall s :: s in spans <==> s in others
    ensures Substituted(data, spans) == Substituted(data, others)
  {
    forall k | 0 <= k < |data| ensures Substituted(data, spans)[k] == Substituted(data, others)[k] {
      SubstitutedAt(data, spans, k);
      SubstitutedAt(data, others, k);
      ByteIsUnique(data, spans, k, Substituted(data, spans)[k], Substituted(data, others)[k]);
    }
  }

  /** The loop after the spans `seen`, in sorted order; `previous` is the last one it used. */
  ghost predicate LoopState(data: seq<byte>, seen: seq<Span>, previous: Option<Span>, built: seq<byte>) {
    && BuiltFrom(data, seen, built) && Compatible(seen)
    && (forall s | s in seen :: s.bytes != [])
    && (previous.None? ==> seen == [] && built == [])
    && (previous.Some? ==>
        && previous.value in seen && |built| == previous.value.offset + |previous.value.bytes|
        && forall s | s in seen :: s.offset <= previous.value.offset)
  }

  lemma TakeDuplicate(data: seq<byte>, seen: seq<Span>, previous: Span, built: seq<byte>, span: Span)
    requires LoopState(data, seen, Some(previous), built)
    requires span.offset == previous.offset && SameSpan(span, previous)
    ensures LoopState(data, seen + [span], Some(previous), built)
  {
    AddDuplicate(data, seen, built, span, previous);
    assert forall s | s in seen + [span] :: s in seen || s == span;
  }

  lemma TakeSpan(data: seq<byte>, seen: seq<Span>, previous: Option<Span>, built: seq<byte>, span: Span)
    requires LoopState(data, seen, previous, built)
    requires span.bytes != [] && |built| <= span.offset && span.offset + |span.bytes| <= |data|
    ensures LoopState(data, seen + [span], Some(span), built + data[|built|..span.offset] + span.bytes)
  {
    AddSpan(data, seen, built, span);
    assert forall s | s in seen + [span] :: s in seen || s == span;
    assert (seen + [span])[|seen|] == span;
  }

  lemma RejectSpan(data: seq<byte>, seen: seq<Span>, previous: Option<Span>, built: seq<byte>, span: Span, spans: seq<Span>)
    requires LoopState(data, seen, previous, built) && forall s | s in seen :: s in spans
    requires span in spans && forall s | s in seen :: s.offset <= span.offset
    requires if previous.Some? && span.offset == previous.value.offset then !SameSpan(span, previous.value)
             else span.offset < |built|
    ensures !Compatible(spans)
  {}

  /** One span of the loop: false when it clashes with an earlier one. */
  method Round(data: seq<byte>, ghost seen: seq<Span>, previous: Option<Span>, ghost built: seq<byte>, sum: nat,
               processed: nat, span: Span, ghost spans: seq<Span>)
    returns (ok: bool, nextPrevious: Option<Span>, ghost longer: seq<byte>, nextSum: nat, nextProcessed: nat)
    requires LoopState(data, seen, previous, built) && Holds(sum, processed, built)
    requires span in spans && (forall s | s in seen :: s in spans && s.offset <= span.offset)
    requires span.bytes != [] && span.offset + |span.bytes| <= |data|
    ensures ok ==> LoopState(data, seen + [span], nextPrevious, longer) && Holds(nextSum, nextProcessed, longer)
    ensures !ok ==> !Compatible(spans)
  {
    ok, nextPrevious, longer, nextSum, nextProcessed := true, previous, built, sum, processed;
    if previous.Some? && span.offset == previous.value.offset {
      if SameSpan(span, previous.value) {
        TakeDuplicate(data, seen, previous.value, built, span);
      } else {
        RejectSpan(data, seen, previous, built, span, spans);
        ok := false;
      }
      return;
    }
    if span.offset < processed {
      RejectSpan(data, seen, previous, built, span, spans);
      ok := false;
      return;
    }
    TakeSpan(data, seen, previous, built, span);
    longer := built + data[|built|..span.offset] + span.bytes;
    nextSum := Substitute(data, sum, built, span, processed);
    nextPrevious, nextProcessed := Some(span), span.offset + |span.bytes|;
  }

  ghost predicate Holds(sum: nat, processed: nat, built: seq<byte>) {
    processed == |built| && sum < U32_LIMIT && sum == Adler32(built)
  }

  lemma PrefixStep(sorted: seq<Span>, i: nat)
    requires SortedSpans(sorted) && i < |sorted|
    ensures sorted[..i + 1] == sorted[..i] + [sorted[i]] && sorted[i] in sorted
    ensures forall s | s in sorted[..i] :: s in sorted && s.offset <= sorted[i].offset
  {}

  /** The checksum loop: accepts exactly the compatible sets of spans, in whatever order and with
      identical duplicates, and then yields the checksum of the substituted buffer. */
  method ChecksumSpliced(data: seq<byte>, spans: seq<Span>) returns (checksum: Option<nat>)
    requires InRange(spans, |data|)
    ensures checksum.Some? <==> Compatible(spans)
    ensures checksum.Some? ==> checksum.value == Adler32(Substituted(data, spans))
  {
    var sorted := Sort(spans, Less);
    SortKeeps(spans, Less);
    var sum: nat, processed: nat, previous: Option<Span> := Adler32([]), 0, None;
    ghost var built: seq<byte>, seen: seq<Span> := [], [];
    for i := 0 to |sorted|
      invariant seen == sorted[..i] && LoopState(data, seen, previous, built) && Holds(sum, processed, built)
    {
      var ok: bool;
      PrefixStep(sorted, i);
      ok, previous, built, sum, processed := Round(data, seen, previous, built, sum, processed, sorted[i], spans);
      if !ok {
        return None;
      }
      seen := seen + [sorted[i]];
    }
    assert seen == sorted;
    checksum := FinishChecksum(data, sorted, previous, built, sum, processed, spans);
  }

  method FinishChecksum(data: seq<byte>, ghost sorted: seq<Span>, ghost previous: Option<Span>, ghost built: seq<byte>,
                        sum: nat, processed: nat, ghost spans: seq<Span>)
    returns (checksum: Option<nat>)
    requires LoopState(data, sorted, previous, built) && Holds(sum, processed, built)
    requires InRange(spans, |data|) && forall s :: s in sorted <==> s in spans
    ensures checksum == Some(Adler32(Substituted(data, spans))) && Compatible(spans)
  {
    FinishBuilding(data, sorted, built);
    CompatibleIsOrderFree(sorted, spans);
    SubstitutedIsOrderFree(data, sorted, spans);
    if processed < |data| {
      var last := Adler32Update(sum, data[processed..]);
      checksum := Some(last);
    } else {
      Unit(built);
      checksum := Some(sum);
    }
  }

  lemma CompatibleIsOrderFree(spans: seq<Span>, others: seq<Span>)
    requires Compatible(spans) && forall s :: s in spans <==> s in others
    ensures Compatible(others)
  {}

  /** The gap in front of a span, then the span's own bytes. */
  method Substitute(data: seq<byte>, sum: nat, ghost built: seq<byte>, span: Span, processed: nat) returns (next: nat)
    requires sum < U32_LIMIT && sum == Adler32(built) && processed <= span.offset <= |data|
    ensures next < U32_LIMIT && next == Adler32(built + data[processed..span.offset] + span.bytes)
  {
    next := sum;
    if span.offset > processed {
      next := Adler32Update(next, data[processed..span.offset]);
    } else {
      Unit(built);
    }
    next := Adler32Update(next, span.bytes);
  }

  // ---- a buffer in parts

  /** A stretch of the buffer: replaced by `bytes`, or left alone, as it holds them already. */
  datatype Part = Part(offset: nat, bytes: seq<byte>, kind: nat, replaced: bool)

  /** The spans of the replaced parts. */
  function SpansOf(parts: seq<Part>): seq<Span> {
    if parts == [] then [] else
      var last := |parts| - 1;
      var p := parts[last];
      SpansOf(parts[..last]) + (if p.replaced then [Span(p.offset, p.bytes, p.kind, last)] else [])
  }

  lemma {:induction false} PartOfSpan(parts: seq<Part>, s: Span) returns (i: nat)
    requires s in SpansOf(parts)
    ensures i < |parts| && parts[i].replaced && s == Span(parts[i].offset, parts[i].bytes, parts[i].kind, i)
    decreases |parts|
  {
    i := |parts| - 1;
    if !parts[i].replaced || s != Span(parts[i].offset, parts[i].bytes, parts[i].kind, i) {
      i := PartOfSpan(parts[..i], s);
    }
  }

  lemma {:induction false} SpanOfPart(parts: seq<Part>, i: nat)
    requires i < |parts| && parts[i].replaced
    ensures Span(parts[i].offset, parts[i].bytes, parts[i].kind, i) in SpansOf(parts)
    decreases |parts|
  {
    if i < |parts| - 1 {
      SpanOfPart(parts[..|parts| - 1], i);
    }
  }

  predicate Apart(p: Part, q: Part) {
    p.bytes == [] || q.bytes == [] || p.offset + |p.bytes| <= q.offset || q.offset + |q.bytes| <= p.offset
  }

  predicate Clear(parts: seq<Part>) {
    forall i, j | 0 <= i < |parts| && 0 <= j < |parts| :: parts[i] == parts[j] || Apart(parts[i], parts[j])
  }

  predicate InPlace(data: seq<byte>, p: Part) {
    && p.offset + |p.bytes| <= |data|
    && (if p.replaced then p.bytes != [] else data[p.offset..p.offset + |p.bytes|] == p.bytes)
  }

  predicate AllInPlace(data: seq<byte>, parts: seq<Part>) {
    forall i | 0 <= i < |parts| :: InPlace(data, parts[i])
  }

  lemma PartsAreCompatible(data: seq<byte>, parts: seq<Part>)
    requires Clear(parts) && AllInPlace(data, parts)
    ensures InRange(SpansOf(parts), |data|) && Compatible(SpansOf(parts))
  {
    var spans := SpansOf(parts);
    forall s | s in spans ensures s.bytes != [] && s.offset + |s.bytes| <= |data| {
      var i := PartOfSpan(parts, s);
      assert InPlace(data, parts[i]);
    }
    forall s, t | s in spans && t in spans
      ensures if s.offset == t.offset then SameSpan(s, t) else s.offset < t.offset ==> s.offset + |s.bytes| <= t.offset
    {
      var i := PartOfSpan(parts, s);
      var j := PartOfSpan(parts, t);
      assert parts[i] == parts[j] || Apart(parts[i], parts[j]);
    }
  }

  predicate Spans(p: Part, k: nat) {
    p.offset <= k < p.offset + |p.bytes|
  }

  /** Byte k of a part, after the substitution. */
  lemma PartByte(data: seq<byte>, parts: seq<Part>, i: nat, k: nat)
    requires Clear(parts) && AllInPlace(data, parts) && i < |parts| && Spans(parts[i], k)
    requires InRange(SpansOf(parts), |data|) && Compatible(SpansOf(parts))
    ensures k < |data| && Substituted(data, SpansOf(parts))[k] == parts[i].bytes[k - parts[i].offset]
  {
    var p, spans := parts[i], SpansOf(parts);
    assert InPlace(data, p);
    SubstitutedAt(data, spans, k);
    if p.replaced {
      SpanOfPart(parts, i);
      ReplacedByte(data, spans, Span(p.offset, p.bytes, p.kind, i), k, Substituted(data, spans)[k]);
    } else {
      forall s | s in spans ensures !Covers(s, k) {
        var j := PartOfSpan(parts, s);
        OtherPart(parts, i, j, k, s);
      }
      LeftByte(data, p, k);
    }
  }

  lemma ReplacedByte(data: seq<byte>, spans: seq<Span>, s: Span, k: nat, v: byte)
    requires Compatible(spans) && s in spans && k < |data| && Covers(s, k) && IsByte(data, spans, k, v)
    ensures v == s.bytes[k - s.offset]
  {
    ByteIsUnique(data, spans, k, v, s.bytes[k - s.offset]);
  }

  /** The span of another part does not reach into this one. */
  lemma OtherPart(parts: seq<Part>, i: nat, j: nat, k: nat, s: Span)
    requires Clear(parts) && i < |parts| && !parts[i].replaced && Spans(parts[i], k)
    requires j < |parts| && parts[j].replaced && s == Span(parts[j].offset, parts[j].bytes, parts[j].kind, j)
    ensures !Covers(s, k)
  {
    assert Apart(parts[i], parts[j]);
  }

  lemma LeftByte(data: seq<byte>, p: Part, k: nat)
    requires InPlace(data, p) && !p.replaced && Spans(p, k)
    ensures k < |data| && data[k] == p.bytes[k - p.offset]
  {
    assert data[p.offset..p.offset + |p.bytes|][k - p.offset] == data[k];
  }

  predicate Outside(parts: seq<Part>, k: nat) {
    forall i | 0 <= i < |parts| :: !Spans(parts[i], k)
  }

  lemma ByteOutside(data: seq<byte>, parts: seq<Part>, k: nat)
    requires InRange(SpansOf(parts), |data|) && k < |data| && Outside(parts, k)
    ensures Substituted(data, SpansOf(parts))[k] == data[k]
  {
    SubstitutedAt(data, SpansOf(parts), k);
    forall s | s in SpansOf(parts) ensures !Covers(s, k) {
      var i := PartOfSpan(parts, s);
      assert !Spans(parts[i], k);
    }
  }

  /** The goal shows the part's bytes where the part lies. */
  predicate ShownBy(goal: seq<byte>, p: Part) {
    p.offset + |p.bytes| <= |goal| && goal[p.offset..p.offset + |p.bytes|] == p.bytes
  }

  lemma ShownByte(goal: seq<byte>, p: Part, k: nat)
    requires ShownBy(goal, p) && Spans(p, k)
    ensures k < |goal| && goal[k] == p.bytes[k - p.offset]
  {
    assert goal[p.offset..p.offset + |p.bytes|][k - p.offset] == goal[k];
  }

  lemma PartsAreShown(data: seq<byte>, parts: seq<Part>, i: nat)
    requires Clear(parts) && AllInPlace(data, parts) && i < |parts|
    requires InRange(SpansOf(parts), |data|) && Compatible(SpansOf(parts))
    ensures ShownBy(Substituted(data, SpansOf(parts)), parts[i])
  {
    assert InPlace(data, parts[i]);
    var r := Substituted(data, SpansOf(parts));
    forall k: nat | Spans(parts[i], k) ensures k < |data| && r[k] == parts[i].bytes[k - parts[i].offset] {
      PartByte(data, parts, i, k);
    }
  }

  lemma GoalByte(data: seq<byte>, parts: seq<Part>, goal: seq<byte>, k: nat)
    requires Clear(parts) && AllInPlace(data, parts) && k < |goal| == |data|
    requires InRange(SpansOf(parts), |data|) && Compatible(SpansOf(parts))
    requires Outside(parts, k) ==> data[k] == goal[k]
    requires forall i | 0 <= i < |parts| :: ShownBy(goal, parts[i])
    ensures Substituted(data, SpansOf(parts))[k] == goal[k]
  {
    if i: nat :| i < |parts| && Spans(parts[i], k) {
      PartByte(data, parts, i, k);
      ShownByte(goal, parts[i], k);
    } else {
      ByteOutside(data, parts, k);
    }
  }

  /** Substituting gives the goal if and only if each part shows the goal's bytes. */
  lemma PartsShow(data: seq<byte>, parts: seq<Part>, goal: seq<byte>)
    requires Clear(parts) && AllInPlace(data, parts) && |goal| == |data|
    requires forall k | 0 <= k < |data| && Outside(parts, k) :: data[k] == goal[k]
    ensures InRange(SpansOf(parts), |data|) && Compatible(SpansOf(parts))
    ensures Substituted(data, SpansOf(parts)) == goal <==> forall i | 0 <= i < |parts| :: ShownBy(goal, parts[i])
  {
    PartsAreCompatible(data, parts);
    if forall i | 0 <= i < |parts| :: ShownBy(goal, parts[i]) {
      forall k: nat | k < |data| ensures Substituted(data, SpansOf(parts))[k] == goal[k] {
        GoalByte(data, parts, goal, k);
      }
    }
    forall i: nat | i < |parts| ensures ShownBy(Substituted(data, SpansOf(parts)), parts[i]) {
      PartsAreShown(data, parts, i);
    }
  }
}
