/** Residue generation by the compression actions, the packet built from it, and a reference
    decompressor after section 7.4 of RFC 8724 that takes the residue apart again. */
module Residues {
  import opened Bytes
  import opened Rules
  import opened RuleSearch
  import opened BitWriting
  import BitFields

  // ---- CDA --------------------------------------------------------------------------------------

  /** What an entry writes for its field, and whether it used up a mapping index. */
  datatype Emission = Emission(bits: seq<bit>, mapped: bool) | Refused

  function IndexBits(e: Entry): nat {
    SizeInBits((|e.values| - 1) % 65536)
  }

  function Emit(e: Entry, f: Field, index: seq<nat>, count: nat): Emission {
    match e.action
    case ValueSent => if f.bitLength <= 8 * |f.value| then Emission(Bits(f.value)[..f.bitLength], false) else Refused
    case MappingSent => if count < |index| then Emission(NatBits(index[count], IndexBits(e)), true) else Refused
    case Lsb =>
      if e.msbLength <= f.bitLength <= e.msbLength + 64
      then Emission(NatBits(LowBits(f.value, f.bitLength - e.msbLength), f.bitLength - e.msbLength), false)
      else Refused
    case _ => Emission([], false)
  }

  datatype Residue = Residue(bits: seq<bit>) | Unwritten

  function Before(bits: seq<bit>, r: Residue): Residue {
    if r.Unwritten? then r else Residue(bits + r.bits)
  }

  /** `st_cda`: each entry takes the first unused field of its identifier; one without a field writes
      nothing. */
  function Cda(entries: seq<Entry>, fields: seq<Field>, used: seq<bool>, index: seq<nat>, count: nat): Residue
    requires |used| == |fields|
    decreases |entries|
  {
    if entries == [] then Residue([])
    else
      var k := FirstUnused(fields, used, entries[0].fid, 0);
      if k == |fields| then Cda(entries[1..], fields, used, index, count)
      else
        match Emit(entries[0], fields[k], index, count)
        case Refused => Unwritten
        case Emission(bits, mapped) =>
          Before(bits, Cda(entries[1..], fields, used[k := true], index, if mapped then count + 1 else count))
  }

  function PaddingBits(n: nat): nat { (8 - n % 8) % 8 }

  /** Rule identifier, residue, payload, padding. */
  function Packet(rule: Rule, residue: seq<bit>, payload: seq<byte>): seq<bit> {
    var bits := NatBits(rule.id, rule.idLength) + residue + Bits(payload);
    bits + Repeat(0, PaddingBits(|bits|))
  }

  // ---- The handlers -----------------------------------------------------------------------------

  method FindField(fields: seq<Field>, used: seq<bool>, fid: string) returns (k: nat)
    requires |used| == |fields|
    ensures k == FirstUnused(fields, used, fid, 0)
  {
    for i := 0 to |fields|
      invariant FirstUnused(fields, used, fid, 0) == FirstUnused(fields, used, fid, i)
    {
      if !used[i] && fields[i].fid == fid {
        return i;
      }
    }
    return |fields|;
  }

  method WriteEntry(e: Entry, f: Field, index: seq<nat>, count: nat, residue: BitWriter) returns (ok: bool, mapped: bool)
    requires residue.Valid()
    modifies residue
    ensures residue.Valid() && ok == Emit(e, f, index, count).Emission?
    ensures ok ==> mapped == Emit(e, f, index, count).mapped
                   && residue.Contents() == old(residue.Contents()) + Emit(e, f, index, count).bits
  {
    ok, mapped := true, false;
    match e.action {
      case ValueSent =>
        ok := residue.WriteMsb(f.value, f.bitLength);
      case MappingSent =>
        if count >= |index| {
          return false, false;
        }
        var bits := ValueSizeInBits((|e.values| - 1) % 65536);
        IndexBitsSmall((|e.values| - 1) % 65536);
        ok := residue.WriteUint(index[count], bits, 32);
        mapped := true;
      case Lsb =>
        if f.bitLength < e.msbLength {
          return false, false; // the 32-bit difference wraps to more than 64
        }
        var n := f.bitLength - e.msbLength;
        if n > 64 {
          return false, false;
        }
        var low := LsbExtractor(f.value, n);
        ok := residue.WriteU64(low, n);
      case _ =>
        assert residue.Contents() == residue.Contents() + [];
    }
  }

  lemma IndexBitsSmall(n: nat)
    requires n < 65536
    ensures SizeInBits(n) <= 16
  {
    SizeIsLeast(n);
    assert Pow2(8) == 256 && Pow2(16) == 256 * Pow2(8);
    if SizeInBits(n) > 16 {
      PowMonotone(16, SizeInBits(n) - 1);
    }
  }

  lemma {:induction false} PowMonotone(a: nat, b: nat)
    requires a <= b
    ensures Pow2(a) <= Pow2(b)
  {
    if a == b {
    } else {
      PowMonotone(a, b - 1);
    }
  }

  /** `st_cda` */
  method StCda(rule: Rule, fields: seq<Field>, index: seq<nat>, residue: BitWriter) returns (ok: bool)
    modifies residue
    ensures residue.Valid()
    ensures ok == Cda(rule.entries, fields, Unused(fields), index, 0).Residue?
    ensures ok ==> residue.Contents() == Cda(rule.entries, fields, Unused(fields), index, 0).bits
  {
    var entries := rule.entries;
    var used, count: nat := Unused(fields), 0;
    residue.Clear();
    ghost var all := Cda(entries, fields, used, index, 0);
    assert Before([], all) == all;
    for a := 0 to |entries|
      invariant residue.Valid() && |used| == |fields|
      invariant all == Before(residue.Contents(), Cda(entries[a..], fields, used, index, count))
    {
      var e := entries[a];
      assert entries[a..][0] == e && entries[a..][1..] == entries[a + 1..];
      var k := FindField(fields, used, e.fid);
      if k == |fields| {
        continue;
      }
      ghost var before := residue.Contents();
      var mapped;
      ok, mapped := WriteEntry(e, fields[k], index, count, residue);
      if !ok {
        return false;
      }
      used := used[k := true];
      count := if mapped then count + 1 else count;
      BeforeAppend(before, Emit(e, fields[k], index, if mapped then count - 1 else count).bits,
                   Cda(entries[a + 1..], fields, used, index, count));
    }
    assert residue.Contents() + [] == residue.Contents();
    return true;
  }

  lemma BeforeAppend(a: seq<bit>, b: seq<bit>, r: Residue)
    ensures Before(a, Before(b, r)) == Before(a + b, r)
  {
    if r.Residue? {
      assert a + (b + r.bits) == a + b + r.bits;
    }
  }

  /** Rule identifier and residue. */
  method WriteHeader(rule: Rule, residue: BitWriter, total: BitWriter) returns (ok: bool)
    requires residue.Valid() && total != residue
    modifies total
    ensures total.Valid() && ok == (rule.idLength <= 32)
    ensures ok ==> total.Contents() == NatBits(rule.id, rule.idLength) + residue.Contents()
  {
    total.Clear();
    ok := total.WriteUint(rule.id, rule.idLength, 32);
    if ok {
      assert total.Contents() == NatBits(rule.id, rule.idLength);
      total.WriteWriter(residue);
    }
  }

  /** `st_gen`: fails when a payload has to follow a header that does not end on a byte boundary. */
  method StGen(rule: Rule, residue: BitWriter, payload: seq<byte>, total: BitWriter) returns (ok: bool)
    requires residue.Valid() && total != residue
    modifies total
    ensures total.Valid()
    ensures ok <==> rule.idLength <= 32 && (payload == [] || (rule.idLength + residue.bitlen) % 8 == 0)
    ensures ok ==> total.Contents() == Packet(rule, residue.Contents(), payload)
  {
    ok := WriteBody(rule, residue, payload, total);
    if ok {
      Pad(total);
    }
  }

  method WriteBody(rule: Rule, residue: BitWriter, payload: seq<byte>, total: BitWriter) returns (ok: bool)
    requires residue.Valid() && total != residue
    modifies total
    ensures total.Valid()
    ensures ok <==> rule.idLength <= 32 && (payload == [] || (rule.idLength + residue.bitlen) % 8 == 0)
    ensures ok ==> total.Contents() == NatBits(rule.id, rule.idLength) + residue.Contents() + Bits(payload)
  {
    ok := WriteHeader(rule, residue, total);
    if ok {
      assert total.bitlen == rule.idLength + residue.bitlen;
      ok := total.WriteBytesAligned(payload);
    }
  }

  method Pad(total: BitWriter)
    requires total.Valid()
    modifies total
    ensures total.Valid()
    ensures total.Contents() == old(total.Contents()) + Repeat(0, PaddingBits(|old(total.Contents())|))
  {
    total.PadToByte();
  }

  /** `st_nocompress`: the packet as it is after the rule identifier. */
  method StNoCompress(rule: Rule, raw: seq<byte>, residue: BitWriter, total: BitWriter) returns (ok: bool)
    requires total != residue
    modifies total, residue
    ensures total.Valid() && residue.Valid() && ok == (rule.idLength <= 32)
    ensures ok ==> residue.Contents() == Bits(raw) && total.Contents() == Packet(rule, Bits(raw), [])
  {
    residue.Clear();
    var written := residue.WriteMsb(raw, 8 * |raw|);
    assert residue.Contents() == Bits(raw);
    ok := WriteHeader(rule, residue, total);
    if !ok {
      return;
    }
    assert total.Contents() == NatBits(rule.id, rule.idLength) + Bits(raw) + Bits([]);
    Pad(total);
  }

  /** The residue can be written, and the header ends on a byte if a payload follows. */
  predicate Writable(rule: Rule, fields: seq<Field>, index: seq<nat>, payload: seq<byte>) {
    var r := Cda(rule.entries, fields, Unused(fields), index, 0);
    rule.idLength <= 32 && r.Residue? && (payload == [] || (rule.idLength + |r.bits|) % 8 == 0)
  }

  /** Residue and packet of an accepted rule. */
  method CompressBy(rule: Rule, fields: seq<Field>, index: seq<nat>, payload: seq<byte>, residue: BitWriter, total: BitWriter)
      returns (ok: bool)
    requires total != residue && total.Valid()
    modifies residue, total
    ensures residue.Valid() && total.Valid() && ok == Writable(rule, fields, index, payload)
    ensures ok ==> Cda(rule.entries, fields, Unused(fields), index, 0) == Residue(residue.Contents())
                   && total.Contents() == Packet(rule, residue.Contents(), payload)
  {
    ghost var r := Cda(rule.entries, fields, Unused(fields), index, 0);
    ok := StCda(rule, fields, index, residue);
    if ok {
      assert r == Residue(residue.Contents()) && residue.bitlen == |r.bits|;
      ok := StGen(rule, residue, payload, total);
      assert residue.Contents() == r.bits;
    }
  }

  /** One packet through the machine: search, then residue and packet, or the packet as it is. */
  method Compress(rules: seq<Rule>, fields: seq<Field>, direction: Direction, defaultId: nat, raw: seq<byte>, payload: seq<byte>)
      returns (ok: bool, residue: BitWriter, total: BitWriter)
    ensures residue.Valid() && total.Valid()
    ensures ok <==> Compressible(rules, fields, direction, defaultId, payload)
    ensures ok ==> Compressed(rules, fields, direction, defaultId, raw, payload, residue.Contents(), total.Contents())
  {
    residue := new BitWriter();
    total := new BitWriter();
    var machine := new Machine(rules, fields, direction, defaultId);
    SearchIsRight(rules, fields, direction, defaultId, Memory(0, -1));
    ghost var steps := machine.Run();
    ok := false;
    if machine.state.Cda? {
      ok := CompressBy(rules[machine.selectedRule], fields, machine.indexMM, payload, residue, total);
    } else if machine.state.NoCompress? {
      ok := StNoCompress(rules[machine.selectedRule], raw, residue, total);
    }
  }

  /** The search finds a rule whose residue can be written and whose header ends on a byte if a payload
      follows, or a default rule; rule identifiers have at most 32 bits. */
  predicate Compressible(rules: seq<Rule>, fields: seq<Field>, direction: Direction, defaultId: nat, payload: seq<byte>) {
    match Search(rules, fields, direction, defaultId, Memory(0, -1))
    case Use(i, index) => i < |rules| && Writable(rules[i], fields, index, payload)
    case UseDefault(d) => d < |rules| && rules[d].idLength <= 32
    case _ => false
  }

  /** Residue and packet are those of the rule the search chooses. */
  ghost predicate Compressed(rules: seq<Rule>, fields: seq<Field>, direction: Direction, defaultId: nat, raw: seq<byte>,
                             payload: seq<byte>, residue: seq<bit>, packet: seq<bit>)
  {
    match Search(rules, fields, direction, defaultId, Memory(0, -1))
    case Use(i, index) =>
      && i < |rules| && Cda(rules[i].entries, fields, Unused(fields), index, 0) == Residue(residue)
      && packet == Packet(rules[i], residue, payload)
    case UseDefault(d) => d < |rules| && residue == Bits(raw) && packet == Packet(rules[d], residue, [])
    case _ => false
  }

  // ---- A reference decompressor -------------------------------------------------------------------

  datatype Decoded = Decoded(value: seq<byte>, rest: seq<bit>) | Short

  /** The bits as a right-aligned byte string. */
  function RightAligned(bits: seq<bit>): seq<byte> {
    Pack(Repeat(0, PaddingBits(|bits|)) + bits)
  }

  /** Section 7.4 of RFC 8724: a field's length is what its entry says. */
  function DecodeEntry(e: Entry, residue: seq<bit>): Decoded {
    var length := if e.length.Fixed? then e.length.bits else 0;
    match e.action
    case NotSent => if e.values == [] then Short else Decoded(e.values[0], residue)
    case ValueSent =>
      if e.length.Variable? || |residue| < length then Short
      else Decoded(RightAligned(residue[..length]), residue[length..])
    case MappingSent =>
      var n := IndexBits(e);
      if |residue| < n || Value(residue[..n]) >= |e.values| then Short
      else Decoded(e.values[Value(residue[..n])], residue[n..])
    case Lsb =>
      if e.length.Variable? || e.values == [] || 8 * |e.values[0]| < e.msbLength || length < e.msbLength || |residue| < length - e.msbLength then Short
      else Decoded(RightAligned(Bits(e.values[0])[..e.msbLength] + residue[..length - e.msbLength]), residue[length - e.msbLength..])
    case OtherAction => Short
  }

  datatype Values = Values(values: seq<seq<byte>>, rest: seq<bit>) | Undecodable

  function Decode(entries: seq<Entry>, residue: seq<bit>): Values
    decreases |entries|
  {
    if entries == [] then Values([], residue)
    else
      match DecodeEntry(entries[0], residue)
      case Short => Undecodable
      case Decoded(v, rest) =>
        match Decode(entries[1..], rest)
        case Undecodable => Undecodable
        case Values(vs, left) => Values([v] + vs, left)
  }

  // ---- Lossless pairs -----------------------------------------------------------------------------

  /** The entry gives the field's length. */
  predicate Sized(e: Entry, f: Field) { e.length == Fixed(f.bitLength) }

  predicate WholeBytes(f: Field) { 8 * |f.value| == f.bitLength }

  /** Operator and action of an entry that lose nothing of the field. */
  predicate LosslessPair(e: Entry, f: Field) {
    || (e.operator == Equal && e.action == NotSent)
    || (e.operator == Ignore && e.action == ValueSent && WholeBytes(f) && Sized(e, f))
    || (e.operator == MatchMapping && e.action == MappingSent && |e.values| <= 128)
    || (e.operator == Msb && e.action == Lsb && WholeBytes(f) && Sized(e, f) && e.msbLength <= f.bitLength <= e.msbLength + 16)
  }

  lemma AlignedWhole(value: seq<byte>)
    ensures RightAligned(Bits(value)) == value
  {
    assert Repeat(0, 0) + Bits(value) == Bits(value);
    PackOfBits(value);
  }

  lemma TakeAppend(bits: seq<bit>, tail: seq<bit>)
    ensures (bits + tail)[..|bits|] == bits && (bits + tail)[|bits|..] == tail
  {
  }

  lemma LsbBits(value: seq<byte>, n: nat)
    requires n <= 16 && n <= 8 * |value|
    ensures NatBits(LowBits(value, n), n) == Bits(value)[8 * |value| - n..]
  {
    NatBitsOfValue(Last(Bits(value), n));
    assert Last(Bits(value), n) == Bits(value)[8 * |value| - n..];
  }

  lemma MappingRoundTrip(e: Entry, f: Field, index: seq<nat>, count: nat, tail: seq<bit>)
    requires e.operator == MatchMapping && e.action == MappingSent && |e.values| <= 128 && Holds(e, f)
    requires count < |index| && [index[count]] == MappingIndex(e, f)
    ensures var o := Emit(e, f, index, count);
            o.Emission? && o.mapped && DecodeEntry(e, o.bits + tail) == Decoded(f.value, tail)
  {
    var j := FirstEqual(e.values, f.value, 0);
    FoundInList(e.values, f.value);
    assert index[count] == j by {
      assert [index[count]][0] == MappingIndex(e, f)[0];
    }
    IndexDecodes(e, j, tail);
  }

  lemma FoundInList(values: seq<seq<byte>>, value: seq<byte>)
    requires value in values
    ensures FirstEqual(values, value, 0) < |values|
  {
  }

  /** An index into the list is read back from the bits it was written in. */
  lemma IndexDecodes(e: Entry, i: nat, tail: seq<bit>)
    requires e.action == MappingSent && i < |e.values| <= 65536
    ensures DecodeEntry(e, NatBits(i, IndexBits(e)) + tail) == Decoded(e.values[i], tail)
  {
    var n := IndexBits(e);
    SizeIsLeast(|e.values| - 1);
    ValueOfNatBits(i, n);
    TakeAppend(NatBits(i, n), tail);
  }

  /** What the decompressor makes of the bits sent for an LSB entry. */
  lemma LsbDecodes(e: Entry, f: Field, sent: seq<bit>, tail: seq<bit>)
    requires e.action == Lsb && Sized(e, f) && e.values != [] && MsbAgree(e.values[0], f.value, e.msbLength)
    requires e.msbLength <= f.bitLength && |sent| == f.bitLength - e.msbLength
    ensures DecodeEntry(e, sent + tail) == Decoded(RightAligned(Bits(f.value)[..e.msbLength] + sent), tail)
  {
    TakeAppend(sent, tail);
  }

  lemma Rejoined(bits: seq<bit>, m: nat)
    requires m <= |bits|
    ensures bits[..m] + bits[m..] == bits
  {
  }

  lemma LsbRoundTrip(e: Entry, f: Field, tail: seq<bit>)
    requires e.action == Lsb && e.values != [] && MsbAgree(e.values[0], f.value, e.msbLength)
    requires WholeBytes(f) && Sized(e, f) && e.msbLength <= f.bitLength <= e.msbLength + 16
    ensures var o := Emit(e, f, [], 0);
            o.Emission? && !o.mapped && DecodeEntry(e, o.bits + tail) == Decoded(f.value, tail)
  {
    LsbBits(f.value, f.bitLength - e.msbLength);
    assert Emit(e, f, [], 0) == Emission(Bits(f.value)[e.msbLength..], false);
    LsbDecodes(e, f, Bits(f.value)[e.msbLength..], tail);
    Rejoined(Bits(f.value), e.msbLength);
    AlignedWhole(f.value);
  }

  /** One entry: what it writes, the decompressor reads back. */
  lemma EntryRoundTrip(e: Entry, f: Field, index: seq<nat>, count: nat, tail: seq<bit>)
    requires LosslessPair(e, f) && Holds(e, f)
    requires e.operator == MatchMapping ==> count < |index| && [index[count]] == MappingIndex(e, f)
    ensures var o := Emit(e, f, index, count);
            && o.Emission? && o.mapped == (e.operator == MatchMapping)
            && DecodeEntry(e, o.bits + tail) == Decoded(f.value, tail)
  {
    match e.operator
    case Equal => assert [] + tail == tail;
    case Ignore =>
      assert Bits(f.value)[..f.bitLength] == Bits(f.value);
      TakeAppend(Bits(f.value), tail);
      AlignedWhole(f.value);
    case MatchMapping => MappingRoundTrip(e, f, index, count, tail);
    case Msb => LsbRoundTrip(e, f, tail);
  }

  /** `chosen[a]` is the field of entry `a`. */
  predicate Chosen(entries: seq<Entry>, fields: seq<Field>, chosen: seq<nat>) {
    |chosen| == |entries| && forall a :: 0 <= a < |entries| ==> chosen[a] < |fields| && fields[chosen[a]].fid == entries[a].fid
  }

  function ValuesOf(fields: seq<Field>, chosen: seq<nat>): (values: seq<seq<byte>>)
    requires forall a :: 0 <= a < |chosen| ==> chosen[a] < |fields|
    ensures |values| == |chosen|
  {
    seq(|chosen|, a requires 0 <= a < |chosen| => fields[chosen[a]].value)
  }

  predicate AllLossless(entries: seq<Entry>, fields: seq<Field>, chosen: seq<nat>)
    requires Chosen(entries, fields, chosen)
  {
    forall a :: 0 <= a < |entries| ==> LosslessPair(entries[a], fields[chosen[a]])
  }

  lemma OnlyField(fields: seq<Field>, used: seq<bool>, fid: string, k: nat)
    requires |used| == |fields| && DistinctFields(fields) && k < |fields| && fields[k].fid == fid && !used[k]
    ensures FirstUnused(fields, used, fid, 0) == k
  {
  }

  lemma StillFree(entries: seq<Entry>, fields: seq<Field>, used: seq<bool>, after: seq<bool>)
    requires |used| == |fields| == |after| && entries != [] && DistinctEntries(entries) && Free(entries, fields, used)
    requires forall k :: 0 <= k < |fields| && fields[k].fid != entries[0].fid ==> after[k] == used[k]
    ensures Free(entries[1..], fields, after)
  {
    assert forall a :: 0 <= a < |entries[1..]| ==> entries[1..][a] == entries[a + 1];
  }

  lemma Tails(entries: seq<Entry>, fields: seq<Field>, chosen: seq<nat>)
    requires entries != [] && Chosen(entries, fields, chosen) && AllLossless(entries, fields, chosen) && DistinctEntries(entries)
    ensures var (es, cs) := (entries[1..], chosen[1..]);
            && DistinctEntries(es) && Chosen(es, fields, cs) && AllLossless(es, fields, cs)
            && [fields[chosen[0]].value] + ValuesOf(fields, cs) == ValuesOf(fields, chosen)
  {
    assert forall a :: 0 <= a < |entries[1..]| ==> entries[1..][a] == entries[a + 1] && chosen[1..][a] == chosen[a + 1];
  }

  /** All entries: MO and CDA walk the entries in one order, so the n-th mapping index pushed is the
      n-th one sent, and the decompressor recovers every field. */
  lemma {:induction false} EntriesRoundTrip(entries: seq<Entry>, fields: seq<Field>, chosen: seq<nat>, usedMo: seq<bool>,
                                            usedCda: seq<bool>, index: seq<nat>, count: nat, tail: seq<bit>)
    requires |usedMo| == |usedCda| == |fields| && DistinctFields(fields) && DistinctEntries(entries)
    requires Chosen(entries, fields, chosen) && AllLossless(entries, fields, chosen)
    requires Free(entries, fields, usedMo) && Free(entries, fields, usedCda)
    requires count <= |index| && Match(entries, fields, usedMo) == Accepted(index[count..])
    ensures var r := Cda(entries, fields, usedCda, index, count);
            && r.Residue?
            && Decode(entries, r.bits + tail) == Values(ValuesOf(fields, chosen), tail)
    decreases |entries|
  {
    if entries == [] {
      assert [] + tail == tail;
    } else {
      var e, k := entries[0], chosen[0];
      var f := fields[k];
      OnlyField(fields, usedCda, e.fid, k);
      Tails(entries, fields, chosen);
      var mo := OneMatch(entries, fields, usedMo, k);
      var next := count + |MappingIndex(e, f)|;
      IndexSplit(entries, fields, usedMo, index, count, k, mo);
      StillFree(entries, fields, usedMo, mo);
      StillFree(entries, fields, usedCda, usedCda[k := true]);
      EntriesRoundTrip(entries[1..], fields, chosen[1..], mo, usedCda[k := true], index, next, tail);
      var rest := Cda(entries[1..], fields, usedCda[k := true], index, next);
      EntryRoundTrip(e, f, index, count, rest.bits + tail);
      var bits := Emit(e, f, index, count).bits;
      CdaStep(entries, fields, usedCda, index, count, k, next, rest);
      Regrouped([], bits, rest.bits, tail);
      assert [] + bits == bits;
      DecodeStep(entries, bits + (rest.bits + tail), f.value, rest.bits + tail, ValuesOf(fields, chosen[1..]), tail);
    }
  }

  lemma CdaStep(entries: seq<Entry>, fields: seq<Field>, used: seq<bool>, index: seq<nat>, count: nat, k: nat, next: nat, rest: Residue)
    requires |used| == |fields| && entries != [] && k < |fields| && FirstUnused(fields, used, entries[0].fid, 0) == k
    requires Emit(entries[0], fields[k], index, count).Emission?
    requires next == if Emit(entries[0], fields[k], index, count).mapped then count + 1 else count
    requires rest == Cda(entries[1..], fields, used[k := true], index, next)
    ensures Cda(entries, fields, used, index, count) == Before(Emit(entries[0], fields[k], index, count).bits, rest)
  {
  }

  lemma DecodeStep(entries: seq<Entry>, all: seq<bit>, value: seq<byte>, left: seq<bit>, values: seq<seq<byte>>, tail: seq<bit>)
    requires entries != []
    requires DecodeEntry(entries[0], all) == Decoded(value, left)
    requires Decode(entries[1..], left) == Values(values, tail)
    ensures Decode(entries, all) == Values([value] + values, tail)
  {
  }

  /** The first step of an accepted match: the flags it leaves. */
  function OneMatch(entries: seq<Entry>, fields: seq<Field>, used: seq<bool>, k: nat): (after: seq<bool>)
    requires |used| == |fields| && entries != []
    ensures |after| == |fields|
  {
    if entries[0].operator == Ignore then used
    else
      match Scan(entries[0], fields, used, 0)
      case Hit(used', _) => used'
      case _ => used
  }

  lemma IndexSplit(entries: seq<Entry>, fields: seq<Field>, used: seq<bool>, index: seq<nat>, count: nat, k: nat, after: seq<bool>)
    requires |used| == |fields| && entries != [] && DistinctFields(fields) && Free(entries, fields, used)
    requires k < |fields| && fields[k].fid == entries[0].fid && after == OneMatch(entries, fields, used, k)
    requires count <= |index| && Match(entries, fields, used) == Accepted(index[count..])
    ensures var own := MappingIndex(entries[0], fields[k]);
            && Holds(entries[0], fields[k]) && count + |own| <= |index| && index[count..count + |own|] == own
            && Match(entries[1..], fields, after) == Accepted(index[count + |own|..])
            && forall j :: 0 <= j < |fields| && fields[j].fid != entries[0].fid ==> after[j] == used[j]
  {
    var e := entries[0];
    if e.operator != Ignore {
      ScanDistinct(e, fields, used, 0);
      var h := Scan(e, fields, used, 0);
      var rest := Match(entries[1..], fields, after);
      assert index[count..] == h.index + rest.index;
      assert index[count..][..|h.index|] == h.index && index[count..][|h.index|..] == rest.index;
    }
  }

  /** Lossless residue: for an accepted rule of lossless pairs that covers all packet fields, the
      decompressor recovers every field from rule and residue alone. */
  lemma Lossless(rule: Rule, fields: seq<Field>, chosen: seq<nat>, index: seq<nat>, padding: seq<bit>)
    requires DistinctFields(fields) && DistinctEntries(rule.entries) && Chosen(rule.entries, fields, chosen)
    requires AllLossless(rule.entries, fields, chosen) && Judge(rule, fields) == Accepted(index)
    requires forall i :: 0 <= i < |fields| ==> i in chosen
    ensures var r := Cda(rule.entries, fields, Unused(fields), index, 0);
            && r.Residue?
            && var d := Decode(rule.entries, r.bits + padding);
               && d.Values? && d.rest == padding && |d.values| == |rule.entries|
               && forall i :: 0 <= i < |fields| ==>
                    exists a :: 0 <= a < |rule.entries| && rule.entries[a].fid == fields[i].fid && d.values[a] == fields[i].value
  {
    assert index[0..] == index;
    EntriesRoundTrip(rule.entries, fields, chosen, Unused(fields), Unused(fields), index, 0, padding);
    forall i | 0 <= i < |fields|
      ensures exists a :: 0 <= a < |rule.entries| && rule.entries[a].fid == fields[i].fid
                          && ValuesOf(fields, chosen)[a] == fields[i].value
    {
      assert i in chosen;
      var a :| 0 <= a < |chosen| && chosen[a] == i;
      assert ValuesOf(fields, chosen)[a] == fields[i].value;
    }
  }

  // ---- Where information is lost ------------------------------------------------------------------

  /** A value right-aligned in as few bytes as its length needs, as the parser delivers it. */
  predicate Normal(f: Field) {
    |f.value| == BitFields.Ceil8(f.bitLength)
    && forall i :: 0 <= i < 8 * |f.value| - f.bitLength ==> Bits(f.value)[i] == 0
  }

  predicate Zero(value: seq<byte>) {
    forall i :: 0 <= i < 8 * |value| ==> Bits(value)[i] == 0
  }

  /** The action's output for the field decodes to the field. */
  predicate Recovered(e: Entry, f: Field, tail: seq<bit>) {
    var o := Emit(e, f, [], 0);
    o.Emission? && DecodeEntry(e, o.bits + tail) == Decoded(f.value, tail)
  }

  /** VALUE_SENT writes a right-aligned value from its first bit on, so the field is recovered exactly
      when it fills its bytes or is zero. */
  lemma ValueSentExactly(e: Entry, f: Field, tail: seq<bit>)
    requires e.action == ValueSent && Sized(e, f) && Normal(f)
    ensures Emit(e, f, [], 0).Emission?
    ensures Recovered(e, f, tail) <==> f.bitLength % 8 == 0 || Zero(f.value)
  {
    var bits, n := Bits(f.value), f.bitLength;
    var p := PaddingBits(n);
    PaddingFits(n);
    TakeAppend(bits[..n], tail);
    PaddedEquals(f.value, bits[..n], p);
    MovedExactly(bits, p);
  }

  lemma SixBits()
    ensures ByteBits(6) == [0, 0, 0, 0, 0, 1, 1, 0]
  {
    assert NatBits(6, 8) == NatBits(3, 7) + [0];
    assert NatBits(3, 7) == NatBits(1, 6) + [1];
    assert NatBits(1, 6) == NatBits(0, 5) + [1];
    BitFields.ZeroBits(5);
  }

  lemma OneByteBits(b: byte, i: nat)
    requires i < 8
    ensures Bits([b])[i] == ByteBits(b)[i]
  {
  }

  /** The IPv6 version field, four bits of value 6 in one byte: what is sent is zero. */
  lemma VersionIsLost(e: Entry, tail: seq<bit>)
    requires e.action == ValueSent && e.length == Fixed(4)
    ensures !Recovered(e, Field("ietf-schc:fid-ipv6-version", [6], 4), tail)
    ensures Emit(e, Field("ietf-schc:fid-ipv6-version", [6], 4), [], 0) == Emission(Repeat(0, 4), false)
  {
    var f := Field("ietf-schc:fid-ipv6-version", [6], 4);
    SixBits();
    forall i | 0 <= i < 4 ensures Bits(f.value)[i] == 0 {
      OneByteBits(6, i);
    }
    assert Bits(f.value)[..4] == Repeat(0, 4);
    OneByteBits(6, 5);
    ValueSentExactly(e, f, tail);
  }

  /** A mapping index travels in a signed byte: an accepted field is recovered exactly when its value is
      among the first 128 of the list. */
  lemma MappingExactly(e: Entry, f: Field, tail: seq<bit>)
    requires e.operator == MatchMapping && e.action == MappingSent && Holds(e, f) && |e.values| <= 65536
    ensures var o := Emit(e, f, MappingIndex(e, f), 0);
            && o.Emission?
            && (DecodeEntry(e, o.bits + tail) == Decoded(f.value, tail) <==> FirstEqual(e.values, f.value, 0) < 128)
  {
    var j := FirstEqual(e.values, f.value, 0);
    FoundInList(e.values, f.value);
    IndexDecodes(e, j % 256, tail);
  }

  lemma PaddingFits(n: nat)
    ensures 8 * BitFields.Ceil8(n) == n + PaddingBits(n) && (PaddingBits(n) == 0 <==> n % 8 == 0)
  {
  }

  lemma PaddedEquals(value: seq<byte>, sent: seq<bit>, p: nat)
    requires p == PaddingBits(|sent|) && |sent| + p == 8 * |value|
    ensures RightAligned(sent) == value <==> Repeat(0, p) + sent == Bits(value)
  {
    BitsOfPack(Repeat(0, p) + sent);
    PackOfBits(value);
  }

  /** A row of bits, moved `p` places. */
  function Moved(bits: seq<bit>, p: nat): (moved: seq<bit>)
    requires p <= |bits|
    ensures |moved| == |bits|
  {
    Repeat(0, p) + bits[..|bits| - p]
  }

  lemma {:induction false} MovedSpreadsZeros(bits: seq<bit>, p: nat, i: nat)
    requires 0 < p <= |bits| && i < |bits| && Moved(bits, p) == bits
    ensures bits[i] == 0
    decreases i
  {
    assert bits[i] == Moved(bits, p)[i];
    if i >= p {
      MovedSpreadsZeros(bits, p, i - p);
    }
  }

  /** Moving a row of bits changes nothing exactly when it does not move or is all zeros. */
  lemma MovedExactly(bits: seq<bit>, p: nat)
    requires p <= |bits|
    ensures Moved(bits, p) == bits <==> p == 0 || forall i :: 0 <= i < |bits| ==> bits[i] == 0
  {
    if Moved(bits, p) == bits && p > 0 {
      forall i | 0 <= i < |bits| ensures bits[i] == 0 {
        MovedSpreadsZeros(bits, p, i);
      }
    }
    if forall i :: 0 <= i < |bits| ==> bits[i] == 0 {
      assert bits == Repeat(0, |bits|);
    }
  }

  /** Above the sixteen bits LSB sends there is nothing but zeros. */
  predicate MiddleClear(bits: seq<bit>, m: nat) {
    forall i :: m <= i < |bits| - 16 ==> bits[i] == 0
  }

  /** The first bits are all zero. */
  predicate TopClear(bits: seq<bit>, m: nat) {
    forall i :: 0 <= i < m && i < |bits| ==> bits[i] == 0
  }

  /** LSB splits a value that is right-aligned in its bytes as if it were left-aligned, and sends at most
      sixteen of its bits. So the field is recovered exactly when it fills its bytes or its first
      `msbLength` bits are zero, and the bits between those and its last sixteen are zero. */
  lemma LsbExactly(e: Entry, f: Field, tail: seq<bit>)
    requires e.action == Lsb && Sized(e, f) && e.values != [] && MsbAgree(e.values[0], f.value, e.msbLength)
    requires |f.value| == BitFields.Ceil8(f.bitLength) && e.msbLength <= f.bitLength <= e.msbLength + 64
    ensures Emit(e, f, [], 0).Emission?
    ensures var bits, m := Bits(f.value), PaddingBits(f.bitLength) + e.msbLength;
            Recovered(e, f, tail) <==> (f.bitLength % 8 == 0 || TopClear(bits, m)) && MiddleClear(bits, m)
  {
    PaddingFits(f.bitLength);
    LsbPadded(e, f, PaddingBits(f.bitLength), f.bitLength - e.msbLength, tail);
  }

  lemma LsbPadded(e: Entry, f: Field, p: nat, n: nat, tail: seq<bit>)
    requires e.action == Lsb && Sized(e, f) && e.values != [] && MsbAgree(e.values[0], f.value, e.msbLength)
    requires f.bitLength == e.msbLength + n && n <= 64 && p == PaddingBits(f.bitLength) && 8 * |f.value| == f.bitLength + p
    ensures Emit(e, f, [], 0).Emission?
    ensures var bits := Bits(f.value);
            Recovered(e, f, tail) <==> (p == 0 || TopClear(bits, p + e.msbLength)) && MiddleClear(bits, p + e.msbLength)
  {
    LsbRecovered(e, f, n, tail);
    Realigned(f.value, p, e.msbLength, n);
  }

  /** What the decompressor puts together is the target's first bits and the bits sent. */
  lemma LsbRecovered(e: Entry, f: Field, n: nat, tail: seq<bit>)
    requires e.action == Lsb && Sized(e, f) && e.values != [] && MsbAgree(e.values[0], f.value, e.msbLength)
    requires f.bitLength == e.msbLength + n && n <= 64 && f.bitLength <= 8 * |f.value|
    ensures Emit(e, f, [], 0).Emission?
    ensures Recovered(e, f, tail) <==> RightAligned(Bits(f.value)[..e.msbLength] + LsbSent(Bits(f.value), n)) == f.value
  {
    EmitsLsb(e, f, n);
    LsbDecodes(e, f, LsbSent(Bits(f.value), n), tail);
  }

  lemma EmitsLsb(e: Entry, f: Field, n: nat)
    requires e.action == Lsb && f.bitLength == e.msbLength + n && n <= 64 && n <= 8 * |f.value|
    ensures Emit(e, f, [], 0) == Emission(LsbSent(Bits(f.value), n), false)
  {
    LsbSends(f.value, n);
  }

  lemma Realigned(value: seq<byte>, p: nat, m: nat, n: nat)
    requires p == PaddingBits(m + n) && p + m + n == 8 * |value|
    ensures var bits := Bits(value);
            RightAligned(bits[..m] + LsbSent(bits, n)) == value <==> (p == 0 || TopClear(bits, p + m)) && MiddleClear(bits, p + m)
  {
    PaddedEquals(value, Bits(value)[..m] + LsbSent(Bits(value), n), p);
    MovedAndSent(Bits(value), p, m, n);
  }

  lemma MovedAndSent(bits: seq<bit>, p: nat, m: nat, n: nat)
    requires p + m + n == |bits|
    ensures Repeat(0, p) + (bits[..m] + LsbSent(bits, n)) == bits <==> (p == 0 || TopClear(bits, p + m)) && MiddleClear(bits, p + m)
  {
    InTwoParts(bits, p, m, LsbSent(bits, n));
    MovedExactly(bits[..p + m], p);
    FrontClear(bits, p + m);
    SentExactly(bits, n);
  }

  lemma FrontClear(bits: seq<bit>, m: nat)
    requires m <= |bits|
    ensures TopClear(bits, m) <==> forall i :: 0 <= i < |bits[..m]| ==> bits[..m][i] == 0
  {
    var front := bits[..m];
    assert forall i :: 0 <= i < m ==> front[i] == bits[i];
  }

  /** The bits written: the last ones, or zeros and the last sixteen. */
  function LsbSent(bits: seq<bit>, n: nat): (sent: seq<bit>)
    requires n <= |bits|
    ensures |sent| == n
  {
    if n <= 16 then bits[|bits| - n..] else SixteenLow(bits, n)
  }

  lemma LsbSends(value: seq<byte>, n: nat)
    requires n <= 8 * |value|
    ensures NatBits(LowBits(value, n), n) == LsbSent(Bits(value), n)
  {
    if n <= 16 {
      LsbBits(value, n);
    } else {
      LongLsb(value, n);
    }
  }

  lemma InTwoParts(bits: seq<bit>, p: nat, m: nat, sent: seq<bit>)
    requires p + m + |sent| == |bits|
    ensures Repeat(0, p) + (bits[..m] + sent) == bits <==> Moved(bits[..p + m], p) == bits[..p + m] && sent == bits[p + m..]
  {
    var front := Moved(bits[..p + m], p);
    assert bits[..p + m][..m] == bits[..m];
    assert front == Repeat(0, p) + bits[..m];
    assert Repeat(0, p) + (bits[..m] + sent) == front + sent;
    assert bits == bits[..p + m] + bits[p + m..];
    SameParts(front, sent, bits[..p + m], bits[p + m..]);
  }

  lemma SameParts<T>(a: seq<T>, b: seq<T>, c: seq<T>, d: seq<T>)
    requires |a| == |c|
    ensures a + b == c + d <==> a == c && b == d
  {
    if a + b == c + d {
      assert (a + b)[..|a|] == a && (c + d)[..|c|] == c && (a + b)[|a|..] == b && (c + d)[|c|..] == d;
    }
  }

  lemma SentExactly(bits: seq<bit>, n: nat)
    requires n <= |bits|
    ensures LsbSent(bits, n) == bits[|bits| - n..] <==> MiddleClear(bits, |bits| - n)
  {
    var sent, last := LsbSent(bits, n), bits[|bits| - n..];
    if n > 16 {
      if MiddleClear(bits, |bits| - n) {
        assert sent == last;
      }
      if sent == last {
        forall i | |bits| - n <= i < |bits| - 16 ensures bits[i] == 0 {
          assert last[i - (|bits| - n)] == sent[i - (|bits| - n)];
        }
      }
    }
  }

  function SixteenLow(bits: seq<bit>, n: nat): (sent: seq<bit>)
    requires 16 < n <= |bits|
    ensures |sent| == n
  {
    Repeat(0, n - 16) + bits[|bits| - 16..]
  }

  /** The 20-bit flow label with value 0x10000 and eight bits for MSB: twelve bits are sent, but the
      field is not recovered. */
  lemma FlowLabelIsLost(e: Entry, tail: seq<bit>)
    requires e.action == Lsb && e.length == Fixed(20) && e.msbLength == 8 && e.values == [[1, 0, 0]]
    ensures var f := Field("ietf-schc:fid-ipv6-flowlabel", [1, 0, 0], 20);
            Emit(e, f, [], 0).Emission? && !Recovered(e, f, tail)
  {
    var f := Field("ietf-schc:fid-ipv6-flowlabel", [1, 0, 0], 20);
    OneBits();
    forall i | 0 <= i < 8 ensures Bits(f.value)[i] == ByteBits(1)[i] {
    }
    LsbExactly(e, f, tail);
    assert Bits(f.value)[7] == 1;
  }

  lemma OneBits()
    ensures ByteBits(1) == [0, 0, 0, 0, 0, 0, 0, 1]
  {
    assert NatBits(1, 8) == NatBits(0, 7) + [1];
    BitFields.ZeroBits(7);
  }

  /** What is written for more than sixteen bits. */
  lemma LongLsb(value: seq<byte>, n: nat)
    requires 16 < n <= 8 * |value|
    ensures NatBits(LowBits(value, n), n) == SixteenLow(Bits(value), n)
  {
    var low := Bits(value)[8 * |value| - 16..];
    assert Last(Bits(value), 16) == low;
    WiderBits(low, n);
  }

  lemma WiderBits(bits: seq<bit>, n: nat)
    requires |bits| <= n
    ensures NatBits(Value(bits), n) == Repeat(0, n - |bits|) + bits
  {
    NatBitsOfValue(bits);
    BitFields.SplitBits(0, Value(bits), n - |bits|, |bits|);
    BitFields.ZeroBits(n - |bits|);
  }
}
