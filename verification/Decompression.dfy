/** Reading a compressed packet back: rule identifier, residue, payload and padding taken apart again,
    after section 7.4 of RFC 8724, from the packet and the rules alone. */
module Decompression {
  import opened Bytes
  import opened Rules
  import opened RuleSearch
  import opened Residues

  // ---- A packet taken apart -----------------------------------------------------------------------

  function Identifier(rule: Rule): (bits: seq<bit>)
    ensures |bits| == rule.idLength
  {
    NatBits(rule.id, rule.idLength)
  }

  predicate Padding(bits: seq<bit>) {
    |bits| < 8 && forall i :: 0 <= i < |bits| ==> bits[i] == 0
  }

  lemma PaddedToBytes(n: nat)
    ensures (n + PaddingBits(n)) % 8 == 0 && PaddingBits(n) < 8
  {
  }

  /** A packet is whole bytes: identifier, residue, payload and fewer than eight zeros. */
  lemma PacketParts(rule: Rule, residue: seq<bit>, payload: seq<byte>) returns (pad: seq<bit>)
    ensures var p := Packet(rule, residue, payload);
            && |p| % 8 == 0 && |p| >= rule.idLength && p[..rule.idLength] == Identifier(rule)
            && Padding(pad) && p[rule.idLength..] == residue + (Bits(payload) + pad)
  {
    var id := Identifier(rule);
    var n := |id + residue + Bits(payload)|;
    PaddedToBytes(n);
    pad := Repeat(0, PaddingBits(n));
    var p := Packet(rule, residue, payload);
    assert p == id + residue + Bits(payload) + pad;
    Regrouped(id, residue, Bits(payload), pad);
    ThreeParts(id, residue, Bits(payload) + pad);
    assert p == id + (residue + (Bits(payload) + pad));
  }

  /** All whole bytes of a bit string. */
  function WholeBytesOf(bits: seq<bit>): seq<byte> {
    Pack(bits[..|bits| - |bits| % 8])
  }

  lemma PayloadBack(payload: seq<byte>, pad: seq<bit>)
    requires Padding(pad)
    ensures WholeBytesOf(Bits(payload) + pad) == payload
  {
    var all := Bits(payload) + pad;
    assert |all| - |all| % 8 == |Bits(payload)|;
    assert all[..|Bits(payload)|] == Bits(payload);
    PackOfBits(payload);
  }

  /** A packet of an accepted rule of lossless pairs that covers all fields: behind the identifier, the
      decompressor finds every field, then the payload and the padding. */
  lemma PacketReadsBack(rule: Rule, fields: seq<Field>, chosen: seq<nat>, index: seq<nat>, payload: seq<byte>)
      returns (pad: seq<bit>)
    requires DistinctFields(fields) && DistinctEntries(rule.entries) && Chosen(rule.entries, fields, chosen)
    requires AllLossless(rule.entries, fields, chosen) && Judge(rule, fields) == Accepted(index)
    ensures var r := Residues.Cda(rule.entries, fields, Unused(fields), index, 0);
            && r.Residue?
            && var p := Packet(rule, r.bits, payload);
               && |p| % 8 == 0 && |p| >= rule.idLength && p[..rule.idLength] == Identifier(rule)
               && Padding(pad)
               && Decode(rule.entries, p[rule.idLength..]) == Values(ValuesOf(fields, chosen), Bits(payload) + pad)
  {
    assert index[0..] == index;
    EntriesRoundTrip(rule.entries, fields, chosen, Unused(fields), Unused(fields), index, 0, []);
    pad := PacketParts(rule, Residues.Cda(rule.entries, fields, Unused(fields), index, 0).bits, payload);
    EntriesRoundTrip(rule.entries, fields, chosen, Unused(fields), Unused(fields), index, 0, Bits(payload) + pad);
  }

  // ---- The decompressor ---------------------------------------------------------------------------

  /** Which rule, the values of its entries, and the bytes behind the residue. */
  datatype Restored = Restored(rule: nat, values: seq<seq<byte>>, payload: seq<byte>) | Unknown

  /** The first rule from `i` on whose identifier starts the packet. */
  function RuleOf(rules: seq<Rule>, packet: seq<bit>, i: nat): nat
    requires i <= |rules|
    decreases |rules| - i
  {
    if i == |rules| || Identifier(rules[i]) <= packet then i else RuleOf(rules, packet, i + 1)
  }

  function Decompress(rules: seq<Rule>, packet: seq<bit>): Restored {
    var i := RuleOf(rules, packet, 0);
    if i >= |rules| || rules[i].idLength > |packet| then Unknown
    else
      var rest := packet[rules[i].idLength..];
      if rules[i].nature == NoCompression then Restored(i, [], WholeBytesOf(rest))
      else
        match Decode(rules[i].entries, rest)
        case Undecodable => Unknown
        case Values(values, left) => Restored(i, values, WholeBytesOf(left))
  }

  /** No identifier starts another. */
  predicate PrefixFree(rules: seq<Rule>) {
    forall i, j :: 0 <= i < |rules| && 0 <= j < |rules| && i != j ==> !(Identifier(rules[i]) <= Identifier(rules[j]))
  }

  lemma OnePrefixOfTwo(a: seq<bit>, b: seq<bit>, s: seq<bit>)
    requires a <= s && b <= s
    ensures a <= b || b <= a
  {
  }

  lemma {:induction false} FindsRule(rules: seq<Rule>, packet: seq<bit>, k: nat, i: nat)
    requires PrefixFree(rules) && i <= k < |rules| && Identifier(rules[k]) <= packet
    ensures RuleOf(rules, packet, i) == k
    decreases k - i
  {
    if i < k {
      if Identifier(rules[i]) <= packet {
        OnePrefixOfTwo(Identifier(rules[i]), Identifier(rules[k]), packet);
        assert false;
      }
      FindsRule(rules, packet, k, i + 1);
    }
  }

  lemma StartsWith(packet: seq<bit>, id: seq<bit>)
    requires |packet| >= |id| && packet[..|id|] == id
    ensures id <= packet
  {
  }

  lemma ByRule(rules: seq<Rule>, fields: seq<Field>, chosen: seq<nat>, index: seq<nat>, payload: seq<byte>, k: nat)
    requires PrefixFree(rules) && k < |rules| && rules[k].nature == Compression
    requires DistinctFields(fields) && DistinctEntries(rules[k].entries) && Chosen(rules[k].entries, fields, chosen)
    requires AllLossless(rules[k].entries, fields, chosen) && Judge(rules[k], fields) == Accepted(index)
    ensures var r := Residues.Cda(rules[k].entries, fields, Unused(fields), index, 0);
            r.Residue? && Decompress(rules, Packet(rules[k], r.bits, payload)) == Restored(k, ValuesOf(fields, chosen), payload)
  {
    var pad := PacketReadsBack(rules[k], fields, chosen, index, payload);
    var p := Packet(rules[k], Residues.Cda(rules[k].entries, fields, Unused(fields), index, 0).bits, payload);
    StartsWith(p, Identifier(rules[k]));
    FindsRule(rules, p, k, 0);
    PayloadBack(payload, pad);
  }

  lemma ByDefault(rules: seq<Rule>, raw: seq<byte>, k: nat)
    requires PrefixFree(rules) && k < |rules| && rules[k].nature == NoCompression
    ensures Decompress(rules, Packet(rules[k], Bits(raw), [])) == Restored(k, [], raw)
  {
    var pad := PacketParts(rules[k], Bits(raw), []);
    var p := Packet(rules[k], Bits(raw), []);
    assert Bits([]) + pad == pad;
    StartsWith(p, Identifier(rules[k]));
    FindsRule(rules, p, k, 0);
    PayloadBack(raw, pad);
  }

  /** A packet is recovered from what the compressor emits and the rules alone. If the search took rule
      `i`, one of lossless pairs that covers all fields, every field and the payload come back; if it
      took a default rule, the raw packet does. */
  lemma DecompressInverts(rules: seq<Rule>, fields: seq<Field>, dir: Direction, defaultId: nat, raw: seq<byte>, payload: seq<byte>,
                          residue: seq<bit>, packet: seq<bit>, chosen: seq<nat>)
    requires Compressed(rules, fields, dir, defaultId, raw, payload, residue, packet) && PrefixFree(rules) && DistinctFields(fields)
    requires var c := Search(rules, fields, dir, defaultId, Memory(0, -1));
             c.Use? ==>
               && DistinctEntries(rules[c.rule].entries) && Chosen(rules[c.rule].entries, fields, chosen)
               && AllLossless(rules[c.rule].entries, fields, chosen) && forall i :: 0 <= i < |fields| ==> i in chosen
    ensures |packet| % 8 == 0
    ensures var c, d := Search(rules, fields, dir, defaultId, Memory(0, -1)), Decompress(rules, packet);
            && d.Restored?
            && (c.UseDefault? ==> d == Restored(c.rule, [], raw))
            && (c.Use? ==>
                  && d.rule == c.rule && d.payload == payload && |d.values| == |rules[c.rule].entries|
                  && forall i :: 0 <= i < |fields| ==>
                       exists a :: 0 <= a < |d.values| && rules[c.rule].entries[a].fid == fields[i].fid && d.values[a] == fields[i].value)
  {
    FreshSearch(rules, fields, dir, defaultId);
    var c := Search(rules, fields, dir, defaultId, Memory(0, -1));
    if c.Use? {
      var pad := PacketParts(rules[c.rule], residue, payload);
      ByRule(rules, fields, chosen, c.index, payload, c.rule);
      forall i | 0 <= i < |fields|
        ensures exists a :: 0 <= a < |chosen| && rules[c.rule].entries[a].fid == fields[i].fid && ValuesOf(fields, chosen)[a] == fields[i].value
      {
        assert i in chosen;
        var a :| 0 <= a < |chosen| && chosen[a] == i;
        assert ValuesOf(fields, chosen)[a] == fields[i].value;
      }
    } else {
      var pad := PacketParts(rules[c.rule], residue, []);
      ByDefault(rules, raw, c.rule);
    }
  }
}
