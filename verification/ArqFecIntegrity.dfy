/** An ARQ-FEC receiver at the mercy of its channel: whatever messages arrive, corrupted, foreign or
    forged ones included. */
module ArqFecIntegrity {
  import opened Bytes
  import opened Message
  import opened FecMatrix
  import opened ArqFecReceiver
  import Rcs

  predicate NonEmpty(msgs: seq<seq<byte>>) {
    forall i :: 0 <= i < |msgs| ==> msgs[i] != []
  }

  /** Messages arriving one after the other: the last context, and all answers and deliveries. */
  function Fed(x: Ctx, msgs: seq<seq<byte>>): (o: Reaction)
    requires Valid(x) && NonEmpty(msgs)
    ensures Valid(o.ctx)
    decreases |msgs|
  {
    if msgs == [] then Reaction(x, [], [])
    else
      var before := Fed(x, msgs[..|msgs| - 1]);
      var o := Receive(before.ctx, msgs[|msgs| - 1]);
      Reaction(o.ctx, before.replies + o.replies, before.delivered + o.delivered)
  }

  /** The message is an All-1 with this RCS. */
  predicate Carries(m: seq<byte>, rcs: Rcs.word) {
    |m| >= 5 && FragmentType(m) == AllOneFragment && RcsOf(m) == rcs
  }

  ghost predicate Announced(msgs: seq<seq<byte>>, rcs: Rcs.word) {
    exists m :: m in msgs && Carries(m, rcs)
  }

  /** What is handed over has the RCS of this All-1 or of the one stored before, comes with ACK(3, 1),
      and ends the session. */
  predicate Matching(x: Ctx, m: seq<byte>, o: Reaction) {
    && (o.delivered == [] || (|o.delivered| == 1 && o.ctx.state == End && x.state != End && o.replies == [PositiveAckMsg(3)]))
    && (o.delivered != [] ==>
          Carries(m, Rcs.Crc32(o.delivered[0])) || (x.state == WaitMissing && Rcs.Crc32(o.delivered[0]) == x.rcs))
    && (o.ctx.state == WaitMissing ==> (x.state == WaitMissing && o.ctx.rcs == x.rcs) || Carries(m, o.ctx.rcs))
  }

  lemma AllOneMatching(x: Ctx, m: seq<byte>)
    requires Valid(x) && TypeOf(m) == AllOneFragment && (x.state == RcvWindow || x.state == WaitAllOne)
    ensures Matching(x, m, OnAllOne(x, m))
  {
    if |m| >= 5 {
      ConcludesExactly(Closing(x, m), x.state);
    }
  }

  lemma RepairMatching(x: Ctx, m: seq<byte>)
    requires Valid(x) && TypeOf(m) == RegularFragment && x.state == WaitMissing
    ensures Matching(x, m, OnMissing(x, m))
  {
    var y := Stored(x, m);
    if y.state != Fault {
      ConcludesExactly(y, End);
    }
  }

  lemma DeliversMatching(x: Ctx, m: seq<byte>)
    requires Valid(x) && m != []
    ensures Matching(x, m, Receive(x, m))
    ensures x.state == End || x.state == Fault ==> Receive(x, m).ctx.state == x.state
  {
    if FragmentType(m) == AllOneFragment && (x.state == RcvWindow || x.state == WaitAllOne) {
      AllOneMatching(x, m);
    } else if FragmentType(m) == RegularFragment && x.state == WaitMissing {
      RepairMatching(x, m);
    }
  }

  /** Decoding, flattening and comparing: the packet is handed over exactly when its RCS is the one
      stored, and otherwise nothing is said or done. */
  lemma ConcludesExactly(x: Ctx, onMismatch: State)
    requires Valid(x) && Receiving(x.state)
    ensures var o, packet := Conclude(x, onMismatch), Reassembled(x.code, x.c, x.m, x.r, x.d, x.lastTile);
            if x.rcs == Rcs.Crc32(packet) then o.ctx.state == End && o.replies == [PositiveAckMsg(3)] && o.delivered == [packet]
            else o.ctx.state == onMismatch && o.replies == [] && o.delivered == []
  {
  }

  lemma {:induction false} FedMatching(code: Code, overhead: fraction, msgs: seq<seq<byte>>)
    requires NonEmpty(msgs)
    ensures var o := Fed(Fresh(code, overhead), msgs);
            && |o.delivered| <= 1 && (o.delivered != [] ==> o.ctx.state == End && Announced(msgs, Rcs.Crc32(o.delivered[0])))
            && (o.ctx.state == WaitMissing ==> Announced(msgs, o.ctx.rcs))
    decreases |msgs|
  {
    if msgs == [] {
    } else {
      var init, m := msgs[..|msgs| - 1], msgs[|msgs| - 1];
      FedMatching(code, overhead, init);
      DeliversMatching(Fed(Fresh(code, overhead), init).ctx, m);
      assert m in msgs;
      assert forall r :: Announced(init, r) ==> Announced(msgs, r) by {
        forall r | Announced(init, r) ensures Announced(msgs, r) {
          var a :| a in init && Carries(a, r);
          assert a in msgs;
        }
      }
    }
  }

  /** Whatever arrives, in whatever order: at most one packet is handed over, and only one whose RCS came
      in an All-1. */
  lemma OnlyAnnouncedPackets(code: Code, overhead: fraction, msgs: seq<seq<byte>>)
    requires NonEmpty(msgs)
    ensures var delivered := Fed(Fresh(code, overhead), msgs).delivered;
            |delivered| <= 1 && (|delivered| == 1 ==> Announced(msgs, Rcs.Crc32(delivered[0])))
  {
    FedMatching(code, overhead, msgs);
  }

  /** The tiles that the receiver counts in a regular fragment: INIT takes the byte with `k` off the
      payload first, the other states do not. */
  function CountedTiles(s: State, m: seq<byte>): nat
    requires |m| > 1
  {
    if s == Init then (|m| - 2) / TILE_SIZE else (|m| - 1) / TILE_SIZE
  }

  /** A message makes the receiver leave its buffers exactly when it is an All-1 too short for an RCS
      where an All-1 is read, or a fragment whose tiles do not fit where fragments are read. */
  lemma LeavesBuffersExactly(x: Ctx, m: seq<byte>)
    requires Valid(x) && m != [] && x.state != Fault
    ensures Receive(x, m).ctx.state == Fault
            <==> || (FragmentType(m) == AllOneFragment && |m| < 5 && (x.state == RcvWindow || x.state == WaitAllOne))
                 || (&& FragmentType(m) == RegularFragment && (x.state == Init || x.state == RcvWindow || x.state == WaitMissing)
                     && var n := if x.state == Init then m[1] + Parity(m[1], x.overhead) else x.n;
                        !Storable(n, WOf(m), FcnOf(m), m[2..], CountedTiles(x.state, m)))
  {
    if FragmentType(m) == RegularFragment {
      assert PayloadOf(m)[1..] == m[2..];
    }
  }
}
