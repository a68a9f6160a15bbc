/**
 The Modbus-TCP slave peer: reassembly of MBAP frames (section 3.1.3 of the MODBUS Messaging
 on TCP/IP Implementation Guide V1.0b) from a byte stream, and its register map.
 */
module Modbus {
  import opened Bytes

  type Registers = map<nat, Word>

  const CONTROL: nat := 0x0200

  const POWER_UP: Registers :=
    map[0x0100 := 4000, 0x0101 := 500, 0x0102 := 5000, 0x0103 := 600, 0x0104 := 1000, 0x0105 := 0, CONTROL := 0]

  // ----- One request

  predicate IsRead(pdu: seq<Byte>) { |pdu| == 5 && pdu[0] == 0x03 }
  predicate IsWrite(pdu: seq<Byte>) { |pdu| == 5 && pdu[0] == 0x06 }

  function SetTopBit(b: Byte): (r: Byte) { if b < 0x80 then b + 0x80 else b }

  /** The response to a request, and the registers after it. */
  function Answer(regs: Registers, pdu: seq<Byte>): (r: (Registers, seq<Byte>))
    requires pdu != []
    ensures 2 <= |r.1| <= 5
  {
    if IsRead(pdu) then
      var addr, count := Be16(pdu, 1), Be16(pdu, 3);
      if addr in regs && count == 1 then (regs, [0x03, 0x02] + Pack16(regs[addr])) else (regs, [0x83, 0x02])
    else if IsWrite(pdu) then
      if Be16(pdu, 1) == CONTROL then (regs[CONTROL := Be16(pdu, 3)], [0x06] + pdu[1..5]) else (regs, [0x86, 0x02])
    else (regs, [SetTopBit(pdu[0]), 0x01])
  }

  /** A whole request: seven header bytes, at least a function code, and a matching length field. */
  predicate IsFrame(p: seq<Byte>) { |p| >= 8 && Be16(p, 4) == |p| - 6 }

  function Reply(regs: Registers, p: seq<Byte>): (s: seq<Byte>)
    requires |p| >= 8
  {
    var pdu := Answer(regs, p[7..]).1;
    Pack16(Be16(p, 0)) + [0, 0] + Pack16(|pdu| + 1) + [p[6]] + pdu
  }

  /** A reply is a frame with the request's transaction and unit ids. */
  lemma ReplyEchoes(regs: Registers, p: seq<Byte>)
    requires |p| >= 8
    ensures var s := Reply(regs, p);
            IsFrame(s) && Be16(s, 0) == Be16(p, 0) && s[2] == s[3] == 0 && s[6] == p[6] && s[7..] == Answer(regs, p[7..]).1
  {
  }

  // ----- The stream

  /** The connection: bytes not yet consumed, registers, replies sent. A malformed frame ends the handler. */
  datatype Conn = Open(buffer: seq<Byte>, regs: Registers, sent: seq<seq<Byte>>)
                | Crashed(regs: Registers, sent: seq<seq<Byte>>)

  /** Bytes of the first frame, once the header is there. */
  function FrameSize(b: seq<Byte>): (n: nat)
    requires |b| >= 7
  {
    6 + Be16(b, 4)
  }

  predicate Complete(b: seq<Byte>) { |b| >= 7 && FrameSize(b) <= |b| }

  /** Serves every complete frame in the buffer. */
  function Drain(b: seq<Byte>, regs: Registers, sent: seq<seq<Byte>>): (c: Conn)
    decreases |b|
  {
    if !Complete(b) then Open(b, regs, sent)
    else
      var n := FrameSize(b);
      if n < 8 then Crashed(regs, sent)
      else Drain(b[n..], Answer(regs, b[..n][7..]).0, sent + [Reply(regs, b[..n])])
  }

  function Receive(c: Conn, data: seq<Byte>): (r: Conn)
  {
    if c.Crashed? then c else Drain(c.buffer + data, c.regs, c.sent)
  }

  /** The connection after a sequence of receives. */
  function ReceiveAll(c: Conn, chunks: seq<seq<Byte>>): (r: Conn)
  {
    if chunks == [] then c
    else Receive(ReceiveAll(c, chunks[..|chunks| - 1]), chunks[|chunks| - 1])
  }

  function Concat(chunks: seq<seq<Byte>>): (s: seq<Byte>)
  {
    if chunks == [] then [] else Concat(chunks[..|chunks| - 1]) + chunks[|chunks| - 1]
  }

  /** Draining what has arrived and then the rest is draining everything at once. */
  lemma {:induction false} DrainInParts(a: seq<Byte>, b: seq<Byte>, regs: Registers, sent: seq<seq<Byte>>)
    ensures Receive(Drain(a, regs, sent), b) == Drain(a + b, regs, sent)
    decreases |a|
  {
    hide Answer, Reply;
    if Complete(a) {
      var n := FrameSize(a);
      assert FrameSize(a + b) == n;
      assert (a + b)[..n] == a[..n] && (a + b)[n..] == a[n..] + b;
      if n >= 8 {
        DrainInParts(a[n..], b, Answer(regs, a[..n][7..]).0, sent + [Reply(regs, a[..n])]);
      }
    }
  }

  /** How the stream is cut into receives makes no difference. */
  lemma {:induction false} ChunkingIrrelevant(regs: Registers, chunks: seq<seq<Byte>>)
    ensures ReceiveAll(Open([], regs, []), chunks) == Drain(Concat(chunks), regs, [])
    decreases |chunks|
  {
    hide Drain;
    if chunks == [] {
      NothingDrained(regs, []);
    } else {
      var init, last := chunks[..|chunks| - 1], chunks[|chunks| - 1];
      ChunkingIrrelevant(regs, init);
      DrainInParts(Concat(init), last, regs, []);
    }
  }

  lemma NothingDrained(regs: Registers, sent: seq<seq<Byte>>)
    ensures Drain([], regs, sent) == Open([], regs, sent)
  {
  }

  // ----- What the slave does with a stream

  /** The complete, well-formed frames at the head of a stream. */
  function Frames(b: seq<Byte>): (fs: seq<seq<Byte>>)
    decreases |b|
  {
    if !Complete(b) || FrameSize(b) < 8 then [] else [b[..FrameSize(b)]] + Frames(b[FrameSize(b)..])
  }

  function RegsAfter(regs: Registers, fs: seq<seq<Byte>>): (r: Registers)
    requires forall i :: 0 <= i < |fs| ==> |fs[i]| >= 8
  {
    if fs == [] then regs else Answer(RegsAfter(regs, fs[..|fs| - 1]), fs[|fs| - 1][7..]).0
  }

  function Replies(regs: Registers, fs: seq<seq<Byte>>): (r: seq<seq<Byte>>)
    requires forall i :: 0 <= i < |fs| ==> |fs[i]| >= 8
    ensures |r| == |fs|
  {
    seq(|fs|, i requires 0 <= i < |fs| => Reply(RegsAfter(regs, fs[..i]), fs[i]))
  }

  lemma {:induction false} FramesAreFrames(b: seq<Byte>)
    ensures forall i :: 0 <= i < |Frames(b)| ==> IsFrame(Frames(b)[i])
    decreases |b|
  {
    if Complete(b) && FrameSize(b) >= 8 { FramesAreFrames(b[FrameSize(b)..]); }
  }

  lemma RegsAfterFirst(regs: Registers, f: seq<Byte>, fs: seq<seq<Byte>>)
    requires |f| >= 8 && forall i :: 0 <= i < |fs| ==> |fs[i]| >= 8
    ensures RegsAfter(regs, [f] + fs) == RegsAfter(Answer(regs, f[7..]).0, fs)
    decreases |fs|
  {
    hide Answer;
    if fs == [] {
      assert [f] + fs == [f] && [f][..0] == [];
      assert RegsAfter(regs, []) == regs;
    } else {
      RegsAfterFirst(regs, f, fs[..|fs| - 1]);
      assert ([f] + fs)[..|fs|] == [f] + fs[..|fs| - 1];
    }
  }

  lemma RepliesAfterFirst(regs: Registers, f: seq<Byte>, fs: seq<seq<Byte>>)
    requires |f| >= 8 && forall i :: 0 <= i < |fs| ==> |fs[i]| >= 8
    ensures Replies(regs, [f] + fs) == [Reply(regs, f)] + Replies(Answer(regs, f[7..]).0, fs)
  {
    hide Answer, Reply, RegsAfter;
    var all := [f] + fs;
    forall i | 0 <= i < |all| ensures Replies(regs, all)[i] == ([Reply(regs, f)] + Replies(Answer(regs, f[7..]).0, fs))[i] {
      if i == 0 {
        assert all[..0] == [];
        NoFramesNoChange(regs);
      } else {
        assert all[..i] == [f] + fs[..i - 1];
        RegsAfterFirst(regs, f, fs[..i - 1]);
      }
    }
  }

  lemma NoFramesNoChange(regs: Registers)
    ensures RegsAfter(regs, []) == regs
  {
  }

  /** Draining answers exactly the frames of the stream, in order. */
  lemma {:induction false} DrainAnswersFrames(b: seq<Byte>, regs: Registers, sent: seq<seq<Byte>>)
    ensures forall i :: 0 <= i < |Frames(b)| ==> |Frames(b)[i]| >= 8
    ensures var c := Drain(b, regs, sent);
            c.regs == RegsAfter(regs, Frames(b)) && c.sent == sent + Replies(regs, Frames(b))
    decreases |b|
  {
    hide Answer, Reply, RegsAfter, Replies;
    FramesAreFrames(b);
    if Complete(b) && FrameSize(b) >= 8 {
      var n := FrameSize(b);
      var f, rest := b[..n], b[n..];
      var regs' := Answer(regs, f[7..]).0;
      DrainAnswersFrames(rest, regs', sent + [Reply(regs, f)]);
      RegsAfterFirst(regs, f, Frames(rest));
      RepliesAfterFirst(regs, f, Frames(rest));
      assert sent + [Reply(regs, f)] + Replies(regs', Frames(rest)) == sent + ([Reply(regs, f)] + Replies(regs', Frames(rest)));
    } else {
      NoFramesNoChange(regs);
      assert Frames(b) == [] && sent + Replies(regs, []) == sent;
    }
  }

  /** What is left of a stream behind its frames. */
  function Unserved(b: seq<Byte>): (r: seq<Byte>)
    decreases |b|
  {
    if !Complete(b) || FrameSize(b) < 8 then b else Unserved(b[FrameSize(b)..])
  }

  /** The handler dies exactly when a complete header announces fewer than two bytes. */
  lemma {:induction false} CrashExactly(b: seq<Byte>, regs: Registers, sent: seq<seq<Byte>>)
    ensures var c := Drain(b, regs, sent);
            (c.Crashed? <==> Complete(Unserved(b))) && (c.Open? ==> c.buffer == Unserved(b))
    decreases |b|
  {
    hide Answer, Reply;
    if Complete(b) && FrameSize(b) >= 8 {
      var n := FrameSize(b);
      CrashExactly(b[n..], Answer(regs, b[..n][7..]).0, sent + [Reply(regs, b[..n])]);
    }
  }

  /** A header that announces no byte at all ends the handler. */
  lemma EmptyFrameCrashes(regs: Registers)
    ensures Drain([0, 0, 0, 0, 0, 0, 0], regs, []).Crashed?
  {
    CrashExactly([0, 0, 0, 0, 0, 0, 0], regs, []);
  }

  // ----- The registers

  predicate AcceptedWrite(f: seq<Byte>) { |f| >= 8 && IsWrite(f[7..]) && Be16(f[7..], 1) == CONTROL }

  /** The value of the last accepted write, or the given one. */
  function LastWritten(fs: seq<seq<Byte>>, initial: Word): (w: Word)
  {
    if fs == [] then initial
    else if AcceptedWrite(fs[|fs| - 1]) then Be16(fs[|fs| - 1][7..], 3)
    else LastWritten(fs[..|fs| - 1], initial)
  }

  /** Only the control register changes, and it holds the last accepted write. */
  lemma {:induction false} OnlyControlChanges(regs: Registers, fs: seq<seq<Byte>>)
    requires CONTROL in regs && forall i :: 0 <= i < |fs| ==> |fs[i]| >= 8
    ensures RegsAfter(regs, fs) == regs[CONTROL := LastWritten(fs, regs[CONTROL])]
    decreases |fs|
  {
    if fs != [] { OnlyControlChanges(regs, fs[..|fs| - 1]); }
  }

  /** The request that reads one register. */
  predicate ReadsOne(f: seq<Byte>, addr: nat)
  {
    |f| >= 8 && IsRead(f[7..]) && Be16(f[7..], 1) == addr && Be16(f[7..], 3) == 1
  }

  /** What a reply says: the register read, the write echoed, or an exception code. */
  lemma AnswerMeans(regs: Registers, f: seq<Byte>)
    requires |f| >= 8
    ensures var pdu := Answer(regs, f[7..]).1;
            && (forall a :: a in regs && ReadsOne(f, a) ==> pdu == [0x03, 0x02] + Pack16(regs[a]))
            && (AcceptedWrite(f) ==> pdu == f[7..])
            && (!AcceptedWrite(f) && (forall a :: a in regs ==> !ReadsOne(f, a)) ==>
                  pdu == [SetTopBit(f[7]), if IsRead(f[7..]) || IsWrite(f[7..]) then 0x02 else 0x01])
  {
    var pdu := f[7..];
    if AcceptedWrite(f) { assert [0x06] + pdu[1..5] == pdu; }
    if IsRead(pdu) && Be16(pdu, 1) in regs && Be16(pdu, 3) == 1 { assert ReadsOne(f, Be16(pdu, 1)); }
  }

  /** What one reply of a session says. */
  lemma SessionReply(regs: Registers, fs: seq<seq<Byte>>, i: nat)
    requires CONTROL in regs && (forall i :: 0 <= i < |fs| ==> |fs[i]| >= 8) && i < |fs|
    ensures var s := Replies(regs, fs)[i];
            && IsFrame(s) && Be16(s, 0) == Be16(fs[i], 0) && s[6] == fs[i][6]
            && (ReadsOne(fs[i], CONTROL) ==> s[7..] == [0x03, 0x02] + Pack16(LastWritten(fs[..i], regs[CONTROL])))
            && (forall a :: a in regs && a != CONTROL && ReadsOne(fs[i], a) ==> s[7..] == [0x03, 0x02] + Pack16(regs[a]))
            && (AcceptedWrite(fs[i]) ==> s[7..] == fs[i][7..])
            && (!AcceptedWrite(fs[i]) && (forall a :: a in regs ==> !ReadsOne(fs[i], a)) ==>
                  s[7..] == [SetTopBit(fs[i][7]), if IsRead(fs[i][7..]) || IsWrite(fs[i][7..]) then 0x02 else 0x01])
  {
    hide Reply, LastWritten, RegsAfter, Answer;
    OnlyControlChanges(regs, fs[..i]);
    ReplyEchoes(RegsAfter(regs, fs[..i]), fs[i]);
    AnswerMeans(RegsAfter(regs, fs[..i]), fs[i]);
  }

  /**
   The whole session: for every way of cutting a stream into receives the slave answers
   the same frames with the same replies in the same order and ends with the same registers.
   */
  lemma SessionDeterminedByStream(regs: Registers, chunks: seq<seq<Byte>>)
    requires CONTROL in regs
    ensures var c, fs := ReceiveAll(Open([], regs, []), chunks), Frames(Concat(chunks));
            && (forall i :: 0 <= i < |fs| ==> IsFrame(fs[i]))
            && c.sent == Replies(regs, fs)
            && c.regs == regs[CONTROL := LastWritten(fs, regs[CONTROL])]
  {
    hide Replies, RegsAfter, LastWritten, Frames, Drain, ReceiveAll;
    var b := Concat(chunks);
    ChunkingIrrelevant(regs, chunks);
    FramesAreFrames(b);
    DrainAnswersFrames(b, regs, []);
    OnlyControlChanges(regs, Frames(b));
    assert [] + Replies(regs, Frames(b)) == Replies(regs, Frames(b));
  }

  // ----- The handler

  /** The slave process: its register map outlives connections. */
  class Slave {
    var values: Registers

    constructor ()
      ensures values == POWER_UP
    {
      values := POWER_UP;
    }

    /** Serves the complete frames of the buffer. */
    method ServeBuffer(buffer: seq<Byte>, sent: seq<seq<Byte>>)
      returns (crashed: bool, buffer': seq<Byte>, sent': seq<seq<Byte>>)
      modifies this
      ensures Drain(buffer, old(values), sent) == if crashed then Crashed(values, sent') else Open(buffer', values, sent')
    {
      hide Answer, Reply;
      buffer', sent' := buffer, sent;
      while |buffer'| >= 7
        invariant Drain(buffer', values, sent') == Drain(buffer, old(values), sent)
        decreases |buffer'|
      {
        var total := FrameSize(buffer');
        if |buffer'| < total {
          break;
        }
        var packet := buffer'[..total];
        if |packet| < 8 {
          return true, buffer', sent';
        }
        buffer' := buffer'[total..];
        sent' := sent' + [Reply(values, packet)];
        values := Answer(values, packet[7..]).0;
      }
      crashed := false;
    }

    /** One connection; an empty receive is the end of the stream. */
    method HandleConnection(chunks: seq<seq<Byte>>) returns (conn: Conn)
      modifies this
      ensures conn == ReceiveAll(Open([], old(values), []), UntilEmpty(chunks)) && conn.regs == values
    {
      var buffer: seq<Byte>, sent: seq<seq<Byte>> := [], [];
      ghost var received: seq<seq<Byte>> := [];
      for i := 0 to |chunks|
        invariant ReceiveAll(Open([], old(values), []), received) == Open(buffer, values, sent)
        invariant UntilEmpty(chunks) == received + UntilEmpty(chunks[i..])
      {
        hide Drain;
        if chunks[i] == [] {
          assert UntilEmpty(chunks[i..]) == [];
          assert received + [] == received;
          return Open(buffer, values, sent);
        }
        assert chunks[i..][1..] == chunks[i + 1..];
        assert received + ([chunks[i]] + UntilEmpty(chunks[i + 1..])) == received + [chunks[i]] + UntilEmpty(chunks[i + 1..]);
        ghost var before := received;
        received := received + [chunks[i]];
        assert received[..|received| - 1] == before;
        var crashed;
        crashed, buffer, sent := ServeBuffer(buffer + chunks[i], sent);
        if crashed {
          CrashedForGood(Open([], old(values), []), received, UntilEmpty(chunks[i + 1..]));
          return Crashed(values, sent);
        }
      }
      assert received + [] == received;
      return Open(buffer, values, sent);
    }
  }

  function UntilEmpty(chunks: seq<seq<Byte>>): (r: seq<seq<Byte>>)
  {
    if chunks == [] || chunks[0] == [] then [] else [chunks[0]] + UntilEmpty(chunks[1..])
  }

  lemma {:induction false} CrashedForGood(c: Conn, chunks: seq<seq<Byte>>, more: seq<seq<Byte>>)
    requires ReceiveAll(c, chunks).Crashed?
    ensures ReceiveAll(c, chunks + more) == ReceiveAll(c, chunks)
    decreases |more|
  {
    if more == [] {
      assert chunks + more == chunks;
    } else {
      assert (chunks + more)[..|chunks + more| - 1] == chunks + more[..|more| - 1];
      CrashedForGood(c, chunks, more[..|more| - 1]);
    }
  }
}
