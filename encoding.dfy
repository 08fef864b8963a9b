/** The `encode` routine of Animation.c: one submission to the encoder,
    then the drain loop that writes every ready packet to the output file.
    The encoder (libavcodec) is an external capability; it is modelled by
    the replies it will give, in order. */
module Encoding {
  import opened Pixels
  import Render

  /** An encoded bitstream unit with its presentation timestamp. */
  datatype EncodedPacket = EncodedPacket(pts: int, data: seq<byte>)

  /** What one avcodec_receive_packet call reports: a packet, EAGAIN (not
      ready yet), AVERROR_EOF (end of stream), or any other negative code. */
  datatype Outcome = Packet(packet: EncodedPacket) | Again | Eof | Err

  /** What avcodec_send_frame was given: a frame (its pts and its pixel
      bytes at that moment) or NULL, the end-of-stream marker. */
  datatype Submission = Picture(pts: int, pixels: seq<byte>) | Flush

  /** How `encode` ends: it returns, or it calls exit(1) because the send or
      a receive failed. */
  datatype EncodeStatus = Done | SendFailed | ReceiveFailed

  /** The reply to the next send: the head of the script, or 0 (accepted)
      once the script is used up. */
  function NextReply(replies: seq<int>): int {
    if replies == [] then 0 else replies[0]
  }

  /** A script after one reply has been taken from it. */
  function Remaining<T>(replies: seq<T>): seq<T> {
    if replies == [] then [] else replies[1..]
  }

  /** The encoder's scripted behaviour. Once a script is used up the encoder
      accepts every submission (reply 0) and has nothing ready (EAGAIN). */
  class Encoder {
    var sendReplies: seq<int>
    var receiveReplies: seq<Outcome>
    var submissions: seq<Submission>

    constructor (sendReplies: seq<int>, receiveReplies: seq<Outcome>)
      ensures this.sendReplies == sendReplies && this.receiveReplies == receiveReplies
      ensures submissions == []
    {
      this.sendReplies, this.receiveReplies := sendReplies, receiveReplies;
      submissions := [];
    }

    /** avcodec_send_frame: records the submission and returns the next reply. */
    method SendFrame(frame: Render.Frame?) returns (ret: int)
      modifies this
      ensures submissions == old(submissions) + [SubmissionOf(frame)]
      ensures ret == NextReply(old(sendReplies)) && sendReplies == Remaining(old(sendReplies))
      ensures receiveReplies == old(receiveReplies)
    {
      submissions := submissions + [SubmissionOf(frame)];
      if sendReplies == [] {
        ret := 0;
      } else {
        ret := sendReplies[0];
        sendReplies := sendReplies[1..];
      }
    }

    /** avcodec_receive_packet: returns the next outcome. */
    method ReceivePacket() returns (r: Outcome)
      modifies this
      ensures r == (if old(receiveReplies) == [] then Again else old(receiveReplies)[0])
      ensures receiveReplies == Remaining(old(receiveReplies))
      ensures sendReplies == old(sendReplies) && submissions == old(submissions)
    {
      if receiveReplies == [] {
        r := Again;
      } else {
        r := receiveReplies[0];
        receiveReplies := receiveReplies[1..];
      }
    }
  }

  /** The submission a frame pointer stands for: NULL is the flush marker. */
  function SubmissionOf(frame: Render.Frame?): Submission
    reads if frame == null then {} else {frame, frame.data}
  {
    if frame == null then Flush else Picture(frame.pts, frame.data[..])
  }

  /** The output file, as the bytes written to it so far. */
  class OutputFile {
    var bytes: seq<byte>

    constructor ()
      ensures bytes == []
    {
      bytes := [];
    }

    /** fwrite of a whole buffer. */
    method Write(data: seq<byte>)
      modifies this
      ensures bytes == old(bytes) + data
    {
      bytes := bytes + data;
    }
  }

  /** The bytes of a run of packets, written one after the other. */
  function Payload(packets: seq<EncodedPacket>): seq<byte>
  {
    if packets == [] then [] else packets[0].data + Payload(packets[1..])
  }

  lemma {:induction false} PayloadAppend(a: seq<EncodedPacket>, b: seq<EncodedPacket>)
    ensures Payload(a + b) == Payload(a) + Payload(b)
  {
    if a == [] {
      assert a + b == b;
    } else {
      assert (a + b)[1..] == a[1..] + b;
      PayloadAppend(a[1..], b);
    }
  }

  /** The result of draining: the packets written, whether the loop stopped
      on an error, and how many receive calls consumed a reply. */
  datatype Drained = Drained(packets: seq<EncodedPacket>, failed: bool, consumed: nat)

  /** The drain loop on a script of receive outcomes. */
  function Drain(outs: seq<Outcome>): Drained
  {
    if outs == [] then Drained([], false, 0)
    else
      match outs[0]
      case Packet(p) =>
        var rest := Drain(outs[1..]);
        Drained([p] + rest.packets, rest.failed, rest.consumed + 1)
      case Err => Drained([], true, 1)
      case _ => Drained([], false, 1)
  }

  /** The packets of a drain are the leading packets of the script, in
      order; it stops at the first outcome that is not a packet, and it has
      failed exactly when that outcome is an error (EAGAIN and EOF both end
      the drain normally). It consumes one reply more than it writes packets,
      unless the script ran out. */
  lemma {:induction false} DrainWritesLeadingPackets(outs: seq<Outcome>)
    ensures var d := Drain(outs);
      && |d.packets| <= |outs|
      && (forall k :: 0 <= k < |d.packets| ==> outs[k] == Packet(d.packets[k]))
      && (|d.packets| < |outs| ==> !outs[|d.packets|].Packet?)
      && (d.failed <==> (|d.packets| < |outs| && outs[|d.packets|].Err?))
      && d.consumed == if |d.packets| < |outs| then |d.packets| + 1 else |d.packets|
  {
    if outs != [] && outs[0].Packet? {
      DrainWritesLeadingPackets(outs[1..]);
    }
  }

  /** The drain of a script made of packets ps followed by `stop`, a
      non-packet outcome, writes exactly ps. */
  lemma DrainStopsAt(ps: seq<EncodedPacket>, stop: Outcome, tail: seq<Outcome>)
    requires !stop.Packet?
    ensures var d := Drain(seq(|ps|, k requires 0 <= k < |ps| => Packet(ps[k])) + [stop] + tail);
      d.packets == ps && d.failed == stop.Err? && d.consumed == |ps| + 1
  {
    var outs := seq(|ps|, k requires 0 <= k < |ps| => Packet(ps[k])) + [stop] + tail;
    var d := Drain(outs);
    DrainWritesLeadingPackets(outs);
    assert outs[|ps|] == stop;
    assert |d.packets| == |ps|;
    assert forall k :: 0 <= k < |ps| ==> d.packets[k] == ps[k] by {
      forall k | 0 <= k < |ps| ensures d.packets[k] == ps[k] {
        assert outs[k] == Packet(ps[k]);
      }
    }
  }

  /** After n receive calls that all returned packets (`written`), draining
      the rest of the script finishes the drain of the whole script. */
  predicate DrainResumes(script: seq<Outcome>, n: int, written: seq<EncodedPacket>)
    requires 0 <= n <= |script|
  {
    var d, rest := Drain(script), Drain(script[n..]);
    d.packets == written + rest.packets && d.failed == rest.failed && d.consumed == n + rest.consumed
  }

  lemma DrainAdvances(script: seq<Outcome>, n: int, written: seq<EncodedPacket>)
    requires 0 <= n < |script| && script[n].Packet? && DrainResumes(script, n, written)
    ensures DrainResumes(script, n + 1, written + [script[n].packet])
  {
    assert script[n..][1..] == script[n + 1..];
  }

  lemma DrainEnds(script: seq<Outcome>, n: int, written: seq<EncodedPacket>)
    requires 0 <= n <= |script| && (n == |script| || !script[n].Packet?) && DrainResumes(script, n, written)
    ensures Drain(script).packets == written
    ensures Drain(script).failed <==> n < |script| && script[n].Err?
    ensures Drain(script).consumed == if n < |script| then n + 1 else n
  {
    assert Drain(script[n..]).packets == [];
    assert written + [] == written;
  }

  /** The receive loop of encode: receive until EAGAIN or EOF, writing each
      packet's bytes to `out`; any other negative result stops the loop with
      the packets received before it already written. */
  method ReceivePackets(enc: Encoder, out: OutputFile) returns (failed: bool)
    modifies enc, out
    ensures var d := Drain(old(enc.receiveReplies));
      && failed == d.failed
      && out.bytes == old(out.bytes) + Payload(d.packets)
      && d.consumed <= |old(enc.receiveReplies)|
      && enc.receiveReplies == old(enc.receiveReplies)[d.consumed..]
    ensures enc.submissions == old(enc.submissions) && enc.sendReplies == old(enc.sendReplies)
  {
    ghost var script := enc.receiveReplies;
    ghost var n := 0;
    ghost var written: seq<EncodedPacket> := [];
    failed := false;
    while true
      invariant 0 <= n <= |script| && enc.receiveReplies == script[n..]
      invariant out.bytes == old(out.bytes) + Payload(written)
      invariant DrainResumes(script, n, written)
      invariant enc.submissions == old(enc.submissions) && enc.sendReplies == old(enc.sendReplies)
      decreases |enc.receiveReplies|
    {
      var r := enc.ReceivePacket();
      if r == Again || r == Eof {
        break;
      } else if r.Err? {
        failed := true;
        break;
      }
      out.Write(r.packet.data);
      PayloadAppend(written, [r.packet]);
      DrainAdvances(script, n, written);
      written, n := written + [r.packet], n + 1;
    }
    DrainEnds(script, n, written);
  }

  /** encode: send one frame (or the NULL flush marker) and stop if the
      encoder rejects it, before any receive; otherwise drain the encoder
      into `out`. */
  method Encode(enc: Encoder, frame: Render.Frame?, out: OutputFile) returns (st: EncodeStatus)
    modifies enc, out
    ensures enc.submissions == old(enc.submissions) + [SubmissionOf(frame)]
    ensures enc.sendReplies == Remaining(old(enc.sendReplies))
    ensures old(out.bytes) <= out.bytes
    ensures NextReply(old(enc.sendReplies)) < 0 ==>
      st == SendFailed && out.bytes == old(out.bytes) && enc.receiveReplies == old(enc.receiveReplies)
    ensures var d := Drain(old(enc.receiveReplies));
      NextReply(old(enc.sendReplies)) >= 0 ==>
        && st == (if d.failed then ReceiveFailed else Done)
        && out.bytes == old(out.bytes) + Payload(d.packets)
        && d.consumed <= |old(enc.receiveReplies)|
        && enc.receiveReplies == old(enc.receiveReplies)[d.consumed..]
  {
    var ret := enc.SendFrame(frame);
    if ret < 0 {
      return SendFailed;
    }
    var failed := ReceivePackets(enc, out);
    st := if failed then ReceiveFailed else Done;
  }
}
