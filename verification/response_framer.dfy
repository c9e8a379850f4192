/** The loop that waits for the reply to a history Get: it looks for the
    base command among the bytes read (WAIT_HEADER), then collects the reply
    up to the first line feed (WAIT_CR), then keeps reading (FOUND) until the
    buffer holds at least 80 bytes. Serial reads are `Option<byte>`: `None`
    is a read that timed out and returned nothing. */
module ResponseFramer {

  import opened Options
  import opened Bytes

  datatype Phase = WaitHeader | WaitCr | Found

  datatype Framer = Framer(phase: Phase, buffer: seq<byte>)

  const Start: Framer := Framer(WaitHeader, [])

  /** The loop's condition `state != FOUND or len(buffer) < 80`, negated. */
  predicate Done(f: Framer)
  {
    f.phase == Found && |f.buffer| >= 80
  }

  /** The framer after one read, and the reply when this read ended it. */
  datatype FramerStep = FramerStep(next: Framer, reply: Option<seq<byte>>)

  /** One pass of the loop body. */
  function Step(f: Framer, header: seq<byte>, r: Option<byte>): (s: FramerStep)
    ensures r.None? ==> s == FramerStep(f, None)
    ensures s.reply.Some? <==> f.phase == WaitCr && r == Some(LF)
    ensures s.reply.Some? ==> s.reply.value == f.buffer + [LF] && s.next == Framer(Found, s.reply.value)
    ensures f.phase == Found && r.Some? ==> s.next == Framer(Found, f.buffer + [r.value])
    ensures f.phase == WaitHeader && r.Some? ==>
              if EndsWith(f.buffer + [r.value], header) then s.next == Framer(WaitCr, [])
              else s.next == Framer(WaitHeader, f.buffer + [r.value])
    ensures f.phase == WaitCr && r.Some? && r.value != LF ==> s.next == Framer(WaitCr, f.buffer + [r.value])
  {
    match r
    case None => FramerStep(f, None)
    case Some(b) =>
      var buffer := f.buffer + [b];
      match f.phase
      case WaitHeader =>
        if EndsWith(buffer, header) then FramerStep(Framer(WaitCr, []), None)
        else FramerStep(Framer(WaitHeader, buffer), None)
      case WaitCr =>
        if EndsWith(buffer, [LF]) then FramerStep(Framer(Found, buffer), Some(buffer))
        else FramerStep(Framer(WaitCr, buffer), None)
      case Found => FramerStep(Framer(Found, buffer), None)
  }

  /** The loop run over a finite sequence of reads: the framer it stops in,
      the reply it saw (if any) and how many reads it took. */
  datatype DriveResult = DriveResult(last: Framer, reply: Option<seq<byte>>, consumed: nat)

  function Drive(f: Framer, header: seq<byte>, input: seq<Option<byte>>): (d: DriveResult)
    ensures d.consumed <= |input|
    ensures d.consumed < |input| ==> Done(d.last)
    ensures Done(f) ==> d == DriveResult(f, None, 0)
    ensures f.phase == Found ==> d.reply == None && d.last.phase == Found
    ensures d.reply.Some? ==> d.last.phase == Found
    ensures f.phase != Found && d.last.phase == Found ==> d.reply.Some?
    decreases |input|
  {
    if Done(f) || |input| == 0 then DriveResult(f, None, 0)
    else
      var s := Step(f, header, input[0]);
      var rest := Drive(s.next, header, input[1..]);
      DriveResult(rest.last, if s.reply.Some? then s.reply else rest.reply, rest.consumed + 1)
  }

  /** Every byte as a read that returned it. */
  function Reads(bs: seq<byte>): (rs: seq<Option<byte>>)
    ensures |rs| == |bs|
    ensures forall i | 0 <= i < |bs| :: rs[i] == Some(bs[i])
  {
    seq(|bs|, i requires 0 <= i < |bs| => Some(bs[i]))
  }

  /** A run that used all of `a` continues with `b` from where it stopped. */
  lemma {:induction false} DriveAppend(f: Framer, header: seq<byte>, a: seq<Option<byte>>, b: seq<Option<byte>>)
    requires Drive(f, header, a).consumed == |a|
    ensures var d1 := Drive(f, header, a);
            var d2 := Drive(d1.last, header, b);
            Drive(f, header, a + b)
              == DriveResult(d2.last, if d1.reply.Some? then d1.reply else d2.reply, |a| + d2.consumed)
    decreases |a|
  {
    if |a| == 0 {
      assert a + b == b;
    } else if Done(f) {
      assert false;
    } else {
      assert (a + b)[0] == a[0];
      assert (a + b)[1..] == a[1..] + b;
      DriveAppend(Step(f, header, a[0]).next, header, a[1..], b);
    }
  }

  /** Reads that return nothing change nothing. */
  lemma {:induction false} EmptyReads(f: Framer, header: seq<byte>, n: nat)
    requires !Done(f)
    ensures Drive(f, header, seq<Option<byte>>(n, _ => None)) == DriveResult(f, None, n)
    decreases n
  {
    if n > 0 {
      assert seq<Option<byte>>(n, _ => None)[1..] == seq<Option<byte>>(n - 1, _ => None);
      EmptyReads(f, header, n - 1);
    }
  }

  /** Looking for the header: while no buffer ends with it the bytes pile up;
      the byte that completes it empties the buffer and starts the reply. */
  lemma {:induction false} SeekHeader(buffer: seq<byte>, header: seq<byte>, s: seq<byte>)
    requires |s| >= 1
    requires forall k | 0 < k < |s| :: !EndsWith(buffer + s[..k], header)
    requires EndsWith(buffer + s, header)
    ensures Drive(Framer(WaitHeader, buffer), header, Reads(s)) == DriveResult(Framer(WaitCr, []), None, |s|)
    decreases |s|
  {
    var f := Framer(WaitHeader, buffer);
    var b := s[0];
    assert Reads(s)[1..] == Reads(s[1..]);
    if |s| == 1 {
      assert buffer + [b] == buffer + s;
    } else {
      assert s[..1] == [b];
      assert !EndsWith(buffer + [b], header);
      forall k | 0 < k < |s[1..]|
        ensures !EndsWith((buffer + [b]) + s[1..][..k], header)
      {
        assert (buffer + [b]) + s[1..][..k] == buffer + s[..k + 1];
      }
      assert (buffer + [b]) + s[1..] == buffer + s;
      SeekHeader(buffer + [b], header, s[1..]);
    }
  }

  /** Collecting the reply: bytes other than LF pile up; the first LF ends
      the reply, which is everything read since the header. */
  lemma {:induction false} ReadLine(buffer: seq<byte>, header: seq<byte>, body: seq<byte>)
    requires forall i | 0 <= i < |body| :: body[i] != LF
    ensures Drive(Framer(WaitCr, buffer), header, Reads(body + [LF]))
              == DriveResult(Framer(Found, buffer + body + [LF]), Some(buffer + body + [LF]), |body| + 1)
    decreases |body|
  {
    var line := body + [LF];
    assert Reads(line)[1..] == Reads(line[1..]);
    if |body| == 0 {
      assert line == [LF];
      assert Reads(line)[1..] == [];
      assert buffer + body == buffer;
    } else {
      assert line[1..] == body[1..] + [LF];
      ReadLine(buffer + [body[0]], header, body[1..]);
      assert buffer + [body[0]] + body[1..] == buffer + body;
    }
  }

  /** The reply the loop sees is exactly the bytes after the first occurrence
      of the header, up to and including the next LF; nothing read after it
      changes that. */
  lemma FrameReply(header: seq<byte>, pre: seq<byte>, body: seq<byte>, rest: seq<Option<byte>>)
    requires |header| >= 1
    requires forall k | 0 < k < |pre + header| :: !EndsWith((pre + header)[..k], header)
    requires forall i | 0 <= i < |body| :: body[i] != LF
    ensures var d := Drive(Start, header, Reads(pre + header) + Reads(body + [LF]) + rest);
            d.reply == Some(body + [LF]) && d.last.phase == Found
  {
    var a := Reads(pre + header);
    var b := Reads(body + [LF]);
    forall k | 0 < k < |pre + header|
      ensures !EndsWith([] + (pre + header)[..k], header)
    {
      assert [] + (pre + header)[..k] == (pre + header)[..k];
    }
    assert [] + (pre + header) == pre + header;
    SeekHeader([], header, pre + header);
    DriveAppend(Start, header, a, b);
    ReadLine([], header, body);
    assert [] + body + [LF] == body + [LF];
    DriveAppend(Start, header, a + b, rest);
  }

  /** The loop up to the reply only, as a script that stops there sees it:
      it ends with the read that completes the reply, or when the reads run out. */
  function AwaitLine(f: Framer, header: seq<byte>, input: seq<Option<byte>>): (d: DriveResult)
    requires f.phase != Found
    ensures d.consumed <= |input|
    ensures d.reply.Some? ==> d.consumed >= 1 && d.last == Framer(Found, d.reply.value)
    ensures d.reply.None? ==> d.consumed == |input| && d.last.phase != Found
    decreases |input|
  {
    if |input| == 0 then DriveResult(f, None, 0)
    else
      var s := Step(f, header, input[0]);
      if s.reply.Some? then DriveResult(s.next, s.reply, 1)
      else
        var rest := AwaitLine(s.next, header, input[1..]);
        DriveResult(rest.last, rest.reply, rest.consumed + 1)
  }

  /** The whole loop is the loop up to the reply followed by the loop after it. */
  lemma {:induction false} DriveSplit(f: Framer, header: seq<byte>, input: seq<Option<byte>>)
    requires f.phase != Found
    ensures var a := AwaitLine(f, header, input);
            if a.reply.None? then Drive(f, header, input) == a
            else
              var d := Drive(a.last, header, input[a.consumed..]);
              Drive(f, header, input) == DriveResult(d.last, a.reply, a.consumed + d.consumed)
    decreases |input|
  {
    if |input| > 0 {
      var s := Step(f, header, input[0]);
      if s.reply.None? {
        DriveSplit(s.next, header, input[1..]);
        var a := AwaitLine(s.next, header, input[1..]);
        if a.reply.Some? {
          assert input[1..][a.consumed..] == input[a.consumed + 1..];
        }
      }
    }
  }

  /** The loop itself, over the reads available: it stops once the framer is
      done or the input run out, and ends where `Drive` does. */
  method AwaitReply(header: seq<byte>, input: seq<Option<byte>>) returns (f: Framer, reply: Option<seq<byte>>, used: nat)
    ensures used <= |input|
    ensures Done(f) || used == |input|
    ensures DriveResult(f, reply, used) == Drive(Start, header, input)
  {
    f := Start;
    reply := None;
    used := 0;
    while !Done(f) && used < |input|
      invariant used <= |input|
      invariant f.phase == Found ==> reply.Some?
      invariant reply.Some? ==> f.phase == Found
      invariant var d := Drive(f, header, input[used..]);
                Drive(Start, header, input)
                  == DriveResult(d.last, if reply.Some? then reply else d.reply, used + d.consumed)
      decreases |input| - used
    {
      var s := Step(f, header, input[used]);
      assert input[used..][1..] == input[used + 1..];
      if s.reply.Some? {
        reply := s.reply;
      }
      f := s.next;
      used := used + 1;
    }
  }
}
