/** The `SolarHistory` class: `process_byte` runs the response framer with
    an extra GET_DAY state that sends the Get command for the current day,
    and `get_history` feeds it one read at a time, counting a day for every
    result that is not `None`. A reply gives two results (one at its LF, one
    when the buffer reaches 80 bytes), so the cursor moves two days per reply
    and only even day offsets are ever requested. */
module SolarHistory {

  import opened Options
  import opened Bytes
  import opened HexCommand
  import HistoryFetch
  import ResponseFramer

  datatype Phase = GetDay | WaitHeader | WaitCr | Found

  /** The object's fields that `process_byte` reads and writes. */
  datatype State = State(phase: Phase, buffer: seq<byte>, baseCommand: seq<byte>, daySequence: Option<nat>)

  /** As `__init__` leaves it. */
  const Initial: State := State(GetDay, [], [], None)

  /** What a call does: it raises, or it returns a result (possibly `None`)
      having written at most one command to the port. Either way `next` is
      the object's state afterwards: the fields assigned before the raising
      statement keep their new values. */
  datatype Outcome = Raised(next: State) | Normal(next: State, result: Option<nat>, sent: Option<seq<byte>>)

  /** `process_byte(byte)` for the day `current_day`. */
  function ProcessByte(s: State, currentDay: nat, r: Option<byte>): (o: Outcome)
    ensures r.None? ==> o == Normal(s, None, None)
    ensures o.Normal? && o.sent.Some? ==> s.phase == GetDay
    ensures s.phase == GetDay && r.Some? ==> (o.Raised? <==> HistoryCommand(currentDay).None?)
    ensures s.phase == GetDay && r.Some? && o.Raised? ==>
              o.next == s.(buffer := s.buffer + [r.value], baseCommand := BaseCommand(currentDay))
    ensures s.phase == GetDay && r.Some? && o.Normal? ==>
              && o.next == State(WaitHeader, [], BaseCommand(currentDay), s.daySequence)
              && o.sent == HistoryCommand(currentDay) && o.result == None
    ensures s.phase == WaitHeader && r.Some? ==>
              && o.Normal? && o.result == None
              && (o.next.phase == WaitCr <==> EndsWith(s.buffer + [r.value], s.baseCommand))
              && o.next.buffer == (if o.next.phase == WaitCr then [] else s.buffer + [r.value])
    ensures s.phase == WaitCr && r.Some? ==>
              && (o.Raised? <==> r.value == LF && HistoryFetch.Probe(s.buffer + [LF]).None?)
              && o.next.buffer == s.buffer + [r.value]
              && (o.Raised? ==> o.next == s.(phase := Found, buffer := s.buffer + [LF]))
              && (o.Normal? ==> (o.result.Some? <==> r.value == LF))
              && (o.Normal? && o.result.Some? ==>
                    o.result == HistoryFetch.Probe(s.buffer + [LF]) && o.next.daySequence == o.result && o.next.phase == Found)
    ensures s.phase == Found && r.Some? ==>
              && o.Normal? && o.next.buffer == s.buffer + [r.value]
              && (o.next.phase == GetDay <==> |s.buffer| + 1 >= 80)
              && o.result == (if |s.buffer| + 1 >= 80 then s.daySequence else None)
    ensures s.phase != GetDay ==> o.next.baseCommand == s.baseCommand
    ensures !(s.phase == WaitCr && r == Some(LF) && o.Normal?) ==> o.next.daySequence == s.daySequence
  {
    match r
    case None => Normal(s, None, None)
    case Some(b) =>
      var buffer := s.buffer + [b];
      match s.phase
      case GetDay =>
        var base := BaseCommand(currentDay);
        (match HistoryCommand(currentDay)
         case None => Raised(s.(buffer := buffer, baseCommand := base))
         case Some(command) => Normal(State(WaitHeader, [], base, s.daySequence), None, Some(command)))
      case WaitHeader =>
        if EndsWith(buffer, s.baseCommand) then Normal(s.(phase := WaitCr, buffer := []), None, None)
        else Normal(s.(buffer := buffer), None, None)
      case WaitCr =>
        if EndsWith(buffer, [LF]) then
          (match HistoryFetch.Probe(buffer)
           case None => Raised(s.(phase := Found, buffer := buffer))
           case Some(v) => Normal(s.(phase := Found, buffer := buffer, daySequence := Some(v)), Some(v), None))
        else Normal(s.(buffer := buffer), None, None)
      case Found =>
        if |buffer| >= 80 then Normal(s.(phase := GetDay, buffer := buffer), s.daySequence, None)
        else Normal(s.(buffer := buffer), None, None)
  }

  /** The framer a state outside GET_DAY stands for. */
  function ToFramer(s: State): ResponseFramer.Framer
    requires s.phase != GetDay
  {
    var phase := match s.phase
                 case WaitHeader => ResponseFramer.WaitHeader
                 case WaitCr => ResponseFramer.WaitCr
                 case _ => ResponseFramer.Found;
    ResponseFramer.Framer(phase, s.buffer)
  }

  /** Outside GET_DAY, `process_byte` is the inline loop's body with the
      stored base command as header: the two agree on state and buffer, the
      first result comes with the framer's reply, and the step back to
      GET_DAY is the framer being done. */
  lemma FramerAgreement(s: State, currentDay: nat, b: byte)
    requires s.phase != GetDay
    ensures var o := ProcessByte(s, currentDay, Some(b));
            var f := ResponseFramer.Step(ToFramer(s), s.baseCommand, Some(b));
            && (o.next.phase != GetDay ==> ToFramer(o.next) == f.next)
            && (o.next.phase == GetDay ==> ResponseFramer.Done(f.next))
            && (o.Raised? <==> f.reply.Some? && HistoryFetch.Probe(f.reply.value).None?)
            && (o.Normal? && s.phase == WaitCr ==> (o.result.Some? <==> f.reply.Some?))
            && (o.Normal? && f.reply.Some? ==> o.result == HistoryFetch.Probe(f.reply.value))
  {
  }

  /** What `get_history` keeps true between reads: the cursor counts the
      results; in GET_DAY it is twice the number of commands sent, while a
      reply is awaited it is the day that was asked for, and in FOUND it has
      already counted the reply's first result. */
  ghost predicate Cursor(days: nat, state: State, currentDay: nat, sent: seq<seq<byte>>, results: seq<nat>)
  {
    && currentDay <= days
    && |results| == currentDay
    && (state.phase == GetDay ==> currentDay == 2 * |sent|)
    && (state.phase == WaitHeader || state.phase == WaitCr ==>
          |sent| >= 1 && currentDay == 2 * (|sent| - 1))
    && (state.phase == Found ==>
          |sent| >= 1 && currentDay == 2 * |sent| - 1 && state.daySequence == Some(results[currentDay - 1]))
    && (forall k | 0 <= k < |sent| :: 2 * k < days && HistoryCommand(2 * k) == Some(sent[k]))
    && Paired(results)
  }

  /** Results come in equal pairs: the two of each reply. */
  ghost predicate Paired(results: seq<nat>)
  {
    forall k | 0 <= k && 2 * k + 1 < |results| :: results[2 * k] == results[2 * k + 1]
  }

  lemma PairedAppend(results: seq<nat>, x: nat)
    requires Paired(results)
    requires |results| % 2 == 1 ==> x == results[|results| - 1]
    ensures Paired(results + [x])
  {
    var r := results + [x];
    forall k | 0 <= k && 2 * k + 1 < |r|
      ensures r[2 * k] == r[2 * k + 1]
    {
      if 2 * k + 1 < |results| {
        assert r[2 * k] == results[2 * k] && r[2 * k + 1] == results[2 * k + 1];
      }
    }
  }

  lemma EvenLength(n: nat, m: int)
    requires n == 2 * m
    ensures n % 2 == 0
  {
  }

  /** In GET_DAY the read sends the command for the current day. */
  lemma CursorSend(days: nat, state: State, currentDay: nat, sent: seq<seq<byte>>, results: seq<nat>, o: Outcome)
    requires Cursor(days, state, currentDay, sent, results) && currentDay < days
    requires state.phase == GetDay && o.Normal? && o.sent.Some? && o.result.None?
    requires o.sent == HistoryCommand(currentDay) && o.next.phase == WaitHeader
    ensures Cursor(days, o.next, currentDay, sent + [o.sent.value], results)
  {
    var sent' := sent + [o.sent.value];
    forall k | 0 <= k < |sent'|
      ensures 2 * k < days && HistoryCommand(2 * k) == Some(sent'[k])
    {
      if k < |sent| {
        assert sent'[k] == sent[k];
      }
    }
  }

  /** A read with no result and no command leaves the counters alone. */
  lemma CursorQuiet(days: nat, state: State, currentDay: nat, sent: seq<seq<byte>>, results: seq<nat>, o: Outcome)
    requires Cursor(days, state, currentDay, sent, results)
    requires state.phase != GetDay && o.Normal? && o.sent.None? && o.result.None?
    requires o.next.phase == Found ==> state.phase == Found && o.next.daySequence == state.daySequence
    requires o.next.phase == GetDay ==> state.phase == Found
    requires state.phase == Found ==> o.next.phase == Found
    ensures Cursor(days, o.next, currentDay, sent, results)
  {
  }

  /** The first result of a reply, at its LF, counts one more day. */
  lemma CursorFirstResult(days: nat, state: State, currentDay: nat, sent: seq<seq<byte>>, results: seq<nat>, o: Outcome)
    requires Cursor(days, state, currentDay, sent, results) && currentDay < days
    requires state.phase == WaitCr && o.Normal? && o.sent.None? && o.result.Some?
    requires o.next.phase == Found && o.next.daySequence == o.result
    ensures Cursor(days, o.next, currentDay + 1, sent, results + [o.result.value])
  {
    var m := |sent| - 1;
    assert |results| == 2 * m;
    assert |results| % 2 == 0 by {
      EvenLength(|results|, m);
    }
    PairedAppend(results, o.result.value);
  }

  /** The second result of a reply, when the buffer reaches 80 bytes, repeats
      the first and counts one more day. */
  lemma CursorSecondResult(days: nat, state: State, currentDay: nat, sent: seq<seq<byte>>, results: seq<nat>, o: Outcome)
    requires Cursor(days, state, currentDay, sent, results) && currentDay < days
    requires state.phase == Found && o.Normal? && o.sent.None? && o.result.Some?
    requires o.next.phase == GetDay && o.result == state.daySequence
    ensures Cursor(days, o.next, currentDay + 1, sent, results + [o.result.value])
  {
    PairedAppend(results, o.result.value);
  }

  /** One read keeps the cursor invariant. */
  lemma CursorStep(days: nat, state: State, currentDay: nat, sent: seq<seq<byte>>, results: seq<nat>, r: Option<byte>)
    requires Cursor(days, state, currentDay, sent, results) && currentDay < days
    requires ProcessByte(state, currentDay, r).Normal?
    ensures var o := ProcessByte(state, currentDay, r);
            var sent' := if o.sent.Some? then sent + [o.sent.value] else sent;
            var results' := if o.result.Some? then results + [o.result.value] else results;
            var day' := if o.result.Some? then currentDay + 1 else currentDay;
            Cursor(days, o.next, day', sent', results')
  {
    var o := ProcessByte(state, currentDay, r);
    if r.None? {
    } else if state.phase == GetDay {
      CursorSend(days, state, currentDay, sent, results, o);
    } else if o.result.None? {
      CursorQuiet(days, state, currentDay, sent, results, o);
    } else if state.phase == WaitCr {
      CursorFirstResult(days, state, currentDay, sent, results, o);
    } else {
      CursorSecondResult(days, state, currentDay, sent, results, o);
    }
  }

  /** What `get_history` keeps while it runs: from GET_DAY the cursor
      invariant, and the phase it may stop in once the last day is counted. */
  ghost predicate Tracked(start: State, days: nat, state: State, currentDay: nat, sent: seq<seq<byte>>, results: seq<nat>)
  {
    start.phase == GetDay ==>
      && Cursor(days, state, currentDay, sent, results)
      && (currentDay == days ==> state.phase == GetDay || state.phase == Found)
  }

  lemma TrackedStep(start: State, days: nat, state: State, currentDay: nat, sent: seq<seq<byte>>, results: seq<nat>, r: Option<byte>)
    requires Tracked(start, days, state, currentDay, sent, results) && currentDay < days
    requires ProcessByte(state, currentDay, r).Normal?
    ensures var o := ProcessByte(state, currentDay, r);
            var sent' := if o.sent.Some? then sent + [o.sent.value] else sent;
            var results' := if o.result.Some? then results + [o.result.value] else results;
            var day' := if o.result.Some? then currentDay + 1 else currentDay;
            Tracked(start, days, o.next, day', sent', results')
  {
    if start.phase == GetDay {
      CursorStep(days, state, currentDay, sent, results, r);
    }
  }

  /** Where a call from GET_DAY stands once its last day is counted: one
      command per pair of days, and back in GET_DAY exactly when `days` is
      even. */
  lemma TrackedDone(start: State, days: nat, state: State, sent: seq<seq<byte>>, results: seq<nat>)
    requires start.phase == GetDay && Tracked(start, days, state, days, sent, results)
    ensures |sent| == (days + 1) / 2
    ensures state.phase == GetDay || state.phase == Found
    ensures state.phase == GetDay <==> days % 2 == 0
  {
  }

  /** `get_history(days)` after `connect` succeeded, over the reads available.
      Only `current_day` is reset: the call starts in whatever state the
      object is in (GET_DAY on a fresh object) and leaves its final state
      behind. Returned: the day it got to, the commands it wrote, the
      non-`None` results, whether an exception ended it, how many reads it
      took and the object's state afterwards. From GET_DAY the cursor
      invariant holds throughout; a call that reaches an odd `days` stops in
      FOUND, so the next call on the same object starts there, as does one
      after a probe raised in WAIT_CR. */
  method GetHistory(days: nat, start: State, input: seq<Option<byte>>)
    returns (currentDay: nat, sent: seq<seq<byte>>, results: seq<nat>, raised: bool, used: nat, last: State)
    ensures used <= |input|
    ensures currentDay <= days
    ensures raised || currentDay == days || used == |input|
    ensures |results| == currentDay
    ensures start.phase == GetDay ==>
              && (forall k | 0 <= k < |sent| :: 2 * k < days && HistoryCommand(2 * k) == Some(sent[k]))
              && Paired(results)
    ensures raised ==> last.phase == GetDay || last.phase == Found
    ensures start.phase == GetDay && !raised && currentDay == days ==>
              && |sent| == (days + 1) / 2
              && (last.phase == GetDay || last.phase == Found)
              && (last.phase == GetDay <==> days % 2 == 0)
  {
    var state := start;
    ghost var tracked := start;
    currentDay, sent, results, raised, used := 0, [], [], false, 0;
    while currentDay < days && used < |input| && !raised
      invariant used <= |input|
      invariant currentDay <= days && |results| == currentDay
      invariant raised ==> currentDay < days
      invariant Tracked(start, days, tracked, currentDay, sent, results)
      invariant !raised ==> tracked == state
      invariant raised ==> state.phase == GetDay || state.phase == Found
      decreases |input| - used, if raised then 0 else 1
    {
      var o := ProcessByte(state, currentDay, input[used]);
      state := o.next;
      if o.Raised? {
        raised := true;
      } else {
        TrackedStep(start, days, tracked, currentDay, sent, results, input[used]);
        tracked := o.next;
        if o.sent.Some? {
          sent := sent + [o.sent.value];
        }
        if o.result.Some? {
          results := results + [o.result.value];
          currentDay := currentDay + 1;
        }
      }
      used := used + 1;
    }
    last := state;
    if start.phase == GetDay && !raised && currentDay == days {
      TrackedDone(start, days, state, sent, results);
    }
  }
}
