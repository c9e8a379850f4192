/** The day loops of the two history scripts. For each day offset 0..9 they
    send the day's Get command and run the response framer on the serial
    reads that follow. One script parses the reply into a history record and
    writes a CSV row for it; the other only decodes the day sequence number
    from hex characters 64..68 of the reply, and a decoding error there ends
    that day and moves on to the next. */
module HistoryFetch {

  import opened Options
  import opened Bytes
  import opened Hex
  import opened HexCommand
  import opened HistoryRecord
  import opened ResponseFramer

  /** The number of day offsets both scripts loop over (`range(10)`). */
  const Days: nat := 10

  lemma LittleEndianTwo(s: seq<byte>)
    requires |s| == 2
    ensures LittleEndian(s) == (s[0] as int) + 256 * (s[1] as int)
  {
    assert s[1..][1..] == [];
    assert LittleEndian(s[1..]) == s[1] + 256 * LittleEndian(s[1..][1..]);
  }

  /** `int.from_bytes(bytes.fromhex(buffer[64:68].decode('utf-8')), 'little')`;
      `None` where decoding raises. A buffer of at most 64 bytes gives an
      empty slice, which reads as 0. */
  function Probe(buffer: seq<byte>): (v: Option<nat>)
    ensures v.Some? ==> v.value < 0x1_0000
    ensures |buffer| <= 64 ==> v == Some(0)
  {
    var digits := Slice(buffer, 64, 68);
    match FromHex(digits)
    case None => None
    case Some(bs) =>
      HexDigitCountBound(digits);
      LittleEndianBound(bs);
      Pow256Monotone(|bs|, 2);
      Some(LittleEndian(bs))
  }

  /** The value of the little-endian 16-bit number whose two bytes are
      spelled by the four hex digits at `i`. */
  function DigitsValue(s: seq<byte>, i: nat): nat
    requires i + 4 <= |s|
    requires forall k | i <= k < i + 4 :: IsHexDigit(s[k])
  {
    16 * DigitValue(s[i]) + DigitValue(s[i + 1]) + 256 * (16 * DigitValue(s[i + 2]) + DigitValue(s[i + 3]))
  }

  /** The probe reads the four hex digits at 64 as a little-endian number. */
  lemma ProbeDigits(buffer: seq<byte>)
    requires |buffer| >= 68
    requires forall i | 64 <= i < 68 :: IsHexDigit(buffer[i])
    ensures Probe(buffer) == Some(DigitsValue(buffer, 64))
  {
    var digits := Slice(buffer, 64, 68);
    assert digits == buffer[64..68];
    assert HexPairs(digits);
    FromHexPairsAt(digits, 0);
    FromHexPairsAt(digits, 1);
    LittleEndianTwo(FromHex(digits).value);
  }

  /** The record's day sequence comes from the same four digits. */
  lemma RecordDigits(buffer: seq<byte>)
    requires |buffer| >= 68
    requires forall i | 0 <= i < 68 :: IsHexDigit(buffer[i])
    requires ParseHistoryRecord(buffer).Some?
    ensures ParseHistoryRecord(buffer).value.daySequence == DigitsValue(buffer, 64)
  {
    var h := buffer[..68];
    assert buffer == h + buffer[68..];
    assert HexPairs(h);
    FromHexPairsThen(h, buffer[68..]);
    var p := FromHex(buffer).value;
    FromHexPairsAt(h, 32);
    FromHexPairsAt(h, 33);
    assert p[32] == FromHex(h).value[32] && p[33] == FromHex(h).value[33];
    var field := Slice(p, 32, 34);
    assert field == [p[32], p[33]];
    LittleEndianTwo(field);
  }

  /** The day sequence the probe reads is the one `parse_history_record`
      returns for the same reply, because hex characters 64..68 encode
      payload bytes 32 and 33. */
  lemma ProbeMatchesRecord(buffer: seq<byte>)
    requires |buffer| >= 68
    requires forall i | 0 <= i < 68 :: IsHexDigit(buffer[i])
    requires ParseHistoryRecord(buffer).Some?
    ensures Probe(buffer) == Some(ParseHistoryRecord(buffer).value.daySequence)
  {
    ProbeDigits(buffer);
    RecordDigits(buffer);
  }

  /** A CSV row: the day offset and the record parsed from that day's reply. */
  datatype Row = Row(day: nat, record: HistoryRecord)

  /** The row a day writes: one when the framer saw a reply and it parses,
      written at the reply's LF, before the loop goes on to 80 bytes. */
  function DayRow(day: nat, reply: Option<seq<byte>>): (rows: seq<Row>)
    ensures |rows| <= 1
    ensures forall i | 0 <= i < |rows| :: rows[i].day == day
  {
    match reply
    case None => []
    case Some(b) =>
      match ParseHistoryRecord(b)
      case None => []
      case Some(rec) => [Row(day, rec)]
  }

  /** Where a run of the day loop got to: the rows written, the days whose
      command it sent and how many reads it took. */
  datatype CsvRun = CsvRun(rows: seq<Row>, days: nat, used: nat)

  /** The loop of the CSV script from day offset `day` on. A day whose reply
      does not parse writes no row and the loop goes on; the loop only stops
      early when the reads run out while it waits, and a row whose reply was
      framed by then is written all the same. */
  function CsvDays(day: nat, input: seq<Option<byte>>): (r: CsvRun)
    requires day <= Days
    ensures r.used <= |input|
    ensures r.days <= Days - day
    ensures day < Days ==> r.days >= 1
    ensures r.days < Days - day ==> r.used == |input|
    decreases Days - day
  {
    if day == Days then CsvRun([], 0, 0)
    else
      var d := Drive(Start, BaseCommand(day), input);
      var row := DayRow(day, d.reply);
      if !Done(d.last) then CsvRun(row, 1, |input|)
      else
        var rest := CsvDays(day + 1, input[d.consumed..]);
        CsvRun(row + rest.rows, rest.days + 1, d.consumed + rest.used)
  }

  /** Rows that come one per day at most, in increasing day order, within
      the `days` days from `day` on. */
  ghost predicate RowsOrdered(rows: seq<Row>, day: nat, days: nat)
  {
    && |rows| <= days
    && (forall i | 0 <= i < |rows| :: day <= rows[i].day < day + days)
    && (forall i, j | 0 <= i < j < |rows| :: rows[i].day < rows[j].day)
  }

  /** A day's own row, if any, in front of the later days' rows. */
  lemma RowsCons(day: nat, row: seq<Row>, rest: seq<Row>, days: nat)
    requires |row| <= 1 && forall i | 0 <= i < |row| :: row[i].day == day
    requires RowsOrdered(rest, day + 1, days)
    ensures RowsOrdered(row + rest, day, days + 1)
  {
    var rows := row + rest;
    forall i | 0 <= i < |rows|
      ensures day <= rows[i].day < day + days + 1
    {
      if i >= |row| {
        assert rows[i] == rest[i - |row|];
      }
    }
    forall i, j | 0 <= i < j < |rows|
      ensures rows[i].day < rows[j].day
    {
      assert rows[j] == rest[j - |row|];
      if i >= |row| {
        assert rows[i] == rest[i - |row|];
      }
    }
  }

  /** A day the framer finishes puts its row, if any, in front of the rows
      of the days after it. */
  lemma CsvRowsStep(day: nat, input: seq<Option<byte>>)
    requires day < Days
    requires Done(Drive(Start, BaseCommand(day), input).last)
    requires var d := Drive(Start, BaseCommand(day), input);
             var rest := CsvDays(day + 1, input[d.consumed..]);
             RowsOrdered(rest.rows, day + 1, rest.days)
    ensures RowsOrdered(CsvDays(day, input).rows, day, CsvDays(day, input).days)
  {
    var d := Drive(Start, BaseCommand(day), input);
    var rest := CsvDays(day + 1, input[d.consumed..]);
    var row := DayRow(day, d.reply);
    assert CsvDays(day, input).rows == row + rest.rows && CsvDays(day, input).days == rest.days + 1;
    RowsCons(day, row, rest.rows, rest.days);
  }

  /** At most one row per day: rows come in increasing day order, each for a
      day whose command the loop sent. */
  lemma {:induction false} CsvRowsOrdered(day: nat, input: seq<Option<byte>>)
    requires day <= Days
    ensures RowsOrdered(CsvDays(day, input).rows, day, CsvDays(day, input).days)
    decreases Days - day
  {
    if day < Days {
      var d := Drive(Start, BaseCommand(day), input);
      if Done(d.last) {
        CsvRowsOrdered(day + 1, input[d.consumed..]);
        CsvRowsStep(day, input);
      }
    }
  }

  /** A day has a row holding `rec` exactly when the framer found a reply for
      that day, on the reads left by the days before it, and that reply
      parses to `rec`. */
  lemma {:induction false} CsvRowsAreParsed(day: nat, input: seq<Option<byte>>, rec: HistoryRecord)
    requires day < Days
    ensures var d := Drive(Start, BaseCommand(day), input);
            var r := CsvDays(day, input);
            (d.reply.Some? && ParseHistoryRecord(d.reply.value) == Some(rec))
              <==> (|r.rows| > 0 && r.rows[0] == Row(day, rec))
  {
    var d := Drive(Start, BaseCommand(day), input);
    var row := DayRow(day, d.reply);
    if Done(d.last) {
      var rest := CsvDays(day + 1, input[d.consumed..]);
      CsvRowsOrdered(day + 1, input[d.consumed..]);
      assert CsvDays(day, input).rows == row + rest.rows;
      if |row| == 0 && |rest.rows| > 0 {
        assert (row + rest.rows)[0] == rest.rows[0];
        assert rest.rows[0].day >= day + 1;
      }
    }
  }

  /** One step of the loop: the first day's row, if any, then, when the
      framer finished that day, the rows of the days after it on the reads
      it left; when the reads ran out, nothing more. */
  lemma CsvDaysRest(day: nat, input: seq<Option<byte>>)
    requires day < Days
    ensures var d := Drive(Start, BaseCommand(day), input);
            CsvDays(day, input).rows ==
              DayRow(day, d.reply) + (if Done(d.last) then CsvDays(day + 1, input[d.consumed..]).rows else [])
  {
  }

  /** Reference decomposition, framing first: the reply the framer saw (if
      any) for each day whose command was sent, in day order, each day on
      the reads the days before it left. */
  function Replies(day: nat, input: seq<Option<byte>>): (rs: seq<Option<seq<byte>>>)
    requires day <= Days
    ensures |rs| <= Days - day
    decreases Days - day
  {
    if day == Days then []
    else
      var d := Drive(Start, BaseCommand(day), input);
      [d.reply] + (if Done(d.last) then Replies(day + 1, input[d.consumed..]) else [])
  }

  /** Then the rows: one per reply that parses, tagged with its day. */
  function RowsOf(day: nat, replies: seq<Option<seq<byte>>>): (rows: seq<Row>)
    ensures |rows| <= |replies|
    decreases |replies|
  {
    if |replies| == 0 then [] else DayRow(day, replies[0]) + RowsOf(day + 1, replies[1..])
  }

  /** The day `day + i` has a row holding `rec` exactly when its reply is
      there and parses to `rec`. */
  lemma {:induction false} RowsOfMember(day: nat, replies: seq<Option<seq<byte>>>, k: nat, rec: HistoryRecord)
    ensures Row(k, rec) in RowsOf(day, replies) <==>
              (day <= k < day + |replies| && replies[k - day].Some?
               && ParseHistoryRecord(replies[k - day].value) == Some(rec))
    decreases |replies|
  {
    if |replies| > 0 {
      RowsOfMember(day + 1, replies[1..], k, rec);
      var row := DayRow(day, replies[0]);
      assert RowsOf(day, replies) == row + RowsOf(day + 1, replies[1..]);
      assert Row(k, rec) in row <==>
               (k == day && replies[0].Some? && ParseHistoryRecord(replies[0].value) == Some(rec));
      if day < k < day + |replies| {
        assert replies[k - day] == replies[1..][k - (day + 1)];
      }
    }
  }

  /** The loop writes exactly the rows of the replies framed day by day, and
      framed one reply per day whose command it sent. */
  lemma {:induction false} CsvRowsOfReplies(day: nat, input: seq<Option<byte>>)
    requires day <= Days
    ensures CsvDays(day, input).rows == RowsOf(day, Replies(day, input))
    ensures |Replies(day, input)| == CsvDays(day, input).days
    decreases Days - day
  {
    if day < Days {
      var d := Drive(Start, BaseCommand(day), input);
      var rs := Replies(day, input);
      assert rs[0] == d.reply;
      if Done(d.last) {
        CsvRowsOfReplies(day + 1, input[d.consumed..]);
        assert rs[1..] == Replies(day + 1, input[d.consumed..]);
      } else {
        assert rs[1..] == [];
      }
    }
  }

  /** Every day's row, not only the first: day `k` has a row holding `rec`
      exactly when its command was sent and the reply framed for it on the
      reads the earlier days left parses to `rec`. */
  lemma CsvRowsAreReplies(day: nat, input: seq<Option<byte>>, k: nat, rec: HistoryRecord)
    requires day <= Days
    ensures var rs := Replies(day, input);
            Row(k, rec) in CsvDays(day, input).rows <==>
              (day <= k < day + |rs| && rs[k - day].Some? && ParseHistoryRecord(rs[k - day].value) == Some(rec))
  {
    CsvRowsOfReplies(day, input);
    RowsOfMember(day, Replies(day, input), k, rec);
  }

  /** End to end: when the reads hold the day's header (first seen at its
      end) and a reply line that parses, the day's row holds the parsed
      record, whatever the reads after the reply are, none included. */
  lemma CsvRowOfReply(day: nat, pre: seq<byte>, body: seq<byte>, rest: seq<Option<byte>>, rec: HistoryRecord)
    requires day < Days
    requires var h := BaseCommand(day);
             forall k | 0 < k < |pre + h| :: !EndsWith((pre + h)[..k], h)
    requires forall i | 0 <= i < |body| :: body[i] != LF
    requires ParseHistoryRecord(body + [LF]) == Some(rec)
    ensures var r := CsvDays(day, Reads(pre + BaseCommand(day)) + Reads(body + [LF]) + rest);
            |r.rows| > 0 && r.rows[0] == Row(day, rec)
  {
    var input := Reads(pre + BaseCommand(day)) + Reads(body + [LF]) + rest;
    FrameReply(BaseCommand(day), pre, body, rest);
    CsvRowsAreParsed(day, input, rec);
  }

  /** The outcome of one day in the probing script. */
  datatype DayOutcome = Sequence(day: nat, value: nat) | Failed(day: nat)

  datatype ProbeRun = ProbeRun(outcomes: seq<DayOutcome>, used: nat)

  /** The loop of the probing script from day offset `day` on. When the probe
      raises, the exception ends that day's loop right after the reply, is
      caught, and the next day starts with the following read; otherwise the
      day's loop runs on until the framer is done. */
  function ProbeDays(day: nat, input: seq<Option<byte>>): (r: ProbeRun)
    requires day <= Days
    ensures r.used <= |input|
    ensures |r.outcomes| <= Days - day
    ensures |r.outcomes| < Days - day ==> r.used == |input|
    ensures forall i | 0 <= i < |r.outcomes| :: r.outcomes[i].day == day + i
    ensures forall i | 0 <= i < |r.outcomes| :: r.outcomes[i].Sequence? ==> r.outcomes[i].value < 0x1_0000
    decreases Days - day
  {
    if day == Days then ProbeRun([], 0)
    else
      var header := BaseCommand(day);
      var a := AwaitLine(Start, header, input);
      if a.reply.None? then ProbeRun([], |input|)
      else
        var after := input[a.consumed..];
        match Probe(a.reply.value)
        case None =>
          var rest := ProbeDays(day + 1, after);
          ProbeRun([Failed(day)] + rest.outcomes, a.consumed + rest.used)
        case Some(v) =>
          var d := Drive(a.last, header, after);
          if !Done(d.last) then ProbeRun([Sequence(day, v)], |input|)
          else
            var rest := ProbeDays(day + 1, after[d.consumed..]);
            ProbeRun([Sequence(day, v)] + rest.outcomes, a.consumed + d.consumed + rest.used)
  }

  /** The probing loop has an outcome for its first day exactly when the
      framer saw that day's reply before the reads ran out. */
  lemma ProbeDayHasOutcome(day: nat, input: seq<Option<byte>>)
    requires day < Days
    ensures |ProbeDays(day, input).outcomes| > 0 <==> AwaitLine(Start, BaseCommand(day), input).reply.Some?
  {
  }

  /** When the probe of the reply raises, the day's outcome is `Failed` and
      the next day starts with the read after the reply. */
  lemma ProbeDayFails(day: nat, input: seq<Option<byte>>)
    requires day < Days
    ensures var a := AwaitLine(Start, BaseCommand(day), input);
            var r := ProbeDays(day, input);
            a.reply.Some? && Probe(a.reply.value).None? ==>
              && |r.outcomes| > 0
              && r.outcomes[0] == Failed(day)
              && r.outcomes[1..] == ProbeDays(day + 1, input[a.consumed..]).outcomes
  {
  }

  /** When the probe of the reply succeeds, the day's outcome is `Sequence`
      with the probed value, and the next day starts where the whole framer
      loop stopped; when the reads run out first, it is the last outcome. */
  lemma ProbeDaySucceeds(day: nat, input: seq<Option<byte>>)
    requires day < Days
    ensures var header := BaseCommand(day);
            var a := AwaitLine(Start, header, input);
            var d := Drive(Start, header, input);
            var r := ProbeDays(day, input);
            a.reply.Some? && Probe(a.reply.value).Some? ==>
              && |r.outcomes| > 0
              && r.outcomes[0] == Sequence(day, Probe(a.reply.value).value)
              && (Done(d.last) ==> r.outcomes[1..] == ProbeDays(day + 1, input[d.consumed..]).outcomes)
              && (!Done(d.last) ==> |r.outcomes| == 1)
  {
    var header := BaseCommand(day);
    var a := AwaitLine(Start, header, input);
    if a.reply.Some? && Probe(a.reply.value).Some? {
      var d2 := Drive(a.last, header, input[a.consumed..]);
      ProbeDayIsFramerLoop(day, input);
      var d := Drive(Start, header, input);
      assert d.last == d2.last && d.consumed == a.consumed + d2.consumed;
      assert input[a.consumed..][d2.consumed..] == input[d.consumed..];
      ProbeDayResumes(day, input, a, d2);
    }
  }

  /** The first day's outcome in both directions: it is `Sequence(day, v)`
      exactly when the framer saw a reply whose probe gives `v`, and
      `Failed(day)` exactly when it saw a reply whose probe raises. */
  lemma ProbeFirstOutcome(day: nat, input: seq<Option<byte>>, v: nat)
    requires day < Days
    ensures var a := AwaitLine(Start, BaseCommand(day), input);
            var r := ProbeDays(day, input);
            && ((|r.outcomes| > 0 && r.outcomes[0] == Sequence(day, v)) <==> (a.reply.Some? && Probe(a.reply.value) == Some(v)))
            && ((|r.outcomes| > 0 && r.outcomes[0] == Failed(day)) <==> (a.reply.Some? && Probe(a.reply.value).None?))
  {
    ProbeDayHasOutcome(day, input);
    ProbeDayFails(day, input);
    ProbeDaySucceeds(day, input);
  }

  /** The same step of `ProbeDays` in its own terms: the framer loop resumed
      after the reply. */
  lemma ProbeDayResumes(day: nat, input: seq<Option<byte>>, a: DriveResult, d2: DriveResult)
    requires day < Days
    requires a == AwaitLine(Start, BaseCommand(day), input)
    requires a.reply.Some? && Probe(a.reply.value).Some?
    requires d2 == Drive(a.last, BaseCommand(day), input[a.consumed..])
    ensures var r := ProbeDays(day, input);
            && |r.outcomes| > 0
            && r.outcomes[0] == Sequence(day, Probe(a.reply.value).value)
            && (Done(d2.last) ==> r.outcomes[1..] == ProbeDays(day + 1, input[a.consumed..][d2.consumed..]).outcomes)
            && (!Done(d2.last) ==> |r.outcomes| == 1)
  {
  }

  /** When the probe succeeds, the day takes exactly the reads of the whole
      framer loop, as in the CSV script. */
  lemma ProbeDayIsFramerLoop(day: nat, input: seq<Option<byte>>)
    requires day < Days
    ensures var header := BaseCommand(day);
            var a := AwaitLine(Start, header, input);
            var d := Drive(Start, header, input);
            a.reply.Some? ==>
              && d.reply == a.reply
              && Drive(a.last, header, input[a.consumed..]).last == d.last
              && a.consumed + Drive(a.last, header, input[a.consumed..]).consumed == d.consumed
  {
    DriveSplit(Start, BaseCommand(day), input);
  }
}
