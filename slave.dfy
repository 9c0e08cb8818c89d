/**
 * The slave daemon's message loop: read an opcode from the master, act on
 * it, and answer GET_MONITORING_VALUES with a frame of the monitored
 * applications. Monitoring itself (pqos) is outside the model: a poll is a
 * given set of fresh readings or a failure, and starting to monitor a new
 * application either succeeds or fails.
 */
module Slave {
  import opened Wrappers
  import opened Bytes
  import opened Wire
  import opened Tables

  /** Why the loop ended: the master closed, a poll failed (`goto exit`), or monitoring could not start (`exit`). */
  datatype Stop = Closed | PollFailed | StartFailed

  datatype Control = Continue | Halt(reason: Stop)

  /**
   * `poll_monitoring_data` as it affects the table: each entry with a fresh
   * reading gets those values; cmdlines, CLOS ids and keys stay as they were.
   */
  function Refresh(m: Table, readings: map<Cmdline, MonitoringValues>): (r: Table)
    ensures r.Keys == m.Keys
    ensures forall k :: k in m ==> r[k].cmdline == m[k].cmdline && r[k].closId == m[k].closId
    ensures forall k :: k in m ==> r[k].values == (if k in readings then readings[k] else m[k].values)
    ensures Keyed(m) ==> Keyed(r)
  {
    map k | k in m :: if k in readings then m[k].(values := readings[k]) else m[k]
  }

  /** The application a fresh ADD_APP_TO_MONITOR enters: `application{cmdline, monitoring_values(), 0}`. */
  function Fresh(cmdline: Cmdline): (a: Application)
    ensures a.cmdline == cmdline && a.values == ZeroValues() && a.closId == 0
  {
    Application(cmdline, ZeroValues(), 0)
  }

  /** Appending four pieces one by one appends their concatenation. */
  lemma Associate<T>(s: seq<T>, p: seq<T>, q: seq<T>, r: seq<T>, u: seq<T>)
    ensures s + p + q + r + u == s + (p + q + r + u)
  {
  }

  /** The records sent after one more pass of the send loop. */
  lemma EncodeRecordsPrefix(records: seq<Application>, i: nat)
    requires i < |records|
    ensures EncodeRecords(records[..i + 1]) == EncodeRecords(records[..i]) + EncodeRecord(records[i])
  {
    assert records[..i + 1] == records[..i] + [records[i]];
    EncodeRecordsSnoc(records[..i], records[i]);
  }

  class Daemon {
    /** The global `applications` table. */
    var applications: Table
    /** What the master has still to send; the stream is consumed from the front. */
    var input: seq<byte>
    /** Everything sent to the master so far. */
    var output: seq<byte>

    predicate Valid()
      reads this
    {
      Keyed(applications)
    }

    constructor(incoming: seq<byte>)
      ensures Valid()
      ensures applications == map[] && input == incoming && output == []
    {
      applications := map[];
      input := incoming;
      output := [];
    }

    /** The sends of the GET branch: the table's size, then each entry in the map's iteration order. */
    method SendFrame(order: seq<Cmdline>)
      requires |order| == |applications|
      requires forall i :: 0 <= i < |order| ==> order[i] in applications && applications[order[i]].cmdline == order[i]
      modifies this`output
      ensures output == old(output) + EncodeFrame(RecordsOf(applications, order))
    {
      output := output + LE(|applications|, SizeBytes);
      SendRecords(order);
    }

    /** The per-entry loop of the GET branch: each entry's four sends, in the walked order. */
    method SendRecords(order: seq<Cmdline>)
      requires forall i :: 0 <= i < |order| ==> order[i] in applications && applications[order[i]].cmdline == order[i]
      modifies this`output
      ensures output == old(output) + EncodeRecords(RecordsOf(applications, order))
    {
      ghost var records := RecordsOf(applications, order);
      for i := 0 to |order|
        invariant output == old(output) + EncodeRecords(records[..i])
      {
        assert records[i] == applications[order[i]];
        SendRecord(order[i]);
        EncodeRecordsPrefix(records, i);
      }
      assert records[..|order|] == records;
    }

    /** The four sends for one entry: the key's length and bytes, the values, the CLOS id. */
    method SendRecord(key: Cmdline)
      requires key in applications && applications[key].cmdline == key
      modifies this`output
      ensures output == old(output) + EncodeRecord(applications[key])
    {
      var app := applications[key];
      output := output + LE(|key|, SizeBytes);
      output := output + key;
      output := output + app.values;
      output := output + LE(app.closId, ClosIdBytes);
      Associate(old(output), LE(|key|, SizeBytes), key, app.values, LE(app.closId, ClosIdBytes));
    }

    /** The receives of the ADD branch: the length, then that many bytes. */
    method ReceiveCmdline() returns (cmdline: Option<Cmdline>)
      modifies this`input
      ensures cmdline == ReadCmdline(old(input)).value && input == ReadCmdline(old(input)).rest
    {
      ghost var s := input;
      var sz := ReadNumber(input, SizeBytes);
      input := sz.rest;
      if sz.value.None? || sz.value.value > CmdlineBufSize {
        input := [];
        return None;
      }
      var buf := Read(input, sz.value.value);
      input := buf.rest;
      cmdline := buf.value;
      if buf.value.Some? {
        assert s[SizeBytes..][..sz.value.value] == s[SizeBytes..SizeBytes + sz.value.value];
        assert s[SizeBytes..][sz.value.value..] == s[SizeBytes + sz.value.value..];
      }
    }

    /**
     * One pass of the loop: read an opcode and act on it. `readings` is what
     * the poll returns (None when it fails) and `started` whether monitoring
     * of a newly added application starts.
     */
    method Step(readings: Option<map<Cmdline, MonitoringValues>>, started: bool) returns (c: Control)
      requires Valid()
      modifies this
      ensures Valid()
      ensures c.Continue? ==> |input| < |old(input)|
      // No whole opcode: the master has closed.
      ensures var op := ReadNumber(old(input), OpcodeBytes);
              op.value.None? ==>
                c == Halt(Closed) && input == [] &&
                applications == old(applications) && output == old(output)
      // GET_MONITORING_VALUES: poll, then send every entry.
      ensures var op := ReadNumber(old(input), OpcodeBytes);
              op.value == Some(GetMonitoringValues as nat) ==>
                input == op.rest &&
                if readings.None? then
                  c == Halt(PollFailed) && applications == old(applications) && output == old(output)
                else
                  && c == Continue
                  && applications == Refresh(old(applications), readings.value)
                  && exists order :: IsEnumeration(order, applications) &&
                       output == old(output) + EncodeFrame(RecordsOf(applications, order))
      // ADD_APP_TO_MONITOR: enter the received cmdline with zero values and CLOS 0, then start monitoring.
      ensures var op := ReadNumber(old(input), OpcodeBytes);
              op.value == Some(AddAppToMonitor as nat) ==>
                var cl := ReadCmdline(op.rest);
                && input == cl.rest && output == old(output)
                && c == (if started then Continue else Halt(StartFailed))
                && if cl.value.None? then applications == old(applications)
                   else applications == old(applications)[cl.value.value := Fresh(cl.value.value)]
      // Every other opcode, known or not: nothing but the opcode is consumed.
      ensures var op := ReadNumber(old(input), OpcodeBytes);
              op.value.Some? && op.value.value != GetMonitoringValues as nat &&
              op.value.value != AddAppToMonitor as nat ==>
                c == Continue && input == op.rest &&
                applications == old(applications) && output == old(output)
    {
      var op := ReadNumber(input, OpcodeBytes);
      input := op.rest;
      if op.value.None? {
        return Halt(Closed);
      }
      var msg := op.value.value;
      if msg == GetMonitoringValues as nat {
        c := AnswerGet(readings);
      } else if msg == AddAppToMonitor as nat {
        c := AddApp(started);
      } else {
        c := Continue;
      }
    }

    /** The GET_MONITORING_VALUES branch: poll, then send the whole table. */
    method AnswerGet(readings: Option<map<Cmdline, MonitoringValues>>) returns (c: Control)
      requires Valid()
      modifies this`applications, this`output
      ensures Valid()
      ensures readings.None? ==>
                c == Halt(PollFailed) && applications == old(applications) && output == old(output)
      ensures readings.Some? ==>
                && c == Continue
                && applications == Refresh(old(applications), readings.value)
                && exists order :: IsEnumeration(order, applications) &&
                     output == old(output) + EncodeFrame(RecordsOf(applications, order))
    {
      if readings.None? {
        return Halt(PollFailed);
      }
      applications := Refresh(applications, readings.value);
      EnumerationExists(applications);
      var order :| IsEnumeration(order, applications);
      SendFrame(order);
      c := Continue;
    }

    /**
     * The ADD_APP_TO_MONITOR branch: receive a cmdline, enter it, start
     * monitoring it. Monitoring is started, and its failure ends the daemon,
     * whether or not the receives succeeded.
     */
    method AddApp(started: bool) returns (c: Control)
      requires Valid()
      modifies this`applications, this`input
      ensures Valid()
      ensures var cl := ReadCmdline(old(input));
              && input == cl.rest
              && c == (if started then Continue else Halt(StartFailed))
              && (cl.value.None? ==> applications == old(applications))
              && (cl.value.Some? ==>
                    applications == old(applications)[cl.value.value := Fresh(cl.value.value)])
    {
      var cmdline := ReceiveCmdline();
      if cmdline.Some? {
        applications := applications[cmdline.value := Fresh(cmdline.value)];
      }
      c := if started then Continue else Halt(StartFailed);
    }

    /**
     * The loop itself: step until one step halts. Pass `n` of the loop polls
     * `readings(n)` and starts monitoring with outcome `started(n)`.
     */
    method Run(readings: nat -> Option<map<Cmdline, MonitoringValues>>, started: nat -> bool)
      returns (reason: Stop, passes: nat)
      requires Valid()
      modifies this
      ensures Valid()
      ensures passes > 0
      ensures reason == Closed ==> input == []
    {
      passes := 0;
      while true
        invariant Valid()
        decreases |input|
      {
        var c := Step(readings(passes), started(passes));
        passes := passes + 1;
        if c.Halt? {
          return c.reason, passes;
        }
      }
    }
  }
}
