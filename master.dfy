/**
 * The master daemon's side of one connection (`connection_handler`): ask
 * the slave to monitor one fixed application, then repeatedly request the
 * monitoring values and store every record received. Whether a send
 * succeeds is up to the network, so the results of the request sends are
 * given as a script; the loop ends at the first send that does not succeed.
 */
module Master {
  import opened Wrappers
  import opened Bytes
  import opened Wire
  import opened Tables

  /** The one application the master asks to monitor. */
  const TestCmdline: string := "../run_base_ref_gnu_mpi.0009/hpgmgfv_base.gnu_mpi59300"

  /** The bytes `c_str()` sends for a string: one per character, its code (the test string is ASCII). */
  function Ascii(s: string): (r: Cmdline)
    ensures |r| == |s|
    ensures forall i :: 0 <= i < |s| ==> r[i] == s[i] as int % 256
  {
    seq(|s|, i requires 0 <= i < |s| => s[i] as int % 256)
  }

  function TestBytes(): (r: Cmdline)
    ensures |r| == |TestCmdline| <= CmdlineBufSize
  {
    Ascii(TestCmdline)
  }

  /** The bytes of the ADD_APP_TO_MONITOR request: the opcode, the cmdline's length, its bytes. */
  function AddRequest(): (r: seq<byte>)
    ensures |r| == OpcodeBytes + SizeBytes + |TestCmdline|
  {
    EncodeOpcode(AddAppToMonitor) + LE(|TestBytes()|, SizeBytes) + TestBytes()
  }

  /** The slave reads the request back as the ADD opcode and the test cmdline, and then goes on reading `t`. */
  lemma AddRequestDecodes(t: seq<byte>)
    ensures ReadNumber(AddRequest() + t, OpcodeBytes) ==
              Got(Some(AddAppToMonitor as nat), LE(|TestBytes()|, SizeBytes) + TestBytes() + t)
    ensures ReadCmdline(LE(|TestBytes()|, SizeBytes) + TestBytes() + t) == Got(Some(TestBytes()), t)
  {
    var body := LE(|TestBytes()|, SizeBytes) + TestBytes();
    assert AddRequest() + t == EncodeOpcode(AddAppToMonitor) + (body + t);
    Pow256Widths();
    ReadNumberOfLE(AddAppToMonitor, OpcodeBytes, body + t);
    DecodeEncodeCmdline(TestBytes(), t);
  }

  /** How the loop ended: a send returned 0 (the slave disconnected), or less (an error), or the script ran out. */
  datatype End = Disconnected | SendFailed | ScriptEnded

  /** The number of sends, from the start of the script, that succeeded. */
  function Granted(sends: seq<int>): (k: nat)
    ensures k <= |sends|
    ensures forall i :: 0 <= i < k ==> sends[i] > 0
    ensures k < |sends| ==> sends[k] <= 0
  {
    if sends == [] || sends[0] <= 0 then 0 else 1 + Granted(sends[1..])
  }

  /** A successful send at `k` extends the run of successes by one. */
  lemma GrantedStep(sends: seq<int>, k: nat)
    requires k < |sends| && sends[k] > 0
    ensures Granted(sends[k..]) == 1 + Granted(sends[k + 1..])
  {
    assert sends[k..][1..] == sends[k + 1..];
  }

  /** `n` copies of `s`, one after the other. */
  function Repeat(s: seq<byte>, n: nat): (r: seq<byte>)
  {
    if n == 0 then [] else Repeat(s, n - 1) + s
  }

  lemma RepeatStep(sent: seq<byte>, s: seq<byte>, k: nat, before: seq<byte>, after: seq<byte>)
    requires before == sent + Repeat(s, k) && after == before + s
    ensures after == sent + Repeat(s, k + 1)
  {
  }

  /** What GET rounds leave: the table with the frames' records stored, and the stream after the frames. */
  datatype Progress = Progress(table: Table, stream: seq<byte>)

  /** One GET round: the next frame decoded and its records stored; no entry of the table is lost. */
  function Exchange(p: Progress): (r: Progress)
    ensures p.table.Keys <= r.table.Keys
  {
    var d := DecodeFrame(p.stream);
    Progress(StoreAll(p.table, d.apps), d.rest)
  }

  /** `n` GET rounds; none of them loses an entry of the table. */
  function Rounds(p: Progress, n: nat): (r: Progress)
    ensures p.table.Keys <= r.table.Keys
  {
    if n == 0 then p else Exchange(Rounds(p, n - 1))
  }

  lemma RoundsStep(p: Progress, k: nat, before: Progress, after: Progress)
    requires before == Rounds(p, k) && after == Exchange(before)
    ensures after == Rounds(p, k + 1)
  {
  }

  /**
   * The master receives from the slave exactly the table the slave sent: a
   * frame of a keyed table, in any of its iteration orders, decodes whole and
   * stores every entry of it over the master's old entries.
   */
  lemma ReceivesSlaveTable(m: Table, t: Table, order: seq<Cmdline>, rest: seq<byte>)
    requires Keyed(t) && IsEnumeration(order, t) && |t| < Pow256(SizeBytes)
    ensures var d := DecodeFrame(EncodeFrame(RecordsOf(t, order)) + rest);
            d.complete && d.rest == rest && StoreAll(m, d.apps) == m + t
  {
    KeyedFits(t, order);
    DecodeEncodeFrame(RecordsOf(t, order), rest);
    StoreTable(m, t, order);
  }

  class Session {
    /** The master's `applications` table. */
    var applications: Table
    /** What the slave has still to send; the stream is consumed from the front. */
    var input: seq<byte>
    /** Everything sent to the slave so far. */
    var output: seq<byte>

    constructor(incoming: seq<byte>)
      ensures applications == map[] && input == incoming && output == []
    {
      applications := map[];
      input := incoming;
      output := [];
    }

    /**
     * The ADD request. `sent` is what the send of the opcode returns; when it
     * succeeds the length and the bytes follow (their results are not checked).
     */
    method Open(sent: int)
      modifies this`output
      ensures output == old(output) + (if sent > 0 then AddRequest() else [])
    {
      if sent > 0 {
        var cl := TestBytes();
        output := output + EncodeOpcode(AddAppToMonitor);
        output := output + LE(|cl|, SizeBytes);
        output := output + cl;
      } else {
        assert output + [] == output;
      }
    }

    /** The four receives of one record: length, cmdline, values, CLOS id. */
    method ReceiveRecord() returns (a: Option<Application>)
      modifies this`input
      ensures a == DecodeRecord(old(input)).value && input == DecodeRecord(old(input)).rest
    {
      ghost var s := input;
      var len := ReadNumber(input, SizeBytes);
      input := len.rest;
      if len.value.None? || len.value.value > CmdlineBufSize {
        input := [];
        return None;
      }
      var n := len.value.value;
      var cmdline := Read(input, n);
      input := cmdline.rest;
      if cmdline.value.None? {
        return None;
      }
      var values := Read(input, ValuesBytes);
      input := values.rest;
      if values.value.None? {
        return None;
      }
      var closId := ReadNumber(input, ClosIdBytes);
      input := closId.rest;
      if closId.value.None? {
        return None;
      }
      Pow256Widths();
      a := Some(Application(cmdline.value.value, values.value.value, closId.value.value));
      RecordFields(s, n);
    }

    /** The slices the four receives take are the fields DecodeRecord reads. */
    static lemma RecordFields(s: seq<byte>, n: nat)
      requires |s| >= SizeBytes + n + ValuesBytes + ClosIdBytes
      ensures var u := s[SizeBytes..];
              var v := u[n..];
              var w := v[ValuesBytes..];
              && u[..n] == s[SizeBytes..SizeBytes + n]
              && v[..ValuesBytes] == s[SizeBytes + n..SizeBytes + n + ValuesBytes]
              && w[..ClosIdBytes] == s[SizeBytes + n + ValuesBytes..SizeBytes + n + ValuesBytes + ClosIdBytes]
              && w[ClosIdBytes..] == s[SizeBytes + n + ValuesBytes + ClosIdBytes..]
    {
    }

    /**
     * The answer to one GET request: the record count, then records until
     * that many arrived or one did not arrive whole; each record is stored
     * under its cmdline as it arrives.
     */
    method ReceiveFrame()
      modifies this`input, this`applications
      ensures var d := DecodeFrame(old(input));
              applications == StoreAll(old(applications), d.apps) && input == d.rest
    {
      var sz := ReadNumber(input, SizeBytes);
      input := sz.rest;
      if sz.value.None? {
        return;
      }
      var count := sz.value.value;
      ghost var records := input;
      ghost var got: seq<Application> := [];
      var i := 0;
      var ok := true;
      while i < count && ok
        invariant i <= count && |got| <= i
        invariant applications == StoreAll(old(applications), got)
        invariant ok ==> DecodeRecords(records, count) == Behind(got, DecodeRecords(input, count - i))
        invariant !ok ==> DecodeRecords(records, count) == Decoded(got, [], false) && input == []
      {
        ghost var left: nat := count - i;
        DecodeRecordsStep(input, left);
        var a := ReceiveRecord();
        if a.None? {
          ok := false;
          assert got + [] == got;
        } else {
          StoreSnoc(old(applications), got, a.value);
          BehindSnoc(got, a.value, DecodeRecords(input, left - 1));
          applications := applications[a.value.cmdline := a.value];
          got := got + [a.value];
        }
        i := i + 1;
      }
      if ok {
        assert got + [] == got;
      }
    }

    /**
     * The request loop: while the send of a GET request succeeds, receive
     * and store one frame. `sends` are the results of those sends in turn.
     */
    method Run(sends: seq<int>) returns (e: End)
      modifies this`input, this`applications, this`output
      ensures var k := Granted(sends);
              && Progress(applications, input) == Rounds(Progress(old(applications), old(input)), k)
              && output == old(output) + Repeat(EncodeOpcode(GetMonitoringValues), k)
      ensures e == ScriptEnded <==> Granted(sends) == |sends|
      ensures e == Disconnected <==> Granted(sends) < |sends| && sends[Granted(sends)] == 0
      ensures e == SendFailed <==> Granted(sends) < |sends| && sends[Granted(sends)] < 0
    {
      var k := Requests(sends);
      if k == |sends| {
        e := ScriptEnded;
      } else if sends[k] == 0 {
        e := Disconnected;
      } else {
        e := SendFailed;
      }
    }

    /**
     * The whole of `connection_handler`: the ADD request, then the GET loop.
     * `sent` is what the send of the ADD opcode returns, `sends` what the
     * sends of the GET opcodes return in turn.
     */
    method Handle(sent: int, sends: seq<int>) returns (e: End)
      modifies this`input, this`applications, this`output
      ensures var k := Granted(sends);
              && Progress(applications, input) == Rounds(Progress(old(applications), old(input)), k)
              && output == old(output) + (if sent > 0 then AddRequest() else []) + Repeat(EncodeOpcode(GetMonitoringValues), k)
      ensures e == ScriptEnded <==> Granted(sends) == |sends|
      ensures e == Disconnected <==> Granted(sends) < |sends| && sends[Granted(sends)] == 0
      ensures e == SendFailed <==> Granted(sends) < |sends| && sends[Granted(sends)] < 0
    {
      Open(sent);
      e := Run(sends);
    }

    /** The loop itself; it returns how many requests went out. */
    method Requests(sends: seq<int>) returns (k: nat)
      modifies this`input, this`applications, this`output
      ensures k == Granted(sends)
      ensures Progress(applications, input) == Rounds(Progress(old(applications), old(input)), k)
      ensures output == old(output) + Repeat(EncodeOpcode(GetMonitoringValues), k)
    {
      ghost var start, sent := Progress(applications, input), output;
      k := 0;
      while k < |sends| && sends[k] > 0
        invariant k <= |sends| && Granted(sends) == k + Granted(sends[k..])
        invariant Progress(applications, input) == Rounds(start, k)
        invariant output == sent + Repeat(EncodeOpcode(GetMonitoringValues), k)
      {
        ghost var before, out := Progress(applications, input), output;
        Request();
        RoundsStep(start, k, before, Progress(applications, input));
        RepeatStep(sent, EncodeOpcode(GetMonitoringValues), k, out, output);
        GrantedStep(sends, k);
        k := k + 1;
      }
    }

    /** One GET round: the request, then its answer. */
    method Request()
      modifies this`input, this`applications, this`output
      ensures Progress(applications, input) == Exchange(Progress(old(applications), old(input)))
      ensures output == old(output) + EncodeOpcode(GetMonitoringValues)
    {
      output := output + EncodeOpcode(GetMonitoringValues);
      ReceiveFrame();
    }
  }
}
