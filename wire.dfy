/**
 * The messages between the master and the slave daemons: the opcodes, and
 * the monitoring-values frame the slave sends in answer to
 * GET_MONITORING_VALUES. Every field travels as the raw bytes of the C
 * object, in the host's little-endian order:
 *
 *   count: size_t, then per application
 *   len: size_t, cmdline: len bytes (no terminator),
 *   values: monitoring_values (32 bytes, opaque here), CLOS id: ushort.
 *
 * The socket is a reliable byte stream: a read of n bytes gets the next n
 * bytes when that many will still arrive; otherwise the peer has closed, the
 * read fails and nothing more arrives.
 */
module Wire {
  import opened Wrappers
  import opened Bytes

  // The values of `enum catpc_message`.
  const GetMonitoringValues: u32 := 0
  const GetAllocationConf: u32 := 1
  const PerformAllocation: u32 := 2
  const AddAppToMonitor: u32 := 3
  const RemoveAppToMonitor: u32 := 4

  // The sizes of the C objects sent.
  const OpcodeBytes: nat := 4
  const SizeBytes: nat := 8
  const ValuesBytes: nat := 32
  const ClosIdBytes: nat := 2

  /** The receive buffer for a cmdline, `char buf[512]`, in both daemons. */
  const CmdlineBufSize: nat := 512

  /** A command line, the key of the application tables: the bytes of a `std::string`. */
  type Cmdline = seq<byte>

  /** A `struct monitoring_values` (three `uint64_t` and a `double`) as its 32 raw bytes. */
  type MonitoringValues = s: seq<byte> | |s| == 32 witness seq(32, _ => 0)

  /** `monitoring_values()`: value-initialised, every field zero, so every byte zero. */
  function ZeroValues(): (v: MonitoringValues)
    ensures forall i :: 0 <= i < ValuesBytes ==> v[i] == 0
  {
    seq(32, _ => 0)
  }

  /** A `struct application`: its command line, its latest monitoring values and its CLOS id. */
  datatype Application = Application(cmdline: Cmdline, values: MonitoringValues, closId: u16)

  /** The result of a read from the stream: what was read, if anything, and what remains. */
  datatype Got<T> = Got(value: Option<T>, rest: seq<byte>)

  /**
   * The result of decoding records: those decoded, what remains of the
   * stream, and whether every announced record arrived.
   */
  datatype Decoded = Decoded(apps: seq<Application>, rest: seq<byte>, complete: bool)

  // ---------------------------------------------------------------------------
  // Encoding (the sends of the slave's GET_MONITORING_VALUES branch)
  // ---------------------------------------------------------------------------

  /** An opcode's send: its four host-order bytes, from which the peer reads the opcode back. */
  function EncodeOpcode(op: u32): (r: seq<byte>)
    ensures |r| == OpcodeBytes
    ensures FromLE(r) == op
  {
    Pow256Widths();
    FromLEOfLE(op, OpcodeBytes);
    LE(op, OpcodeBytes)
  }

  /** One record: the cmdline's length, its bytes, the values and the CLOS id. */
  function EncodeRecord(a: Application): (r: seq<byte>)
    ensures |r| == SizeBytes + |a.cmdline| + ValuesBytes + ClosIdBytes
  {
    LE(|a.cmdline|, SizeBytes) + a.cmdline + a.values + LE(a.closId, ClosIdBytes)
  }

  /** The records in sending order, one after another, each at least its fixed-width fields long. */
  function EncodeRecords(apps: seq<Application>): (r: seq<byte>)
    ensures |r| >= (SizeBytes + ValuesBytes + ClosIdBytes) * |apps|
  {
    if apps == [] then [] else EncodeRecord(apps[0]) + EncodeRecords(apps[1..])
  }

  /** The frame: the number of records, then the records. */
  function EncodeFrame(apps: seq<Application>): (r: seq<byte>)
    ensures |r| >= SizeBytes && r[..SizeBytes] == LE(|apps|, SizeBytes)
    ensures r[SizeBytes..] == EncodeRecords(apps)
  {
    LE(|apps|, SizeBytes) + EncodeRecords(apps)
  }

  // ---------------------------------------------------------------------------
  // Decoding (the receives of the master's connection_handler)
  // ---------------------------------------------------------------------------

  /** `recv` of `n` bytes from the stream `s`: the bytes and what remains, or nothing and an empty stream. */
  function Read(s: seq<byte>, n: nat): (r: Got<seq<byte>>)
    ensures r.value.Some? <==> n <= |s|
    ensures r.value.Some? ==> |r.value.value| == n && r.value.value + r.rest == s
    ensures r.value.None? ==> r.rest == []
  {
    if n <= |s| then Got(Some(s[..n]), s[n..]) else Got(None, [])
  }

  /** `recv` of an unsigned integer object of `width` bytes. */
  function ReadNumber(s: seq<byte>, width: nat): (r: Got<nat>)
    ensures r.value.Some? <==> width <= |s|
    ensures r.value.Some? ==> r.value.value < Pow256(width) && r.rest == s[width..]
    ensures r.value.None? ==> r.rest == []
  {
    if width <= |s| then Got(Some(FromLE(s[..width])), s[width..]) else Got(None, [])
  }

  /**
   * A length-prefixed cmdline, keeping exactly `len` bytes. A length beyond
   * the 512-byte buffer would overrun it in the source; it is malformed here.
   */
  function ReadCmdline(s: seq<byte>): (r: Got<Cmdline>)
    ensures r.value.Some? ==> |r.value.value| <= CmdlineBufSize
    ensures r.value.Some? <==> |s| >= SizeBytes && FromLE(s[..SizeBytes]) <= CmdlineBufSize &&
                               |s| >= SizeBytes + FromLE(s[..SizeBytes])
    ensures r.value.None? ==> r.rest == []
  {
    if |s| < SizeBytes then Got(None, [])
    else
      var len := FromLE(s[..SizeBytes]);
      if len > CmdlineBufSize || |s| < SizeBytes + len then Got(None, [])
      else Got(Some(s[SizeBytes..SizeBytes + len]), s[SizeBytes + len..])
  }

  /**
   * One record, its fields read in the order the slave sends them. A read
   * that comes up short anywhere means the peer has closed: no record, and
   * nothing left of the stream.
   */
  function DecodeRecord(s: seq<byte>): (r: Got<Application>)
    ensures r.value.Some? <==> |s| >= SizeBytes && FromLE(s[..SizeBytes]) <= CmdlineBufSize &&
                               |s| >= SizeBytes + FromLE(s[..SizeBytes]) + ValuesBytes + ClosIdBytes
    ensures r.value.Some? ==> |r.value.value.cmdline| <= CmdlineBufSize
    ensures r.value.Some? ==> |s| == SizeBytes + |r.value.value.cmdline| + ValuesBytes + ClosIdBytes + |r.rest|
    ensures r.value.None? ==> r.rest == []
  {
    if |s| < SizeBytes then Got(None, [])
    else
      var len := FromLE(s[..SizeBytes]);
      var valuesAt := SizeBytes + len;
      var closIdAt := valuesAt + ValuesBytes;
      var end := closIdAt + ClosIdBytes;
      if len > CmdlineBufSize || |s| < end then Got(None, [])
      else Got(Some(Application(s[SizeBytes..valuesAt], s[valuesAt..closIdAt], FromLE(s[closIdAt..end]))), s[end..])
  }

  /** Up to `count` records; decoding stops at the first one that does not arrive whole. */
  function DecodeRecords(s: seq<byte>, count: nat): (r: Decoded)
    ensures |r.apps| <= count
    ensures r.complete <==> |r.apps| == count
    ensures !r.complete ==> r.rest == []
    decreases count
  {
    if count == 0 then Decoded([], s, true)
    else
      var g := DecodeRecord(s);
      if g.value.None? then Decoded([], [], false)
      else
        var d := DecodeRecords(g.rest, count - 1);
        Decoded([g.value.value] + d.apps, d.rest, d.complete)
  }

  /** The frame: the record count, then that many records. */
  function DecodeFrame(s: seq<byte>): (r: Decoded)
    ensures r.complete ==> |s| >= SizeBytes && |r.apps| == FromLE(s[..SizeBytes])
    ensures |s| >= SizeBytes ==> |r.apps| <= FromLE(s[..SizeBytes])
    ensures !r.complete ==> r.rest == []
  {
    if |s| < SizeBytes then Decoded([], [], false)
    else DecodeRecords(s[SizeBytes..], FromLE(s[..SizeBytes]))
  }

  // ---------------------------------------------------------------------------
  // Round trips
  // ---------------------------------------------------------------------------

  /** The cmdlines fit the receive buffer, so the decoder accepts their lengths. */
  predicate FitBuffer(apps: seq<Application>)
  {
    forall i :: 0 <= i < |apps| ==> |apps[i].cmdline| <= CmdlineBufSize
  }

  /** The pieces of a concatenation, recovered by slicing at the sums of their lengths. */
  lemma Pieces<T>(p: seq<T>, q: seq<T>, r: seq<T>, u: seq<T>, t: seq<T>)
    ensures var s := p + q + r + u + t;
            var i, j, k := |p|, |p| + |q|, |p| + |q| + |r|;
            && s[..i] == p && s[i..j] == q && s[j..k] == r
            && s[k..k + |u|] == u && s[k + |u|..] == t
  {
  }

  /** The front of a concatenation and what follows it. */
  lemma Front<T>(p: seq<T>, q: seq<T>, t: seq<T>)
    ensures (p + q + t)[..|p|] == p && (p + q + t)[|p|..] == q + t
    ensures (p + q + t)[|p|..|p| + |q|] == q
  {
  }

  /** A sequence split at `n` into `p` and `q + r` is `p + q`, then `r`. */
  lemma Rejoin<T>(s: seq<T>, n: nat, p: seq<T>, q: seq<T>, r: seq<T>)
    requires n <= |s| && s[..n] == p && s[n..] == q + r
    ensures s == p + q + r
  {
    assert s == s[..n] + s[n..];
  }

  /** A sequence is the concatenation of its slices between ascending cut points. */
  lemma Cuts<T>(s: seq<T>, i: nat, j: nat, k: nat, l: nat)
    requires i <= j <= k <= l <= |s|
    ensures s == s[..i] + s[i..j] + s[j..k] + s[k..l] + s[l..]
  {
  }

  lemma ReadNumberOfLE(n: nat, width: nat, t: seq<byte>)
    requires n < Pow256(width)
    ensures ReadNumber(LE(n, width) + t, width) == Got(Some(n), t)
  {
    assert (LE(n, width) + t)[..width] == LE(n, width);
    assert (LE(n, width) + t)[width..] == t;
    FromLEOfLE(n, width);
  }

  /** A cmdline sent as its length and its bytes is received back whole. */
  lemma DecodeEncodeCmdline(c: Cmdline, t: seq<byte>)
    requires |c| <= CmdlineBufSize
    ensures ReadCmdline(LE(|c|, SizeBytes) + c + t) == Got(Some(c), t)
  {
    Front(LE(|c|, SizeBytes), c, t);
    Front(c, t, []);
    assert c + t + [] == c + t;
    Pow256Widths();
    FromLEOfLE(|c|, SizeBytes);
  }

  /** Decoding an encoded record gives it back and stops where the record ends. */
  lemma DecodeEncodeRecord(a: Application, t: seq<byte>)
    requires |a.cmdline| <= CmdlineBufSize
    ensures DecodeRecord(EncodeRecord(a) + t) == Got(Some(a), t)
  {
    var p := LE(|a.cmdline|, SizeBytes);
    var u := LE(a.closId, ClosIdBytes);
    Pieces(p, a.cmdline, a.values, u, t);
    Pow256Widths();
    FromLEOfLE(|a.cmdline|, SizeBytes);
    FromLEOfLE(a.closId, ClosIdBytes);
  }

  /** A decoded record is exactly the encoding of what it decoded to, followed by the rest. */
  lemma EncodeDecodeRecord(s: seq<byte>)
    requires DecodeRecord(s).value.Some?
    ensures s == EncodeRecord(DecodeRecord(s).value.value) + DecodeRecord(s).rest
  {
    var len := FromLE(s[..SizeBytes]);
    var valuesAt := SizeBytes + len;
    var closIdAt := valuesAt + ValuesBytes;
    var end := closIdAt + ClosIdBytes;
    Cuts(s, SizeBytes, valuesAt, closIdAt, end);
    LEOfFromLE(s[..SizeBytes]);
    LEOfFromLE(s[closIdAt..end]);
  }

  /** `s` holds the records `apps`, one after the other, and then `t`. */
  predicate Spells(s: seq<byte>, apps: seq<Application>, t: seq<byte>)
    decreases |apps|
  {
    if apps == [] then s == t
    else DecodeRecord(s).value == Some(apps[0]) && Spells(DecodeRecord(s).rest, apps[1..], t)
  }

  /** `d` with the records `apps` put in front. */
  function Behind(apps: seq<Application>, d: Decoded): (r: Decoded)
  {
    Decoded(apps + d.apps, d.rest, d.complete)
  }

  lemma BehindCons(apps: seq<Application>, d: Decoded)
    requires apps != []
    ensures Behind([apps[0]], Behind(apps[1..], d)) == Behind(apps, d)
  {
    assert [apps[0]] + (apps[1..] + d.apps) == apps + d.apps;
  }

  /** Decoding one record, then the others from where it ended. */
  lemma SpelledCons(s: seq<byte>, r: seq<byte>, apps: seq<Application>, count: nat, d: Decoded)
    requires apps != [] && count > 0 && DecodeRecord(s).value == Some(apps[0]) && DecodeRecord(s).rest == r
    requires DecodeRecords(r, count - 1) == Behind(apps[1..], d)
    ensures DecodeRecords(s, count) == Behind(apps, d)
  {
    BehindCons(apps, d);
  }

  lemma SpelledNone(s: seq<byte>, count: nat)
    ensures DecodeRecords(s, count) == Behind([], DecodeRecords(s, count))
  {
    assert [] + DecodeRecords(s, count).apps == DecodeRecords(s, count).apps;
  }

  /** A stream that holds `apps` and then `t` decodes to `apps`, then whatever `t` decodes to. */
  lemma {:induction false} DecodeSpelled(s: seq<byte>, apps: seq<Application>, t: seq<byte>, count: nat, more: nat)
    requires Spells(s, apps, t) && count == |apps| + more
    ensures DecodeRecords(s, count) == Behind(apps, DecodeRecords(t, more))
    decreases |apps|
  {
    if apps == [] {
      SpelledNone(s, count);
    } else {
      var r := DecodeRecord(s).rest;
      DecodeSpelled(r, apps[1..], t, count - 1, more);
      SpelledCons(s, r, apps, count, DecodeRecords(t, more));
    }
  }

  lemma EncodeRecordsCons(apps: seq<Application>, t: seq<byte>)
    requires apps != []
    ensures EncodeRecords(apps) + t == EncodeRecord(apps[0]) + (EncodeRecords(apps[1..]) + t)
  {
  }

  /** The encoding of `apps` followed by `t` holds `apps`, then `t`. */
  lemma {:induction false} EncodingSpells(apps: seq<Application>, t: seq<byte>)
    requires FitBuffer(apps)
    ensures Spells(EncodeRecords(apps) + t, apps, t)
  {
    if apps == [] {
      assert EncodeRecords(apps) + t == t;
    } else {
      var tail := EncodeRecords(apps[1..]) + t;
      EncodeRecordsCons(apps, t);
      DecodeEncodeRecord(apps[0], tail);
      assert FitBuffer(apps[1..]);
      EncodingSpells(apps[1..], t);
    }
  }

  /**
   * Decoding the encoding of `apps` followed by more of the stream gives
   * `apps`, then whatever the rest decodes to.
   */
  lemma DecodeEncodeRecords(apps: seq<Application>, t: seq<byte>, more: nat)
    requires FitBuffer(apps)
    ensures DecodeRecords(EncodeRecords(apps) + t, |apps| + more) == Behind(apps, DecodeRecords(t, more))
  {
    EncodingSpells(apps, t);
    DecodeSpelled(EncodeRecords(apps) + t, apps, t, |apps| + more, more);
  }

  /** Frame round trip: the master decodes exactly the records the slave encoded. */
  lemma DecodeEncodeFrame(apps: seq<Application>, t: seq<byte>)
    requires FitBuffer(apps) && |apps| < Pow256(SizeBytes)
    ensures DecodeFrame(EncodeFrame(apps) + t) == Decoded(apps, t, true)
  {
    Front(LE(|apps|, SizeBytes), EncodeRecords(apps), t);
    FromLEOfLE(|apps|, SizeBytes);
    DecodeEncodeRecords(apps, t, 0);
    assert apps + [] == apps;
  }

  /** A complete decode read exactly an encoded frame. */
  lemma {:induction false} EncodeDecodeRecords(s: seq<byte>, count: nat)
    requires DecodeRecords(s, count).complete
    ensures s == EncodeRecords(DecodeRecords(s, count).apps) + DecodeRecords(s, count).rest
    decreases count
  {
    if count > 0 {
      var g := DecodeRecord(s);
      EncodeDecodeRecord(s);
      EncodeDecodeRecords(g.rest, count - 1);
      RecordsJoin(s, count, g.value.value, g.rest, DecodeRecords(g.rest, count - 1));
    } else {
      assert EncodeRecords([]) + s == s;
    }
  }

  lemma RecordsJoin(s: seq<byte>, count: nat, a: Application, r: seq<byte>, e: Decoded)
    requires count > 0 && DecodeRecord(s) == Got(Some(a), r) && DecodeRecords(r, count - 1) == e
    requires s == EncodeRecord(a) + r && r == EncodeRecords(e.apps) + e.rest
    ensures s == EncodeRecords(DecodeRecords(s, count).apps) + DecodeRecords(s, count).rest
  {
    assert DecodeRecords(s, count) == Decoded([a] + e.apps, e.rest, e.complete);
    EncodeRecordsCons([a] + e.apps, e.rest);
    assert ([a] + e.apps)[1..] == e.apps;
  }

  lemma EncodeDecodeFrame(s: seq<byte>)
    requires DecodeFrame(s).complete
    ensures s == EncodeFrame(DecodeFrame(s).apps) + DecodeFrame(s).rest
  {
    var count := FromLE(s[..SizeBytes]);
    var d := DecodeRecords(s[SizeBytes..], count);
    EncodeDecodeRecords(s[SizeBytes..], count);
    LEOfFromLE(s[..SizeBytes]);
    Rejoin(s, SizeBytes, LE(|d.apps|, SizeBytes), EncodeRecords(d.apps), d.rest);
  }

  /**
   * A frame cut off inside record `k` yields the `k` records before the cut,
   * marked incomplete.
   */
  lemma TruncatedFrame(apps: seq<Application>, k: nat, cut: nat)
    requires FitBuffer(apps) && k < |apps| && cut < |EncodeRecord(apps[k])|
    ensures DecodeRecords(EncodeRecords(apps[..k]) + EncodeRecord(apps[k])[..cut], |apps|) ==
              Decoded(apps[..k], [], false)
  {
    var partial := EncodeRecord(apps[k])[..cut];
    var more := |apps| - k;
    assert FitBuffer(apps[..k]);
    DecodeEncodeRecords(apps[..k], partial, more);
    PartialRecord(apps[k], cut);
    DecodeRecordsStep(partial, more);
    assert |apps[..k]| + more == |apps|;
    assert Behind(apps[..k], Decoded([], [], false)) == Decoded(apps[..k], [], false) by {
      assert apps[..k] + [] == apps[..k];
    }
  }

  /** A strict prefix of an encoded record does not decode. */
  lemma PartialRecord(a: Application, cut: nat)
    requires |a.cmdline| <= CmdlineBufSize && cut < |EncodeRecord(a)|
    ensures DecodeRecord(EncodeRecord(a)[..cut]).value.None?
  {
    var s := EncodeRecord(a)[..cut];
    if cut >= SizeBytes {
      assert s[..SizeBytes] == LE(|a.cmdline|, SizeBytes);
      Pow256Widths();
      FromLEOfLE(|a.cmdline|, SizeBytes);
    }
  }

  /** Sending one more record appends its encoding: the shape of the slave's send loop. */
  lemma {:induction false} EncodeRecordsSnoc(apps: seq<Application>, a: Application)
    ensures EncodeRecords(apps + [a]) == EncodeRecords(apps) + EncodeRecord(a)
    decreases |apps|
  {
    if apps == [] {
      assert apps + [a] == [a];
      assert EncodeRecords([a]) == EncodeRecord(a) + EncodeRecords([]);
    } else {
      assert (apps + [a])[1..] == apps[1..] + [a];
      EncodeRecordsSnoc(apps[1..], a);
    }
  }

  /** One pass of the master's receive loop: one record decoded, or decoding stops. */
  lemma DecodeRecordsStep(s: seq<byte>, count: nat)
    requires count > 0
    ensures DecodeRecord(s).value.None? ==> DecodeRecords(s, count) == Decoded([], [], false)
    ensures DecodeRecord(s).value.Some? ==>
              DecodeRecords(s, count) == Behind([DecodeRecord(s).value.value], DecodeRecords(DecodeRecord(s).rest, count - 1))
  {
  }

  /** One more record decoded, at the end: the shape of the master's receive loop. */
  lemma BehindSnoc(apps: seq<Application>, a: Application, d: Decoded)
    ensures Behind(apps, Behind([a], d)) == Behind(apps + [a], d)
  {
    assert apps + ([a] + d.apps) == apps + [a] + d.apps;
  }

  // ---------------------------------------------------------------------------
  // The cmdline as both daemons actually store it: `recv(buf, len)` followed
  // by `cmdline.assign(buf)`, which reads up to the first NUL in the buffer.
  // No NUL is ever sent, so the stored cmdline is the received bytes only
  // when the buffer happens to hold a NUL right after them.
  // ---------------------------------------------------------------------------

  /** `recv` of `data` into `buf`: the first |data| bytes are overwritten, the others keep what they held. */
  function Receive(buf: seq<byte>, data: seq<byte>): (r: seq<byte>)
    requires |data| <= |buf|
    ensures |r| == |buf| && r[..|data|] == data && r[|data|..] == buf[|data|..]
  {
    data + buf[|data|..]
  }

  /**
   * `std::string::assign(const char*)` on a buffer: the bytes before the first
   * NUL. A buffer without one is taken whole (the C++ reads past its end).
   */
  function CString(buf: seq<byte>): (r: seq<byte>)
    ensures |r| <= |buf| && r == buf[..|r|]
    ensures forall i :: 0 <= i < |r| ==> r[i] != 0
    ensures |r| < |buf| ==> buf[|r|] == 0
  {
    if buf == [] || buf[0] == 0 then [] else [buf[0]] + CString(buf[1..])
  }

  /** The cmdline the source stores after receiving `data` into a buffer that held `buf`. */
  function AssignAsWritten(buf: seq<byte>, data: seq<byte>): (r: seq<byte>)
    requires |data| <= |buf|
    ensures |r| <= |buf| && forall i :: 0 <= i < |r| ==> r[i] != 0
    ensures (forall i :: 0 <= i < |data| ==> data[i] != 0) ==> |data| <= |r| && r[..|data|] == data
  {
    var b := Receive(buf, data);
    var r := CString(b);
    assert |r| < |data| ==> b[|r|] == data[|r|];
    r
  }

  /** A NUL right after NUL-free bytes ends the C string there. */
  lemma {:induction false} CStringStops(p: seq<byte>, q: seq<byte>)
    requires forall i :: 0 <= i < |p| ==> p[i] != 0
    requires q != [] && q[0] == 0
    ensures CString(p + q) == p
  {
    if p == [] {
      assert p + q == q;
    } else {
      assert (p + q)[1..] == p[1..] + q;
      CStringStops(p[1..], q);
    }
  }

  /**
   * The stored cmdline is the received one exactly when the received bytes
   * hold no NUL and the buffer already held a NUL just after them.
   */
  lemma AssignAsWrittenExact(buf: seq<byte>, data: seq<byte>)
    requires |data| < |buf|
    ensures AssignAsWritten(buf, data) == data <==>
              (forall i :: 0 <= i < |data| ==> data[i] != 0) && buf[|data|] == 0
  {
    var r := Receive(buf, data);
    if (forall i :: 0 <= i < |data| ==> data[i] != 0) && buf[|data|] == 0 {
      assert r == data + buf[|data|..];
      CStringStops(data, buf[|data|..]);
    }
  }

  /**
   * A counterexample: after a 4-byte cmdline "abcd", receiving the 2-byte
   * cmdline "xy" into the same buffer stores "xycd".
   */
  lemma StaleTail()
    ensures AssignAsWritten([97, 98, 99, 100] + seq(508, _ => 0), [120, 121]) == [120, 121, 99, 100]
  {
    var buf: seq<byte> := [97, 98, 99, 100] + seq(508, _ => 0);
    var zeros: seq<byte> := seq(508, _ => 0);
    assert Receive(buf, [120, 121]) == [120, 121, 99, 100] + zeros;
    CStringStops([120, 121, 99, 100], zeros);
  }
}
