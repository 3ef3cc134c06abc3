/** The stress-file generator: it reads the packet records of a template capture
    and writes a larger capture that repeats them in order, with synthetic
    timestamps, until a byte budget is reached. File contents are byte sequences;
    the clock reading and the size budget are parameters. Record headers are
    packed and unpacked in native order with standard sizes (`=IIII`), which on
    the little-endian hosts this runs on is little-endian. */
module StressGenerator {
  import opened Bytes

  const GlobalHeaderLength: nat := 24
  const RecordHeaderLength: nat := 16
  /** Records per synthetic second; also the microsecond wrap. */
  const RecordsPerSecond: nat := 1000000
  const BytesPerMb: nat := 1024 * 1024

  /** One template record: its two lengths and its captured bytes. */
  datatype Template = Template(inclLen: nat, origLen: nat, payload: seq<byte>)

  /** A template as the reader produces it: both lengths are 32-bit values and the
      payload holds exactly `inclLen` bytes. */
  predicate WellFormed(t: Template) {
    t.inclLen < Pow256(4) && t.origLen < Pow256(4) && |t.payload| == t.inclLen
  }

  // -----------------------------------------------------------------------
  // Reading the template capture
  // -----------------------------------------------------------------------

  /** The records of `s`, read front to back; reading stops at the first header
      shorter than 16 bytes or payload shorter than its `incl_len`. */
  function ReadRecords(s: seq<byte>): (ps: seq<Template>)
    ensures forall i :: 0 <= i < |ps| ==> WellFormed(ps[i])
    decreases |s|
  {
    if |s| < RecordHeaderLength then []
    else
      var inclLen := LeValue(s[8..12]);
      if |s| - RecordHeaderLength < inclLen then []
      else [Template(inclLen, LeValue(s[12..16]), s[16..16 + inclLen])] + ReadRecords(s[16 + inclLen..])
  }

  /** Where the global header ends: 24, or the whole input when it is shorter. */
  function HeaderEnd(input: seq<byte>): (e: nat)
    ensures e <= |input| && (e < GlobalHeaderLength ==> e == |input|)
  {
    if |input| < GlobalHeaderLength then |input| else GlobalHeaderLength
  }

  /** The template records of a capture file. */
  function Templates(input: seq<byte>): seq<Template> {
    ReadRecords(input[HeaderEnd(input)..])
  }

  /** The reading loop: the global header, then records until one is short. */
  method LoadTemplates(input: seq<byte>) returns (globalHeader: seq<byte>, packets: seq<Template>)
    ensures globalHeader == input[..HeaderEnd(input)]
    ensures packets == Templates(input)
    ensures |packets| > 0 ==> |globalHeader| == GlobalHeaderLength
  {
    var pos := HeaderEnd(input);
    globalHeader := input[..pos];
    packets := [];
    while true
      invariant LoadResumes(input, pos, packets)
      decreases |input| - pos
    {
      var headerEnd := if |input| - pos < RecordHeaderLength then |input| else pos + RecordHeaderLength;
      var headerBytes := input[pos..headerEnd];
      if |headerBytes| < RecordHeaderLength {
        ReadRecordsStop(input[pos..]);
        break;
      }
      assert headerEnd == pos + RecordHeaderLength;
      SliceOfSlice(input, pos, headerEnd, 8, 12);
      SliceOfSlice(input, pos, headerEnd, 12, 16);
      var inclLen := LeValue(headerBytes[8..12]);
      var origLen := LeValue(headerBytes[12..16]);
      var payloadStart := pos + RecordHeaderLength;
      var payloadEnd := if |input| - payloadStart < inclLen then |input| else payloadStart + inclLen;
      var payload := input[payloadStart..payloadEnd];
      if |payload| < inclLen {
        ReadRecordsShort(input, pos, inclLen);
        break;
      }
      assert payloadEnd == payloadStart + inclLen;
      LoadAdvance(input, pos, packets, inclLen, origLen, payload, payloadEnd);
      packets := packets + [Template(inclLen, origLen, payload)];
      pos := payloadEnd;
    }
  }

  /** The reading loop's invariant: the templates read so far, followed by those
      still to be read from `pos`, are all the templates of the file. */
  ghost predicate LoadResumes(input: seq<byte>, pos: nat, packets: seq<Template>) {
    && HeaderEnd(input) <= pos <= |input|
    && packets + ReadRecords(input[pos..]) == Templates(input)
    && (|packets| > 0 ==> HeaderEnd(input) == GlobalHeaderLength)
  }

  /** Taking the complete record at `pos` keeps the reading loop's invariant. */
  lemma LoadAdvance(input: seq<byte>, pos: nat, packets: seq<Template>, n: nat, o: nat,
                    payload: seq<byte>, next: nat)
    requires LoadResumes(input, pos, packets)
    requires next == pos + RecordHeaderLength + n && next <= |input|
    requires n == LeValue(input[pos + 8..pos + 12]) && o == LeValue(input[pos + 12..pos + 16])
    requires payload == input[pos + 16..next]
    ensures LoadResumes(input, next, packets + [Template(n, o, payload)])
  {
    ReadRecordsTakeAt(input, pos, n, o, payload);
    SeqAssoc(packets, [Template(n, o, payload)], ReadRecords(input[next..]));
  }

  /** Reading stops at a short header or a short payload. */
  lemma ReadRecordsStop(s: seq<byte>)
    requires |s| < RecordHeaderLength || |s| - RecordHeaderLength < LeValue(s[8..12])
    ensures ReadRecords(s) == []
  {
  }

  /** A record at `pos` whose payload runs past the end ends the reading. */
  lemma ReadRecordsShort(input: seq<byte>, pos: nat, n: nat)
    requires pos + RecordHeaderLength <= |input| && |input| - pos - RecordHeaderLength < n
    requires n == LeValue(input[pos + 8..pos + 12])
    ensures ReadRecords(input[pos..]) == []
  {
    SliceOfSuffix(input, pos, 8, 12);
    ReadRecordsStop(input[pos..]);
  }

  /** The complete record at `pos`, then the records after it. */
  lemma ReadRecordsTakeAt(input: seq<byte>, pos: nat, n: nat, o: nat, payload: seq<byte>)
    requires pos + RecordHeaderLength + n <= |input|
    requires n == LeValue(input[pos + 8..pos + 12]) && o == LeValue(input[pos + 12..pos + 16])
    requires payload == input[pos + 16..pos + 16 + n]
    ensures ReadRecords(input[pos..]) == [Template(n, o, payload)] + ReadRecords(input[pos + 16 + n..])
  {
    var rest := input[pos..];
    SliceOfSuffix(input, pos, 8, 12);
    SliceOfSuffix(input, pos, 12, 16);
    SliceOfSuffix(input, pos, 16, 16 + n);
    SuffixOfSuffix(input, pos, 16 + n);
  }

  lemma SliceOfSlice(s: seq<byte>, pos: nat, e: nat, a: nat, b: nat)
    requires pos <= e <= |s| && a <= b <= e - pos
    ensures s[pos..e][a..b] == s[pos + a..pos + b]
  {
    assert forall i :: 0 <= i < b - a ==> s[pos..e][a..b][i] == s[pos + a + i];
  }

  lemma SliceOfSuffix(s: seq<byte>, pos: nat, a: nat, b: nat)
    requires a <= b <= |s| - pos
    ensures s[pos..][a..b] == s[pos + a..pos + b]
  {
  }

  lemma SuffixOfSuffix(s: seq<byte>, pos: nat, a: nat)
    requires pos + a <= |s|
    ensures s[pos..][a..] == s[pos + a..]
  {
  }

  // -----------------------------------------------------------------------
  // Writing the stress capture
  // -----------------------------------------------------------------------

  /** The synthetic timestamp of record k: one second per million records, and
      the position within that million as microseconds. */
  function TsSec(start: nat, k: nat): (sec: nat)
    ensures start <= sec
    ensures (sec - start) * RecordsPerSecond <= k < (sec - start + 1) * RecordsPerSecond
  {
    start + k / RecordsPerSecond
  }

  /** Every record adds at least 16 bytes, so fewer than target / 16 records are
      written before the running total reaches the target, and none of them is
      stamped later than this second. */
  function LastSecond(start: nat, targetBytes: nat): nat {
    start + targetBytes / RecordHeaderLength / RecordsPerSecond
  }
  function TsUsec(k: nat): (us: nat)
    ensures us < RecordsPerSecond
  {
    k % RecordsPerSecond
  }

  /** The packed header of record k: the synthetic timestamp and the template's lengths. */
  function RecordHeader(start: nat, k: nat, t: Template): (h: seq<byte>)
    ensures |h| == RecordHeaderLength
  {
    LeBytes(4, TsSec(start, k)) + LeBytes(4, TsUsec(k)) + LeBytes(4, t.inclLen) + LeBytes(4, t.origLen)
  }

  /** Record k of the output: its packed header, then the template's payload. */
  function RecordBytes(start: nat, k: nat, t: Template): (r: seq<byte>)
    ensures |r| == RecordHeaderLength + |t.payload|
  {
    RecordHeader(start, k, t) + t.payload
  }

  /** Records k .. count-1, record j repeating template j mod |ps|. */
  function Emitted(start: nat, ps: seq<Template>, k: nat, count: nat): (r: seq<byte>)
    requires |ps| > 0
    decreases count - k
  {
    if count <= k then [] else RecordBytes(start, k, ps[k % |ps|]) + Emitted(start, ps, k + 1, count)
  }

  /** The templates records k .. count-1 repeat. */
  function Cycled(ps: seq<Template>, k: nat, count: nat): (r: seq<Template>)
    requires |ps| > 0
    ensures |r| == if count <= k then 0 else count - k
    ensures forall i :: 0 <= i < |r| ==> r[i] == ps[(k + i) % |ps|]
    decreases count - k
  {
    if count <= k then [] else [ps[k % |ps|]] + Cycled(ps, k + 1, count)
  }

  /** The bytes counted for the first `count` records: a 16-byte header plus
      `incl_len` each. */
  function EmittedSize(ps: seq<Template>, count: nat): (n: nat)
    requires |ps| > 0
    ensures RecordHeaderLength * count <= n
  {
    if count == 0 then 0 else EmittedSize(ps, count - 1) + RecordHeaderLength + ps[(count - 1) % |ps|].inclLen
  }

  /** Appending record `count` extends the emitted bytes by one record. */
  lemma {:induction false} EmittedSnoc(start: nat, ps: seq<Template>, k: nat, count: nat)
    requires |ps| > 0 && k <= count
    ensures Emitted(start, ps, k, count) + RecordBytes(start, count, ps[count % |ps|])
         == Emitted(start, ps, k, count + 1)
    decreases count - k
  {
    var last := RecordBytes(start, count, ps[count % |ps|]);
    if k < count {
      EmittedSnoc(start, ps, k + 1, count);
      var head := RecordBytes(start, k, ps[k % |ps|]);
      var e1 := Emitted(start, ps, k + 1, count);
      calc {
        Emitted(start, ps, k, count) + last;
        (head + e1) + last;
        { SeqAssoc(head, e1, last); }
        head + (e1 + last);
        head + Emitted(start, ps, k + 1, count + 1);
        Emitted(start, ps, k, count + 1);
      }
    } else {
      assert Emitted(start, ps, k + 1, count + 1) == [];
      assert last + [] == last;
    }
  }

  /** Reading back what was emitted gives the repeated templates: every header
      carries its template's lengths and every payload its bytes. */
  lemma {:induction false} EmittedReadsBack(start: nat, ps: seq<Template>, k: nat, count: nat)
    requires |ps| > 0 && forall i :: 0 <= i < |ps| ==> WellFormed(ps[i])
    ensures ReadRecords(Emitted(start, ps, k, count)) == Cycled(ps, k, count)
    decreases count - k
  {
    if k < count {
      var t := ps[k % |ps|];
      var rest := Emitted(start, ps, k + 1, count);
      var s := Emitted(start, ps, k, count);
      assert s == RecordBytes(start, k, t) + rest;
      assert s[8..12] == LeBytes(4, t.inclLen);
      assert s[12..16] == LeBytes(4, t.origLen);
      FieldRoundTrip(t.inclLen);
      FieldRoundTrip(t.origLen);
      assert s[16..16 + t.inclLen] == t.payload;
      assert s[16 + t.inclLen..] == rest;
      EmittedReadsBack(start, ps, k + 1, count);
    }
  }

  lemma FieldRoundTrip(v: nat)
    requires v < Pow256(4)
    ensures LeValue(LeBytes(4, v)) == v
  {
    LeRoundTrip(4, v);
    DivModUnique(v, Pow256(4), 0, v);
  }

  /** Unpacking a record header as four little-endian 32-bit words gives back the
      timestamp and the template's lengths, when each fits in 32 bits. */
  lemma RecordHeaderFields(start: nat, k: nat, t: Template)
    requires TsSec(start, k) < Pow256(4) && t.inclLen < Pow256(4) && t.origLen < Pow256(4)
    ensures var h := RecordHeader(start, k, t);
      && LeValue(h[..4]) == TsSec(start, k) && LeValue(h[4..8]) == TsUsec(k)
      && LeValue(h[8..12]) == t.inclLen && LeValue(h[12..16]) == t.origLen
  {
    var a, b := LeBytes(4, TsSec(start, k)), LeBytes(4, TsUsec(k));
    var c, e := LeBytes(4, t.inclLen), LeBytes(4, t.origLen);
    var h := RecordHeader(start, k, t);
    assert h[..4] == a && h[4..8] == b && h[8..12] == c && h[12..16] == e;
    assert Pow256(4) == 0x1_0000_0000;
    FieldRoundTrip(TsSec(start, k));
    FieldRoundTrip(TsUsec(k));
    FieldRoundTrip(t.inclLen);
    FieldRoundTrip(t.origLen);
  }

  /** Record timestamps strictly increase: later records have a later second, or
      the same second and a later microsecond. */
  lemma TimestampsIncrease(start: nat, j: nat, k: nat)
    requires j < k
    ensures TsSec(start, j) < TsSec(start, k)
         || (TsSec(start, j) == TsSec(start, k) && TsUsec(j) < TsUsec(k))
  {
    var qj, rj := j / RecordsPerSecond, j % RecordsPerSecond;
    var qk, rk := k / RecordsPerSecond, k % RecordsPerSecond;
    if qk == qj {
      assert rj < rk;
    }
  }

  /** The whole of `generate_large_pcap` on a template capture. With no complete
      template record nothing is written (None). Otherwise the output is the input's
      global header followed by `msgCount` records repeating the templates in order,
      where `msgCount` is the first record count whose running byte total (24 plus
      16 + `incl_len` per record) reaches the target, and every packed timestamp
      fits in 32 bits. */
  method GenerateLargePcap(input: seq<byte>, targetSizeMb: nat, startTime: nat)
    returns (output: Option<seq<byte>>, msgCount: nat)
    requires LastSecond(startTime, targetSizeMb * BytesPerMb) < Pow256(4)
    ensures output.None? <==> Templates(input) == []
    ensures output.None? ==> msgCount == 0
    ensures output.Some? ==>
      && |input| >= GlobalHeaderLength
      && output.value == input[..GlobalHeaderLength] + Emitted(startTime, Templates(input), 0, msgCount)
      && StopsAtTarget(Templates(input), msgCount, targetSizeMb * BytesPerMb)
      && SecondsFit(startTime, msgCount)
  {
    var globalHeader, packets := LoadTemplates(input);
    if |packets| == 0 {
      return None, 0;
    }
    var targetBytes := targetSizeMb * BytesPerMb;
    var out;
    out, msgCount := WriteStress(globalHeader, packets, targetBytes, startTime);
    output := Some(out);
  }

  /** `msgCount` is the first record count whose running total reaches the target. */
  ghost predicate StopsAtTarget(ps: seq<Template>, count: nat, targetBytes: nat)
    requires |ps| > 0
  {
    GlobalHeaderLength + EmittedSize(ps, count) >= targetBytes && BelowTarget(ps, count, targetBytes)
  }

  /** The writing half: the global header, then records cycling through the
      templates until the running total reaches the target. */
  method WriteStress(globalHeader: seq<byte>, packets: seq<Template>, targetBytes: nat, startTime: nat)
    returns (out: seq<byte>, msgCount: nat)
    requires |packets| > 0
    requires LastSecond(startTime, targetBytes) < Pow256(4)
    ensures out == globalHeader + Emitted(startTime, packets, 0, msgCount)
    ensures StopsAtTarget(packets, msgCount, targetBytes) && SecondsFit(startTime, msgCount)
  {
    out := globalHeader;
    var currentBytes := GlobalHeaderLength;
    msgCount := 0;
    ghost var round := 0;
    while currentBytes < targetBytes
      invariant currentBytes < targetBytes ==> msgCount == round * |packets|
      invariant Progress(startTime, globalHeader, packets, targetBytes, out, currentBytes, msgCount)
      decreases targetBytes - currentBytes
    {
      out, currentBytes, msgCount := WriteRound(globalHeader, packets, targetBytes, startTime,
                                                out, currentBytes, msgCount, round);
      round := round + 1;
    }
  }

  /** One pass of the inner `for pkt in packets` loop: write each template once with
      the next synthetic timestamp, stopping early once the running total reaches
      the target. */
  method WriteRound(globalHeader: seq<byte>, packets: seq<Template>, targetBytes: nat, startTime: nat,
                    out0: seq<byte>, bytes0: nat, count0: nat, ghost round: nat)
    returns (out: seq<byte>, currentBytes: nat, msgCount: nat)
    requires |packets| > 0 && LastSecond(startTime, targetBytes) < Pow256(4)
    requires Progress(startTime, globalHeader, packets, targetBytes, out0, bytes0, count0)
    requires bytes0 < targetBytes && count0 == round * |packets|
    ensures Progress(startTime, globalHeader, packets, targetBytes, out, currentBytes, msgCount)
    ensures currentBytes > bytes0
    ensures currentBytes < targetBytes ==> msgCount == (round + 1) * |packets|
  {
    out, currentBytes, msgCount := out0, bytes0, count0;
    for i := 0 to |packets|
      invariant currentBytes < targetBytes
      invariant RoundResumes(startTime, globalHeader, packets, targetBytes, bytes0, round, i,
                             out, currentBytes, msgCount)
    {
      var pkt := packets[i];
      var offsetSec := msgCount / RecordsPerSecond;
      var tsSec := startTime + offsetSec;
      var tsUsec := msgCount % RecordsPerSecond;
      var newHeader := LeBytes(4, tsSec) + LeBytes(4, tsUsec) + LeBytes(4, pkt.inclLen) + LeBytes(4, pkt.origLen);
      assert newHeader == RecordHeader(startTime, msgCount, pkt);
      RoundAdvance(startTime, globalHeader, packets, targetBytes, bytes0, round, i,
                   out, currentBytes, msgCount, newHeader);
      out := out + newHeader;
      out := out + pkt.payload;
      currentBytes := currentBytes + RecordHeaderLength + pkt.inclLen;
      msgCount := msgCount + 1;
      if currentBytes >= targetBytes {
        return;
      }
    }
    assert round * |packets| + |packets| == (round + 1) * |packets|;
  }

  /** The inner loop's invariant: `i` templates of round `round` are written, each
      adding at least 16 bytes, and `Progress` holds. */
  ghost predicate RoundResumes(start: nat, globalHeader: seq<byte>, ps: seq<Template>, targetBytes: nat,
                               bytes0: nat, round: nat, i: nat, out: seq<byte>, currentBytes: nat, count: nat)
    requires |ps| > 0
  {
    && count == round * |ps| + i
    && currentBytes >= bytes0 + RecordHeaderLength * i
    && Progress(start, globalHeader, ps, targetBytes, out, currentBytes, count)
  }

  /** Writing template `i` of the round, header then payload, keeps `RoundResumes`. */
  lemma RoundAdvance(start: nat, globalHeader: seq<byte>, ps: seq<Template>, targetBytes: nat,
                     bytes0: nat, round: nat, i: nat, out: seq<byte>, currentBytes: nat, count: nat,
                     header: seq<byte>)
    requires |ps| > 0 && LastSecond(start, targetBytes) < Pow256(4) && i < |ps|
    requires RoundResumes(start, globalHeader, ps, targetBytes, bytes0, round, i, out, currentBytes, count)
    requires currentBytes < targetBytes && header == RecordHeader(start, count, ps[i])
    ensures RoundResumes(start, globalHeader, ps, targetBytes, bytes0, round, i + 1,
                         (out + header) + ps[i].payload,
                         currentBytes + RecordHeaderLength + ps[i].inclLen, count + 1)
  {
    DivModUnique(count, |ps|, round, i);
    ProgressStep(start, globalHeader, ps, targetBytes, out, currentBytes, count);
    AppendRecord(out, start, count, ps[i]);
  }

  /** Writing a record's header and then its payload appends `RecordBytes`. */
  lemma AppendRecord(out: seq<byte>, start: nat, k: nat, t: Template)
    ensures (out + RecordHeader(start, k, t)) + t.payload == out + RecordBytes(start, k, t)
  {
    SeqAssoc(out, RecordHeader(start, k, t), t.payload);
  }

  /** What the writing loop keeps: the output so far is the header and the first
      `count` records, the running total counts them, each record added at least
      16 bytes, and every earlier total was under the target with its seconds in
      32 bits. */
  ghost predicate Progress(start: nat, globalHeader: seq<byte>, ps: seq<Template>, targetBytes: nat,
                           out: seq<byte>, currentBytes: nat, count: nat)
    requires |ps| > 0
  {
    && out == globalHeader + Emitted(start, ps, 0, count)
    && currentBytes == GlobalHeaderLength + EmittedSize(ps, count)
    && GlobalHeaderLength + RecordHeaderLength * count <= currentBytes
    && BelowTarget(ps, count, targetBytes) && SecondsFit(start, count)
  }

  /** Writing record `count` while the total is under the target keeps `Progress`. */
  lemma ProgressStep(start: nat, globalHeader: seq<byte>, ps: seq<Template>, targetBytes: nat,
                     out: seq<byte>, currentBytes: nat, count: nat)
    requires |ps| > 0 && LastSecond(start, targetBytes) < Pow256(4)
    requires Progress(start, globalHeader, ps, targetBytes, out, currentBytes, count)
    requires currentBytes < targetBytes
    ensures var t := ps[count % |ps|];
      Progress(start, globalHeader, ps, targetBytes, out + RecordBytes(start, count, t),
               currentBytes + RecordHeaderLength + t.inclLen, count + 1)
  {
    var t := ps[count % |ps|];
    EmittedSnoc(start, ps, 0, count);
    SeqAssoc(globalHeader, Emitted(start, ps, 0, count), RecordBytes(start, count, t));
    assert count < targetBytes / RecordHeaderLength;
    DivMonotone(count, targetBytes / RecordHeaderLength, RecordsPerSecond);
    assert TsSec(start, count) < Pow256(4);
  }

  /** Every record count below `count` left the running total under the target. */
  ghost predicate BelowTarget(ps: seq<Template>, count: nat, targetBytes: nat)
    requires |ps| > 0
  {
    forall j :: 0 <= j < count ==> GlobalHeaderLength + EmittedSize(ps, j) < targetBytes
  }

  /** The seconds of records 0 .. count-1 all fit in 32 bits. */
  ghost predicate SecondsFit(start: nat, count: nat) {
    forall k :: 0 <= k < count ==> TsSec(start, k) < Pow256(4)
  }

  /** The emitted bytes are exactly as long as the running byte count says. */
  lemma {:induction false} EmittedLength(start: nat, ps: seq<Template>, count: nat)
    requires |ps| > 0 && forall i :: 0 <= i < |ps| ==> WellFormed(ps[i])
    ensures |Emitted(start, ps, 0, count)| == EmittedSize(ps, count)
  {
    if count > 0 {
      EmittedLength(start, ps, count - 1);
      EmittedSnoc(start, ps, 0, count - 1);
    }
  }
}
