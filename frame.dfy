/** The frame layout: a header (packet type byte whose low nibble is the
    sample count minus one, then a 16-bit emission period when there are
    several samples) followed by delimiter-free segments, each a one-byte
    type code and `sampleCount` 16-bit readings. */
module Frame {
  import opened Results
  import opened Hex

  /** The measurement kinds of the sensor's type table. */
  datatype Kind = Temperature | Voltage | Current

  /** The type code of each kind, as the upper-cased frame spells it. */
  function Code(k: Kind): (c: string)
    ensures |c| == 2
  {
    match k
    case Temperature => "08"
    case Voltage => "0A"
    case Current => "0B"
  }

  /** The type table lookup: the kind a two-character code denotes, if any. */
  function KindOf(code: string): (r: Option<Kind>)
    ensures forall k :: r == Some(k) <==> code == Code(k)
  {
    if code == "08" then Some(Temperature)
    else if code == "0A" then Some(Voltage)
    else if code == "0B" then Some(Current)
    else None
  }

  /** The divisor table: readings are hundredths of a degree, thousandths of
      a volt and hundredths of an ampere. */
  function Divisor(k: Kind): (d: nat)
    ensures d == 1000 <==> k == Voltage
    ensures d == 100 <==> k != Voltage
  {
    match k
    case Temperature => 100
    case Voltage => 1000
    case Current => 100
  }

  datatype DecodeError =
    | MalformedHeader                   // too short for the header it announces
    | InvalidHexDigit(at: nat)          // a numeric field starting at `at` holds a non-hex character
    | UnknownMeasurementType(code: string)
    | TruncatedFrame(at: nat)           // a field starting at `at` runs past the end

  /** sampleCount in 1..16, the emission period in minutes per sample, and
      the offset of the first segment. */
  datatype Header = Header(sampleCount: nat, frequency: real, dataStart: nat)

  function ReadHeader(frame: string): (r: Result<Header, DecodeError>)
    ensures r.Ok? ==>
      && 1 <= r.value.sampleCount <= 16
      && r.value.dataStart == (if r.value.sampleCount > 1 then 6 else 2)
      && r.value.dataStart <= |frame|
      && HexDigit(frame[1]) == Some(r.value.sampleCount - 1)
      && 0.0 <= r.value.frequency
    ensures r.Ok? && r.value.sampleCount == 1 ==> r.value.frequency == 0.0
    ensures r.Ok? && r.value.sampleCount > 1 ==>
      && HexValue(frame[2..6]).Some?
      && HexValue(frame[2..6]).value < 0x1_0000
      && r.value.frequency == HexValue(frame[2..6]).value as real / r.value.sampleCount as real
    ensures |frame| < 2 ==> r == Err(MalformedHeader)
    ensures |frame| >= 2 && HexDigit(frame[1]).None? ==> r == Err(InvalidHexDigit(1))
    ensures 2 <= |frame| < 6 && HexDigit(frame[1]).Some? && HexDigit(frame[1]).value > 0 ==> r == Err(MalformedHeader)
    ensures |frame| >= 6 && HexDigit(frame[1]).Some? && HexDigit(frame[1]).value > 0 && HexValue(frame[2..6]).None?
      ==> r == Err(InvalidHexDigit(2))
  {
    if |frame| < 2 then Err(MalformedHeader)
    else
      match HexDigit(frame[1])
      case None => Err(InvalidHexDigit(1))
      case Some(d) =>
        var count := d + 1;
        if count == 1 then Ok(Header(1, 0.0, 2))
        else if |frame| < 6 then Err(MalformedHeader)
        else
          match HexValue(frame[2..6])
          case None => Err(InvalidHexDigit(2))
          case Some(raw) => Ok(Header(count, raw as real / count as real, 6))
  }

  /** One decoded segment: its kind and its `sampleCount` physical values. */
  datatype Segment = Segment(kind: Kind, values: seq<real>)

  /** Characters a segment occupies: the type code and four per sample. */
  function SegmentWidth(n: nat): nat {
    2 + 4 * n
  }

  /** The unsigned 16-bit reading whose four digits start at `at`. */
  function Reading(frame: string, at: nat): Option<nat>
    requires at + 4 <= |frame|
  {
    HexValue(frame[at..at + 4])
  }

  /** The four digits at `at` spell a 16-bit reading that, divided by
      `divisor`, is `value`. */
  predicate ReadingIs(frame: string, at: nat, value: real, divisor: nat)
    requires divisor > 0
  {
    && at + 4 <= |frame|
    && Reading(frame, at).Some?
    && Reading(frame, at).value < 0x1_0000
    && value == Reading(frame, at).value as real / divisor as real
  }

  /** Reads `count` consecutive readings from `at`, each divided by `divisor`,
      failing at the first one that is cut off or not hex. */
  function ReadValues(frame: string, at: nat, count: nat, divisor: nat): (r: Result<seq<real>, DecodeError>)
    requires divisor > 0
    requires at <= |frame|
    ensures r.Ok? ==> |r.value| == count && at + 4 * count <= |frame|
    decreases count
  {
    if count == 0 then Ok([])
    else if at + 4 > |frame| then Err(TruncatedFrame(at))
    else
      match Reading(frame, at)
      case None => Err(InvalidHexDigit(at))
      case Some(raw) => Prepend([raw as real / divisor as real], ReadValues(frame, at + 4, count - 1, divisor))
  }

  /** A run of hex digits that ends before `count` readings are complete is
      rejected as truncated at the first reading that is cut off. */
  lemma {:induction false} ReadValuesTruncated(frame: string, at: nat, count: nat, divisor: nat)
    requires divisor > 0 && at <= |frame|
    requires at + 4 * count > |frame|
    requires IsHex(frame[at..])
    ensures ReadValues(frame, at, count, divisor) == Err(TruncatedFrame(at + 4 * ((|frame| - at) / 4)))
    decreases count
  {
    var left := |frame| - at;
    if at + 4 > |frame| {
      assert left / 4 == 0;
      assert ReadValues(frame, at, count, divisor) == Err(TruncatedFrame(at));
    } else {
      var tail, rest := frame[at..], frame[at + 4..];
      var field := frame[at..at + 4];
      assert IsHex(field) by {
        forall i | 0 <= i < 4 ensures HexDigit(field[i]).Some? {
          assert field[i] == tail[i];
        }
      }
      HexValueDefined(field);
      var raw := HexValue(field).value;
      assert Reading(frame, at) == Some(raw);
      assert IsHex(rest) by {
        forall i | 0 <= i < |rest| ensures HexDigit(rest[i]).Some? {
          assert rest[i] == tail[i + 4];
        }
      }
      ReadValuesTruncated(frame, at + 4, count - 1, divisor);
      assert left / 4 == (left - 4) / 4 + 1;
      assert ReadValues(frame, at, count, divisor)
        == Prepend([raw as real / divisor as real], ReadValues(frame, at + 4, count - 1, divisor));
    }
  }

  /** Value j of a successful read is the reading whose digits start at `at + 4 * j`. */
  lemma {:induction false} ValueAt(frame: string, at: nat, count: nat, divisor: nat, j: nat)
    requires divisor > 0 && at <= |frame|
    requires ReadValues(frame, at, count, divisor).Ok?
    requires j < count
    ensures ReadingIs(frame, at + 4 * j, ReadValues(frame, at, count, divisor).value[j], divisor)
    decreases j
  {
    assert Pow16(4) == 0x1_0000;
    if j > 0 {
      ValueAt(frame, at + 4, count - 1, divisor, j - 1);
      assert at + 4 * j == (at + 4) + 4 * (j - 1);
    }
  }

  /** Reads the segment starting at `at`: its type code, then its readings. */
  function ReadSegment(frame: string, n: nat, at: nat): (r: Result<Segment, DecodeError>)
    ensures r.Ok? ==>
      && at + SegmentWidth(n) <= |frame|
      && Code(r.value.kind) == frame[at..at + 2]
      && |r.value.values| == n
    ensures at + 2 > |frame| ==> r == Err(TruncatedFrame(at))
    ensures at + 2 <= |frame| && KindOf(frame[at..at + 2]).None? ==> r == Err(UnknownMeasurementType(frame[at..at + 2]))
  {
    if at + 2 > |frame| then Err(TruncatedFrame(at))
    else
      var code := frame[at..at + 2];
      match KindOf(code)
      case None => Err(UnknownMeasurementType(code))
      case Some(kind) =>
        match ReadValues(frame, at + 2, n, Divisor(kind))
        case Err(e) => Err(e)
        case Ok(values) => Ok(Segment(kind, values))
  }

  /** Value j of a segment read at `at` is the reading at `at + 2 + 4 * j`,
      divided by the divisor of the segment's kind. */
  lemma SegmentValueAt(frame: string, n: nat, at: nat, segment: Segment, j: nat)
    requires ReadSegment(frame, n, at) == Ok(segment)
    requires j < n
    ensures ReadingIs(frame, at + 2 + 4 * j, segment.values[j], Divisor(segment.kind))
  {
    ValueAt(frame, at + 2, n, Divisor(segment.kind), j);
  }

  /** All segments from `at` to the end of the frame, in frame order. */
  function SegmentsFrom(frame: string, n: nat, at: nat): (r: Result<seq<Segment>, DecodeError>)
    ensures r.Ok? ==> forall k :: 0 <= k < |r.value| ==> |r.value[k].values| == n
    decreases |frame| - at
  {
    if at >= |frame| then Ok([])
    else
      match ReadSegment(frame, n, at)
      case Err(e) => Err(e)
      case Ok(segment) => Prepend([segment], SegmentsFrom(frame, n, at + SegmentWidth(n)))
  }

  /** The segment walker (the outer loop): a cursor advanced over each
      segment's type code and readings, collecting the segments in frame
      order until the cursor reaches the end of the frame. */
  method Walk(hexData: string, nbSamples: nat, start: nat) returns (r: Result<seq<Segment>, DecodeError>)
    ensures r == SegmentsFrom(hexData, nbSamples, start)
  {
    var decryptedDatas: seq<Segment> := [];
    var dataIndex := start;
    PrependNothing(SegmentsFrom(hexData, nbSamples, start));
    while dataIndex < |hexData|
      invariant SegmentsFrom(hexData, nbSamples, start) == Prepend(decryptedDatas, SegmentsFrom(hexData, nbSamples, dataIndex))
      decreases |hexData| - dataIndex
    {
      var next := dataIndex + SegmentWidth(nbSamples);
      SegmentsStep(hexData, nbSamples, dataIndex, next);
      if dataIndex + 2 > |hexData| {
        return Err(TruncatedFrame(dataIndex));
      }
      var dataTypeValue := hexData[dataIndex..dataIndex + 2];
      var dataType := KindOf(dataTypeValue);
      if dataType.None? {
        return Err(UnknownMeasurementType(dataTypeValue));
      }
      var values := ReadReadings(hexData, dataIndex + 2, nbSamples, Divisor(dataType.value));
      if values.Err? {
        return Err(values.error);
      }
      PrependTwice(decryptedDatas, [Segment(dataType.value, values.value)], SegmentsFrom(hexData, nbSamples, next));
      decryptedDatas := decryptedDatas + [Segment(dataType.value, values.value)];
      dataIndex := next;
    }
    assert decryptedDatas + [] == decryptedDatas;
    return Ok(decryptedDatas);
  }

  /** The middle loop: `nbSamples` readings from `from`, each parsed as a
      16-bit number and divided by `divider`. */
  method ReadReadings(hexData: string, from: nat, nbSamples: nat, divider: nat) returns (r: Result<seq<real>, DecodeError>)
    requires divider > 0 && from <= |hexData|
    ensures r == ReadValues(hexData, from, nbSamples, divider)
  {
    var values: seq<real> := [];
    var dataIndex := from;
    var stopReadingValues := from + 4 * nbSamples;
    PrependNothing(ReadValues(hexData, from, nbSamples, divider));
    while dataIndex < stopReadingValues
      invariant dataIndex == from + 4 * |values| <= stopReadingValues
      invariant dataIndex <= |hexData|
      invariant ReadValues(hexData, from, nbSamples, divider)
        == Prepend(values, ReadValues(hexData, dataIndex, nbSamples - |values|, divider))
      decreases stopReadingValues - dataIndex
    {
      var data, complete := ReadDigits(hexData, dataIndex);
      if !complete {
        return Err(TruncatedFrame(dataIndex));
      }
      var decimalData := HexValue(data);
      if decimalData.None? {
        return Err(InvalidHexDigit(dataIndex));
      }
      ghost var rest := ReadValues(hexData, dataIndex + 4, nbSamples - |values| - 1, divider);
      PrependTwice(values, [decimalData.value as real / divider as real], rest);
      values := values + [decimalData.value as real / divider as real];
      dataIndex := dataIndex + 4;
    }
    assert values + [] == values;
    return Ok(values);
  }

  /** The innermost loop: the four digits of one reading, copied one
      character at a time; `complete` is false when the frame ends first. */
  method ReadDigits(hexData: string, from: nat) returns (data: string, complete: bool)
    requires from <= |hexData|
    ensures complete <==> from + 4 <= |hexData|
    ensures complete ==> data == hexData[from..from + 4]
  {
    data := "";
    var dataIndex := from;
    var stopReadingDigit := from + 4;
    while dataIndex < stopReadingDigit
      invariant from <= dataIndex <= stopReadingDigit
      invariant dataIndex <= |hexData|
      invariant data == hexData[from..dataIndex]
    {
      if dataIndex >= |hexData| {
        return data, false;
      }
      data := data + [hexData[dataIndex]];
      dataIndex := dataIndex + 1;
    }
    return data, true;
  }

  datatype Parsed = Parsed(header: Header, segments: seq<Segment>)

  /** Header, then every segment after it. */
  function ParseFrame(frame: string): (r: Result<Parsed, DecodeError>)
    ensures r.Ok? ==> forall k :: 0 <= k < |r.value.segments| ==> |r.value.segments[k].values| == r.value.header.sampleCount
  {
    match ReadHeader(frame)
    case Err(e) => Err(e)
    case Ok(h) =>
      match SegmentsFrom(frame, h.sampleCount, h.dataStart)
      case Err(e) => Err(e)
      case Ok(segments) => Ok(Parsed(h, segments))
  }

  /** The walk consumes exactly one segment width per segment and ends at the
      end of the frame. */
  lemma {:induction false} SegmentsLength(frame: string, n: nat, at: nat)
    requires at <= |frame|
    requires SegmentsFrom(frame, n, at).Ok?
    ensures |frame| - at == |SegmentsFrom(frame, n, at).value| * SegmentWidth(n)
    decreases |frame| - at
  {
    if at < |frame| {
      var w := SegmentWidth(n);
      var next := at + w;
      SegmentsNonEmpty(frame, n, at);
      SegmentsHead(frame, n, at, next);
      SegmentsLength(frame, n, next);
      MulStep(|SegmentsFrom(frame, n, next).value|, w);
    }
  }

  /** Where segment k of a walk from `at` begins. */
  function SegmentStart(n: nat, at: nat, k: nat): nat
  {
    if k == 0 then at else SegmentStart(n, at, k - 1) + SegmentWidth(n)
  }

  /** Segment k begins k segment widths after `at`. */
  lemma {:induction false} StartFormula(n: nat, at: nat, k: nat)
    ensures SegmentStart(n, at, k) == at + k * SegmentWidth(n)
  {
    if k > 0 {
      StartFormula(n, at, k - 1);
      MulStep(k - 1, SegmentWidth(n));
    }
  }

  /** Segment k of the walk is the one read at `SegmentStart(n, at, k)`. */
  lemma {:induction false} SegmentAt(frame: string, n: nat, at: nat, k: nat, start: nat)
    requires SegmentsFrom(frame, n, at).Ok?
    requires k < |SegmentsFrom(frame, n, at).value|
    requires start == SegmentStart(n, at, k)
    ensures ReadSegment(frame, n, start) == Ok(SegmentsFrom(frame, n, at).value[k])
    decreases k
  {
    var next := at + SegmentWidth(n);
    if k == 0 {
      SegmentsHead(frame, n, at, next);
    } else {
      SegmentsTail(frame, n, at, next);
      StartShift(n, at, next, k);
      SegmentAt(frame, n, next, k - 1, start);
      assert SegmentsFrom(frame, n, at).value[k] == SegmentsFrom(frame, n, next).value[k - 1];
    }
  }

  /** A decoded frame is made of whole segments: the segments fill the
      frame from the first segment offset to its very end, so their number
      is the remaining length divided by the segment width. */
  lemma FrameLayout(frame: string)
    requires ParseFrame(frame).Ok?
    ensures var p := ParseFrame(frame).value;
      && |frame| - p.header.dataStart == |p.segments| * SegmentWidth(p.header.sampleCount)
      && |p.segments| == (|frame| - p.header.dataStart) / SegmentWidth(p.header.sampleCount)
  {
    var p := ParseFrame(frame).value;
    var w := SegmentWidth(p.header.sampleCount);
    SegmentsLength(frame, p.header.sampleCount, p.header.dataStart);
    DivExact(|frame| - p.header.dataStart, |p.segments|, w);
  }

  lemma DivExact(total: int, count: nat, w: nat)
    requires w > 0 && total == count * w
    ensures total / w == count
  {
    var q, r := total / w, total % w;
    assert total == q * w + r && 0 <= r < w;
    var d := count - q;
    assert d * w == r by {
      assert count * w - q * w == (count - q) * w;
    }
    MulBounds(d, w);
  }

  /** A nonzero multiple of `w` is at least `w` away from zero. */
  lemma MulBounds(d: int, w: nat)
    ensures d >= 1 ==> d * w >= w
    ensures d <= -1 ==> d * w <= -(w as int)
  {
    if d >= 1 {
      assert d * w == (d - 1) * w + w;
      assert (d - 1) * w >= 0;
    }
    if d <= -1 {
      assert d * w == (d + 1) * w - w;
      assert (d + 1) * w <= 0;
    }
  }

  /** Segment k of a decoded frame starts at `SegmentStart(n, dataStart, k)`
      (that is, `dataStart + k * (2 + 4 * n)`, by StartFormula), lies
      inside the frame and begins with the type code of its kind. */
  lemma ParsedCode(frame: string, k: nat)
    requires ParseFrame(frame).Ok?
    requires k < |ParseFrame(frame).value.segments|
    ensures var p := ParseFrame(frame).value;
      var start := SegmentStart(p.header.sampleCount, p.header.dataStart, k);
      && start + SegmentWidth(p.header.sampleCount) <= |frame|
      && Code(p.segments[k].kind) == frame[start..start + 2]
  {
    var p := ParseFrame(frame).value;
    var n := p.header.sampleCount;
    ParsedParts(frame);
    SegmentAt(frame, n, p.header.dataStart, k, SegmentStart(n, p.header.dataStart, k));
  }

  /** Value j of segment k of a decoded frame is the 16-bit reading at
      `start + 2 + 4 * j`, where `start` is where the segment begins,
      divided by the divisor of the segment's kind. */
  lemma ParsedReading(frame: string, k: nat, j: nat)
    requires ParseFrame(frame).Ok?
    requires k < |ParseFrame(frame).value.segments|
    requires j < ParseFrame(frame).value.header.sampleCount
    ensures var p := ParseFrame(frame).value;
      var start := SegmentStart(p.header.sampleCount, p.header.dataStart, k);
      ReadingIs(frame, start + 2 + 4 * j, p.segments[k].values[j], Divisor(p.segments[k].kind))
  {
    var p := ParseFrame(frame).value;
    var n := p.header.sampleCount;
    var start := SegmentStart(n, p.header.dataStart, k);
    ParsedParts(frame);
    SegmentAt(frame, n, p.header.dataStart, k, start);
    SegmentValueAt(frame, n, start, p.segments[k], j);
  }

  /** A decoded frame is its header and the walk from its first segment offset. */
  lemma ParsedParts(frame: string)
    requires ParseFrame(frame).Ok?
    ensures ReadHeader(frame) == Ok(ParseFrame(frame).value.header)
    ensures var h := ParseFrame(frame).value.header;
      SegmentsFrom(frame, h.sampleCount, h.dataStart) == Ok(ParseFrame(frame).value.segments)
  {
  }

  /** A walk that succeeds before the end of the frame yields a segment. */
  lemma SegmentsNonEmpty(frame: string, n: nat, at: nat)
    requires at < |frame| && SegmentsFrom(frame, n, at).Ok?
    ensures |SegmentsFrom(frame, n, at).value| > 0
  {
  }

  /** After its first segment, a walk goes on as the walk one segment width further on. */
  lemma SegmentsTail(frame: string, n: nat, at: nat, next: nat)
    requires next == at + SegmentWidth(n)
    requires SegmentsFrom(frame, n, at).Ok? && |SegmentsFrom(frame, n, at).value| > 0
    ensures SegmentsFrom(frame, n, next).Ok?
    ensures SegmentsFrom(frame, n, at).value[1..] == SegmentsFrom(frame, n, next).value
    ensures |SegmentsFrom(frame, n, next).value| == |SegmentsFrom(frame, n, at).value| - 1
  {
    SegmentsHead(frame, n, at, next);
  }

  /** A walk that yields a segment begins with the segment read at its start,
      followed by the walk one segment width further on. */
  lemma SegmentsHead(frame: string, n: nat, at: nat, next: nat)
    requires next == at + SegmentWidth(n)
    requires SegmentsFrom(frame, n, at).Ok? && |SegmentsFrom(frame, n, at).value| > 0
    ensures at < |frame|
    ensures ReadSegment(frame, n, at).Ok? && SegmentsFrom(frame, n, next).Ok?
    ensures SegmentsFrom(frame, n, at).value == [ReadSegment(frame, n, at).value] + SegmentsFrom(frame, n, next).value
  {
  }

  /** Starting one segment later shifts every segment start by one index. */
  lemma {:induction false} StartShift(n: nat, at: nat, next: nat, k: nat)
    requires next == at + SegmentWidth(n) && k > 0
    ensures SegmentStart(n, at, k) == SegmentStart(n, next, k - 1)
    decreases k
  {
    if k > 1 {
      StartShift(n, at, next, k - 1);
    }
  }

  lemma MulStep(k: nat, w: nat)
    ensures 0 <= k * w
    ensures (k + 1) * w == k * w + w
  {
  }

  /** The divisor depends on the type code alone: a single-sample frame
      whose one reading is 0x0064 decodes to 1 degree, 0.1 volt or 1 ampere. */
  lemma HundredthsOfKind(kind: Kind)
    ensures ParseFrame("A0" + Code(kind) + "0064")
      == Ok(Parsed(Header(1, 0.0, 2), [Segment(kind, [if kind == Voltage then 0.1 else 1.0])]))
  {
    var frame := "A0" + Code(kind) + "0064";
    assert |frame| == 8 && frame[1] == '0';
    assert ReadHeader(frame) == Ok(Header(1, 0.0, 2));
    assert frame[2..4] == Code(kind);
    assert frame[4..8] == "0064";
    HexValueFour(frame[4..8]);
    var value := if kind == Voltage then 0.1 else 1.0;
    assert Reading(frame, 4) == Some(100);
    assert ReadValues(frame, 8, 0, Divisor(kind)) == Ok([]);
    assert [value] + [] == [value];
    assert ReadValues(frame, 4, 1, Divisor(kind)) == Ok([value]);
    var segment := Segment(kind, [value]);
    assert ReadSegment(frame, 1, 2) == Ok(segment);
    SegmentsCons(frame, 1, 2, 8, segment, []);
    assert [segment] + [] == [segment];
  }

  // ---------------------------------------------------------------------
  // The sensor side: encoding a frame, for the round-trip properties.

  /** The raw content of one segment: its kind and its 16-bit readings. */
  datatype RawSegment = RawSegment(kind: Kind, raws: seq<nat>)

  /** A frame as the sensor composes it. `packetNibble` is character 0, the
      high nibble of the packet-type byte, which the decoder never examines;
      the low nibble is `sampleCount - 1`. `frequencyRaw` is the 16-bit field
      that is transmitted only when there are several samples. */
  datatype RawFrame = RawFrame(packetNibble: nat, sampleCount: nat, frequencyRaw: nat, segments: seq<RawSegment>)

  predicate WellFormedSegments(segments: seq<RawSegment>, n: nat) {
    forall k :: 0 <= k < |segments| ==>
      && |segments[k].raws| == n
      && forall j :: 0 <= j < n ==> segments[k].raws[j] < 0x1_0000
  }

  predicate WellFormed(f: RawFrame) {
    && f.packetNibble < 16
    && 1 <= f.sampleCount <= 16
    && f.frequencyRaw < 0x1_0000
    && WellFormedSegments(f.segments, f.sampleCount)
  }

  function EncodeValues(raws: seq<nat>): (s: string)
    ensures |s| == 4 * |raws|
    ensures IsHex(s)
  {
    if raws == [] then [] else ToHex(raws[0], 4) + EncodeValues(raws[1..])
  }

  function EncodeSegments(segments: seq<RawSegment>): (s: string)
    ensures IsHex(s)
  {
    if segments == [] then []
    else Code(segments[0].kind) + EncodeValues(segments[0].raws) + EncodeSegments(segments[1..])
  }

  function EncodeFrame(f: RawFrame): (s: string)
    requires WellFormed(f)
    ensures IsHex(s)
  {
    [HexChar(f.packetNibble), HexChar(f.sampleCount - 1)]
      + (if f.sampleCount > 1 then ToHex(f.frequencyRaw, 4) else [])
      + EncodeSegments(f.segments)
  }

  /** The header the decoder should recover from an encoded frame. */
  function HeaderOf(f: RawFrame): Header {
    if f.sampleCount > 1 then Header(f.sampleCount, f.frequencyRaw as real / f.sampleCount as real, 6)
    else Header(1, 0.0, 2)
  }

  function ScaleValues(raws: seq<nat>, divisor: nat): seq<real>
    requires divisor > 0
  {
    if raws == [] then [] else [raws[0] as real / divisor as real] + ScaleValues(raws[1..], divisor)
  }

  /** The segments the decoder should recover: every reading divided by its kind's divisor. */
  function ScaleSegments(segments: seq<RawSegment>): seq<Segment> {
    if segments == [] then []
    else
      var s := segments[0];
      [Segment(s.kind, ScaleValues(s.raws, Divisor(s.kind)))] + ScaleSegments(segments[1..])
  }

  /** Splitting a slice that spells `x + y` into its two parts. */
  lemma SliceSplit(frame: string, lo: nat, hi: nat, x: string, y: string)
    requires lo <= hi <= |frame|
    requires frame[lo..hi] == x + y
    ensures lo + |x| <= hi
    ensures frame[lo..lo + |x|] == x
    ensures frame[lo + |x|..hi] == y
  {
    var s := frame[lo..hi];
    assert s[..|x|] == x && s[|x|..] == y;
    assert frame[lo..lo + |x|] == s[..|x|];
    assert frame[lo + |x|..hi] == s[|x|..];
  }

  lemma {:induction false} ValuesRoundTrip(frame: string, at: nat, raws: seq<nat>, divisor: nat)
    requires divisor > 0
    requires at + 4 * |raws| <= |frame|
    requires frame[at..at + 4 * |raws|] == EncodeValues(raws)
    requires forall j :: 0 <= j < |raws| ==> raws[j] < 0x1_0000
    ensures ReadValues(frame, at, |raws|, divisor) == Ok(ScaleValues(raws, divisor))
    decreases |raws|
  {
    if raws != [] {
      var end := at + 4 * |raws|;
      SliceSplit(frame, at, end, ToHex(raws[0], 4), EncodeValues(raws[1..]));
      assert Pow16(4) == 0x1_0000;
      HexRoundTrip(raws[0], 4);
      assert Reading(frame, at) == Some(raws[0]);
      ValuesRoundTrip(frame, at + 4, raws[1..], divisor);
    }
  }

  lemma {:induction false} SegmentsRoundTrip(frame: string, at: nat, segments: seq<RawSegment>, n: nat)
    requires at <= |frame|
    requires frame[at..] == EncodeSegments(segments)
    requires WellFormedSegments(segments, n)
    ensures SegmentsFrom(frame, n, at) == Ok(ScaleSegments(segments))
    decreases |segments|
  {
    if segments != [] {
      var s, tail := segments[0], segments[1..];
      var first := Segment(s.kind, ScaleValues(s.raws, Divisor(s.kind)));
      var next := at + SegmentWidth(n);
      assert EncodeSegments(segments) == Code(s.kind) + EncodeValues(s.raws) + EncodeSegments(tail);
      WellFormedSplit(segments, n);
      SegmentRoundTrip(frame, at, s, EncodeSegments(tail), n);
      SegmentsRoundTrip(frame, next, tail, n);
      SegmentsCons(frame, n, at, next, first, ScaleSegments(tail));
      assert ScaleSegments(segments) == [first] + ScaleSegments(tail);
    }
  }

  /** The first segment and the remaining ones of a well-formed list are well formed. */
  lemma WellFormedSplit(segments: seq<RawSegment>, n: nat)
    requires segments != [] && WellFormedSegments(segments, n)
    ensures WellFormedSegments([segments[0]], n) && WellFormedSegments(segments[1..], n)
  {
    assert [segments[0]][0] == segments[0];
    forall k | 0 <= k < |segments| - 1
      ensures segments[1..][k] == segments[k + 1]
    {
    }
  }

  /** One encoded segment followed by `rest` reads back as that segment, and
      the walk continues exactly at `rest`. */
  lemma SegmentRoundTrip(frame: string, at: nat, s: RawSegment, rest: string, n: nat)
    requires at <= |frame|
    requires frame[at..] == Code(s.kind) + EncodeValues(s.raws) + rest
    requires WellFormedSegments([s], n)
    ensures ReadSegment(frame, n, at) == Ok(Segment(s.kind, ScaleValues(s.raws, Divisor(s.kind))))
    ensures at + SegmentWidth(n) <= |frame| && frame[at + SegmentWidth(n)..] == rest
  {
    var values := EncodeValues(s.raws);
    assert frame[at..|frame|] == Code(s.kind) + (values + rest);
    SliceSplit(frame, at, |frame|, Code(s.kind), values + rest);
    SliceSplit(frame, at + 2, |frame|, values, rest);
    assert [s][0] == s;
    ValuesRoundTrip(frame, at + 2, s.raws, Divisor(s.kind));
  }

  /** A segment read at `at`, followed by a walk from one width further on. */
  lemma SegmentsCons(frame: string, n: nat, at: nat, next: nat, first: Segment, rest: seq<Segment>)
    requires at < |frame| && next == at + SegmentWidth(n)
    requires ReadSegment(frame, n, at) == Ok(first)
    requires SegmentsFrom(frame, n, next) == Ok(rest)
    ensures SegmentsFrom(frame, n, at) == Ok([first] + rest)
  {
  }

  /** The walk from `at` before the end of the frame: the segment there,
      then the walk from `next`, one segment width further on. */
  lemma SegmentsStep(frame: string, n: nat, at: nat, next: nat)
    requires at < |frame| && next == at + SegmentWidth(n)
    ensures SegmentsFrom(frame, n, at) ==
      match ReadSegment(frame, n, at)
      case Err(e) => Err(e)
      case Ok(segment) => Prepend([segment], SegmentsFrom(frame, n, next))
  {
  }

  /** Decoding an encoded frame recovers its sample count, its period per
      sample and every reading divided by its kind's divisor. */
  lemma FrameRoundTrip(f: RawFrame)
    requires WellFormed(f)
    ensures ParseFrame(EncodeFrame(f)) == Ok(Parsed(HeaderOf(f), ScaleSegments(f.segments)))
  {
    var frame := EncodeFrame(f);
    var head := [HexChar(f.packetNibble), HexChar(f.sampleCount - 1)]
      + (if f.sampleCount > 1 then ToHex(f.frequencyRaw, 4) else []);
    assert frame == head + EncodeSegments(f.segments);
    assert frame[|head|..] == EncodeSegments(f.segments);
    HexDigitOfChar(f.sampleCount - 1);
    if f.sampleCount > 1 {
      assert frame[2..6] == ToHex(f.frequencyRaw, 4);
      HexRoundTrip(f.frequencyRaw, 4);
    }
    assert ReadHeader(frame) == Ok(HeaderOf(f));
    SegmentsRoundTrip(frame, |head|, f.segments, f.sampleCount);
  }
}
