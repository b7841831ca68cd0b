/** The decoding pipeline shared by both formatters: upper-case the payload,
    read the header, walk the segments, label every segment, transpose the
    labelled columns into one record per sample and emit one message per
    sample, back-dated by the emission period. The formatters differ only
    in the parameters collected in a `Variant`. */
module Decoder {
  import opened Results
  import opened Hex
  import opened Frame
  import opened Samples

  /** What distinguishes one formatter from the other: how many trailing
      characters of the device address name the device, the label a
      measurement kind gets for a device, and whether the incoming topic is
      copied onto every message. */
  datatype Variant = Variant(suffixLength: nat, labelOf: (Kind, string) -> string, copiesTopic: bool)

  /** The last `length` characters of the address, or all of it when it is
      shorter (`substring` clamps a negative start to 0). */
  function DeviceSuffix(address: string, length: nat): (id: string)
    ensures |id| == if |address| < length then |address| else length
    ensures id == address[|address| - |id|..]
  {
    if |address| <= length then address else address[|address| - length..]
  }

  /** Minutes by which sample i of n is back-dated from the time of decoding. */
  function Offset(frequency: real, n: nat, i: nat): (o: real)
    requires i < n
    ensures 0.0 <= frequency ==> 0.0 <= o
    ensures i == n - 1 ==> o == 0.0
    ensures n == 1 ==> o == 0.0
  {
    frequency * (n - i - 1) as real
  }

  /** One output message: the minutes it is back-dated by, the device it is
      filed under, its record (`None` where the source leaves `Val`
      undefined, which happens when the frame has no segment) and the topic
      when the variant copies it. */
  datatype Message = Message(minutesBack: real, device: string, val: Option<Record>, topic: Option<string>)

  /** The segments under their labels, in frame order. */
  function Columns(v: Variant, device: string, segments: seq<Segment>): (cols: seq<Column>)
    ensures |cols| == |segments|
    ensures forall k :: 0 <= k < |segments| ==>
      cols[k].key == v.labelOf(segments[k].kind, device) && cols[k].values == segments[k].values
  {
    seq(|segments|, k requires 0 <= k < |segments| => Column(v.labelOf(segments[k].kind, device), segments[k].values))
  }

  function MessageAt(v: Variant, device: string, h: Header, combined: map<nat, Record>, topic: string, i: nat): (m: Message)
    requires i < h.sampleCount
    ensures m.minutesBack == Offset(h.frequency, h.sampleCount, i)
    ensures m.device == device
    ensures m.val.Some? <==> i in combined
    ensures m.val.Some? ==> m.val.value == combined[i]
    ensures m.topic.Some? <==> v.copiesTopic
    ensures m.topic.Some? ==> m.topic.value == topic
  {
    Message(
      Offset(h.frequency, h.sampleCount, i),
      device,
      if i in combined then Some(combined[i]) else None,
      if v.copiesTopic then Some(topic) else None)
  }

  /** One message per sample, in sample order. */
  function Messages(v: Variant, device: string, h: Header, combined: map<nat, Record>, topic: string): (ms: seq<Message>)
    ensures |ms| == h.sampleCount
  {
    seq(h.sampleCount, i requires 0 <= i < h.sampleCount => MessageAt(v, device, h, combined, topic, i))
  }

  /** The whole decoding of a payload received from `address` on `topic`. */
  function DecodeFrame(v: Variant, payload: string, address: string, topic: string): (r: Result<seq<Message>, DecodeError>)
    ensures r.Ok? <==> ParseFrame(ToUpper(payload)).Ok?
    ensures r.Ok? ==> |r.value| == ParseFrame(ToUpper(payload)).value.header.sampleCount
  {
    match ParseFrame(ToUpper(payload))
    case Err(e) => Err(e)
    case Ok(p) =>
      var device := DeviceSuffix(address, v.suffixLength);
      Ok(Messages(v, device, p.header, Transpose(Columns(v, device, p.segments)), topic))
  }

  /** The formatter body: suffix, upper-casing, header, the segment walk,
      the transpose and the message loop. */
  method Decode(v: Variant, payload: string, address: string, topic: string) returns (r: Result<seq<Message>, DecodeError>)
    ensures r == DecodeFrame(v, payload, address, topic)
  {
    var devAddr := DeviceSuffix(address, v.suffixLength);
    var hexData := ToUpper(payload);
    var header := ReadHeader(hexData);
    if header.Err? {
      return Err(header.error);
    }
    var decryptedDatas := Walk(hexData, header.value.sampleCount, header.value.dataStart);
    if decryptedDatas.Err? {
      return Err(decryptedDatas.error);
    }
    var combinedData := Combine(Columns(v, devAddr, decryptedDatas.value));
    var messages := Assemble(v, devAddr, header.value, combinedData, topic);
    return Ok(messages);
  }

  /** The message loop: for each sample index in order, a message back-dated
      by `frequency * (sampleCount - i - 1)` minutes carrying record i. */
  method Assemble(v: Variant, devAddr: string, header: Header, combinedData: map<nat, Record>, topic: string)
    returns (messages: seq<Message>)
    ensures messages == Messages(v, devAddr, header, combinedData, topic)
  {
    messages := [];
    var nbSamples := header.sampleCount;
    for i := 0 to nbSamples
      invariant |messages| == i
      invariant forall j :: 0 <= j < i ==> messages[j] == MessageAt(v, devAddr, header, combinedData, topic, j)
    {
      var minutesBack := header.frequency * (nbSamples - i - 1) as real;
      var val := if i in combinedData then Some(combinedData[i]) else None;
      var sample := Message(minutesBack, devAddr, val, if v.copiesTopic then Some(topic) else None);
      messages := messages + [sample];
    }
  }

  // ---------------------------------------------------------------------
  // Properties of a decoding.

  /** A decoding has one message per sample, 1 to 16 of them, the count
      being one more than the digit at index 1 of the payload; every message
      is filed under the device suffix and carries the topic exactly when
      the variant copies it. */
  lemma DecodeShape(v: Variant, payload: string, address: string, topic: string)
    requires DecodeFrame(v, payload, address, topic).Ok?
    ensures var ms := DecodeFrame(v, payload, address, topic).value;
      && 1 <= |ms| <= 16
      && HexDigit(ToUpper(payload)[1]) == Some(|ms| - 1)
      && forall i :: 0 <= i < |ms| ==>
        && ms[i].device == DeviceSuffix(address, v.suffixLength)
        && ms[i].topic == if v.copiesTopic then Some(topic) else None
  {
  }

  /** Message i is back-dated by `frequency * (n - i - 1)` minutes: the last
      sample is not back-dated at all, earlier samples never less than later
      ones (strictly more when the period is positive), and with a single
      sample nothing is back-dated. */
  lemma DecodeTiming(v: Variant, payload: string, address: string, topic: string, i: nat, j: nat)
    requires DecodeFrame(v, payload, address, topic).Ok?
    requires i <= j < |DecodeFrame(v, payload, address, topic).value|
    ensures var ms := DecodeFrame(v, payload, address, topic).value;
      var h := ReadHeader(ToUpper(payload)).value;
      && ms[i].minutesBack == Offset(h.frequency, |ms|, i)
      && ms[|ms| - 1].minutesBack == 0.0
      && ms[i].minutesBack >= ms[j].minutesBack
      && (h.frequency > 0.0 && i < j ==> ms[i].minutesBack > ms[j].minutesBack)
      && (|ms| == 1 ==> ms[i].minutesBack == 0.0)
  {
    var p := ParseFrame(ToUpper(payload)).value;
    ParsedParts(ToUpper(payload));
    var device := DeviceSuffix(address, v.suffixLength);
    var combined := Transpose(Columns(v, device, p.segments));
    assert DecodeFrame(v, payload, address, topic).value == Messages(v, device, p.header, combined, topic);
    MessagesTiming(v, device, p.header, combined, topic, i, j);
  }

  /** The timing of the message loop: message i is back-dated by
      `Offset(frequency, n, i)` minutes, the last not at all, and earlier
      messages never less than later ones. */
  lemma MessagesTiming(v: Variant, device: string, h: Header, combined: map<nat, Record>, topic: string, i: nat, j: nat)
    requires 0.0 <= h.frequency
    requires i <= j < h.sampleCount
    ensures var ms := Messages(v, device, h, combined, topic);
      && ms[i].minutesBack == Offset(h.frequency, |ms|, i)
      && ms[|ms| - 1].minutesBack == 0.0
      && ms[i].minutesBack >= ms[j].minutesBack
      && (h.frequency > 0.0 && i < j ==> ms[i].minutesBack > ms[j].minutesBack)
      && (|ms| == 1 ==> ms[i].minutesBack == 0.0)
  {
    var n := h.sampleCount;
    var ms := Messages(v, device, h, combined, topic);
    assert ms[i].minutesBack == Offset(h.frequency, n, i);
    assert ms[j].minutesBack == Offset(h.frequency, n, j);
    assert ms[n - 1].minutesBack == Offset(h.frequency, n, n - 1);
    OffsetOrder(h.frequency, n, i, j);
  }

  lemma OffsetOrder(frequency: real, n: nat, i: nat, j: nat)
    requires 0.0 <= frequency && i <= j < n
    ensures Offset(frequency, n, i) >= Offset(frequency, n, j)
    ensures frequency > 0.0 && i < j ==> Offset(frequency, n, i) > Offset(frequency, n, j)
    ensures Offset(frequency, n, n - 1) == 0.0
  {
    var a, b := (n - i - 1) as real, (n - j - 1) as real;
    assert frequency * a - frequency * b == frequency * (a - b);
    if frequency > 0.0 && i < j {
      assert a - b >= 1.0;
      assert frequency * (a - b) >= frequency;
    }
  }

  /** Message i's record exists exactly when the frame has a segment, holds
      no key twice, and under each key holds reading i of the last segment
      labelled with that key. */
  lemma DecodeRecords(v: Variant, payload: string, address: string, topic: string, i: nat, key: string)
    requires DecodeFrame(v, payload, address, topic).Ok?
    requires i < |DecodeFrame(v, payload, address, topic).value|
    ensures var ms := DecodeFrame(v, payload, address, topic).value;
      var segments := ParseFrame(ToUpper(payload)).value.segments;
      var cols := Columns(v, DeviceSuffix(address, v.suffixLength), segments);
      && (ms[i].val.Some? <==> segments != [])
      && (ms[i].val.Some? ==> Distinct(Keys(ms[i].val.value)))
      && (ms[i].val.Some? ==> Lookup(ms[i].val.value, key) == Latest(cols, key, i))
  {
    var p := ParseFrame(ToUpper(payload)).value;
    var cols := Columns(v, DeviceSuffix(address, v.suffixLength), p.segments);
    TransposeDomain(cols, p.header.sampleCount);
    RowKeysDistinct(cols, i);
    RowLookup(cols, i, key);
  }

  /** The labels of different kinds differ for `device`. */
  ghost predicate LabelsDistinct(v: Variant, device: string) {
    forall k1: Kind, k2: Kind :: v.labelOf(k1, device) == v.labelOf(k2, device) ==> k1 == k2
  }

  /** When labels tell kinds apart, message i's record holds a value under
      the label of `kind` exactly when the frame has a segment of that kind,
      and that value is reading i of the last such segment. */
  lemma DecodeKindReading(v: Variant, payload: string, address: string, topic: string, i: nat, kind: Kind)
    requires DecodeFrame(v, payload, address, topic).Ok?
    requires i < |DecodeFrame(v, payload, address, topic).value|
    requires LabelsDistinct(v, DeviceSuffix(address, v.suffixLength))
    ensures var ms := DecodeFrame(v, payload, address, topic).value;
      var segments := ParseFrame(ToUpper(payload)).value.segments;
      var found := if ms[i].val.Some? then Lookup(ms[i].val.value, v.labelOf(kind, DeviceSuffix(address, v.suffixLength))) else None;
      && (found.Some? <==> exists k :: 0 <= k < |segments| && segments[k].kind == kind)
      && (found.Some? ==>
            exists k :: && 0 <= k < |segments| && segments[k].kind == kind
                        && found.value == segments[k].values[i]
                        && forall k' :: k < k' < |segments| ==> segments[k'].kind != kind)
  {
    var p := ParseFrame(ToUpper(payload)).value;
    var device := DeviceSuffix(address, v.suffixLength);
    DecodeRecords(v, payload, address, topic, i, v.labelOf(kind, device));
    KindLatest(v, device, p.segments, p.header.sampleCount, i, kind);
  }

  /** When labels tell kinds apart and every segment has reading i, the
      last-write-wins value under the label of `kind` exists exactly when
      some segment has that kind, and is reading i of the last such segment. */
  lemma KindLatest(v: Variant, device: string, segments: seq<Segment>, n: nat, i: nat, kind: Kind)
    requires LabelsDistinct(v, device)
    requires forall k :: 0 <= k < |segments| ==> |segments[k].values| == n
    requires i < n
    ensures var found := Latest(Columns(v, device, segments), v.labelOf(kind, device), i);
      && (found.Some? <==> exists k :: 0 <= k < |segments| && segments[k].kind == kind)
      && (found.Some? ==>
            exists k :: && 0 <= k < |segments| && segments[k].kind == kind
                        && found.value == segments[k].values[i]
                        && forall k' :: k < k' < |segments| ==> segments[k'].kind != kind)
  {
    var key := v.labelOf(kind, device);
    var cols := Columns(v, device, segments);
    LatestWriter(cols, key, i);
    assert forall k :: 0 <= k < |segments| ==> (cols[k].key == key <==> segments[k].kind == kind);
    assert forall k :: 0 <= k < |segments| ==> i < |cols[k].values|;
  }

  /** Decoding ignores the case of the payload's letters. */
  lemma DecodeIgnoresCase(v: Variant, payload: string, address: string, topic: string)
    ensures DecodeFrame(v, payload, address, topic) == DecodeFrame(v, ToUpper(payload), address, topic)
  {
    UpperTwice(payload);
  }

  /** Decoding a frame the sensor composed gives its sample count and period
      and, for each sample, the record of its scaled readings. */
  lemma DecodeEncoded(v: Variant, f: RawFrame, address: string, topic: string)
    requires WellFormed(f)
    ensures var device := DeviceSuffix(address, v.suffixLength);
      DecodeFrame(v, EncodeFrame(f), address, topic)
        == Ok(Messages(v, device, HeaderOf(f), Transpose(Columns(v, device, ScaleSegments(f.segments))), topic))
  {
    UpperOfHex(EncodeFrame(f));
    FrameRoundTrip(f);
  }
}
