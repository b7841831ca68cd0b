/** The formatter keyed by the device EUI: the device is named by the last
    5 characters of `deveui`, labels read the device followed by
    ":temperature", ":voltage" or ":current", and every message carries the
    incoming topic. */
module DevEuiFormatter {
  import opened Results
  import opened Hex
  import opened Frame
  import opened Samples
  import opened Decoder

  function Label(kind: Kind, device: string): (l: string)
    ensures |l| > |device| && l[..|device|] == device && l[|device|] == ':'
  {
    match kind
    case Temperature => device + ":temperature"
    case Voltage => device + ":voltage"
    case Current => device + ":current"
  }

  const Settings: Variant := Variant(5, Label, true)

  /** Decodes `payload`, a frame received from `deveui` on `topic`. */
  method Format(payload: string, deveui: string, topic: string) returns (r: Result<seq<Message>, DecodeError>)
    ensures r == DecodeFrame(Settings, payload, deveui, topic)
  {
    r := Decode(Settings, payload, deveui, topic);
  }

  /** The three labels of a device differ, so only segments of the same
      kind overwrite each other in a record. */
  lemma LabelsOfKindsDiffer(device: string)
    ensures LabelsDistinct(Settings, device)
  {
    var n := |device|;
    var t, v, c := Label(Temperature, device), Label(Voltage, device), Label(Current, device);
    assert t[n + 1] == 't' && v[n + 1] == 'v' && c[n + 1] == 'c';
  }

  /** Every message of a decoding carries the incoming topic. */
  lemma TopicCopied(payload: string, deveui: string, topic: string, i: nat)
    requires DecodeFrame(Settings, payload, deveui, topic).Ok?
    requires i < |DecodeFrame(Settings, payload, deveui, topic).value|
    ensures DecodeFrame(Settings, payload, deveui, topic).value[i].topic == Some(topic)
  {
    DecodeShape(Settings, payload, deveui, topic);
  }

  /** The two-sample frame "A1001008006400C8": a period field of 0x0010 = 16
      minutes over 2 samples, then one temperature segment reading 0x0064
      and 0x00C8 hundredths of a degree. */
  lemma TwoSamplesFrame()
    ensures ParseFrame("A1001008006400C8") == Ok(Parsed(Header(2, 8.0, 6), [Segment(Temperature, [1.0, 2.0])]))
  {
    var frame := "A1001008006400C8";
    TwoSamplesHeader(frame);
    assert frame[6..8] == "08";
    TwoSamplesReadings(frame);
    var segment := Segment(Temperature, [1.0, 2.0]);
    assert ReadSegment(frame, 2, 6) == Ok(segment);
    SegmentsCons(frame, 2, 6, 16, segment, []);
    assert [segment] + [] == [segment];
  }

  lemma TwoSamplesHeader(frame: string)
    requires frame == "A1001008006400C8"
    ensures ReadHeader(frame) == Ok(Header(2, 8.0, 6))
  {
    assert frame[2..6] == "0010";
    HexValueFour(frame[2..6]);
  }

  lemma TwoSamplesReadings(frame: string)
    requires frame == "A1001008006400C8"
    ensures ReadValues(frame, 8, 2, 100) == Ok([1.0, 2.0])
  {
    assert frame[8..12] == "0064" && frame[12..16] == "00C8";
    HexValueFour(frame[8..12]);
    HexValueFour(frame[12..16]);
    assert ReadValues(frame, 16, 0, 100) == Ok([]);
    assert [2.0] + [] == [2.0];
    assert ReadValues(frame, 12, 1, 100) == Ok([2.0]);
    assert [1.0] + [2.0] == [1.0, 2.0];
  }

  /** One temperature column of two readings transposes to two records. */
  lemma TwoSamplesRecords(device: string)
    ensures var combined := Transpose(Columns(Settings, device, [Segment(Temperature, [1.0, 2.0])]));
      && 0 in combined && combined[0] == [Entry(device + ":temperature", 1.0)]
      && 1 in combined && combined[1] == [Entry(device + ":temperature", 2.0)]
  {
    var cols := [Column(device + ":temperature", [1.0, 2.0])];
    assert Columns(Settings, device, [Segment(Temperature, [1.0, 2.0])]) == cols;
    InitOf([], cols[0]);
    assert [] + [cols[0]] == cols;
    assert Row(cols, 0) == [Entry(device + ":temperature", 1.0)];
    assert Row(cols, 1) == [Entry(device + ":temperature", 2.0)];
    assert MaxLength(cols) == 2;
  }

  /** The frame "A1001008006400C8" from EUI "70B3D5E75E00A1B2" on topic "t"
      decodes to two messages filed under "0A1B2": the first back-dated by
      8 minutes reading 1.0 degree, the second not back-dated reading 2.0. */
  lemma TwoSamples()
    ensures DecodeFrame(Settings, "A1001008006400C8", "70B3D5E75E00A1B2", "t")
      == Ok([Message(8.0, "0A1B2", Some([Entry("0A1B2:temperature", 1.0)]), Some("t")),
             Message(0.0, "0A1B2", Some([Entry("0A1B2:temperature", 2.0)]), Some("t"))])
  {
    assert "0A1B2" + ":temperature" == "0A1B2:temperature";
    TwoSamplesUpper();
    TwoSamplesFrame();
    assert DeviceSuffix("70B3D5E75E00A1B2", 5) == "0A1B2";
    TwoSamplesMessages("0A1B2", "t");
  }

  /** The two records of the frame become a message 8 minutes back and a
      message not back-dated, both on the topic. */
  lemma TwoSamplesMessages(device: string, topic: string)
    ensures Messages(Settings, device, Header(2, 8.0, 6), Transpose(Columns(Settings, device, [Segment(Temperature, [1.0, 2.0])])), topic)
      == [Message(8.0, device, Some([Entry(device + ":temperature", 1.0)]), Some(topic)),
          Message(0.0, device, Some([Entry(device + ":temperature", 2.0)]), Some(topic))]
  {
    TwoSamplesRecords(device);
    var header := Header(2, 8.0, 6);
    var combined := Transpose(Columns(Settings, device, [Segment(Temperature, [1.0, 2.0])]));
    assert Offset(8.0, 2, 0) == 8.0 && Offset(8.0, 2, 1) == 0.0;
    var first := Message(8.0, device, Some([Entry(device + ":temperature", 1.0)]), Some(topic));
    var second := Message(0.0, device, Some([Entry(device + ":temperature", 2.0)]), Some(topic));
    assert MessageAt(Settings, device, header, combined, topic, 0) == first;
    assert MessageAt(Settings, device, header, combined, topic, 1) == second;
  }

  lemma TwoSamplesUpper()
    ensures ToUpper("A1001008006400C8") == "A1001008006400C8"
  {
    UpperOfDigits("A1001008006400C8");
  }
}
