/** The formatter keyed by the device address: the device is named by the
    last 8 characters of `devaddr`, labels read "Temperature:", "Tension:"
    or "Courant:" followed by the device, and no topic is set. */
module AddressFormatter {
  import opened Results
  import opened Hex
  import opened Frame
  import opened Samples
  import opened Decoder

  function Label(kind: Kind, device: string): (l: string)
    ensures |l| > |device| && l[|l| - |device|..] == device && l[|l| - |device| - 1] == ':'
  {
    match kind
    case Temperature => "Temperature:" + device
    case Voltage => "Tension:" + device
    case Current => "Courant:" + device
  }

  const Settings: Variant := Variant(8, Label, false)

  /** Decodes `payload`, a frame received from `devaddr`. */
  method Format(payload: string, devaddr: string) returns (r: Result<seq<Message>, DecodeError>)
    ensures r == DecodeFrame(Settings, payload, devaddr, "")
  {
    r := Decode(Settings, payload, devaddr, "");
  }

  /** The three labels of a device differ, so only segments of the same
      kind overwrite each other in a record. */
  lemma LabelsOfKindsDiffer(device: string)
    ensures LabelsDistinct(Settings, device)
  {
    var t, v, c := Label(Temperature, device), Label(Voltage, device), Label(Current, device);
    assert t[2] == 'm' && v[2] == 'n';
    assert t[0] == 'T' && c[0] == 'C' && v[0] == 'T';
  }

  /** The single-sample frame "a0080064": no period field, one temperature
      segment whose one reading is 0x0064 = 100 hundredths of a degree. */
  lemma SingleTemperatureFrame()
    ensures ParseFrame(ToUpper("a0080064")) == Ok(Parsed(Header(1, 0.0, 2), [Segment(Temperature, [1.0])]))
  {
    assert ToUpper("a0080064") == "A0" + Code(Temperature) + "0064";
    HundredthsOfKind(Temperature);
  }

  /** One temperature column of one reading transposes to a single record. */
  lemma SingleTemperatureRecord(device: string)
    ensures var combined := Transpose(Columns(Settings, device, [Segment(Temperature, [1.0])]));
      0 in combined && combined[0] == [Entry("Temperature:" + device, 1.0)]
  {
    var cols := [Column("Temperature:" + device, [1.0])];
    assert Columns(Settings, device, [Segment(Temperature, [1.0])]) == cols;
    InitOf([], cols[0]);
    assert [] + [cols[0]] == cols;
    assert Row(cols, 0) == [Entry("Temperature:" + device, 1.0)];
    assert MaxLength(cols) == 1;
  }

  /** The frame "a0080064" from address "0011223344556677" decodes to one
      message, not back-dated, filed under "44556677", reading 1.0 degree. */
  lemma SingleTemperature()
    ensures DecodeFrame(Settings, "a0080064", "0011223344556677", "")
      == Ok([Message(0.0, "44556677", Some([Entry("Temperature:44556677", 1.0)]), None)])
  {
    SingleTemperatureFrame();
    var device := "44556677";
    assert DeviceSuffix("0011223344556677", 8) == device;
    SingleTemperatureRecord(device);
    var header := Header(1, 0.0, 2);
    var combined := Transpose(Columns(Settings, device, [Segment(Temperature, [1.0])]));
    assert "Temperature:" + device == "Temperature:44556677";
    assert Offset(0.0, 1, 0) == 0.0;
    var message := Message(0.0, device, Some([Entry("Temperature:44556677", 1.0)]), None);
    assert MessageAt(Settings, device, header, combined, "", 0) == message;
    assert Messages(Settings, device, header, combined, "") == [message];
  }

  /** Type code 0C is not in the table: the frame is rejected. */
  lemma UnknownCode(devaddr: string)
    ensures DecodeFrame(Settings, "A00C0064", devaddr, "") == Err(UnknownMeasurementType("0C"))
  {
    var frame := "A00C0064";
    UpperOfDigits(frame);
    assert ReadHeader(frame) == Ok(Header(1, 0.0, 2));
    assert frame[2..4] == "0C";
    assert KindOf("0C") == None;
    assert ReadSegment(frame, 1, 2) == Err(UnknownMeasurementType("0C"));
  }

  /** A reading cut short by the end of the frame is rejected where it starts. */
  lemma TruncatedReading(devaddr: string)
    ensures DecodeFrame(Settings, "A008006", devaddr, "") == Err(TruncatedFrame(4))
  {
    var frame := "A008006";
    UpperOfDigits(frame);
    assert ReadHeader(frame) == Ok(Header(1, 0.0, 2));
    assert frame[2..4] == "08";
    assert ReadValues(frame, 4, 1, 100) == Err(TruncatedFrame(4));
    assert ReadSegment(frame, 1, 2) == Err(TruncatedFrame(4));
  }
}
