/**
 * The notification handler of the Wahoo Kickr SNAP trainer: it resolves the
 * sending characteristic to a service description, keeps only "cycling
 * power" services, rejects payloads shorter than the power frame, unpacks
 * the first twelve bytes with the layout "BBHHBBHH" and forwards the third
 * field (the first 16-bit one, bytes 2-3) as the power reading.
 */
module WahooKickrSnap {
  import opened Wrappers
  import opened Bytes
  import opened Text
  import opened StructLayout

  /** The guessed layout of a power notification. */
  const PowerStruct: string := "BBHHBBHH"

  /** `struct.calcsize(PowerStruct)`; `PowerStructSizeIsCalcSize` proves the two agree. */
  const PowerStructSize: nat := 12

  /** The service descriptions whose notifications carry power frames are recognised by this text. */
  const CyclingPower: string := "cycling power"

  /** What handling one notification comes to. */
  datatype Outcome =
    | InvalidSender      // the characteristic belongs to no known service
    | Ignored            // the service is not a cycling-power service
    | NotEnoughData      // the payload is shorter than the power frame
    | Power(watts: nat)  // the value handed to the power tracker's `set_power`

  /** The fields "BBHHBBHH" stands for. */
  const PowerFields: seq<FieldCode> := [UInt8, UInt8, UInt16, UInt16, UInt8, UInt8, UInt16, UInt16]

  /** The layout compiles to those fields. */
  lemma PowerStructFields()
    ensures ParseFormat(PowerStruct) == Success(PowerFields)
  {
    var fmt := PowerStruct;
    assert fmt[0] == 'B' && fmt[1] == 'B' && fmt[2] == 'H' && fmt[3] == 'H';
    assert fmt[4] == 'B' && fmt[5] == 'B' && fmt[6] == 'H' && fmt[7] == 'H';
    var fields := ParseFormat(fmt).value;
    assert CodeOf(fmt[0]) == Some(fields[0]) && CodeOf(fmt[1]) == Some(fields[1]);
    assert CodeOf(fmt[2]) == Some(fields[2]) && CodeOf(fmt[3]) == Some(fields[3]);
    assert CodeOf(fmt[4]) == Some(fields[4]) && CodeOf(fmt[5]) == Some(fields[5]);
    assert CodeOf(fmt[6]) == Some(fields[6]) && CodeOf(fmt[7]) == Some(fields[7]);
    assert fields == PowerFields;
  }

  /** In native alignment the fields sit at offsets 0, 1, 2, 4, 6, 7, 8, 10 and end at 12: no padding. */
  lemma PowerFieldsPlacement()
    ensures OffsetOf(PowerFields, 0, 0) == 0 && OffsetOf(PowerFields, 0, 1) == 1
    ensures OffsetOf(PowerFields, 0, 2) == 2 && OffsetOf(PowerFields, 0, 3) == 4
    ensures OffsetOf(PowerFields, 0, 4) == 6 && OffsetOf(PowerFields, 0, 5) == 7
    ensures OffsetOf(PowerFields, 0, 6) == 8 && OffsetOf(PowerFields, 0, 7) == 10
    ensures EndFrom(PowerFields, 0) == 12
  {
  }

  /** The size constant is the one `struct.calcsize` computes for the layout. */
  lemma PowerStructSizeIsCalcSize()
    ensures CalcSize(PowerStruct) == Success(PowerStructSize)
  {
    PowerStructFields();
    PowerFieldsPlacement();
  }

  /**
   * Unpacking exactly twelve bytes with the power layout never fails, and
   * yields bytes 0 and 1, the little-endian words at bytes 2-3 and 4-5,
   * bytes 6 and 7, and the words at bytes 8-9 and 10-11.
   */
  lemma UnpackPowerFrame(frame: seq<byte>)
    requires |frame| == PowerStructSize
    ensures Unpack(PowerStruct, frame).Success?
    ensures var vals := Unpack(PowerStruct, frame).value;
      |vals| == 8 &&
      vals[0] == frame[0] && vals[1] == frame[1] &&
      vals[2] == Le16(frame[2], frame[3]) && vals[3] == Le16(frame[4], frame[5]) &&
      vals[4] == frame[6] && vals[5] == frame[7] &&
      vals[6] == Le16(frame[8], frame[9]) && vals[7] == Le16(frame[10], frame[11])
  {
    PowerStructFields();
    PowerFieldsPlacement();
  }

  /** The classifier: `"cycling power" in description.lower().strip()`. */
  predicate IsCyclingPower(description: string)
    ensures IsCyclingPower(description) ==> |description| >= |CyclingPower|
  {
    Contains(Strip(Lower(description)), CyclingPower)
  }

  /** Stripping the lower-cased description never changes the classification. */
  lemma StripDoesNotMatter(description: string)
    ensures IsCyclingPower(description) <==> Contains(Lower(description), CyclingPower)
  {
    StripKeepsContains(Lower(description), CyclingPower);
  }

  /**
   * `_handle_notification` behind the `try` of `notification_handler`:
   * `service` is the description the client's lookup resolved, if any.
   */
  function HandleNotification(service: Option<string>, data: seq<byte>): (o: Outcome)
    ensures o == InvalidSender <==> service.None?
    ensures o == Ignored <==> service.Some? && !IsCyclingPower(service.value)
    ensures o == NotEnoughData <==> service.Some? && IsCyclingPower(service.value) && |data| < 12
    ensures o.Power? <==> service.Some? && IsCyclingPower(service.value) && |data| >= 12
    ensures o.Power? ==> o.watts == Le16(data[2], data[3]) && o.watts < 0x1_0000
  {
    match service
    case None => InvalidSender
    case Some(description) =>
      if !IsCyclingPower(description) then Ignored
      else if |data| < PowerStructSize then NotEnoughData
      else
        var frame := data[..PowerStructSize];
        UnpackPowerFrame(frame);
        match Unpack(PowerStruct, frame)
        case Success(vals) => Power(vals[2])
        case Failure(_) => assert false; NotEnoughData
  }

  /**
   * `notification_handler`: the same decisions, taken one after another
   * with early returns; nothing escapes it, and what it does is exactly
   * `HandleNotification`.
   */
  method NotificationHandler(service: Option<string>, data: seq<byte>) returns (o: Outcome)
    ensures o == HandleNotification(service, data)
  {
    if service.None? {
      return InvalidSender;
    }
    var description := service.value;
    if !IsCyclingPower(description) {
      return Ignored;
    }
    if |data| < PowerStructSize {
      return NotEnoughData;
    }
    var frame := data[..PowerStructSize];
    UnpackPowerFrame(frame);
    var unpacked := Unpack(PowerStruct, frame);
    if unpacked.Failure? {
      assert false;
      return NotEnoughData;
    }
    var vals := unpacked.value;
    o := Power(vals[2]);
  }

  /** An unresolvable sender is reported whatever the payload. */
  lemma InvalidSenderWhateverPayload(data: seq<byte>)
    ensures HandleNotification(None, data) == InvalidSender
  {
  }

  /** A service that is not a cycling-power service is ignored whatever the payload. */
  lemma OtherServicesIgnored(description: string, data: seq<byte>)
    requires !Contains(Lower(description), CyclingPower)
    ensures HandleNotification(Some(description), data) == Ignored
  {
    StripDoesNotMatter(description);
  }

  /** A short payload to a cycling-power service is rejected and no power is forwarded. */
  lemma ShortPayloadRejected(description: string, data: seq<byte>)
    requires Contains(Lower(description), CyclingPower)
    requires |data| < PowerStructSize
    ensures HandleNotification(Some(description), data) == NotEnoughData
  {
    StripDoesNotMatter(description);
  }

  /** A long enough payload to a cycling-power service forwards the 16-bit value in bytes 2-3. */
  lemma ForwardedValue(description: string, data: seq<byte>)
    requires Contains(Lower(description), CyclingPower)
    requires |data| >= PowerStructSize
    ensures HandleNotification(Some(description), data) == Power(Le16(data[2], data[3]))
  {
    StripDoesNotMatter(description);
  }

  /** Payloads agreeing on their first twelve bytes are handled alike. */
  lemma OnlyFrameBytesMatter(service: Option<string>, a: seq<byte>, b: seq<byte>)
    requires |a| >= PowerStructSize && |b| >= PowerStructSize
    requires a[..PowerStructSize] == b[..PowerStructSize]
    ensures HandleNotification(service, a) == HandleNotification(service, b)
  {
    assert a[2] == a[..PowerStructSize][2] && a[3] == a[..PowerStructSize][3];
    assert b[2] == b[..PowerStructSize][2] && b[3] == b[..PowerStructSize][3];
  }

  /** Of a long enough payload, only bytes 2 and 3 affect the outcome. */
  lemma OnlyPowerBytesMatter(service: Option<string>, a: seq<byte>, b: seq<byte>)
    requires |a| >= PowerStructSize && |b| >= PowerStructSize
    requires a[2] == b[2] && a[3] == b[3]
    ensures HandleNotification(service, a) == HandleNotification(service, b)
  {
  }

  /** Changing the case of the description's letters never changes the outcome. */
  lemma CaseInsensitive(description: string, other: string, data: seq<byte>)
    requires SameUpToCase(description, other)
    ensures HandleNotification(Some(description), data) == HandleNotification(Some(other), data)
  {
    LowerOfSameUpToCase(description, other);
  }

  /** In particular, an upper-cased description is classified like the original. */
  lemma UpperCaseDescription(description: string, data: seq<byte>)
    ensures HandleNotification(Some(Upper(description)), data) == HandleNotification(Some(description), data)
  {
    CaseChangesAreSameUpToCase(description);
    CaseInsensitive(Upper(description), description, data);
  }

  /** The example frame `14 00 00 00 3A 85 EA 01 00 00 EC 4B` of the comment at line 27 of wahoo_kickr_snap.py. */
  const SamplePayload: seq<byte> := [0x14, 0x00, 0x00, 0x00, 0x3A, 0x85, 0xEA, 0x01, 0x00, 0x00, 0xEC, 0x4B]

  /** The example frame unpacks to 0x14, 0, 0, 0x853A, 0xEA, 1, 0, 0x4BEC. */
  lemma SamplePayloadFields()
    ensures Unpack(PowerStruct, SamplePayload).Success?
    ensures var vals := Unpack(PowerStruct, SamplePayload).value;
      |vals| == 8 && vals[0] == 0x14 && vals[1] == 0 && vals[2] == 0 && vals[3] == 0x853A &&
      vals[4] == 0xEA && vals[5] == 1 && vals[6] == 0 && vals[7] == 0x4BEC
  {
    UnpackPowerFrame(SamplePayload);
  }

  /** "Cycling Power", the description of the cycling-power service, is classified as one. */
  lemma CyclingPowerDescription()
    ensures IsCyclingPower("Cycling Power")
  {
    LowerCyclingPower("Cycling Power");
    ContainsItself(CyclingPower);
    StripDoesNotMatter("Cycling Power");
  }

  /**
   * "Cycling Power" lower-cases to the needle "cycling power". The string is
   * a parameter pinned by the precondition rather than a literal in the
   * contract: with the literal, the verifier unfolds `Lower` on it eagerly
   * and the character-by-character proof below runs out of resources.
   */
  lemma LowerCyclingPower(description: string)
    requires description == "Cycling Power"
    ensures Lower(description) == CyclingPower
  {
    forall i | 0 <= i < |description| ensures Lower(description)[i] == CyclingPower[i] {
    }
  }

  /**
   * Sent to a cycling-power service, the example frame forwards 0 (bytes
   * 2-3), not the 0x853A = 34106 of bytes 4-5, which is the fourth unpacked
   * field.
   */
  lemma SamplePayloadForwardsZero(description: string)
    requires Contains(Lower(description), CyclingPower)
    ensures HandleNotification(Some(description), SamplePayload) == Power(0)
  {
    var data := SamplePayload;
    assert data[2] == 0 && data[3] == 0 && |data| == 12;
    ForwardedValue(description, data);
  }

  /** Cut to eight bytes, the example frame forwards nothing. */
  lemma TruncatedSamplePayload(description: string)
    requires Contains(Lower(description), CyclingPower)
    ensures HandleNotification(Some(description), SamplePayload[..8]) == NotEnoughData
  {
    StripDoesNotMatter(description);
  }

  /** End to end: the example frame, sent by the "Cycling Power" service, forwards 0. */
  lemma SampleNotification()
    ensures HandleNotification(Some("Cycling Power"), SamplePayload) == Power(0)
  {
    CyclingPowerDescription();
    StripDoesNotMatter("Cycling Power");
    SamplePayloadForwardsZero("Cycling Power");
  }
}
