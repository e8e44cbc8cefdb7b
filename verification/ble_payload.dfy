/**
 * The Bluetooth LE advertisement payload (Windows/src/BLEPayload.h): a
 * length-prefixed record carried either in a manufacturer-data entry of
 * company 0x0006 (after a 0xC5 magic byte) or in a data section of type 0xA0.
 *
 * DataWriter is an append-only byte buffer, so the writers are concatenations.
 * DataReader is a read cursor over the record; a read past the end throws in
 * the source and is the `ReaderFault` outcome here. Names and ids are byte
 * strings written and read one byte per character.
 */
module BlePayload {
  import opened Common

  const MICROSOFT_COMPANY_ID: u16 := 0x0006
  const MAGIC_NUMBER: byte := 0xC5
  const CLIPBOARD_SYNC_DATA_TYPE: byte := 0xA0
  const CLIPBOARD_SYNC_VERSION: byte := 1

  /** ClipboardSyncPayload. */
  datatype SyncPayload = SyncPayload(deviceName: seq<byte>, version: byte, deviceId: seq<byte>)

  /** BluetoothLEManufacturerData. */
  datatype ManufacturerData = ManufacturerData(companyId: u16, data: seq<byte>)

  /** BluetoothLEAdvertisementDataSection. */
  datatype DataSection = DataSection(dataType: byte, data: seq<byte>)

  /** BluetoothLEAdvertisement, reduced to the two lists the code uses. */
  datatype Advertisement = Advertisement(manufacturerData: seq<ManufacturerData>, dataSections: seq<DataSection>)

  /** What TryParseAdvertisement does: return true with a payload, return false, or throw from the reader. */
  datatype ParseOutcome = Parsed(payload: SyncPayload) | Rejected | ReaderFault

  /** Both lengths fit the one-byte length fields. */
  predicate Fits(p: SyncPayload)
  {
    |p.deviceName| < 256 && |p.deviceId| < 256
  }

  /** version, name length, name, id length, id; each length is static_cast<uint8_t> of the size. */
  function EncodeFields(p: SyncPayload): (r: seq<byte>)
    ensures |r| == 3 + |p.deviceName| + |p.deviceId|
    ensures r[0] == p.version && r[1] == |p.deviceName| % 256
    ensures r[2 + |p.deviceName|] == |p.deviceId| % 256
  {
    [p.version, |p.deviceName| % 256] + p.deviceName + [|p.deviceId| % 256] + p.deviceId
  }

  /** BLEPayloadManager::CreateAdvertisement: one 0x0006 entry holding 0xC5 and the fields. */
  function CreateAdvertisement(p: SyncPayload): (ad: Advertisement)
    ensures |ad.manufacturerData| == 1 && ad.dataSections == []
    ensures ad.manufacturerData[0].companyId == MICROSOFT_COMPANY_ID
    ensures ad.manufacturerData[0].data == [MAGIC_NUMBER] + EncodeFields(p)
  {
    Advertisement([ManufacturerData(MICROSOFT_COMPANY_ID, [MAGIC_NUMBER] + EncodeFields(p))], [])
  }

  /** BLEPayloadManager::CreateCustomTypeAdvertisement: one 0xA0 section holding the fields, no magic. */
  function CreateCustomTypeAdvertisement(p: SyncPayload): (ad: Advertisement)
    ensures ad.manufacturerData == [] && |ad.dataSections| == 1
    ensures ad.dataSections[0].dataType == CLIPBOARD_SYNC_DATA_TYPE
    ensures ad.dataSections[0].data == EncodeFields(p)
  {
    Advertisement([], [DataSection(CLIPBOARD_SYNC_DATA_TYPE, EncodeFields(p))])
  }

  /**
   * Reading the fields starting at `start`: a declared length that runs past
   * the end of the record is a reader fault; trailing bytes are ignored. A
   * successful read is exactly a well-formed encoding at the front of
   * `data[start..]`.
   */
  function DecodeFields(data: seq<byte>, start: nat): (r: ParseOutcome)
    requires start + 2 <= |data|
    ensures r != Rejected
    ensures r.Parsed? ==> Fits(r.payload) && EncodeFields(r.payload) <= data[start..]
  {
    var nameEnd := start + 2 + data[start + 1] as nat;
    if nameEnd >= |data| then ReaderFault
    else
      var idEnd := nameEnd + 1 + data[nameEnd] as nat;
      if idEnd > |data| then ReaderFault
      else
        var p := SyncPayload(data[start + 2..nameEnd], data[start], data[nameEnd + 1..idEnd]);
        assert EncodeFields(p) == data[start..idEnd];
        Parsed(p)
  }

  /** One record of at least three bytes, with or without the magic byte in front. */
  function DecodeRecord(data: seq<byte>, withMagic: bool): (r: ParseOutcome)
    requires |data| >= 3
    ensures withMagic ==> (r == Rejected <==> data[0] != MAGIC_NUMBER)
    ensures !withMagic ==> r != Rejected
  {
    if !withMagic then DecodeFields(data, 0)
    else if data[0] != MAGIC_NUMBER then Rejected
    else DecodeFields(data, 1)
  }

  /** Any record that begins with a well-formed encoding reads back as that payload. */
  lemma EncodedPrefixParses(data: seq<byte>, start: nat, p: SyncPayload)
    requires Fits(p) && start <= |data| && EncodeFields(p) <= data[start..]
    ensures start + 2 <= |data| && DecodeFields(data, start) == Parsed(p)
  {
    var e := EncodeFields(p);
    var nameEnd := start + 2 + |p.deviceName|;
    var idEnd := nameEnd + 1 + |p.deviceId|;
    assert |p.deviceName| % 256 == |p.deviceName| && |p.deviceId| % 256 == |p.deviceId|;
    assert data[start..][..|e|] == e;
    assert data[start + 1] == e[1];
    assert data[nameEnd] == e[2 + |p.deviceName|];
    assert data[start + 2..nameEnd] == e[2..2 + |p.deviceName|] == p.deviceName;
    assert data[nameEnd + 1..idEnd] == e[3 + |p.deviceName|..] == p.deviceId;
  }

  /** The index of the first manufacturer entry with company 0x0006, if any. */
  function FirstOurEntry(entries: seq<ManufacturerData>): (r: Option<nat>)
    ensures r.None? <==> forall i :: 0 <= i < |entries| ==> entries[i].companyId != MICROSOFT_COMPANY_ID
    ensures r.Some? ==> r.value < |entries| && entries[r.value].companyId == MICROSOFT_COMPANY_ID
    ensures r.Some? ==> forall i :: 0 <= i < r.value ==> entries[i].companyId != MICROSOFT_COMPANY_ID
  {
    if entries == [] then None
    else if entries[0].companyId == MICROSOFT_COMPANY_ID then Some(0)
    else match FirstOurEntry(entries[1..])
      case None => None
      case Some(k) => Some(k + 1)
  }

  /** The index of the first data section of type 0xA0, if any. */
  function FirstOurSection(sections: seq<DataSection>): (r: Option<nat>)
    ensures r.None? <==> forall i :: 0 <= i < |sections| ==> sections[i].dataType != CLIPBOARD_SYNC_DATA_TYPE
    ensures r.Some? ==> r.value < |sections| && sections[r.value].dataType == CLIPBOARD_SYNC_DATA_TYPE
    ensures r.Some? ==> forall i :: 0 <= i < r.value ==> sections[i].dataType != CLIPBOARD_SYNC_DATA_TYPE
  {
    if sections == [] then None
    else if sections[0].dataType == CLIPBOARD_SYNC_DATA_TYPE then Some(0)
    else match FirstOurSection(sections[1..])
      case None => None
      case Some(k) => Some(k + 1)
  }

  /** A record shorter than three bytes is refused; otherwise it is decoded. */
  function DecodeCandidate(data: seq<byte>, withMagic: bool): ParseOutcome
  {
    if |data| < 3 then Rejected else DecodeRecord(data, withMagic)
  }

  /**
   * The outcome of TryParseAdvertisement: the first 0x0006 entry decides;
   * only when there is none is the first 0xA0 section consulted; with
   * neither the answer is false. A payload it returns is one whose encoding
   * really sits at the front of such an entry (after the magic byte) or
   * section, and with neither kind present nothing is read at all.
   */
  function ParseAdvertisement(ad: Advertisement): (outcome: ParseOutcome)
    ensures outcome != Rejected ==>
      || (exists i :: 0 <= i < |ad.manufacturerData| && ad.manufacturerData[i].companyId == MICROSOFT_COMPANY_ID)
      || (exists j :: 0 <= j < |ad.dataSections| && ad.dataSections[j].dataType == CLIPBOARD_SYNC_DATA_TYPE)
    ensures outcome.Parsed? ==> Fits(outcome.payload)
    ensures outcome.Parsed? ==>
      || (exists i :: 0 <= i < |ad.manufacturerData| && ad.manufacturerData[i].companyId == MICROSOFT_COMPANY_ID
                      && [MAGIC_NUMBER] + EncodeFields(outcome.payload) <= ad.manufacturerData[i].data)
      || (exists j :: 0 <= j < |ad.dataSections| && ad.dataSections[j].dataType == CLIPBOARD_SYNC_DATA_TYPE
                      && EncodeFields(outcome.payload) <= ad.dataSections[j].data)
  {
    match FirstOurEntry(ad.manufacturerData)
    case Some(i) =>
      var data := ad.manufacturerData[i].data;
      var r := DecodeCandidate(data, true);
      assert r.Parsed? ==> [MAGIC_NUMBER] + EncodeFields(r.payload) <= data by {
        if r.Parsed? {
          assert data == [data[0]] + data[1..];
        }
      }
      r
    case None =>
      match FirstOurSection(ad.dataSections)
      case Some(j) =>
        var data := ad.dataSections[j].data;
        var r := DecodeCandidate(data, false);
        assert r.Parsed? ==> EncodeFields(r.payload) <= data by {
          if r.Parsed? {
            assert data[0..] == data;
          }
        }
        r
      case None => Rejected
  }

  /** The reads of one record through a DataReader cursor. */
  method ReadRecord(data: seq<byte>, withMagic: bool) returns (outcome: ParseOutcome)
    requires |data| >= 3
    ensures outcome == DecodeRecord(data, withMagic)
  {
    var position := 0;
    if withMagic {
      var magicNumber := data[position];
      position := position + 1;
      if magicNumber != MAGIC_NUMBER {
        return Rejected;
      }
    }
    var version := data[position];
    position := position + 1;
    var nameLength := data[position] as nat;
    position := position + 1;
    if position + nameLength > |data| {
      return ReaderFault;
    }
    var name := data[position..position + nameLength];
    position := position + nameLength;
    if position + 1 > |data| {
      return ReaderFault;
    }
    var idLength := data[position] as nat;
    position := position + 1;
    if position + idLength > |data| {
      return ReaderFault;
    }
    var id := data[position..position + idLength];
    return Parsed(SyncPayload(name, version, id));
  }

  /** BLEPayloadManager::TryParseAdvertisement: two loops with early returns. */
  method TryParseAdvertisement(ad: Advertisement) returns (outcome: ParseOutcome)
    ensures outcome == ParseAdvertisement(ad)
  {
    var i := 0;
    while i < |ad.manufacturerData|
      invariant i <= |ad.manufacturerData|
      invariant forall k :: 0 <= k < i ==> ad.manufacturerData[k].companyId != MICROSOFT_COMPANY_ID
    {
      var manufacturerData := ad.manufacturerData[i];
      if manufacturerData.companyId == MICROSOFT_COMPANY_ID {
        assert FirstOurEntry(ad.manufacturerData) == Some(i);
        if |manufacturerData.data| < 3 {
          return Rejected;
        }
        outcome := ReadRecord(manufacturerData.data, true);
        return;
      }
      i := i + 1;
    }
    var j := 0;
    while j < |ad.dataSections|
      invariant j <= |ad.dataSections|
      invariant forall k :: 0 <= k < j ==> ad.dataSections[k].dataType != CLIPBOARD_SYNC_DATA_TYPE
    {
      var section := ad.dataSections[j];
      if section.dataType == CLIPBOARD_SYNC_DATA_TYPE {
        assert FirstOurSection(ad.dataSections) == Some(j);
        if |section.data| < 3 {
          return Rejected;
        }
        outcome := ReadRecord(section.data, false);
        return;
      }
      j := j + 1;
    }
    return Rejected;
  }

  /** Parsing what CreateAdvertisement wrote gives the payload back when both lengths fit a byte. */
  lemma CreateAdvertisementRoundTrip(p: SyncPayload)
    requires Fits(p)
    ensures ParseAdvertisement(CreateAdvertisement(p)) == Parsed(p)
  {
    var data := [MAGIC_NUMBER] + EncodeFields(p);
    assert data[1..] == EncodeFields(p);
    EncodedPrefixParses(data, 1, p);
  }

  /** Parsing what CreateCustomTypeAdvertisement wrote gives the payload back when both lengths fit a byte. */
  lemma CreateCustomTypeRoundTrip(p: SyncPayload)
    requires Fits(p)
    ensures ParseAdvertisement(CreateCustomTypeAdvertisement(p)) == Parsed(p)
  {
    var data := EncodeFields(p);
    assert data[0..] == data;
    EncodedPrefixParses(data, 0, p);
  }

  /** When a 0x0006 entry is present, the data sections play no part in the outcome. */
  lemma ManufacturerEntryDecides(entries: seq<ManufacturerData>, sections1: seq<DataSection>, sections2: seq<DataSection>)
    requires exists i :: 0 <= i < |entries| && entries[i].companyId == MICROSOFT_COMPANY_ID
    ensures ParseAdvertisement(Advertisement(entries, sections1)) == ParseAdvertisement(Advertisement(entries, sections2))
  {
  }

  /** A 0x0006 entry that is too short or lacks the magic byte makes the parse fail, even with a valid 0xA0 section behind it. */
  lemma BadEntryHidesSection(data: seq<byte>, p: SyncPayload)
    requires Fits(p)
    requires |data| < 3 || data[0] != MAGIC_NUMBER
    ensures ParseAdvertisement(Advertisement([ManufacturerData(MICROSOFT_COMPANY_ID, data)],
                                             CreateCustomTypeAdvertisement(p).dataSections)) == Rejected
  {
  }

  /**
   * A name of 256 bytes is written with length byte 0, so the record no longer
   * reads back as the payload that was written.
   */
  lemma LongNameDoesNotRoundTrip(p: SyncPayload)
    requires |p.deviceName| == 256
    ensures ParseAdvertisement(CreateAdvertisement(p)) != Parsed(p)
  {
    var data := [MAGIC_NUMBER] + EncodeFields(p);
    assert data[2] == 0;
  }
}
