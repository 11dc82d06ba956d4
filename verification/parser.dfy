/**
 * An independent reader of the frame: it finds the 802.11 header through the Radiotap it_len
 * field and walks the information elements by their length bytes. It loads it_len, it_present,
 * i_fc and i_dur in the host's own byte order, the order the builder stores them in, so it runs
 * on the same host as the builder; a reader that follows the Radiotap format reads it_len
 * little-endian instead (RadiotapLengthAsLittleEndian). Reading back what the builder wrote
 * checks the layout end to end.
 */
module FrameParser {
  import opened Bytes
  import opened Ieee80211

  datatype Element = Element(id: uint8, payload: seq<uint8>)

  /** The fields of a captured beacon. Multi-byte fields are loaded natively, except the two htole16 fields. */
  datatype Beacon = Beacon(
    version: uint8, headerLength: nat, present: nat, rate: uint8,
    frameControl: nat, duration: nat, addr1: seq<uint8>, addr2: seq<uint8>, addr3: seq<uint8>,
    timestamp: nat, interval: nat, capabilities: nat, elements: seq<Element>)

  /** Splits a byte sequence into tagged elements: id, length byte, that many payload bytes. */
  function ParseElements(s: seq<uint8>): (r: Option<seq<Element>>)
    ensures r.Some? && s != [] ==> |r.value| >= 1
    decreases |s|
  {
    if s == [] then Some([])
    else if |s| < INFO_ELEMENT_HEADER_SIZE || |s| < INFO_ELEMENT_HEADER_SIZE + s[1] then None
    else
      match ParseElements(s[INFO_ELEMENT_HEADER_SIZE + s[1]..])
      case None => None
      case Some(rest) => Some([Element(s[0], s[INFO_ELEMENT_HEADER_SIZE..INFO_ELEMENT_HEADER_SIZE + s[1]])] + rest)
  }

  function EncodeElements(es: seq<Element>): seq<uint8>
  {
    if es == [] then [] else InformationElement(es[0].id, es[0].payload) + EncodeElements(es[1..])
  }

  ghost predicate PayloadsFit(es: seq<Element>)
  {
    forall i :: 0 <= i < |es| ==> |es[i].payload| < 0x100
  }

  /** One encoded element in front of any bytes reads back as that element in front of what the bytes parse to. */
  lemma ParseOneElement(e: Element, tail: seq<uint8>)
    requires |e.payload| < 0x100
    ensures ParseElements(InformationElement(e.id, e.payload) + tail)
         == match ParseElements(tail)
            case None => None
            case Some(rest) => Some([e] + rest)
  {
  }

  lemma AppendAssociates(a: seq<Element>, b: seq<Element>, c: seq<Element>)
    ensures a + (b + c) == (a + b) + c
  {
  }

  /** Encoded elements followed by any bytes read back as those elements followed by what the bytes parse to. */
  lemma {:induction false} ParseEncodedElements(es: seq<Element>, tail: seq<uint8>)
    requires PayloadsFit(es)
    ensures ParseElements(EncodeElements(es) + tail)
         == match ParseElements(tail)
            case None => None
            case Some(rest) => Some(es + rest)
  {
    if es == [] {
      assert EncodeElements(es) + tail == tail;
      var r := ParseElements(tail);
      if r.Some? {
        assert es + r.value == r.value;
      }
    } else {
      var e, others := es[0], es[1..];
      var later := EncodeElements(others) + tail;
      assert EncodeElements(es) + tail == InformationElement(e.id, e.payload) + later;
      assert PayloadsFit(others) by {
        forall i | 0 <= i < |others| ensures |others[i].payload| < 0x100 {
          assert others[i] == es[i + 1];
        }
      }
      ParseOneElement(e, later);
      ParseEncodedElements(others, tail);
      var r := ParseElements(tail);
      if r.Some? {
        assert es == [e] + others;
        AppendAssociates([e], others, r.value);
      }
    }
  }

  /** Reads a captured frame; None when it is too short or its elements do not line up. */
  function ParseBeacon(order: ByteOrder, buf: seq<uint8>): Option<Beacon>
  {
    if |buf| < RADIOTAP_HEADER_SIZE then None
    else
      var itLen := FromNative(order, buf[2..4]);
      if itLen < RADIOTAP_HEADER_SIZE + SIZEOF_DATA_RATE
         || |buf| < itLen + IEEE80211_FRAME_SIZE + BEACON_BODY_SIZE then None
      else
        var mac := itLen;
        var body := mac + IEEE80211_FRAME_SIZE;
        match ParseElements(buf[body + BEACON_BODY_SIZE..])
        case None => None
        case Some(elements) =>
          Some(Beacon(
            buf[0], itLen, FromNative(order, buf[4..8]), buf[RADIOTAP_HEADER_SIZE],
            FromNative(order, buf[mac..mac + 2]), FromNative(order, buf[mac + 2..mac + 4]),
            buf[mac + 4..mac + 10], buf[mac + 10..mac + 16], buf[mac + 16..mac + 22],
            FromNative(order, buf[body..body + 8]),
            FromLittleEndian(buf[body + 8..body + 10]), FromLittleEndian(buf[body + 10..body + 12]),
            elements))
  }
}

module FrameRoundTrip {
  import opened Bytes
  import opened Ieee80211
  import opened FrameParser

  /** The three elements the builder emits, as a receiver sees them. */
  function ExpectedElements(ap: AccessPointDescriptor, channel: uint8): seq<Element>
  {
    [Element(IEEE80211_ELEMID_SSID, ap.ssid),
     Element(IEEE80211_ELEMID_RATES, ap.dataRates),
     Element(IEEE80211_ELEMID_DSPARAMS, [channel])]
  }

  lemma ElementsEncoding(ap: AccessPointDescriptor, channel: uint8)
    requires |ap.ssid| < 0x100 && |ap.dataRates| < 0x100
    ensures PayloadsFit(ExpectedElements(ap, channel))
    ensures EncodeElements(ExpectedElements(ap, channel)) == Elements(ap, channel)
  {
    var es := ExpectedElements(ap, channel);
    assert EncodeElements(es[2..]) == InformationElement(IEEE80211_ELEMID_DSPARAMS, [channel]) + EncodeElements([]);
    assert EncodeElements(es[1..]) == InformationElement(IEEE80211_ELEMID_RATES, ap.dataRates) + EncodeElements(es[2..]);
  }

  /** Where each part of a header, rate, MAC header and body layout lands in the buffer. */
  lemma LayoutBytes(base: seq<uint8>, radiotap: seq<Cell>, rate: uint8, mac: seq<Cell>, rest: seq<uint8>)
    requires |radiotap| == RADIOTAP_HEADER_SIZE && |mac| == IEEE80211_FRAME_SIZE
    requires BEACON_BODY_OFFSET + |rest| <= |base|
    ensures var buf := Overlay(base, 0, radiotap + [Written(rate)] + mac + Known(rest));
      && buf[..RADIOTAP_HEADER_SIZE] == Overlay(base[..RADIOTAP_HEADER_SIZE], 0, radiotap)
      && buf[RATE_OFFSET] == rate
      && buf[MAC_HEADER_OFFSET..BEACON_BODY_OFFSET] == Overlay(base[MAC_HEADER_OFFSET..BEACON_BODY_OFFSET], 0, mac)
      && buf[BEACON_BODY_OFFSET..] == rest + base[BEACON_BODY_OFFSET + |rest|..]
  {
  }

  /** The bytes of a filled buffer: what the builder stored, and the buffer's own bytes elsewhere. */
  lemma FilledBuffer(order: ByteOrder, ap: AccessPointDescriptor, dataRate: uint8, channel: uint8, uninit: seq<uint8>)
    requires FrameLength(ap) <= |uninit|
    ensures var buf := Overlay(uninit, 0, BeaconFrame(order, ap, dataRate, channel));
      && buf[..RADIOTAP_HEADER_SIZE]
         == [0, uninit[1]] + Native(order, RADIOTAP_HEADER_SIZE + SIZEOF_DATA_RATE, 2) + Native(order, RADIOTAP_PRESENT, 4)
      && buf[RATE_OFFSET] == RateValue(dataRate)
      && buf[MAC_HEADER_OFFSET..BEACON_BODY_OFFSET]
         == Native(order, FRAME_CONTROL_BEACON, 2) + Native(order, 0, 2) + IEEE80211_BROADCAST_ADDR
            + ap.macAddress + ap.macAddress + uninit[BEACON_BODY_OFFSET - 2..BEACON_BODY_OFFSET]
      && buf[BEACON_BODY_OFFSET..] == BeaconBody(order) + Elements(ap, channel) + uninit[FrameLength(ap)..]
  {
    var macBase := uninit[MAC_HEADER_OFFSET..BEACON_BODY_OFFSET];
    LayoutBytes(uninit, RadiotapHeader(order), RateValue(dataRate), ManagementHeader(order, ap),
                BeaconBody(order) + Elements(ap, channel));
    RadiotapBytes(order, uninit[..RADIOTAP_HEADER_SIZE]);
    ManagementHeaderBytes(order, ap, macBase);
    assert macBase[IEEE80211_FRAME_SIZE - 2..] == uninit[BEACON_BODY_OFFSET - 2..BEACON_BODY_OFFSET];
  }

  /**
   * it_len is stored in the host's order, while the Radiotap format defines it as
   * little-endian: a reader that follows the format finds 9 on a little-endian host and
   * 0x900 on a big-endian one.
   */
  lemma RadiotapLengthAsLittleEndian(order: ByteOrder, ap: AccessPointDescriptor, dataRate: uint8, channel: uint8, uninit: seq<uint8>)
    requires FrameLength(ap) <= |uninit|
    ensures FromLittleEndian(Overlay(uninit, 0, BeaconFrame(order, ap, dataRate, channel))[2..4])
         == if order == LittleEndian then RADIOTAP_HEADER_SIZE + SIZEOF_DATA_RATE else 0x900
  {
    FilledBuffer(order, ap, dataRate, channel, uninit);
    var buf := Overlay(uninit, 0, BeaconFrame(order, ap, dataRate, channel));
    var stored := Native(order, RADIOTAP_HEADER_SIZE + SIZEOF_DATA_RATE, 2);
    assert buf[2..4] == buf[..RADIOTAP_HEADER_SIZE][2..4] == stored;
    assert LittleEndianBytes(9, 2) == [9, 0];
    if order == LittleEndian {
      assert FromLittleEndian([9, 0]) == 9 + 256 * FromLittleEndian([0]);
    } else {
      assert stored == Reverse([9, 0]) == [0, 9];
      assert FromLittleEndian([0, 9]) == 256 * FromLittleEndian([9]);
      assert FromLittleEndian([9]) == 9 + 256 * FromLittleEndian([]);
    }
  }

  lemma RadiotapBytes(order: ByteOrder, base: seq<uint8>)
    requires |base| == RADIOTAP_HEADER_SIZE
    ensures Overlay(base, 0, RadiotapHeader(order))
         == [0, base[1]] + Native(order, RADIOTAP_HEADER_SIZE + SIZEOF_DATA_RATE, 2) + Native(order, RADIOTAP_PRESENT, 4)
  {
  }

  lemma ManagementHeaderBytes(order: ByteOrder, ap: AccessPointDescriptor, base: seq<uint8>)
    requires |base| == IEEE80211_FRAME_SIZE
    ensures Overlay(base, 0, ManagementHeader(order, ap))
         == Native(order, FRAME_CONTROL_BEACON, 2) + Native(order, 0, 2) + IEEE80211_BROADCAST_ADDR
            + ap.macAddress + ap.macAddress + base[IEEE80211_FRAME_SIZE - 2..]
  {
  }

  /** The fields a receiver reads from the frame the builder writes. */
  function ExpectedBeacon(ap: AccessPointDescriptor, dataRate: uint8, channel: uint8, elements: seq<Element>): Beacon
  {
    Beacon(
      0, RADIOTAP_HEADER_SIZE + SIZEOF_DATA_RATE, 4, dataRate % 16 - dataRate % 2,
      0x0080, 0, [0xff, 0xff, 0xff, 0xff, 0xff, 0xff], ap.macAddress, ap.macAddress,
      0, 100, 0x0001, elements)
  }

  /** Reading a filled buffer: the header fields, then the elements found in what follows the beacon body. */
  lemma ParseFilledBuffer(order: ByteOrder, ap: AccessPointDescriptor, dataRate: uint8, channel: uint8, uninit: seq<uint8>)
    requires |ap.ssid| < 0x100 && |ap.dataRates| < 0x100
    requires FrameLength(ap) <= |uninit|
    ensures ParseBeacon(order, Overlay(uninit, 0, BeaconFrame(order, ap, dataRate, channel)))
         == match ParseElements(uninit[FrameLength(ap)..])
            case None => None
            case Some(more) => Some(ExpectedBeacon(ap, dataRate, channel, ExpectedElements(ap, channel) + more))
  {
    FilledBuffer(order, ap, dataRate, channel, uninit);
    ParseLaidOutBuffer(order, ap, dataRate, channel, Overlay(uninit, 0, BeaconFrame(order, ap, dataRate, channel)),
                       uninit[1], uninit[BEACON_BODY_OFFSET - 2..BEACON_BODY_OFFSET], uninit[FrameLength(ap)..]);
  }

  /** Parsing a buffer laid out as the builder lays it out, followed by `more`. */
  lemma ParseLaidOutBuffer(order: ByteOrder, ap: AccessPointDescriptor, dataRate: uint8, channel: uint8,
                           buf: seq<uint8>, pad: uint8, seqCtl: seq<uint8>, more: seq<uint8>)
    requires |ap.ssid| < 0x100 && |ap.dataRates| < 0x100 && |seqCtl| == 2
    requires ELEMENTS_OFFSET <= |buf|
    requires buf[..RADIOTAP_HEADER_SIZE]
          == [0, pad] + Native(order, RADIOTAP_HEADER_SIZE + SIZEOF_DATA_RATE, 2) + Native(order, RADIOTAP_PRESENT, 4)
    requires buf[RATE_OFFSET] == RateValue(dataRate)
    requires buf[MAC_HEADER_OFFSET..BEACON_BODY_OFFSET]
          == Native(order, FRAME_CONTROL_BEACON, 2) + Native(order, 0, 2) + IEEE80211_BROADCAST_ADDR
             + ap.macAddress + ap.macAddress + seqCtl
    requires buf[BEACON_BODY_OFFSET..] == BeaconBody(order) + Elements(ap, channel) + more
    ensures ParseBeacon(order, buf)
         == match ParseElements(more)
            case None => None
            case Some(extra) => Some(ExpectedBeacon(ap, dataRate, channel, ExpectedElements(ap, channel) + extra))
  {
    RadiotapFields(order, buf, pad);
    MacHeaderFields(order, ap, buf, seqCtl);
    BodyAndElements(order, ap, channel, buf, more);
    ParseFieldValues(order, ap, dataRate, channel, buf, more);
  }

  /** The body fields of a filled buffer, and the elements that follow them. */
  lemma BodyAndElements(order: ByteOrder, ap: AccessPointDescriptor, channel: uint8, buf: seq<uint8>, more: seq<uint8>)
    requires |ap.ssid| < 0x100 && |ap.dataRates| < 0x100
    requires ELEMENTS_OFFSET <= |buf|
    requires buf[BEACON_BODY_OFFSET..] == BeaconBody(order) + Elements(ap, channel) + more
    ensures FromNative(order, buf[33..41]) == 0
    ensures FromLittleEndian(buf[41..43]) == 100 && FromLittleEndian(buf[43..45]) == 1
    ensures ParseElements(buf[ELEMENTS_OFFSET..])
         == match ParseElements(more)
            case None => None
            case Some(extra) => Some(ExpectedElements(ap, channel) + extra)
  {
    var elements := Elements(ap, channel);
    assert buf[BEACON_BODY_OFFSET..] == BeaconBody(order) + (elements + more);
    BodyFields(order, buf, elements + more);
    ElementsEncoding(ap, channel);
    ParseEncodedElements(ExpectedElements(ap, channel), more);
  }

  /** Reading a buffer whose fields hold the values the builder stores. */
  lemma ParseFieldValues(order: ByteOrder, ap: AccessPointDescriptor, dataRate: uint8, channel: uint8,
                         buf: seq<uint8>, more: seq<uint8>)
    requires ELEMENTS_OFFSET <= |buf|
    requires buf[0] == 0 && buf[RATE_OFFSET] == RateValue(dataRate)
    requires FromNative(order, buf[2..4]) == RADIOTAP_HEADER_SIZE + SIZEOF_DATA_RATE
    requires FromNative(order, buf[4..8]) == 4
    requires FromNative(order, buf[9..11]) == 0x0080 && FromNative(order, buf[11..13]) == 0
    requires buf[13..19] == [0xff, 0xff, 0xff, 0xff, 0xff, 0xff]
    requires buf[19..25] == ap.macAddress && buf[25..31] == ap.macAddress
    requires FromNative(order, buf[33..41]) == 0
    requires FromLittleEndian(buf[41..43]) == 100 && FromLittleEndian(buf[43..45]) == 1
    requires ParseElements(buf[ELEMENTS_OFFSET..])
          == match ParseElements(more)
             case None => None
             case Some(extra) => Some(ExpectedElements(ap, channel) + extra)
    ensures ParseBeacon(order, buf)
         == match ParseElements(more)
            case None => None
            case Some(extra) => Some(ExpectedBeacon(ap, dataRate, channel, ExpectedElements(ap, channel) + extra))
  {
  }

  lemma RadiotapFields(order: ByteOrder, buf: seq<uint8>, pad: uint8)
    requires RADIOTAP_HEADER_SIZE <= |buf|
    requires buf[..RADIOTAP_HEADER_SIZE]
          == [0, pad] + Native(order, RADIOTAP_HEADER_SIZE + SIZEOF_DATA_RATE, 2) + Native(order, RADIOTAP_PRESENT, 4)
    ensures buf[0] == 0
    ensures FromNative(order, buf[2..4]) == RADIOTAP_HEADER_SIZE + SIZEOF_DATA_RATE
    ensures FromNative(order, buf[4..8]) == 4
  {
    var radiotap := buf[..RADIOTAP_HEADER_SIZE];
    assert buf[2..4] == radiotap[2..4];
    assert buf[4..8] == radiotap[4..8];
    NativeRoundTrip(order, RADIOTAP_HEADER_SIZE + SIZEOF_DATA_RATE, 2);
    NativeRoundTrip(order, RADIOTAP_PRESENT, 4);
  }

  lemma MacHeaderFields(order: ByteOrder, ap: AccessPointDescriptor, buf: seq<uint8>, seqCtl: seq<uint8>)
    requires BEACON_BODY_OFFSET <= |buf| && |seqCtl| == 2
    requires buf[MAC_HEADER_OFFSET..BEACON_BODY_OFFSET]
          == Native(order, FRAME_CONTROL_BEACON, 2) + Native(order, 0, 2) + IEEE80211_BROADCAST_ADDR
             + ap.macAddress + ap.macAddress + seqCtl
    ensures FromNative(order, buf[9..11]) == 0x0080
    ensures FromNative(order, buf[11..13]) == 0
    ensures buf[13..19] == [0xff, 0xff, 0xff, 0xff, 0xff, 0xff]
    ensures buf[19..25] == ap.macAddress && buf[25..31] == ap.macAddress
  {
    var fc, dur := Native(order, FRAME_CONTROL_BEACON, 2), Native(order, 0, 2);
    var addr := ap.macAddress;
    SplitSlice(buf, MAC_HEADER_OFFSET, fc + dur + IEEE80211_BROADCAST_ADDR + addr + addr, seqCtl);
    SplitSlice(buf, MAC_HEADER_OFFSET, fc + dur + IEEE80211_BROADCAST_ADDR + addr, addr);
    SplitSlice(buf, MAC_HEADER_OFFSET, fc + dur + IEEE80211_BROADCAST_ADDR, addr);
    SplitSlice(buf, MAC_HEADER_OFFSET, fc + dur, IEEE80211_BROADCAST_ADDR);
    SplitSlice(buf, MAC_HEADER_OFFSET, fc, dur);
    NativeRoundTrip(order, FRAME_CONTROL_BEACON, 2);
    NativeRoundTrip(order, 0, 2);
  }

  /** Where a slice holds a + b, its first |a| bytes hold a and the rest hold b. */
  lemma SplitSlice(buf: seq<uint8>, at: nat, a: seq<uint8>, b: seq<uint8>)
    requires at + |a| + |b| <= |buf|
    requires buf[at..at + |a| + |b|] == a + b
    ensures buf[at..at + |a|] == a
    ensures buf[at + |a|..at + |a| + |b|] == b
  {
    forall i | 0 <= i < |a| ensures buf[at..at + |a|][i] == a[i] {
      assert buf[at + i] == (a + b)[i];
    }
    forall i | 0 <= i < |b| ensures buf[at + |a|..at + |a| + |b|][i] == b[i] {
      assert buf[at + |a| + i] == (a + b)[|a| + i];
    }
  }

  lemma BodyBytes(buf: seq<uint8>, tail: seq<uint8>)
    requires BEACON_BODY_OFFSET <= |buf|
    requires buf[BEACON_BODY_OFFSET..] == [0, 0, 0, 0, 0, 0, 0, 0, 0x64, 0x00, 0x01, 0x00] + tail
    ensures buf[33..41] == [0, 0, 0, 0, 0, 0, 0, 0]
    ensures buf[41..43] == [0x64, 0x00] && buf[43..45] == [0x01, 0x00]
    ensures buf[ELEMENTS_OFFSET..] == tail
  {
    var timestamp: seq<uint8>, interval: seq<uint8>, capabilities: seq<uint8> := [0, 0, 0, 0, 0, 0, 0, 0], [0x64, 0x00], [0x01, 0x00];
    var body := timestamp + interval + capabilities;
    assert buf[BEACON_BODY_OFFSET..ELEMENTS_OFFSET] == body && buf[ELEMENTS_OFFSET..] == tail by {
      assert buf[BEACON_BODY_OFFSET..BEACON_BODY_OFFSET + |body| + |tail|] == buf[BEACON_BODY_OFFSET..];
      SplitSlice(buf, BEACON_BODY_OFFSET, body, tail);
    }
    assert buf[33..43] == timestamp + interval && buf[43..45] == capabilities by {
      SplitSlice(buf, BEACON_BODY_OFFSET, timestamp + interval, capabilities);
    }
    SplitSlice(buf, BEACON_BODY_OFFSET, timestamp, interval);
  }

  lemma BodyFields(order: ByteOrder, buf: seq<uint8>, tail: seq<uint8>)
    requires BEACON_BODY_OFFSET <= |buf|
    requires buf[BEACON_BODY_OFFSET..] == BeaconBody(order) + tail
    ensures FromNative(order, buf[33..41]) == 0
    ensures FromLittleEndian(buf[41..43]) == 100
    ensures FromLittleEndian(buf[43..45]) == 1
    ensures buf[ELEMENTS_OFFSET..] == tail
  {
    BodyBytes(buf, tail);
    NativeRoundTrip(order, 0, 8);
    assert Native(order, 0, 8) == [0, 0, 0, 0, 0, 0, 0, 0];
  }

  /**
   * A buffer holding exactly the bytes the builder writes reads back as the beacon it describes:
   * radiotap version 0, it_len 9, only the rate bit present, the masked rate, a beacon from the
   * AP to broadcast, interval 100 and capabilities 1 little-endian, and the SSID, Rates and DS
   * Parameter Set elements, when the reader loads the multi-byte header fields in the same
   * byte order as the builder stored them, whichever that is.
   */
  lemma ParseExactFrame(order: ByteOrder, ap: AccessPointDescriptor, dataRate: uint8, channel: uint8, uninit: seq<uint8>)
    requires |ap.ssid| < 0x100 && |ap.dataRates| < 0x100
    requires FrameLength(ap) == |uninit|
    ensures ParseBeacon(order, Overlay(uninit, 0, BeaconFrame(order, ap, dataRate, channel)))
         == Some(ExpectedBeacon(ap, dataRate, channel, ExpectedElements(ap, channel)))
  {
    ParseFilledBuffer(order, ap, dataRate, channel, uninit);
    assert ParseElements(uninit[FrameLength(ap)..]) == Some([]) by {
      assert uninit[FrameLength(ap)..] == [];
    }
    assert ExpectedElements(ap, channel) + [] == ExpectedElements(ap, channel);
  }

  /**
   * When the buffer is longer than what the builder writes, a receiver walking the elements
   * reads the leftover bytes too: the element list is malformed, or it holds more elements than
   * the three the builder wrote.
   */
  lemma OverlongBufferAddsElements(order: ByteOrder, ap: AccessPointDescriptor, dataRate: uint8, channel: uint8, uninit: seq<uint8>)
    requires |ap.ssid| < 0x100 && |ap.dataRates| < 0x100
    requires FrameLength(ap) < |uninit|
    ensures var r := ParseBeacon(order, Overlay(uninit, 0, BeaconFrame(order, ap, dataRate, channel)));
      r.None? || |r.value.elements| > 3
  {
    ParseFilledBuffer(order, ap, dataRate, channel, uninit);
  }
}
