/**
 * constructBeaconPacket: fills a freshly allocated buffer in place, walking one write cursor
 * forward through the Radiotap header, the rate byte, the management header, the beacon body
 * and the three information elements.
 */
module Builder {
  import opened Bytes
  import opened Ieee80211

  lemma OverlayAppend(base: seq<uint8>, at: nat, a: seq<Cell>, b: seq<Cell>)
    requires at + |a| + |b| <= |base|
    ensures Overlay(Overlay(base, at, a), at + |a|, b) == Overlay(base, at, a + b)
  {
  }

  lemma KnownAppend(a: seq<uint8>, b: seq<uint8>)
    ensures Known(a + b) == Known(a) + Known(b)
  {
  }

  /** A field store or memcpy: the bytes land at offset `at` and nothing else changes. */
  method Store(packet: array<uint8>, at: nat, bytes: seq<uint8>)
    requires at + |bytes| <= packet.Length
    modifies packet
    ensures packet[..] == Overlay(old(packet[..]), at, Known(bytes))
  {
    ghost var before := packet[..];
    for k := 0 to |bytes|
      invariant forall i :: 0 <= i < packet.Length ==>
        packet[i] == if at <= i < at + k then bytes[i - at] else before[i]
    {
      packet[at + k] := bytes[k];
    }
  }

  /** Cells that are not stored leave the buffer as it was. */
  lemma OverlayUntouched(base: seq<uint8>, at: nat, a: seq<Cell>, u: seq<Cell>)
    requires at + |a| + |u| <= |base|
    requires forall k :: 0 <= k < |u| ==> u[k] == Untouched
    ensures Overlay(base, at, a + u) == Overlay(base, at, a)
  {
  }

  /** it_version, it_len and it_present; the pad byte is not stored. */
  method WriteRadiotapHeader(packet: array<uint8>, radiotap: nat, order: ByteOrder)
    requires radiotap + RADIOTAP_HEADER_SIZE <= packet.Length
    modifies packet
    ensures packet[..] == Overlay(old(packet[..]), radiotap, RadiotapHeader(order))
  {
    ghost var before := packet[..];
    var itLen, itPresent := Native(order, RADIOTAP_HEADER_SIZE + SIZEOF_DATA_RATE, 2), Native(order, RADIOTAP_PRESENT, 4);
    Store(packet, radiotap, [0]);
    ghost var afterVersion := packet[..];
    Store(packet, radiotap + 2, itLen);
    ghost var afterLength := packet[..];
    Store(packet, radiotap + 4, itPresent);
    StoredAroundPad(before, radiotap, itLen, itPresent, afterVersion, afterLength, packet[..]);
  }

  /** A one-byte store, a skipped byte, then two stores back to back. */
  lemma StoredAroundPad(base: seq<uint8>, at: nat, a: seq<uint8>, b: seq<uint8>,
                        s1: seq<uint8>, s2: seq<uint8>, s3: seq<uint8>)
    requires |a| == 2 && at + 4 + |b| <= |base|
    requires s1 == Overlay(base, at, Known([0]))
    requires s2 == Overlay(s1, at + 2, Known(a))
    requires s3 == Overlay(s2, at + 4, Known(b))
    ensures s3 == Overlay(base, at, [Written(0), Untouched] + Known(a) + Known(b))
  {
  }

  /** i_fc (cleared, then set to management/beacon), i_dur and the three addresses; i_seq is not stored. */
  method WriteManagementHeader(packet: array<uint8>, macHeader: nat, order: ByteOrder, ap: AccessPointDescriptor)
    requires macHeader + IEEE80211_FRAME_SIZE <= packet.Length
    modifies packet
    ensures packet[..] == Overlay(old(packet[..]), macHeader, ManagementHeader(order, ap))
  {
    ghost var before := packet[..];
    var fc, dur := Native(order, FRAME_CONTROL_BEACON, 2), Native(order, 0, 2);
    Store(packet, macHeader, Native(order, 0, 2));
    ghost var cleared := packet[..];
    Store(packet, macHeader, fc);
    OverwroteSame(before, macHeader, Native(order, 0, 2), fc, cleared, packet[..]);
    ghost var filled, stored := Known(fc), packet[..];
    Store(packet, macHeader + 2, dur);
    StoredNext(before, macHeader, filled, Known(dur), macHeader + 2, stored, packet[..]);
    filled, stored := filled + Known(dur), packet[..];
    Store(packet, macHeader + 4, IEEE80211_BROADCAST_ADDR);
    StoredNext(before, macHeader, filled, Known(IEEE80211_BROADCAST_ADDR), macHeader + 4, stored, packet[..]);
    filled, stored := filled + Known(IEEE80211_BROADCAST_ADDR), packet[..];
    Store(packet, macHeader + 10, ap.macAddress);
    StoredNext(before, macHeader, filled, Known(ap.macAddress), macHeader + 10, stored, packet[..]);
    filled, stored := filled + Known(ap.macAddress), packet[..];
    Store(packet, macHeader + 16, ap.macAddress);
    StoredNext(before, macHeader, filled, Known(ap.macAddress), macHeader + 16, stored, packet[..]);
    filled := filled + Known(ap.macAddress);
    OverlayUntouched(before, macHeader, filled, [Untouched, Untouched]);
  }

  /** Two stores of the same length at the same place: the second one wins. */
  lemma OverwroteSame(base: seq<uint8>, at: nat, a: seq<uint8>, b: seq<uint8>, s1: seq<uint8>, s2: seq<uint8>)
    requires |a| == |b| && at + |b| <= |base|
    requires s1 == Overlay(base, at, Known(a))
    requires s2 == Overlay(s1, at, Known(b))
    ensures s2 == Overlay(base, at, Known(b))
  {
  }

  /** The zero timestamp, then interval and capabilities converted with htole16. */
  method WriteBeaconBody(packet: array<uint8>, beacon: nat, order: ByteOrder)
    requires beacon + BEACON_BODY_SIZE <= packet.Length
    modifies packet
    ensures packet[..] == Overlay(old(packet[..]), beacon, Known(BeaconBody(order)))
  {
    ghost var before := packet[..];
    var timestamp := Native(order, 0, 8);
    var interval := Native(order, HostToLittleEndian16(order, BEACON_INTERVAL / 1024), 2);
    var capabilities := Native(order, HostToLittleEndian16(order, 0x0001), 2);
    Store(packet, beacon, timestamp);
    Store(packet, beacon + 8, interval);
    assert packet[..] == Overlay(before, beacon, Known(timestamp) + Known(interval)) by {
      OverlayAppend(before, beacon, Known(timestamp), Known(interval));
    }
    Store(packet, beacon + 10, capabilities);
    OverlayAppend(before, beacon, Known(timestamp) + Known(interval), Known(capabilities));
    KnownAppend(timestamp, interval);
    KnownAppend(timestamp + interval, capabilities);
  }

  /** info_elemid, info_length (the payload length cut to a byte) and the payload. */
  method WriteInformationElement(packet: array<uint8>, info: nat, id: uint8, payload: seq<uint8>)
    requires info + INFO_ELEMENT_HEADER_SIZE + |payload| <= packet.Length
    modifies packet
    ensures packet[..] == Overlay(old(packet[..]), info, Known(InformationElement(id, payload)))
  {
    Store(packet, info, [id]);
    Store(packet, info + 1, [|payload| % 0x100]);
    Store(packet, info + INFO_ELEMENT_HEADER_SIZE, payload);
  }

  /**
   * Allocates beaconLength bytes (holding `uninit`, or failing when the allocator does) and
   * lays the beacon frame out from offset 0. Bytes the builder does not store keep the
   * allocator's contents. The caller must make the buffer long enough; it is never checked.
   */
  method ConstructBeaconPacket(order: ByteOrder, ap: AccessPointDescriptor, dataRate: uint8, channel: uint8,
                               beaconLength: nat, mallocSucceeds: bool, uninit: seq<uint8>)
    returns (packet: array?<uint8>)
    requires FrameLength(ap) <= beaconLength
    requires |uninit| == beaconLength
    ensures packet == null <==> !mallocSucceeds
    ensures packet != null ==> fresh(packet) && packet[..] == Overlay(uninit, 0, BeaconFrame(order, ap, dataRate, channel))
  {
    if !mallocSucceeds {
      return null;
    }
    packet := new uint8[beaconLength](i requires 0 <= i < beaconLength => uninit[i]);
    assert packet[..] == uninit;

    var radiotap := 0;
    var cursor := radiotap + RADIOTAP_HEADER_SIZE;
    WriteRadiotapHeader(packet, radiotap, order);
    // The frame stored so far: packet[..] == Overlay(uninit, 0, filled) after every step.
    ghost var filled, before := RadiotapHeader(order), packet[..];

    Store(packet, cursor, [RateValue(dataRate)]);
    StoredNext(uninit, 0, filled, Known([RateValue(dataRate)]), cursor, before, packet[..]);
    filled, before := filled + Known([RateValue(dataRate)]), packet[..];
    cursor := cursor + SIZEOF_DATA_RATE;

    var macHeader := cursor;
    cursor := cursor + IEEE80211_FRAME_SIZE;
    WriteManagementHeader(packet, macHeader, order, ap);
    StoredNext(uninit, 0, filled, ManagementHeader(order, ap), macHeader, before, packet[..]);
    filled, before := filled + ManagementHeader(order, ap), packet[..];

    var beacon := cursor;
    cursor := cursor + BEACON_BODY_SIZE;
    WriteBeaconBody(packet, beacon, order);
    StoredNext(uninit, 0, filled, Known(BeaconBody(order)), beacon, before, packet[..]);
    filled, before := filled + Known(BeaconBody(order)), packet[..];

    var info := cursor;
    cursor := cursor + INFO_ELEMENT_HEADER_SIZE + |ap.ssid|;
    WriteInformationElement(packet, info, IEEE80211_ELEMID_SSID, ap.ssid);
    StoredNext(uninit, 0, filled, Known(InformationElement(IEEE80211_ELEMID_SSID, ap.ssid)), info, before, packet[..]);
    filled, before := filled + Known(InformationElement(IEEE80211_ELEMID_SSID, ap.ssid)), packet[..];

    info := cursor;
    cursor := cursor + INFO_ELEMENT_HEADER_SIZE + |ap.dataRates|;
    WriteInformationElement(packet, info, IEEE80211_ELEMID_RATES, ap.dataRates);
    StoredNext(uninit, 0, filled, Known(InformationElement(IEEE80211_ELEMID_RATES, ap.dataRates)), info, before, packet[..]);
    filled, before := filled + Known(InformationElement(IEEE80211_ELEMID_RATES, ap.dataRates)), packet[..];

    info := cursor;
    cursor := cursor + INFO_ELEMENT_HEADER_SIZE + SIZEOF_CHANNEL;
    WriteInformationElement(packet, info, IEEE80211_ELEMID_DSPARAMS, [channel]);
    StoredNext(uninit, 0, filled, Known(InformationElement(IEEE80211_ELEMID_DSPARAMS, [channel])), info, before, packet[..]);
    filled := filled + Known(InformationElement(IEEE80211_ELEMID_DSPARAMS, [channel]));

    PartsMakeFrame(order, ap, dataRate, channel);
  }

  /**
   * A store placed right after the cells already stored from `start` on extends them.
   */
  lemma StoredNext(base: seq<uint8>, start: nat, filled: seq<Cell>, part: seq<Cell>, at: nat,
                   before: seq<uint8>, after: seq<uint8>)
    requires at == start + |filled| && at + |part| <= |base|
    requires before == Overlay(base, start, filled)
    requires after == Overlay(before, at, part)
    ensures after == Overlay(base, start, filled + part)
  {
  }

  /** The seven parts the cursor visits, back to back, are the frame. */
  lemma PartsMakeFrame(order: ByteOrder, ap: AccessPointDescriptor, dataRate: uint8, channel: uint8)
    ensures RadiotapHeader(order) + Known([RateValue(dataRate)]) + ManagementHeader(order, ap)
            + Known(BeaconBody(order))
            + Known(InformationElement(IEEE80211_ELEMID_SSID, ap.ssid))
            + Known(InformationElement(IEEE80211_ELEMID_RATES, ap.dataRates))
            + Known(InformationElement(IEEE80211_ELEMID_DSPARAMS, [channel]))
            == BeaconFrame(order, ap, dataRate, channel)
  {
    var ssid := InformationElement(IEEE80211_ELEMID_SSID, ap.ssid);
    var rates := InformationElement(IEEE80211_ELEMID_RATES, ap.dataRates);
    var ds := InformationElement(IEEE80211_ELEMID_DSPARAMS, [channel]);
    assert Known([RateValue(dataRate)]) == [Written(RateValue(dataRate))];
    assert Elements(ap, channel) == ssid + rates + ds;
    KnownParts(RadiotapHeader(order) + Known([RateValue(dataRate)]) + ManagementHeader(order, ap),
               BeaconBody(order), ssid, rates, ds);
  }

  /** Storing four byte strings one after the other stores their concatenation. */
  lemma KnownParts(head: seq<Cell>, body: seq<uint8>, ssid: seq<uint8>, rates: seq<uint8>, ds: seq<uint8>)
    ensures head + Known(body) + Known(ssid) + Known(rates) + Known(ds)
         == head + Known(body + (ssid + rates + ds))
  {
    KnownAppend(body, ssid + rates + ds);
    KnownAppend(ssid + rates, ds);
    KnownAppend(ssid, rates);
  }
}
