/**
 * The beacon frame that constructBeaconPacket lays out: a Radiotap capture header, one rate
 * byte, the 802.11 management header, the fixed beacon body and three information elements,
 * packed with no padding. The layout is a sequence of cells; a cell the builder never stores
 * to (the Radiotap pad byte, the sequence-control field) keeps whatever the buffer held.
 */
module Ieee80211 {
  import opened Bytes

  // Constants of main.c.
  const IEEE80211_ADDR_LEN := 6
  const IEEE80211_RATE_BASIC: uint8 := 0x01
  const IEEE80211_RATE_VAL: uint8 := 0x0e
  const BEACON_INTERVAL := 102400

  // Values from ieee80211_radiotap.h and ieee80211.h (standard definitions).
  const RADIOTAP_HEADER_SIZE := 8          // sizeof(struct ieee80211_radiotap_header)
  const IEEE80211_RADIOTAP_RATE := 2       // bit number of the rate field in it_present
  const IEEE80211_FRAME_SIZE := 24         // sizeof(struct ieee80211_frame)
  const IEEE80211_FTYPE_MGMT: uint16 := 0x0000
  const IEEE80211_STYPE_BEACON: uint16 := 0x0080
  const IEEE80211_ELEMID_SSID: uint8 := 0
  const IEEE80211_ELEMID_RATES: uint8 := 1
  const IEEE80211_ELEMID_DSPARAMS: uint8 := 3

  // Sizes of the packed structures of main.c and of the builder's scalar parameters.
  const BEACON_BODY_SIZE := 12             // sizeof(struct ieee80211_beacon)
  const INFO_ELEMENT_HEADER_SIZE := 2      // sizeof(struct ieee80211_info_element)
  const SIZEOF_DATA_RATE := 1              // uint8_t dataRate
  const SIZEOF_CHANNEL := 1                // uint8_t channel

  // Where each part starts in the frame.
  const RATE_OFFSET := RADIOTAP_HEADER_SIZE
  const MAC_HEADER_OFFSET := RATE_OFFSET + SIZEOF_DATA_RATE
  const BEACON_BODY_OFFSET := MAC_HEADER_OFFSET + IEEE80211_FRAME_SIZE
  const ELEMENTS_OFFSET := BEACON_BODY_OFFSET + BEACON_BODY_SIZE

  type MacAddress = s: seq<uint8> | |s| == 6 witness [0, 0, 0, 0, 0, 0]

  const IEEE80211_BROADCAST_ADDR: MacAddress := [0xff, 0xff, 0xff, 0xff, 0xff, 0xff]

  /** The access point the frame advertises. */
  datatype AccessPointDescriptor = AccessPointDescriptor(
    macAddress: MacAddress,
    ssid: seq<uint8>,
    dataRates: seq<uint8>)

  /** Bitwise AND of two naturals, one binary digit at a time. */
  function BitAnd(a: nat, b: nat): (r: nat)
    ensures r <= a && r <= b
  {
    if a == 0 || b == 0 then 0
    else 2 * BitAnd(a / 2, b / 2) + (if a % 2 == 1 && b % 2 == 1 then 1 else 0)
  }

  /** Bitwise OR of two naturals, one binary digit at a time. */
  function BitOr(a: nat, b: nat): (r: nat)
    ensures r <= a + b
  {
    if a == 0 then b
    else if b == 0 then a
    else 2 * BitOr(a / 2, b / 2) + (if a % 2 == 1 || b % 2 == 1 then 1 else 0)
  }

  /**
   * The rate byte after the Radiotap header: dataRate & IEEE80211_RATE_VAL. Bits 1 to 3 of
   * dataRate are kept and the IEEE80211_RATE_BASIC bit (bit 0) and bits 4 to 7 are cleared.
   */
  function RateValue(dataRate: uint8): (r: uint8)
    ensures r == dataRate % 16 - dataRate % 2
  {
    RateMaskKeepsValueBits(dataRate);
    BitAnd(dataRate, IEEE80211_RATE_VAL)
  }

  /** The digit-by-digit BitAnd of the rate mask is C's `&` on the byte. */
  lemma RateValueIsByteAnd(b: bv8)
    ensures RateValue(b as int) == (b & (IEEE80211_RATE_VAL as bv8)) as int
  {
    ByteLowBits(b);
  }

  /** Bits 1 to 3 of a byte, taken on the byte and on its value, are the same number. */
  lemma ByteLowBits(b: bv8)
    ensures (b & (IEEE80211_RATE_VAL as bv8)) as int == b as int % 16 - b as int % 2
  {
    assert b & 0x0e == b % 16 - b % 2;
    ByteRemainder2(b);
    ByteRemainder16(b);
  }

  lemma ByteRemainder2(b: bv8)
    ensures (b % 2) as int == b as int % 2
  {
  }

  lemma ByteRemainder16(b: bv8)
    ensures (b % 16) as int == b as int % 16
  {
  }

  lemma RateMaskKeepsValueBits(d: nat)
    ensures BitAnd(d, IEEE80211_RATE_VAL) == d % 16 - d % 2
  {
    var x := d / 2;
    var y := x / 2;
    var z := y / 2;
    assert BitAnd(z, 1) == z % 2;
    assert BitAnd(y, 3) == y % 4 by {
      LowBits4(y);
    }
    assert BitAnd(x, 7) == x % 8 by {
      LowBits8(x);
    }
    assert BitAnd(d, 14) == 2 * BitAnd(x, 7);
    LowBits16(d);
  }

  // The low bits of n below 2m are the low bit of n and, above it, the low bits of n / 2 below m.

  lemma LowBits4(n: nat)
    ensures n % 4 == 2 * (n / 2 % 2) + n % 2
  {
  }

  lemma LowBits8(n: nat)
    ensures n % 8 == 2 * (n / 2 % 4) + n % 2
  {
  }

  lemma LowBits16(n: nat)
    ensures n % 16 == 2 * (n / 2 % 8) + n % 2
  {
  }

  /** IEEE80211B_DEFAULT_RATES: 1 and 2 Mbit/s flagged basic, 5.5 and 11 Mbit/s not. */
  function DefaultRates(): (rates: seq<uint8>)
    ensures rates == [0x03, 0x05, 0x0b, 0x16]
  {
    [BitOr(IEEE80211_RATE_BASIC, 2), BitOr(IEEE80211_RATE_BASIC, 4), 11, 22]
  }

  function Ascii(s: string): (bs: seq<uint8>)
    requires forall i :: 0 <= i < |s| ==> s[i] as int < 0x100
  {
    seq(|s|, i requires 0 <= i < |s| => s[i] as int)
  }

  /** The process-wide descriptor `ap`. */
  const AP := AccessPointDescriptor(
    [0x08, 0x00, 0x27, 0xa1, 0x58, 0x8d],
    Ascii("Hello World!"),
    DefaultRates())

  /**
   * The descriptor's lengths agree with its data (12 SSID bytes, the four default rates),
   * both fit the limits of their elements (32 SSID bytes, 8 rates), and the address it
   * transmits from is an individual address, not the broadcast one.
   */
  lemma AccessPointDescriptorConsistent()
    ensures |AP.ssid| == 12 && AP.dataRates == DefaultRates()
    ensures |AP.ssid| <= 32 && |AP.dataRates| <= 8
    ensures AP.macAddress[0] % 2 == 0 && AP.macAddress != IEEE80211_BROADCAST_ADDR
  {
  }

  /** One byte of the frame: stored by the builder, or left as the buffer held it. */
  datatype Cell = Written(value: uint8) | Untouched

  function Known(bs: seq<uint8>): (cs: seq<Cell>)
    ensures |cs| == |bs|
  {
    seq(|bs|, i requires 0 <= i < |bs| => Written(bs[i]))
  }

  /** The buffer `base` after the cells are stored at offset `at`; untouched cells keep base's byte. */
  function Overlay(base: seq<uint8>, at: nat, cells: seq<Cell>): (r: seq<uint8>)
    requires at + |cells| <= |base|
    ensures |r| == |base|
  {
    seq(|base|, i requires 0 <= i < |base| =>
      if at <= i < at + |cells| && cells[i - at].Written? then cells[i - at].value else base[i])
  }

  /** it_present: 1 << IEEE80211_RADIOTAP_RATE. */
  const RADIOTAP_PRESENT: uint32 := ((1 as bv32) << IEEE80211_RADIOTAP_RATE) as uint32

  /** it_version, the pad byte, it_len and it_present, the last two stored natively. */
  function RadiotapHeader(order: ByteOrder): (cells: seq<Cell>)
    ensures |cells| == RADIOTAP_HEADER_SIZE
  {
    [Written(0), Untouched]
      + Known(Native(order, RADIOTAP_HEADER_SIZE + SIZEOF_DATA_RATE, 2))
      + Known(Native(order, RADIOTAP_PRESENT, 4))
  }

  /** Frame control (management, beacon) and i_dur, stored natively. */
  const FRAME_CONTROL_BEACON: uint16 := BitOr(IEEE80211_FTYPE_MGMT, IEEE80211_STYPE_BEACON)

  /** struct ieee80211_frame: i_fc, i_dur, three addresses, and i_seq, which is never stored. */
  function ManagementHeader(order: ByteOrder, ap: AccessPointDescriptor): (cells: seq<Cell>)
    ensures |cells| == IEEE80211_FRAME_SIZE
  {
    Known(Native(order, FRAME_CONTROL_BEACON, 2))
      + Known(Native(order, 0, 2))
      + Known(IEEE80211_BROADCAST_ADDR)
      + Known(ap.macAddress)
      + Known(ap.macAddress)
      + [Untouched, Untouched]
  }

  /** struct ieee80211_beacon: a zero timestamp, then interval and capabilities through htole16. */
  function BeaconBody(order: ByteOrder): (bs: seq<uint8>)
    ensures bs == [0, 0, 0, 0, 0, 0, 0, 0, 0x64, 0x00, 0x01, 0x00]
  {
    assert Native(order, 0, 8) == [0, 0, 0, 0, 0, 0, 0, 0];
    assert Native(order, HostToLittleEndian16(order, BEACON_INTERVAL / 1024), 2) == [0x64, 0x00];
    assert Native(order, HostToLittleEndian16(order, 0x0001), 2) == [0x01, 0x00];
    Native(order, 0, 8)
      + Native(order, HostToLittleEndian16(order, BEACON_INTERVAL / 1024), 2)
      + Native(order, HostToLittleEndian16(order, 0x0001), 2)
  }

  /** An information element: id, the payload length truncated to a byte, the payload. */
  function InformationElement(id: uint8, payload: seq<uint8>): (bs: seq<uint8>)
    ensures |bs| == INFO_ELEMENT_HEADER_SIZE + |payload|
  {
    [id, |payload| % 0x100] + payload
  }

  /** The SSID, Supported Rates and DS Parameter Set elements, back to back. */
  function Elements(ap: AccessPointDescriptor, channel: uint8): (bs: seq<uint8>)
    ensures |bs| == 3 * INFO_ELEMENT_HEADER_SIZE + |ap.ssid| + |ap.dataRates| + SIZEOF_CHANNEL
  {
    InformationElement(IEEE80211_ELEMID_SSID, ap.ssid)
      + InformationElement(IEEE80211_ELEMID_RATES, ap.dataRates)
      + InformationElement(IEEE80211_ELEMID_DSPARAMS, [channel])
  }

  /**
   * Where the cursor puts each element: the SSID element first, the Rates element right
   * after the SSID payload, and at the very end the DS element's id, its length 1 and the
   * channel.
   */
  lemma ElementsLayout(ap: AccessPointDescriptor, channel: uint8)
    ensures var bs := Elements(ap, channel);
      && bs[0] == IEEE80211_ELEMID_SSID && bs[2..2 + |ap.ssid|] == ap.ssid
      && bs[2 + |ap.ssid|] == IEEE80211_ELEMID_RATES
      && bs[4 + |ap.ssid|..4 + |ap.ssid| + |ap.dataRates|] == ap.dataRates
      && bs[|bs| - 3..] == [IEEE80211_ELEMID_DSPARAMS, SIZEOF_CHANNEL, channel]
  {
  }

  /** The number of bytes the builder writes: where its cursor stops, after the last element. */
  function FrameLength(ap: AccessPointDescriptor): (n: nat)
    ensures forall channel: uint8 :: n == ELEMENTS_OFFSET + |Elements(ap, channel)|
  {
    RADIOTAP_HEADER_SIZE + SIZEOF_DATA_RATE + IEEE80211_FRAME_SIZE + BEACON_BODY_SIZE
      + INFO_ELEMENT_HEADER_SIZE + |ap.ssid|
      + INFO_ELEMENT_HEADER_SIZE + |ap.dataRates|
      + INFO_ELEMENT_HEADER_SIZE + SIZEOF_CHANNEL
  }

  /** The whole frame, cell by cell. */
  function BeaconFrame(order: ByteOrder, ap: AccessPointDescriptor, dataRate: uint8, channel: uint8): (cells: seq<Cell>)
    ensures |cells| == FrameLength(ap) == 52 + |ap.ssid| + |ap.dataRates|
  {
    RadiotapHeader(order)
      + [Written(RateValue(dataRate))]
      + ManagementHeader(order, ap)
      + Known(BeaconBody(order) + Elements(ap, channel))
  }
}
