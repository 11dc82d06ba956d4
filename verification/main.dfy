/**
 * main: argument count, the channel check, the buffer length, building the beacon and the
 * transmit loop. The socket, strtol and the kernel's answers to write() are inputs.
 */
module FakeAp {
  import opened Bytes
  import opened Ieee80211
  import opened Builder
  import opened Transmit
  import FrameParser
  import FrameRoundTrip

  /** The rate main asks for, 2 Mbit/s in units of 500 kbit/s. */
  const DATA_RATE: uint8 := 0x4

  /** sizeof(channel) in main, where channel is a uint64_t. */
  const SIZEOF_MAIN_CHANNEL: nat := 8

  /** Assigning strtol's long result to a uint64_t: the value modulo 2^64. */
  function ToUint64(v: int64): (c: uint64)
    ensures v >= 0 ==> c == v
    ensures v < 0 ==> c == v + 0x1_0000_0000_0000_0000
  {
    v % 0x1_0000_0000_0000_0000
  }

  /**
   * The channel test `channel <= 0 || 255 <= channel` on the converted value: a negative
   * number wraps to a huge one and is rejected, and so is 255.
   */
  function ChannelAccepted(parsed: int64): (ok: bool)
    ensures ok <==> 1 <= parsed <= 254
  {
    var channel := ToUint64(parsed);
    !(channel <= 0 || 255 <= channel)
  }

  /** beaconLength as main computes it: the last term is sizeof(channel) of the uint64_t. */
  function MainBeaconLength(ap: AccessPointDescriptor): (n: nat)
    ensures n == FrameLength(ap) + SIZEOF_MAIN_CHANNEL - SIZEOF_CHANNEL
  {
    RADIOTAP_HEADER_SIZE + SIZEOF_DATA_RATE + IEEE80211_FRAME_SIZE + BEACON_BODY_SIZE
      + INFO_ELEMENT_HEADER_SIZE * 3 + |ap.ssid| + |ap.dataRates| + SIZEOF_MAIN_CHANNEL
  }

  /** For the built-in access point the buffer is 75 bytes long; the builder writes 68 of them. */
  lemma MainBufferLength()
    ensures |AP.ssid| == 12 && |AP.dataRates| == 4
    ensures FrameLength(AP) == 68 && MainBeaconLength(AP) == 75
  {
  }

  datatype Outcome =
    | Usage                 // argc != 3
    | ChannelRejected       // channel outside 1..254 after conversion
    | SocketFailed          // opensocket returned a negative descriptor
    | Transmitted(beaconLength: nat, sent: seq<seq<uint8>>, end: LoopEnd)

  /** The process exit status, or None while the loop is still sending. */
  function ExitStatus(outcome: Outcome): (status: Option<int>)
    ensures status == None <==> outcome.Transmitted? && outcome.end == StillSending
    ensures status == Some(0) <==> outcome.Transmitted? && outcome.end.ShortWrite?
    ensures !outcome.Transmitted? ==> status == Some(-1)
  {
    match outcome
    case Transmitted(_, _, StillSending) => None
    case Transmitted(_, _, ShortWrite(_)) => Some(0)   // break, then main falls off its end
    case _ => Some(-1)
  }

  /** The bytes of the buffer main hands to write() when the allocation succeeds. */
  function SentFrame(order: ByteOrder, channel: uint8, uninit: seq<uint8>): (frame: seq<uint8>)
    requires |uninit| == MainBeaconLength(AP)
    ensures |frame| == MainBeaconLength(AP)
  {
    Overlay(uninit, 0, BeaconFrame(order, AP, DATA_RATE, channel))
  }

  /**
   * One run of main. `parsed` is strtol's result for argv[2], `socketOpens` whether
   * opensocket succeeds, `mallocSucceeds` and `uninit` what the allocator in
   * constructBeaconPacket returns, `results` what successive write() calls return. main does
   * not check for a NULL buffer: write() is then handed a null pointer and fails with -1.
   */
  method Run(order: ByteOrder, argc: int, parsed: int64, socketOpens: bool, mallocSucceeds: bool,
             uninit: seq<uint8>, results: seq<int>)
    returns (outcome: Outcome)
    requires |uninit| == MainBeaconLength(AP)
    ensures outcome == Usage <==> argc != 3
    ensures outcome == ChannelRejected <==> argc == 3 && !(1 <= parsed <= 254)
    ensures outcome == SocketFailed <==> argc == 3 && 1 <= parsed <= 254 && !socketOpens
    ensures outcome.Transmitted? ==> outcome.beaconLength == MainBeaconLength(AP)
    // With a NULL buffer the one write() call is handed no bytes at all, so `sent` stays empty:
    // only on this path is |sent| not the number of calls.
    ensures outcome.Transmitted? && !mallocSucceeds ==> outcome.sent == [] && outcome.end == ShortWrite(-1)
    ensures outcome.Transmitted? && mallocSucceeds ==>
      && (forall j :: 0 <= j < |outcome.sent| ==> outcome.sent[j] == SentFrame(order, parsed as uint8, uninit))
      && match FirstShortWrite(results, MainBeaconLength(AP))
         case Some(k) => |outcome.sent| == k + 1 && outcome.end == ShortWrite(results[k])
         case None => |outcome.sent| == |results| && outcome.end == StillSending
  {
    if argc != 3 {
      return Usage;
    }
    if !ChannelAccepted(parsed) {
      return ChannelRejected;
    }
    if !socketOpens {
      return SocketFailed;
    }
    var channel := (ToUint64(parsed) % 0x100) as uint8;
    var beaconLength := MainBeaconLength(AP);
    var packet := ConstructBeaconPacket(order, AP, DATA_RATE, channel, beaconLength, mallocSucceeds, uninit);
    if packet == null {
      return Transmitted(beaconLength, [], ShortWrite(-1));
    }
    assert packet[..beaconLength] == SentFrame(order, parsed as uint8, uninit) by {
      assert channel == parsed as uint8;
      assert packet[..beaconLength] == packet[..];
    }
    var sent, end := SendLoop(packet, beaconLength, results);
    outcome := Transmitted(beaconLength, sent, end);
  }

  /**
   * The seven bytes past the frame go out as they came from the allocator, and a receiver
   * walking the elements reads them too: the frame it sees is malformed or carries more
   * elements than the SSID, Rates and DS Parameter Set ones.
   */
  lemma SentFrameCarriesGarbage(order: ByteOrder, channel: uint8, uninit: seq<uint8>)
    requires |uninit| == MainBeaconLength(AP)
    ensures SentFrame(order, channel, uninit)[FrameLength(AP)..] == uninit[FrameLength(AP)..]
    ensures var r := FrameParser.ParseBeacon(order, SentFrame(order, channel, uninit));
      r.None? || |r.value.elements| > 3
  {
    MainBufferLength();
    var frame := SentFrame(order, channel, uninit);
    assert forall i :: FrameLength(AP) <= i < |frame| ==> frame[i] == uninit[i];
    FrameRoundTrip.OverlongBufferAddsElements(order, AP, DATA_RATE, channel, uninit);
  }
}
