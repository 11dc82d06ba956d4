/**
 * The transmit loop of main: the same buffer is handed to write() again and again until a
 * call reports fewer bytes than the frame holds. What write() returns is not known to the
 * program, so each run is given the sequence of values its successive calls return; a run
 * whose sequence holds no short write is still sending when the sequence ends.
 */
module Transmit {
  import opened Bytes

  datatype LoopEnd =
    | ShortWrite(bytes: int)   // write() returned `bytes` < beaconLength: perror, then break
    | StillSending             // every call given so far sent the whole frame

  /** The index of the first call that returns fewer than `length` bytes, if any. */
  function FirstShortWrite(results: seq<int>, length: nat): (k: Option<nat>)
    ensures k.Some? ==> k.value < |results| && results[k.value] < length
    ensures k.Some? ==> forall j :: 0 <= j < k.value ==> results[j] >= length
    ensures k.None? <==> forall j :: 0 <= j < |results| ==> results[j] >= length
  {
    if results == [] then None
    else if results[0] < length then Some(0)
    else match FirstShortWrite(results[1..], length)
      case None => None
      case Some(k) => Some(k + 1)
  }

  /**
   * while(1) { bytes = write(soc, packet, beaconLength); if (bytes < beaconLength) break; }
   * `sent` lists the bytes handed to each call; `results` gives what each call returns.
   */
  method SendLoop(packet: array<uint8>, beaconLength: nat, results: seq<int>) returns (sent: seq<seq<uint8>>, end: LoopEnd)
    requires beaconLength <= packet.Length
    ensures forall j :: 0 <= j < |sent| ==> sent[j] == packet[..beaconLength]
    ensures match FirstShortWrite(results, beaconLength)
      case Some(k) => |sent| == k + 1 && end == ShortWrite(results[k])
      case None => |sent| == |results| && end == StillSending
  {
    sent := [];
    var calls := 0;
    while true
      invariant calls <= |results| && |sent| == calls
      invariant forall j :: 0 <= j < calls ==> sent[j] == packet[..beaconLength]
      invariant forall j :: 0 <= j < calls ==> results[j] >= beaconLength
      decreases |results| - calls
    {
      if calls == |results| {
        end := StillSending;
        return;
      }
      var bytes := results[calls];
      sent := sent + [packet[..beaconLength]];
      calls := calls + 1;
      if bytes < beaconLength {
        end := ShortWrite(bytes);
        return;
      }
    }
  }

  /** Calls after the first short write never happen, and nothing before it decides the end. */
  lemma {:induction false} ShortWriteStopsLoop(results: seq<int>, more: seq<int>, length: nat)
    requires FirstShortWrite(results, length).Some?
    ensures FirstShortWrite(results + more, length) == FirstShortWrite(results, length)
  {
    if results[0] < length {
    } else {
      assert (results + more)[1..] == results[1..] + more;
      ShortWriteStopsLoop(results[1..], more, length);
    }
  }
}
