# Fake access point beacon: a Dafny model

The program is a small Linux tool that pretends to be a Wi-Fi access point. It builds one
802.11 beacon frame behind a Radiotap header and then writes that frame to a raw socket
over and over, until a write falls short. This project models that frame and that loop
and proves properties of them.

The frame holds:
- a Radiotap header: version, pad, `it_len`, and `it_present` with only the rate bit;
- a rate byte;
- an 802.11 management header: frame control "management / beacon", duration, broadcast
  destination, and the access point's address as source and BSSID;
- a beacon body: timestamp, beacon interval, capabilities;
- three information elements: SSID, Supported Rates and DS Parameter Set (the channel).

## How the model is organised

- `Bytes` (`bytes.dfy`): fixed-width integers and the host's byte order, a parameter with
  the values `LittleEndian` and `BigEndian`.
  - `Native(order, v, n)` is the n bytes that a plain store of `v` writes on that host.
  - `HostToLittleEndian16` is `htole16`.
- `Ieee80211` (`frame.dfy`):
  - the constants and the `ap` descriptor;
  - the bitwise helpers the source uses (`&` and `|` on small values);
  - the frame as a specification. A frame is a sequence of `Cell`s, each one a byte the
    builder stores or a byte it leaves untouched. `Overlay(base, at, cells)` is a buffer
    `base` after those stores.
- `Builder` (`builder.dfy`): `constructBeaconPacket` as an imperative method.
  - It fills a fresh `array<uint8>` through a moving cursor.
  - Each struct-field assignment and `memcpy` is one `Store`.
  - The bytes the allocator returns are an input, `uninit`. The pad byte, the sequence
    control field and anything past the frame keep them.
- `FrameParser` and `FrameRoundTrip` (`parser.dfy`): an independent reader of the frame.
  It finds the 802.11 header through `it_len` and walks the elements by their length
  bytes. It loads `it_len`, `it_present`, `i_fc` and `i_dur` in the host's own byte order,
  the order the builder stores them in. The lemmas show that reading back what the builder
  wrote gives the expected beacon. A reader that follows the Radiotap format loads `it_len`
  little-endian instead, and on a big-endian host it finds 0x900 rather than 9
  (`FrameRoundTrip.RadiotapLengthAsLittleEndian`).
- `Transmit` (`transmit.dfy`): the `while(1)` write loop. Each run is given the sequence of
  values that successive `write()` calls return.
- `FakeAp` (`main.dfy`): `main`. It covers:
  - the argument count;
  - the channel check on the value `strtol` returns, after conversion to `uint64_t`;
  - the buffer length `main` computes;
  - building the frame, the transmit loop and the exit status.

The code differs from the program's own documentation in three places. The model follows
the code:

- **Channel range.** The error message printed for a bad channel says it must be between
  1 and 255. The test `channel <= 0 || 255 <= channel` rejects 255 as well
  (`FakeAp.ChannelAccepted`).
- **Buffer length.** `main` adds `sizeof(channel)` for its `uint64_t channel`, which is 8.
  The builder writes one channel byte. The buffer is therefore 7 bytes longer than the
  frame: 75 bytes against 68 for the built-in access point (`FakeAp.MainBufferLength`).
  The extra bytes go out uninitialised. A receiver walking the elements then either finds
  the frame malformed or reads more than the three elements
  (`FakeAp.SentFrameCarriesGarbage`).
- **Exit status after a short write.** The loop ends with `break`, and `main` then falls
  off its end, so the exit status is 0, not an error status (`FakeAp.ExitStatus`).

## Model

| member | source | states |
|---|---|---|
| Bytes.HostToLittleEndian16 | main.c:130-131 | a native store of `htole16(v)` writes v's low byte, then its high byte, on either host byte order |
| Ieee80211.RateValue | main.c:112 | the rate byte `dataRate & IEEE80211_RATE_VAL` equals `dataRate % 16 - dataRate % 2`: bits 1 to 3 kept, the basic-rate bit and the high nibble cleared |
| Ieee80211.RateValueIsByteAnd | main.c:112 | the rate byte is C's bitwise `&` of the byte with `IEEE80211_RATE_VAL` |
| Ieee80211.RateMaskKeepsValueBits | main.c:17 | masking with 0x0e keeps exactly bits 1 to 3 of any natural number |
| Ieee80211.DefaultRates | main.c:46-51 | the default rate set is 0x03, 0x05, 0x0b, 0x16: 1 and 2 Mbit/s flagged basic, 5.5 and 11 Mbit/s not |
| Ieee80211.AccessPointDescriptorConsistent | main.c:56-60 | the `ap` descriptor's SSID length 12 matches "Hello World!" and its rates are the default set; both fit their elements (at most 32 SSID bytes, at most 8 rates), and its address is an individual address, not broadcast |
| Ieee80211.RadiotapHeader | main.c:108-110 | the Radiotap header the builder writes covers the 8 bytes of the header struct |
| Ieee80211.ManagementHeader | main.c:118-124 | the management header covers the 24 bytes of `struct ieee80211_frame` |
| Ieee80211.BeaconBody | main.c:129-131 | the beacon body is eight zero bytes, then interval 100 (0x64 0x00) and capabilities 1 (0x01 0x00), the same on either host byte order |
| Ieee80211.InformationElement | main.c:136-138 | an element is its id byte, a length byte and the payload: two bytes longer than the payload |
| Ieee80211.Elements | main.c:133-152 | the three elements take three 2-byte headers, the SSID, the rates and one channel byte |
| Ieee80211.ElementsLayout | main.c:133-152 | the SSID element comes first with its payload at offset 2, the Rates element starts right after the SSID payload and carries the rates, and the frame ends with the DS Parameter Set id, length 1 and the channel |
| Ieee80211.FrameLength | main.c:106-148 | the cursor's total advance: whatever the channel, the frame ends exactly where the elements end |
| Ieee80211.BeaconFrame | main.c:96-155 | the frame is `FrameLength(ap)` = 52 + SSID length + rate count bytes long |
| Builder.Store | main.c:122-124 | a field store or `memcpy` puts the bytes at the offset and leaves every other byte of the buffer as it was |
| Builder.WriteRadiotapHeader | main.c:105-110 | after the three header stores the buffer holds `RadiotapHeader(order)` at the cursor, and the pad byte is unchanged |
| Builder.WriteManagementHeader | main.c:115-124 | after clearing and setting `i_fc`, `i_dur` and the three address copies, the buffer holds `ManagementHeader(order, ap)`, and `i_seq` is unchanged |
| Builder.OverwroteSame | main.c:118-119 | storing `i_fc = 0` and then the beacon value leaves only the second value |
| Builder.WriteBeaconBody | main.c:126-131 | after the three body stores the buffer holds `BeaconBody(order)` |
| Builder.WriteInformationElement | main.c:133-152 | after the id, length and payload stores the buffer holds `InformationElement(id, payload)` |
| Builder.ConstructBeaconPacket | main.c:96-155 | returns null exactly when allocation fails; otherwise a fresh buffer equal to the allocator's bytes with the whole `BeaconFrame` stored from offset 0 |
| Builder.PartsMakeFrame | main.c:104-152 | the seven pieces the cursor visits, back to back, are exactly the frame |
| FrameParser.ParseEncodedElements | main.c:133-152 | encoded elements followed by any bytes read back as those elements followed by whatever those bytes parse to |
| FrameRoundTrip.ElementsEncoding | main.c:133-152 | the three element stores are the encoding of the SSID, Rates and DS Parameter Set elements |
| FrameRoundTrip.FilledBuffer | main.c:96-155 | the filled buffer field by field: header bytes as stored, pad and `i_seq` from the allocator, body and elements, then the allocator's remaining bytes |
| FrameRoundTrip.ParseFilledBuffer | main.c:96-155 | reading a filled buffer of any length gives version 0, `it_len` 9, the rate bit, the masked rate, a beacon from the AP to broadcast, interval 100 and capabilities 1, then the three elements followed by whatever the leftover bytes parse to |
| FrameRoundTrip.ParseExactFrame | main.c:96-155 | a buffer exactly as long as the frame reads back as the expected beacon with exactly the three elements, when the reader loads the header fields in the builder's byte order, whichever it is |
| FrameRoundTrip.RadiotapLengthAsLittleEndian | main.c:109 | read little-endian, as the Radiotap format defines it, the stored `it_len` is 9 on a little-endian host and 0x900 on a big-endian one |
| FrameRoundTrip.OverlongBufferAddsElements | main.c:180-184 | a buffer longer than the frame reads back as malformed or with more than three elements |
| Transmit.FirstShortWrite | main.c:189-190 | finds the first write result below the frame length, if any, and every earlier result is at least the frame length; none exists exactly when every result is |
| Transmit.SendLoop | main.c:187-195 | every call is handed the same bytes `packet[..beaconLength]`; the loop makes calls up to and including the first short write and ends with that write's result, or makes one call per given result and is still sending |
| Transmit.ShortWriteStopsLoop | main.c:187-195 | results after the first short write never influence how the loop ends |
| FakeAp.ToUint64 | main.c:165 | assigning a `long` to `uint64_t` keeps non-negative values and adds 2^64 to negative ones |
| FakeAp.ChannelAccepted | main.c:165-169 | the channel is accepted exactly when `strtol` returned 1 to 254 |
| FakeAp.MainBeaconLength | main.c:180 | the buffer length `main` computes exceeds the frame length by 7 |
| FakeAp.MainBufferLength | main.c:180 | for the built-in access point the SSID has 12 bytes and there are 4 rates; the frame is 68 bytes and the buffer 75 |
| FakeAp.ExitStatus | main.c:158-199 | a run is still going exactly when the loop is still sending; `main` returns 0 exactly after a short write, and -1 on every earlier exit |
| FakeAp.SentFrame | main.c:184-189 | the bytes handed to `write()` are as long as the buffer `main` computes |
| FakeAp.Run | main.c:158-199 | usage error exactly when argc is not 3; channel rejected exactly when the count is right and the channel is outside 1..254; socket error exactly when both pass and the socket fails; otherwise every write gets the built frame, and the loop ends as `SendLoop` says |
| FakeAp.SentFrameCarriesGarbage | main.c:180-189 | the 7 bytes past the frame go out as the allocator left them, and a receiver sees a malformed frame or more than three elements |

## Left out

- `opensocket` (raw packet socket, `ioctl`, `bind`) is not modelled. Whether it succeeds
  is an input to `FakeAp.Run`.
- `strtol` parsing of the text is not modelled. Its `long` result is an input, including
  its saturation and its `0` for text that is not a number.
- `printf`, `fprintf` and `perror` output is not modelled. This includes the
  "Created Beacon Frame" `printf`, which has a `%d` and no argument.
- `close` and `free` at the end of `main` are not modelled, because they do not affect
  what is sent.
- The 8-byte `malloc(sizeof(beaconLength))` at line 181 is not modelled. It leaks, and
  its pointer is overwritten at once.
- The unused `dataRateValue` in `constructBeaconPacket` is not modelled.
- `write()` runs in the kernel and blocks. The model only sees the values successive
  calls return. A run whose given values contain no short write stops modelling there.
- A NULL buffer: `main` does not check for one. The model takes the kernel's answer to a
  null pointer (`EFAULT`, -1) as the first and only write. That call is handed no bytes, so
  on this path alone `sent` is empty although one call was made.
- Struct layout comes from `ieee80211.h` and `ieee80211_radiotap.h`, which are not part of
  this model. It is taken as packed: Radiotap header 8 bytes, management header 24,
  beacon body 12, element header 2.
- FrameRoundTrip.ParseFilledBuffer: requires SSID and rate lists shorter than 256 bytes.
  The builder truncates the element length byte with `% 0x100` for longer ones, and
  such elements do not read back.
- Builder.ConstructBeaconPacket: requires a buffer at least as long as the frame. The C
  code never checks this, and with a shorter `beaconLength` its stores run past the end of
  the allocation, which is undefined behaviour the model does not describe. `main` always
  passes a longer buffer (`FakeAp.MainBeaconLength`).
- Big-endian `it_len`, `it_present`, `i_fc` and `i_dur` are stored in host order, as the
  code does. The Radiotap standard asks for little-endian `it_len`. A big-endian host
  gets these fields in its own order, and the reader loads them the same way.
