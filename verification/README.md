# LoRaWAN frames in Dafny

A model of the frame layer of ChirpStack's `lrwn` crate, with proofs of what it promises, and of a few
smaller cores beside it. `dafny verify dfyconfig.toml` checks the whole project.

What is modelled:

- the frame types and their codecs: MHDR, FHDR, MACPayload, join-request, join-accept, rejoin-requests, relay
  requests that hold a whole frame (`Frames`, `FrameProofs`, `FrameLayout`, `Relays`, `JoinAccepts`);
- the MAC command stream: 50 commands, direction-dependent identifiers, payload codecs with their bit fields, and
  the cursor loop that decodes a set (`MacFields`, `MacCommands`, `Directions`, `MacProofs`, `MacStream`, `MacSet`),
  what printing decoded commands again makes of the bytes (`Reencoding`), and where every field lies (`CommandLayout`);
- the encryption of FRMPayload and FOpts, the MICs, join-accept encryption, as section 4.3.3, 4.4 and 5 of LoRaWAN
  1.0.3 and section 4.3.1.6 of LoRaWAN 1.1 ask for (`Crypto`, `Sealing`, `PhyOps`, `Mics`), the mutable `PhyPayload` with its
  methods (`PhyPayloads`), and the whole way from sender to receiver, on values and on objects (`EndToEnd`, `JoinRequests`,
  `Counters`, `Link`);
- frequencies and CFLists (`Helpers`, `CFLists`); NetID and DevAddr prefixes (`Words`, `Prefixes`, `AddrLayout`,
  `NetIds`); the frame filter (`Filters`); GPS time (`GpsTime`); the default ADR algorithm (`Adr`); the bounded reception history (`History`).

Code that changes state is a class or a method with its loop, proved equal to a function of its inputs or of the old
state; the properties are then lemmas about those functions. What goes over the air is also stated on its own, byte by
byte and as numbers (`Numbers`), without the functions that compute it. Bytes are `bv8`; AES and CMAC are functions passed in as a
`Suite`, about which nothing is assumed except, for join-accepts, that encryption undoes decryption. Error texts are not
kept: an operation gives a value or `Err`.

## What turned out not to hold as one might expect

Each is stated with the exact condition under which the code does meet the property.

- Multiples of 100 Hz from 1.2 GHz to the 24-bit limit at 1.6777215 GHz encode without an error and come back doubled
  (`Helpers.FreqGap`, `Helpers.DecodeEncodedFreq`).
- `FilterListReq` with a filter of 8 to 15 bytes does not come back: the decoder masks the length with 0x17
  (`MacProofs.FilterListRoundTrip`, `MacStream.FilterGap`).
- More than 15 bytes of f_opts are refused or not according to their length modulo 256. 256 to 271 bytes (512 to 527, and
  so on) print as a frame that is read with a port and payload that were never sent, and do not arrive
  (`FrameProofs.HeaderPrintsIff`, `FrameProofs.DataFrameReread`, `FrameProofs.OptsFitIff`, `FrameProofs.LongOptsLost`,
  `EndToEnd.LinkIsFaithful`).
- Six payloads decode from bytes that their encoders refuse: DutyCycleReq, RxTimingSetupReq, DevStatusAns, ForceRejoinReq,
  RelayConfReq, FilterListReq. A received frame whose f_opts hold such bytes no longer prints once they are decoded
  (`Reencoding.ListAgain`, `Reencoding.DutyCycleRefused`, `Reencoding.DecodedFramePrints`).
- The block counter of FRMPayload encryption is a u8, so the keystream repeats every 4096 bytes
  (`Crypto.KeystreamRepeats`). LoRaWAN frames are far shorter.
- A DevAddr or EUI prefix of size 0, which the parsers of both prefix types accept, shifts by the width of the word;
  so does `range_max` for size 32 (`Prefixes.Ranges`, `Filters.DevAddrMatchIff`, `Filters.EuiMatchIff`).
- A GPS time inside a leap second comes back one second earlier (`GpsTime.GpsOfDate`, `GpsTime.SourceTableLoses`,
  `GpsTime.LostSecond`).
- `matches` documents that frames it cannot classify pass; with `lorawan_only` set they do not, as the documentation of
  that setting says (`Filters.FilterAgrees`).
- `append_gateway_rx_info_history` with a limit of 0 slices past the end (`History.DeviceSession.AppendGatewayRxInfoHistory`).

ADR tests for exactly 20 uplinks at the present power where its comment says at least 20. That is no failure: the server
keeps no more than 20 (`Adr.FullHistory`).

## Model

| member | source | states |
|---|---|---|
| `EndToEnd.LinkIsFaithful` | lrwn/src/phy_payload.rs:503-996 | For every data frame of either direction, every key set and every MIC argument: once sent (f_opts encrypted for 1.1 or left clear for 1.0, frm_payload encrypted, MIC set, printed), the parsed frame with its 32-bit counter restored validates, and opening it gives back the original frame, up to f_opts_len and the bit shared by class_b and f_pending, if and only if its commands and payload are deliverable and its f_opts have at most 15 bytes |
| `EndToEnd.SendSucceedsIff` | lrwn/src/phy_payload.rs:503-514 | Sending succeeds exactly if all commands and the payload encode, a payload has a port, f_opts to be encrypted have at most 15 bytes, and the length of f_opts is at most 15 modulo 256 |
| `Link.ReceivedIsSent` | lrwn/src/phy_payload.rs:236-290 | The whole receiver, with the counter it expects next instead of the sender's: if that is in step, it ends up with the frame sent, exactly for deliverable frames with at most 15 bytes of f_opts |
| `Link.Transmit` | lrwn/src/phy_payload.rs:236-290 | The same on two PhyPayload objects, through their methods |
| `Link.SendFrame` | chirpstack/src/downlink/data.rs:820-862 | The methods that encrypt, sign and print, called in a row, send what the theorem is about |
| `Link.ReceiveFrame` | chirpstack/src/storage/device.rs:595-640 | Parsing, restoring the counter, validating and decrypting gives a new object with the received value, or an error |
| `Link.ReceivedIsValid` | chirpstack/src/storage/device.rs:595-640 | Nothing is accepted without a counter that was restored and a MIC that is valid for it |
| `Counters.FullFCntIff` | chirpstack/src/storage/device.rs:1366-1376 | The 32-bit counter is restored from its low half if and only if it is the last one again or at most 65534 ahead of the one expected, modulo 2^32 |
| `Counters.FullFCntFails` | chirpstack/src/storage/device.rs:1366-1376 | The subtraction overflows only for 65535 when 0 is expected |
| `EndToEnd.FrmArrives` | lrwn/src/phy_payload.rs:1224-1242 | A frm_payload read back from its own bytes on a port is the same payload exactly when it is the kind that port and direction carry, non-lossy inside |
| `EndToEnd.MicArrives` | lrwn/src/phy_payload.rs:585-634 | The MIC computed before printing validates on the parsed frame, whatever the arguments and whatever f_opts of any length are read as, because print and parse agree on every signed byte |
| `EndToEnd.ForwardUplinkArrives` | lrwn/src/relay.rs:60-81 | A forwarded uplink comes back with clamped metadata, the decoded frequency, and its inner frame as the parser sees it |
| `FrameProofs.ParseIsLossless` | lrwn/src/phy_payload.rs:503-553 | Whenever parsing any bytes succeeds, printing succeeds and returns those bytes with only the reserved bits of the first byte cleared, for every frame type |
| `FrameProofs.ParsesIff` | lrwn/src/phy_payload.rs:516-553 | Exactly which byte strings parse, as conditions on lengths and single bytes |
| `FrameProofs.ParsedIsWire` | lrwn/src/phy_payload.rs:516-553 | Every parsed frame is in wire form |
| `FrameProofs.PrintParseIff` | lrwn/src/phy_payload.rs:503-553 | A printable frame is parsed back unchanged if and only if it is in wire form |
| `FrameProofs.WireFramePrints` | lrwn/src/phy_payload.rs:503-514 | Every frame in wire form can be printed |
| `FrameProofs.DataFrameReceived` | lrwn/src/payload.rs:241-305 | What a receiver sees of a printable data frame with at most 15 bytes of f_opts: raw f_opts, a 16-bit counter, the shared bit, raw payload, and nothing else changed |
| `FrameProofs.DataFrameReread` | lrwn/src/payload.rs:241-305 | What a receiver sees of any printable data frame: of n bytes of f_opts the first n % 256 arrive; the rest, the port and the payload run together and are read as port and payload |
| `FrameLayout.DataFrameLayout` | lrwn/src/phy_payload.rs:503-514 | Every byte of a printed data frame: type number, reversed address, control bits, low half of the counter, f_opts, port, payload, MIC |
| `FrameLayout.MhdrLayout` | lrwn/src/mhdr.rs:40-78 | The type number of each message type lies in the three high bits |
| `FrameLayout.UplinkTypes` | lrwn/src/phy_payload.rs:1213-1222 | Which types are uplinks and which hold data |
| `FrameLayout.HeaderLayout` | lrwn/src/fhdr.rs:68-132 | Every bit of a printed header |
| `FrameLayout.JoinRequestLayout` | lrwn/src/payload.rs:101-127 | Where JoinEUI, DevEUI and DevNonce lie in a join-request |
| `FrameLayout.Rejoin02Layout` | lrwn/src/payload.rs:318-363 | Where the fields of rejoin-requests of type 0 and 2 lie |
| `FrameLayout.Rejoin1Layout` | lrwn/src/payload.rs:375-418 | Where those of type 1 lie |
| `FrameLayout.JoinAcceptLayout` | lrwn/src/payload.rs:140-191 | Where the fields of a join-accept lie, the low 24 bits of the nonce among them |
| `FrameLayout.MetadataLayout` | lrwn/src/relay.rs:18-50 | Data rate, clamped SNR and RSSI as one number across two bytes |
| `FrameLayout.MetadataRead` | lrwn/src/relay.rs:18-50 | And read back from any bytes |
| `FrameLayout.ForwardLayout` | lrwn/src/relay.rs:60-81 | A forwarded uplink is metadata, frequency, frame |
| `FrameProofs.MacLossless` | lrwn/src/payload.rs:241-305 | Parsing and printing a MACPayload gives the same bytes |
| `FrameProofs.FHdrLossless` | lrwn/src/fhdr.rs:29-84 | A header that is accepted prints as the bytes it was read from; with no f_opts announced, bytes behind the first seven are accepted too, and dropped |
| `FrameProofs.HeaderReceived` | lrwn/src/fhdr.rs:29-84 | What a receiver sees of any header with at most 15 bytes of f_opts |
| `FrameProofs.HeaderPrintsIff` | lrwn/src/fhdr.rs:68-84 | A header prints exactly when its f_opts length is at most 15 modulo 256, as the narrowing cast makes it |
| `FrameProofs.OptsFitIff` | lrwn/src/fhdr.rs:68-84 | The f_opts bytes of a printed data frame are those its receiver parses if and only if there are at most 15; longer ones that print are cut off |
| `FrameProofs.LongOptsLost` | lrwn/src/fhdr.rs:68-84 | 256 zero bytes of f_opts print, and are read as no f_opts, port 0 and a payload of 255 bytes |
| `FrameProofs.JoinRequestLossless` | lrwn/src/payload.rs:101-127 | Parsing and printing a join-request gives the same bytes |
| `FrameProofs.JoinRequestRoundTrip` | lrwn/src/payload.rs:101-127 | Every join-request printed is parsed back unchanged |
| `FrameProofs.Rejoin02Lossless` | lrwn/src/payload.rs:318-363 | Parsing and printing a type 0 or 2 rejoin-request gives the same bytes |
| `FrameProofs.Rejoin02RoundTrip` | lrwn/src/payload.rs:318-363 | A type 0 or 2 rejoin-request that prints is parsed back unchanged |
| `FrameProofs.Rejoin1Lossless` | lrwn/src/payload.rs:375-418 | Parsing and printing a type 1 rejoin-request gives the same bytes |
| `FrameProofs.Rejoin1RoundTrip` | lrwn/src/payload.rs:375-418 | A type 1 rejoin-request that prints is parsed back unchanged |
| `Frames.MhdrRoundTrip` | lrwn/src/mhdr.rs:40-78 | Every header byte printed is parsed back to the same MHDR |
| `Frames.MhdrByteRoundTrip` | lrwn/src/mhdr.rs:40-78 | A byte is a header exactly when its major version is 0, and prints back with the reserved bits dropped |
| `Frames.FCtrlRoundTrip` | lrwn/src/fhdr.rs:100-132 | FCtrl comes back with class_b and f_pending both set to their disjunction |
| `Frames.FCtrlByteRoundTrip` | lrwn/src/fhdr.rs:100-132 | Every byte survives FCtrl unchanged |
| `Frames.MetadataRoundTrip` | lrwn/src/relay.rs:18-50 | Relay metadata comes back clamped to -20..11 dB and -142..-15 dBm |
| `PhyPayloads.PhyPayload.ToVec` | lrwn/src/phy_payload.rs:503-514 | The appended bytes are header, payload and MIC, or the payload error |
| `PhyPayloads.PhyPayload.FromSlice` | lrwn/src/phy_payload.rs:516-553 | A new object holding the parsed value, or an error, as the parser function says |
| `PhyPayloads.PhyPayload.CalculateUplinkDataMic` | lrwn/src/phy_payload.rs:919-996 | The two CMAC blocks built in place and the halves joined per MAC version give the specified MIC |
| `PhyPayloads.PhyPayload.BuildUplinkBlocks` | lrwn/src/phy_payload.rs:940-975 | The bytes written into the zeroed blocks are the B0 and B1 layouts of the specification |
| `PhyPayloads.PhyPayload.CalculateDownlinkDataMic` | lrwn/src/phy_payload.rs:999-1043 | The downlink block and its CMAC give the specified MIC |
| `PhyPayloads.PhyPayload.SetUplinkDataMic` | lrwn/src/phy_payload.rs:559-580 | Only the MIC field changes, to the specified value; nothing changes on error |
| `PhyPayloads.PhyPayload.ValidateUplinkDataMic` | lrwn/src/phy_payload.rs:585-607 | True exactly for the specified MIC; false without one; an error if it cannot be computed |
| `PhyPayloads.PhyPayload.ValidateUplinkDataMicF` | lrwn/src/phy_payload.rs:642-659 | Compares the cmacF half only |
| `PhyPayloads.PhyPayload.SetDownlinkDataMic` | lrwn/src/phy_payload.rs:612-621 | Only the MIC field changes, to the specified value |
| `PhyPayloads.PhyPayload.ValidateDownlinkDataMic` | lrwn/src/phy_payload.rs:624-637 | True exactly for the specified MIC |
| `PhyPayloads.PhyPayload.SetJoinRequestMic` | lrwn/src/phy_payload.rs:663-666 | Only the MIC field changes, to the CMAC of header and payload |
| `PhyPayloads.PhyPayload.ValidateJoinRequestMic` | lrwn/src/phy_payload.rs:670-677 | True exactly for that MIC |
| `PhyPayloads.PhyPayload.CalculateUplinkJoinMic` | lrwn/src/phy_payload.rs:1047-1065 | First four bytes of the CMAC over header and payload |
| `PhyPayloads.PhyPayload.CalculateDownlinkJoinMic` | lrwn/src/phy_payload.rs:1068-1110 | The signed bytes, with the join type, JoinEUI and DevNonce in front only when opt_neg is set |
| `PhyPayloads.PhyPayload.SetJoinAcceptMic` | lrwn/src/phy_payload.rs:681-692 | Only the MIC field changes, to the join-accept MIC |
| `PhyPayloads.PhyPayload.ValidateJoinAcceptMic` | lrwn/src/phy_payload.rs:695-709 | True exactly for the join-accept MIC |
| `PhyPayloads.PhyPayload.EncryptJoinAcceptPayload` | lrwn/src/phy_payload.rs:716-753 | The block loop replaces payload and MIC by the block-wise cipher of both; nothing changes on error |
| `PhyPayloads.PhyPayload.DecryptJoinAcceptPayload` | lrwn/src/phy_payload.rs:761-800 | The inverse; on bytes that are no join-accept the MIC has already been replaced, the payload not |
| `PhyPayloads.PhyPayload.RunBlocks` | lrwn/src/phy_payload.rs:734-741 | The loop puts out, for every i, the cipher of block i as block i |
| `PhyPayloads.PhyPayload.EncryptFOpts` | lrwn/src/phy_payload.rs:804-831 | f_opts become one raw command holding their cipher, or stay as they were when empty or on error |
| `PhyPayloads.PhyPayload.DecodeFOptsToMacCommands` | lrwn/src/phy_payload.rs:843-851 | f_opts become the commands decoded from their one raw command |
| `PhyPayloads.PhyPayload.DecryptFOpts` | lrwn/src/phy_payload.rs:835-840 | Decryption then decoding; if only decoding fails the f_opts are left decrypted |
| `PhyPayloads.PhyPayload.DecodeFrmPayload` | lrwn/src/phy_payload.rs:859-875 | A raw payload becomes what its port says it is; nothing else changes |
| `PhyPayloads.PhyPayload.SetFrmFromBytes` | lrwn/src/phy_payload.rs:1224-1242 | Commands on port 0, a forwarded frame on the relay port, raw bytes otherwise; unchanged on error |
| `PhyPayloads.PhyPayload.EncryptFrmPayload` | lrwn/src/phy_payload.rs:879-898 | The payload becomes the raw cipher of its bytes |
| `PhyPayloads.PhyPayload.DecryptFrmPayload` | lrwn/src/phy_payload.rs:901-916 | Deciphers and decodes; any error, that of decoding included, leaves the payload as it was |
| `Crypto.EncryptFrmPayload` | lrwn/src/phy_payload.rs:1169-1211 | The padded block loop over a buffer gives, at byte k, the data xored with byte k % 16 of the encryption of block A number k/16+1, whose sixteen bytes are given one by one: 0x01, four zeros, 0 for uplinks and 1 for downlinks, the address reversed, the counter low byte first, 0, the number modulo 256 |
| `Crypto.BlockAIs` | lrwn/src/phy_payload.rs:1188-1200 | Those sixteen bytes describe exactly the block that is built |
| `Crypto.FrmCipherTwice` | lrwn/src/phy_payload.rs:1169-1211 | Encrypting twice is the identity |
| `Crypto.FrmCipherPrefix` | lrwn/src/phy_payload.rs:1169-1211 | Encrypting a prefix gives the prefix of the encryption |
| `Crypto.CounterBlockInjective` | lrwn/src/phy_payload.rs:1188-1200 | Two counter blocks are equal exactly for equal direction, address, counter and block number modulo 256 |
| `Crypto.KeystreamRepeats` | lrwn/src/phy_payload.rs:1188-1200 | Since the block number is a u8, the keystream has period 4096 bytes |
| `Crypto.EncryptFOpts` | lrwn/src/phy_payload.rs:1121-1166 | The xor loop gives the data xored with the encryption of a block given byte by byte, with 2 or 1 in byte 4 for the application counter or not; more than 15 bytes are an error |
| `Crypto.FOptsBlockAIs` | lrwn/src/phy_payload.rs:1140-1156 | And so for f_opts |
| `Sealing.FrmEncryptedIs` | lrwn/src/phy_payload.rs:879-898 | What encryption does to a frame: every byte of the payload, from the frame's own type, address and counter, and no other field |
| `Sealing.FOptsEncryptedIs` | lrwn/src/phy_payload.rs:804-831 | The same for f_opts; the application counter is named by downlinks with a port other than 0 |
| `Sealing.FOptsDecodedIs` | lrwn/src/phy_payload.rs:843-851 | One raw command becomes the commands its bytes decode to in the direction of the frame; any other f_opts stay |
| `Sealing.FrmDecryptedIs` | lrwn/src/phy_payload.rs:901-916 | Deciphering any payload gives those bytes xored back, read by port and direction; a missing port counts as 0 |
| `Sealing.FrmDecodedIs` | lrwn/src/phy_payload.rs:859-875 | Reading a raw payload does the same without deciphering; any other payload stays |
| `Sealing.PortTells` | lrwn/src/phy_payload.rs:1224-1242 | Port 0 holds commands, port 226 a forwarded frame, every other port raw bytes |
| `Crypto.FOptsCipherTwice` | lrwn/src/phy_payload.rs:1121-1166 | Encrypting f_opts twice is the identity |
| `Crypto.FOptsBlockIsApart` | lrwn/src/phy_payload.rs:1121-1211 | No f_opts block equals a frm_payload block, whatever the arguments |
| `Mics.MicSplits` | lrwn/src/phy_payload.rs:642-659 | A LoRaWAN 1.1 uplink MIC is valid if and only if its cmacF half validates, whatever the 1.1 arguments, and its other half is the cmacS one |
| `Mics.UplinkMicIs` | lrwn/src/phy_payload.rs:919-996 | What is signed of an uplink, byte by byte (0x49, confirmed counter, rate and channel, 0, address, counter, length, then the frame as printed), and which bytes of which hash are the MIC of each version |
| `Mics.DownlinkMicIs` | lrwn/src/phy_payload.rs:999-1043 | The same for downlinks, with direction byte 1 and the confirmed counter for LoRaWAN 1.1 only |
| `Mics.ValidMicIs` | lrwn/src/phy_payload.rs:585-607 | An uplink MIC is valid exactly if it is there and consists of those bytes |
| `Mics.ValidMicFIs` | lrwn/src/phy_payload.rs:642-659 | The same for the cmacF half alone |
| `Mics.ValidDownlinkMicIs` | lrwn/src/phy_payload.rs:624-637 | And for downlinks |
| `Mics.SignedExists` | lrwn/src/phy_payload.rs:919-1043 | Every printable data frame has such a string |
| `Mics.Mic10Ignores` | lrwn/src/phy_payload.rs:919-996 | For LoRaWAN 1.0 the MIC does not depend on the arguments that only 1.1 has |
| `Mics.ConfirmedCounter` | lrwn/src/phy_payload.rs:930-945 | The signed block depends on conf_f_cnt only modulo 2^16 and only if ACK is set, and then it does |
| `Mics.SameConfirmedCounter` | lrwn/src/phy_payload.rs:919-1043 | So the MICs of both directions agree for such conf_f_cnt |
| `Mics.MicBlockInjective` | lrwn/src/phy_payload.rs:940-975 | The block determines every argument, the length modulo 256 |
| `Mics.DirectionsApart` | lrwn/src/phy_payload.rs:919-1043 | What an uplink MIC signs, under either key, is never what a downlink MIC signs |
| `JoinRequests.JoinRequestArrives` | lrwn/src/phy_payload.rs:663-677 | A signed join-request or rejoin-request is parsed back as the same frame if and only if its payload is of its type, and whatever of the printed bytes parses has a MIC that validates |
| `Mics.JoinRequestMicIs` | lrwn/src/phy_payload.rs:663-677 | A join-request MIC is the first four bytes of the hash of the printed frame, and is valid exactly if it is |
| `Mics.JoinAcceptMicIs` | lrwn/src/phy_payload.rs:1068-1110 | What is signed of a join-accept, byte by byte: with opt_neg the join type, JoinEUI and DevNonce, then the printed frame; the MIC is the first four bytes of its hash |
| `Mics.ValidJoinAcceptMicIs` | lrwn/src/phy_payload.rs:695-709 | And is valid exactly if it is |
| `JoinAccepts.JoinAcceptIsFaithful` | lrwn/src/phy_payload.rs:716-800 | For every cipher whose encryption undoes its decryption: the decrypted join-accept equals the original if and only if join_nonce fits 24 bits and the CFList is canonical; its MIC validates in the same cases as before, always |
| `JoinAccepts.JoinAcceptArrives` | lrwn/src/phy_payload.rs:716-800 | Encrypt, print, parse and decrypt give back the MIC and the payload as a receiver reads it |
| `JoinAccepts.EncryptionSucceedsIff` | lrwn/src/phy_payload.rs:716-753 | The length error is unreachable: the plaintext is always 16 or 32 bytes |
| `JoinAccepts.JoinAcceptReceived` | lrwn/src/payload.rs:140-191 | What a receiver sees of any encodable join-accept payload, and that this prints the same |
| `JoinAccepts.ReceivedIffCanonical` | lrwn/src/payload.rs:140-191 | It is the payload itself exactly for the canonical ones |
| `JoinAccepts.BlocksUndone` | lrwn/src/phy_payload.rs:716-800 | Block-wise maps that undo each other undo each other on any number of blocks |
| `PhyOps.EachBlockIs` | lrwn/src/phy_payload.rs:734-741 | Block i of the result is made of block i of the input, in order |
| `JoinAccepts.CiphertextIs` | lrwn/src/phy_payload.rs:716-753 | Payload and MIC of an encrypted join-accept are, block by block in order, the decryption of printed payload and MIC |
| `JoinAccepts.PlaintextIs` | lrwn/src/phy_payload.rs:761-800 | Decryption parses what the encryption of the blocks in order gives, but for its last four bytes, which are the MIC |
| `Relays.NestingArrives` | lrwn/src/phy_payload.rs:859-875 | For frames nested in relay frames to any depth: printing the outermost, parsing, and decoding level by level recovers every level |
| `Relays.NestingIsFaithful` | lrwn/src/relay.rs:17-97 | The nest comes back unchanged if and only if at every level the header is in wire form, the metadata in range and the frequency outside the gap, and the innermost frame is a wire frame |
| `Relays.NestingShrinks` | lrwn/src/relay.rs:72-97 | Each level is shorter than the one around it by exactly header, port, MIC, f_opts and, for uplinks, six bytes |
| `Relays.LevelArrives` | lrwn/src/phy_payload.rs:1224-1242 | One parse and one decode_frm_payload give the level as received, around the parsed inner frame |
| `MacStream.ListRoundTrip` | lrwn/src/maccommand.rs:429-800 | A list of commands that encodes is decoded back unchanged if and only if every command is legal for the direction and canonical, or is a final Raw starting with an unknown identifier |
| `MacStream.CommandRoundTrip` | lrwn/src/maccommand.rs:429-800 | The same for one command with any bytes behind it: its decoder stops exactly where its encoder did |
| `MacStream.PayloadRoundTrip` | lrwn/src/maccommand.rs:804-2462 | The same for the payload of each of the 50 commands |
| `MacStream.Canonicalisation` | lrwn/src/maccommand.rs:414-800 | Over arbitrary bytes: if decoding and re-encoding both succeed the length is the same and the result decodes to the same commands |
| `MacStream.DecodedIsWire` | lrwn/src/maccommand.rs:630-800 | Whatever is decoded and can be encoded again is in wire form |
| `Reencoding.ListAgain` | lrwn/src/maccommand.rs:414-800 | Over arbitrary bytes that decode: encoding the commands gives exactly the bytes with the unused bits of each payload cleared, or fails exactly if one of six payloads is out of the range its encoder checks; all stated on the bytes |
| `Reencoding.PayloadAgain` | lrwn/src/maccommand.rs:804-2462 | The same for one payload of each command: which bits come back, and which payloads that decode are refused |
| `Reencoding.DutyCycleRefused` | lrwn/src/maccommand.rs:975-997 | The bytes 04 20 of a downlink decode to a DutyCycleReq of 32, which does not encode |
| `Reencoding.DecodedFramePrints` | lrwn/src/phy_payload.rs:843-851 | A received data frame whose f_opts have been decoded prints exactly if they encode again, and then only their unused bits differ from what was received |
| `MacStream.CommandSound` | lrwn/src/maccommand.rs:630-800 | One decoding step consumes at least one byte and at most all, keeps the identifier, and yields Raw only for an unknown one |
| `MacStream.DecodeIsSplit` | lrwn/src/maccommand.rs:630-800 | Decoding succeeds with a list exactly when the bytes split into consecutive non-empty slices that decode to its commands one by one |
| `MacStream.RawComesLast` | lrwn/src/maccommand.rs:648-658 | A decoded Raw is the last command, holds the rest of the bytes and starts with an unknown identifier |
| `MacStream.CidCode` | lrwn/src/maccommand.rs:84-184 | Reading an identifier byte and writing it again is the identity, in both directions |
| `Directions.CarriesIff` | lrwn/src/maccommand.rs:84-184 | Which commands each direction carries, by a table of the 50 commands: an identifier reads as the command it was written for exactly on the side of the link that sends it |
| `Directions.KnownCodeIff` | lrwn/src/maccommand.rs:84-184 | Which bytes are identifiers on uplinks and which on downlinks; all others are unknown |
| `Directions.CodeIs` | lrwn/src/maccommand.rs:84-184 | The byte of each command |
| `Directions.OneSide` | lrwn/src/maccommand.rs:187-240 | Every command belongs to exactly one direction |
| `MacStream.PrintedCode` | lrwn/src/maccommand.rs:429-628 | A command is printed as that byte and its payload |
| `CommandLayout.PayloadLayout` | lrwn/src/maccommand.rs:804-2462 | Where every field of every payload lies, in numbers: fields weighted by their place add up to the bytes, low byte first; keys, addresses and EUIs byte by byte |
| `CommandLayout.ParsedLayout` | lrwn/src/maccommand.rs:804-2462 | The fields that are read lie at the same places, with the unused bits cleared, also for payloads whose encoder would refuse them |
| `CommandLayout.MarginRead` | lrwn/src/maccommand.rs:1066-1098 | The margin of every byte, those from 96 on included, in numbers |
| `MacSet.MACCommandSet.DecodeFromRaw` | lrwn/src/maccommand.rs:630-800 | The cursor loop replaces a single Raw by the decoded list, and leaves the set unchanged on any error |
| `MacSet.MACCommandSet.ToVec` | lrwn/src/maccommand.rs:429-628 | The loop yields the concatenated encodings, or the first error |
| `MacSet.ReadPayload` | lrwn/src/maccommand.rs:804-2462 | The cursor is moved past exactly the bytes of the payload |
| `MacSet.Cursor.ReadExact` | lrwn/src/maccommand.rs:640-648 | Reads the next n bytes and moves past them, or fails when there are fewer |
| `MacSet.Cursor.ReadToEnd` | lrwn/src/maccommand.rs:648-658 | Reads everything that is left |
| `MacProofs.AllRoundTrip` | lrwn/src/maccommand.rs:804-2462 | Each payload but FilterListReq decodes from its own encoding to itself exactly when canonical |
| `MacProofs.AllParse` | lrwn/src/maccommand.rs:804-2462 | Each payload that is decoded bears its identifier and is canonical, FilterListReq apart |
| `MacProofs.FilterListRoundTrip` | lrwn/src/maccommand.rs:2054-2096 | Filters of 8 to 15 bytes do not come back, since the length mask 0x17 leaves out bit 3; all others do |
| `MacStream.FilterGap` | lrwn/src/maccommand.rs:2054-2096 | A FilterListReq with a filter of eight bytes is legal and encodes, and does not decode to itself |
| `MacProofs.MarginRoundTrip` | lrwn/src/maccommand.rs:1066-1098 | Margins from -32 to 31 encode, and decode to themselves |
| `MacProofs.DeviceTimeRoundTrip` | lrwn/src/maccommand.rs:1388-1413 | Seconds come back exactly below 2^32, nanoseconds exactly for multiples of 1/256 s |
| `MacFields.PowerLevelRoundTrip` | lrwn/src/maccommand.rs:2413-2431 | SNR and RSSI come back clamped, across the shared byte |
| `MacFields.FwdLimitReloadRateRoundTrip` | lrwn/src/maccommand.rs:2302-2334 | Four 7-bit rates and a counter action packed across byte boundaries come back |
| `MacFields.ChannelSettingsRelayRoundTrip` | lrwn/src/maccommand.rs:1692-1732 | Six fields across two bytes come back |
| `MacFields.ChannelSettingsEDRoundTrip` | lrwn/src/maccommand.rs:1915-1944 | Four fields across two bytes come back |
| `MacFields.MaskRoundTrip` | lrwn/src/cflist.rs:156-201 | Every channel mask survives its two bytes |
| `MacFields.MaskBytesRoundTrip` | lrwn/src/cflist.rs:156-201 | Every two bytes survive the channel mask |
| `MacFields.DLSettingsRoundTrip` | lrwn/src/dl_settings.rs:13-39 | Encodable settings survive their byte, and every byte survives the settings |
| `CFLists.ListRoundTrip` | lrwn/src/cflist.rs:13-40 | A CFList that encodes comes back unchanged if and only if its frequencies are exact, or its masks do not end in an all-false one |
| `CFLists.BytesRoundTrip` | lrwn/src/cflist.rs:13-40 | In the other direction frequencies are exact, and masks are too, but for the unused byte, when the seventh is zero; otherwise encoding fails |
| `CFLists.ListLayout` | lrwn/src/cflist.rs:13-143 | Where the five frequencies, or the masks, lie in the sixteen bytes, in numbers |
| `CFLists.ListRead` | lrwn/src/cflist.rs:113-128 | The masks that are read from any bytes: each the number of its two bytes, up to the last that is not zero |
| `CFLists.MasksFromBytes` | lrwn/src/cflist.rs:113-128 | The pending-mask loop yields the decoded masks without the trailing all-false ones |
| `CFLists.MasksToBytes` | lrwn/src/cflist.rs:130-143 | The loop yields the mask bytes padded with zeros; more than six masks are an error |
| `CFLists.MasksStripped` | lrwn/src/cflist.rs:113-143 | Decoding encoded masks strips the trailing all-false ones |
| `CFLists.ChannelsFromBytes` | lrwn/src/cflist.rs:68-77 | The loop yields the five frequencies |
| `CFLists.ChannelsRoundTrip` | lrwn/src/cflist.rs:68-97 | Channel lists that encode decode to themselves |
| `CFLists.ChannelBytesRoundTrip` | lrwn/src/cflist.rs:68-97 | Every 15 bytes are the encoding of what they decode to |
| `Helpers.EncodeFreq` | lrwn/src/helpers.rs:3-22 | Succeeds exactly for multiples of the step below the limit, and decoding gives the frequency back exactly outside the gap between the two steps |
| `Helpers.DecodeFreq` | lrwn/src/helpers.rs:24-40 | Fails exactly for other lengths than 3; the bytes are the encoding of the result, which is outside the gap |
| `Helpers.EncodedFreqIs` | lrwn/src/helpers.rs:3-22 | The three bytes, low byte first, count steps of 100 Hz, or of 200 Hz from 2.4 GHz on |
| `Helpers.DecodedFreqIs` | lrwn/src/helpers.rs:24-40 | And a count of 12000000 or more is of 200 Hz |
| `Helpers.EncodeDecodedFreq` | lrwn/src/helpers.rs:3-40 | Every three bytes are the encoding of the frequency they decode to, which fits a u32 |
| `Helpers.DecodeEncodedFreq` | lrwn/src/helpers.rs:3-40 | An encodable frequency decodes to itself if and only if it is below 1.2 GHz, or is even and at least 2.4 GHz |
| `Helpers.EncodableFreq` | lrwn/src/helpers.rs:3-22 | Exactly which frequencies encode; an odd frequency one above a step of the 2.4 GHz band is accepted |
| `Helpers.FreqGap` | lrwn/src/helpers.rs:3-40 | 1.5 GHz encodes and comes back as 3 GHz |
| `Helpers.DecodedFreqMonotone` | lrwn/src/helpers.rs:24-40 | Decoding is strictly increasing |
| `NetIds.IsNetIdIff` | lrwn/src/devaddr.rs:206-211 | An address is accepted for a NetID if and only if it has its type and the low bits of its id as NwkID, which is if and only if it lies in the range of the prefix |
| `NetIds.SetPrefixBelongs` | lrwn/src/devaddr.rs:237-249 | Setting a NetID's prefix on any address yields an address of that NetID and keeps the host part |
| `NetIds.SetPrefixKeeps` | lrwn/src/devaddr.rs:237-249 | An address of the NetID is left alone |
| `NetIds.PrefixesEqualOrDisjoint` | lrwn/src/netid.rs:82-112 | Two NetIDs with a common address have the same prefix, and then have every address in common |
| `NetIds.SamePrefix` | lrwn/src/netid.rs:82-112 | Prefixes are equal if and only if types and cut ids are |
| `NetIds.IdIs` | lrwn/src/netid.rs:49-80 | The id of a NetID is its low 6, 9 or 21 bits |
| `NetIds.NwkIdIs` | lrwn/src/devaddr.rs:223-270 | The NwkID bytes are the bits between type and host part |
| `NetIds.AddrTypeIs` | lrwn/src/devaddr.rs:213-221 | The type of an address is t exactly when it begins with t ones and a zero |
| `NetIds.DevAddr.NetIdType` | lrwn/src/devaddr.rs:213-221 | The scan finds the first clear bit |
| `NetIds.DevAddr.SetDevAddrPrefix` | lrwn/src/devaddr.rs:237-249 | The address becomes the specified one; on overflow it is unchanged |
| `NetIds.DevAddr.IsOfNetId` | lrwn/src/devaddr.rs:206-211 | True exactly for the addresses of the NetID, and never an error |
| `NetIds.DevAddr.FromLeBytes` | lrwn/src/devaddr.rs:181-190 | The fill loop reverses the bytes |
| `Prefixes.RangeIsPrefix` | lrwn/src/devaddr.rs:40-48 | The range of a prefix of 1 to 31 bits holds exactly the addresses that begin with those bits, one by one |
| `Prefixes.WithinIsStart` | lrwn/src/devaddr.rs:40-48 | To lie within a prefix is to start with its bits, byte by byte |
| `Prefixes.SubsetIsInclusion` | lrwn/src/devaddr.rs:28-30 | is_subset_of is set inclusion whenever it answers, and for which sizes of 0 to 32 it answers |
| `Prefixes.Ranges` | lrwn/src/devaddr.rs:40-48 | Which sizes the range arithmetic accepts, and that its sum never overflows |
| `NetIds.ReadId` | lrwn/src/netid.rs:62-80 | The shifts and the cut to whole bytes read as the low bits of the NetID, as many as its type has |
| `NetIds.ReadNwkId` | lrwn/src/devaddr.rs:251-270 | The shifts and the cut to whole bytes read as the bits of the address between type and host part |
| `NetIds.BuildPrefix` | lrwn/src/netid.rs:96-112 | The merged prefix begins with the bits of the type and goes on with the low bits of the id |
| `NetIds.DevAddr.NwkIdOf` | lrwn/src/devaddr.rs:223-236 | Reads the NwkID by the type of the address; an address without a type is an error |
| `NetIds.DevAddrPrefixFor` | lrwn/src/netid.rs:82-94 | The prefix of a NetID, by its type |
| `Filters.FilterAgrees` | lrwn-filters/src/lib.rs:34-99 | For every byte string the parser accepts, and prefixes of usable sizes, the filter's answer is the one about the parsed frame: its address for uplink data, its JoinEUI for join-requests, lorawan_only for the rest |
| `Filters.FilterAnswers` | lrwn-filters/src/lib.rs:34-99 | The answer about any bytes at all, parsed or not: which types and lengths show an address or a JoinEUI, at which bytes, and what all others get |
| `Filters.Matches` | lrwn-filters/src/lib.rs:34-99 | The extraction and the two early-return loops compute the specified answer on any bytes |
| `Filters.DevAddrMatchIff` | lrwn-filters/src/lib.rs:116-120 | A prefix of 1 to 32 bits matches the addresses whose first bits, byte by byte, are its own; size 0 overflows |
| `Filters.EuiMatchIff` | lrwn-filters/src/lib.rs:218-222 | A prefix of 1 to 64 bits matches the EUIs whose first bits, byte by byte, are its own; size 0 overflows |
| `Filters.DevAddrMatchIsRange` | lrwn-filters/src/lib.rs:116-120 | is_match is membership in the range of the same prefix for 1 to 31 bits |
| `GpsTime.DateOfGps` | chirpstack/src/gpstime.rs:93-114 | For any table sorted by time and any instant, UTC survives the way to GPS time and back |
| `GpsTime.GpsIncreases` | chirpstack/src/gpstime.rs:93-102 | GPS time is strictly increasing in UTC |
| `GpsTime.GpsOfDate` | chirpstack/src/gpstime.rs:93-114 | For any spaced table a GPS time survives the way to UTC and back if and only if it falls in no leap, and otherwise loses exactly that leap |
| `GpsTime.InLeapIsUnreached` | chirpstack/src/gpstime.rs:93-114 | Those are exactly the GPS times that no instant has |
| `GpsTime.ToGpsTime` | chirpstack/src/gpstime.rs:93-102 | The loop adds up the leaps before the instant |
| `GpsTime.ToDateTime` | chirpstack/src/gpstime.rs:106-114 | The loop takes off the leaps one by one, each compared with what is left |
| `GpsTime.SourceTableRoundTrip` | chirpstack/src/gpstime.rs:6-114 | For the table of the source, UTC round trips and the order is kept, both ways |
| `GpsTime.SourceTableLoses` | chirpstack/src/gpstime.rs:6-114 | For the table of the source: a GPS time comes back from UTC as it was, or one second early, which it does exactly if it lies within one of the 18 listed seconds |
| `GpsTime.LostSecond` | chirpstack/src/gpstime.rs:6-114 | GPS second 46828800 comes back as 46828799 |
| `GpsTime.TableIsSpaced` | chirpstack/src/gpstime.rs:6-81 | The table of the source is sorted and spaced |
| `Adr.GetIdealTxPowerIndexAndDr` | examples/adr_plugins/default.js:53-74 | The step loop ends for any integer and equals the closed form |
| `Adr.StepsAdd` | examples/adr_plugins/default.js:53-74 | Steps in one direction add up |
| `Adr.StepsStayInLimits` | examples/adr_plugins/default.js:53-74 | No step leaves the limits; forward steps are all spent up to both limits, data rate first |
| `Adr.StepsMonotone` | examples/adr_plugins/default.js:53-74 | More steps never give a lower data rate or more power |
| `Adr.StepsDoNotCancel` | examples/adr_plugins/default.js:53-74 | Steps forward and back do not cancel |
| `Adr.Handle` | examples/adr_plugins/default.js:9-51 | The whole algorithm computes the specified answer |
| `Adr.HandledMoves` | examples/adr_plugins/default.js:9-51 | The whole answer without the functions that compute it: n is the greatest number of 3 dB steps between the SNR required with its margin and the largest SNR; forward steps go to the data rate and then to the power index, back steps to the power index if exactly 20 uplinks were sent at it |
| `Adr.StepCountIs` | examples/adr_plugins/default.js:28-30 | The step count is that n |
| `Adr.MarginLowers` | examples/adr_plugins/default.js:28-30 | A larger installation margin or a larger required SNR never raises data rate or power index |
| `Adr.ThreeDecibels` | examples/adr_plugins/default.js:28-30 | 3 dB more margin are exactly one step less |
| `Adr.HandledInLimits` | examples/adr_plugins/default.js:9-51 | The answer stays in its limits, and power is raised exactly for a negative margin with exactly 20 uplinks at the present power |
| `Adr.FullHistory` | chirpstack/src/uplink/data.rs:856-861 | With the at most 20 uplinks the server keeps, "not 20" in the algorithm means "fewer", and power is raised only if all 20 are at the present power |
| `Adr.BetterSignal` | examples/adr_plugins/default.js:9-51 | The same uplinks received better never lead to a lower data rate, more power or other repetitions |
| `Adr.GetPacketLossPercentage` | examples/adr_plugins/default.js:131-145 | The loss loop telescopes to last - first - (length - 1), as a share of the history; 0 below 20 entries |
| `Adr.PacketLossIs` | examples/adr_plugins/default.js:131-145 | The loss times the length is a hundred times the counters missing between first and last; 0 below 20 uplinks |
| `Adr.LossIsZeroIff` | examples/adr_plugins/default.js:131-145 | With rising counters the loss is never negative, and zero exactly when no counter is missing |
| `Adr.GapsTelescope` | examples/adr_plugins/default.js:131-145 | The sum of the gaps telescopes |
| `Adr.GetNbTrans` | examples/adr_plugins/default.js:103-129 | The table look-up with its clamps |
| `Adr.NbTransTable` | examples/adr_plugins/default.js:103-129 | The number of repetitions for every loss and present value |
| `Adr.NbTransRange` | examples/adr_plugins/default.js:103-129 | Repetitions stay within 1 to 3, and grow by no more than one below a loss of 30 |
| `Adr.NbTransMonotone` | examples/adr_plugins/default.js:103-129 | They grow with loss and with the present value |
| `Adr.NbTransSettles` | examples/adr_plugins/default.js:103-129 | At a steady loss they settle after two rounds |
| `Adr.GetMaxSnr` | examples/adr_plugins/default.js:91-101 | The loop finds the largest SNR, or -999 |
| `Adr.GetHistoryCount` | examples/adr_plugins/default.js:80-89 | The loop counts the uplinks at a power index |
| `Adr.HistoryCountIs` | examples/adr_plugins/default.js:80-89 | The count is the number of uplinks at the power index |
| `History.DeviceSession.AppendGatewayRxInfoHistory` | api/rust/src/internal.rs:26-37 | The history becomes the last max_history items with the new one; a limit of 0 is the only failure |
| `History.RunKeepsLast` | api/rust/src/internal.rs:26-37 | After any run of appends to any history, exactly the last items of all that was there are kept, in order |
| `History.DeviceSession.AppendAll` | api/rust/src/internal.rs:45-60 | Any number of appends to a new session leave its last items |

## Left out

- AES, CMAC and key wrap: external crates, passed in as functions; `lrwn/src/keys.rs` and `lrwn/src/aes128.rs` only fill blocks for them.
- Text forms (hex, Display, FromStr), serde and database conversions of the identifier types.
- HTTP and Redis clients, configuration, certificates, regions, storage, the user interface, generated code.
- Error texts: every error is the one value `Err`.
- Debug and release builds differ on overflow: the i8 subtraction of DevStatusAns wraps as in a release build; shifts by the width of a word and the counter subtraction of `get_full_f_cnt_up` are errors as in a debug build.
- SNR and RSSI of relay metadata and power levels are unbounded integers; the source uses isize, whose bounds only matter to values that are clamped anyway.
- ChMask is packed from two halves of eight bits by a table of bits instead of the shifting loops over sixteen.
- Frame, header and payload codecs are functions on values; appending to a vector in place is not modelled, except in the methods of `PhyPayload`, `MACCommandSet` and the CFList loops.
- `MACCommandSet::size`, `cid`, `push` and `from_slice`: no loop or branch of their own.
- `get_a_f_cnt_down` and `set_a_f_cnt_down`: one branch each.
- Link.ReceiveFrame: stops at the first error, as the documentation of `PhyPayload` has it; the server logs an error of decoding f_opts and goes on, and tries several device sessions in turn.
- Instants are unbounded integers; the range limits of the date library are not modelled.
- Adr.Handle: does not model floating-point rounding or NaN, because the numbers of the script are integers and reals here.
- Adr.GetIdealTxPowerIndexAndDr: a fractional or infinite step count, for which the loop of the script would not end, cannot arise from the integer floor and is not modelled.
- History.DeviceSession.AppendAll: is the run of the source's own test, for any number of items, not an operation of the source.
