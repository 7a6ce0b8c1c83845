# LoRa connectivity demo: credential decoding and the ABP example loop

This project models, in Dafny, the logic that the mDot LoRaWAN connectivity
demo owns itself. The radio stack it drives is an external library.

- **Credential decoding** (`inc/parse_keys.h`). `ParseKeys::initializePersonalized`
  and `ParseKeys::initializeOta` turn fixed-width ASCII hex strings into
  fixed-size `uint8_t` arrays. Each array is filled by a counted loop: round
  `k` runs `strtoul` in base 16 on `"0x"` followed by characters `2k` and
  `2k+1`. The sizes are DevAddr 4, NwkSKey 16, AppSKey 16, AppEUI 8 and
  AppKey 16 bytes, as in section 6 of the LoRaWAN 1.0 specification. The
  digits are the base-16 alphabet of section 8 of RFC 4648, read in either
  letter case. Each entry point then requests a join mode (MANUAL or
  AUTO_OTA) and passes the arrays to the stack's configuration helper. It
  returns `true` whatever the stack answered.
- **The ABP example application** (`src/manual_example.cpp`). This covers:
  - the application counter, a `uint16_t` restored from NVM address 0x100
    (`read_counter`) and incremented and written back once per round
    (`up_counter`);
  - the 2-byte big-endian uplink payload built from the counter;
  - the rule that sets the built-in LED from the first byte of a downlink.

Files:

- `hex.dfy`, module `Hex`: the pure specification of hex digits, of decoding
  (`Decode`) and of its inverse (`Encode`), and lemmas about them.
- `mdot.dfy`, module `Mdot`: the radio stack as a log of the calls made into
  it, plus an NVM map. Its replies are supplied by the caller.
- `parse_keys.dfy`, module `ParseKeys`: the array-filling loops and the two
  entry points, proved against `Hex.Decode` and the call log.
- `manual_example.dfy`, module `ManualExample`: the counter, payload and LED
  rule, and the class `App` holding the global `state.counter` and `led`.
  Its methods model `read_counter`, `up_counter`, start-up, one main-loop
  round and a finite run of the loop.

Two points about the code that the model follows:

- The decoding loops read only characters `0 .. 2N-1` of each credential
  (inc/parse_keys.h:15). So `Hex.IsHexCredential` asks for at least `2N`
  characters, and `Hex.DecodeReadsOnlyPrefix` proves the rest cannot matter.
- The 4th and 5th arguments of `update_manual_config`, the literals `0` and
  `true`, are the frequency sub-band and the public-network flag. The call
  `update_ota_config_id_key(network_id, network_key, frequency_sub_band,
  public_network, ack)` at src/auto_ota_example.cpp:96 shows this order. The
  model records them as `subBand` and `publicNetwork`.

## Model

| member | source | states |
|---|---|---|
| `Hex.HexVal` | inc/parse_keys.h:15-16 | the base-16 value of a hex digit, upper or lower case, is below 16 |
| `Hex.UpperDigit` | inc/parse_keys.h:15-16 | partner of HexVal: for every nibble there is an upper-case digit that HexVal maps back to it |
| `Hex.HexValCaseInsensitive` | inc/parse_keys.h:15-16 | upper- and lower-casing a digit keeps its value; two digits have equal values iff they are equal after upper-casing |
| `Hex.PairVal` | inc/parse_keys.h:15-16 | `strtoul` of `"0x"` plus two hex digits is at most 255 |
| `Hex.ToUint8` | inc/parse_keys.h:16 | the narrowing to `uint8_t` keeps `x` modulo 2^8, and keeps `x` itself when it is below 256 |
| `Hex.StoredByte` | inc/parse_keys.h:16 | the assignment of the `strtoul` result to a `uint8_t` element (reduction mod 256) loses nothing: the element is `16*hex(hi) + hex(lo)` |
| `Hex.Decode` | inc/parse_keys.h:13-17 | after `n` rounds there are exactly `n` bytes, and byte `i` is `16*hex(s[2i]) + hex(s[2i+1])` for every `i < n` |
| `Hex.Encode` | inc/parse_keys.h:13-17 | partner of Decode: two upper-case digits per byte, high nibble first, whose values are `b/16` and `b%16` |
| `Hex.DecodeEncode` | inc/parse_keys.h:13-17 | decoding the hex text of any byte array gives the array back |
| `Hex.EncodeDecode` | inc/parse_keys.h:13-17 | re-encoding a decoded credential gives its first `2n` characters, upper-cased |
| `Hex.DecodeReadsOnlyPrefix` | inc/parse_keys.h:15 | two credentials that agree on characters `0 .. 2n-1` decode to the same bytes, so characters after index `2n-1` cannot change the result |
| `Hex.DecodeCaseInsensitive` | inc/parse_keys.h:15-16 | the upper-cased and the lower-cased spelling of a credential decode to the same bytes as the original |
| `Mdot.Dot.SetJoinMode` | inc/parse_keys.h:37 | the join-mode request is recorded and its status is whatever the stack replies |
| `Mdot.Dot.UpdateManualConfig` | inc/parse_keys.h:41 | the manual-session configuration call is recorded with all six arguments |
| `Mdot.Dot.UpdateOtaConfigIdKey` | inc/parse_keys.h:71 | the OTA identity configuration call is recorded with all five arguments |
| `Mdot.Dot.Send` | src/manual_example.cpp:120 | the uplink is recorded with its payload and the stack's status is returned |
| `Mdot.Dot.Recv` | src/manual_example.cpp:122-123 | the receive is recorded, and the vector holds the downlink whatever the status |
| `Mdot.Dot.NvmRead` | src/manual_example.cpp:40 | a read at an address succeeds exactly when a state is stored there, and then yields it |
| `Mdot.Dot.NvmWrite` | src/manual_example.cpp:51 | the write's status is the stack's reply; a successful write replaces the state at that address only, and a failed one changes nothing |
| `ParseKeys.DecodeInto` | inc/parse_keys.h:13-17 | the counted loop fills the whole array, and its contents equal `Decode` of the credential |
| `ParseKeys.InitializePersonalized` | inc/parse_keys.h:8-44 | returns true; the stack log grows by exactly SetJoinMode(MANUAL), then one UpdateManualConfig(DevAddr 4 bytes, NwkSKey 16, AppSKey 16, 0, true, ack) with the decoded arrays and the caller's ack, whatever the join-mode status |
| `ParseKeys.InitializeOta` | inc/parse_keys.h:46-74 | returns true; the log grows by exactly SetJoinMode(AUTO_OTA), then one UpdateOtaConfigIdKey(AppEUI 8 bytes, AppKey 16 bytes, 0, true, ack) |
| `ManualExample.Increment` | src/manual_example.cpp:32 | `state.counter++` on a `uint16_t` adds one below 65535 and wraps 65535 to 0 |
| `ManualExample.HighByte` | src/manual_example.cpp:116 | `counter >> 8 & 0xff` is `counter / 256` for every 16-bit counter: the mask drops nothing |
| `ManualExample.LowByte` | src/manual_example.cpp:117 | `counter & 0xff` is the byte that agrees with the counter modulo 2^8 |
| `ManualExample.Payload` | src/manual_example.cpp:116-117 | the payload is exactly 2 bytes and `256*b0 + b1` is the counter |
| `ManualExample.PayloadRoundTrip` | src/manual_example.cpp:116-117 | Payload and the big-endian reading `256*b0 + b1` are inverse bijections between counters and 2-byte payloads |
| `ManualExample.LedAfter` | src/manual_example.cpp:127-140 | an empty downlink leaves the LED as it was; for a non-empty one the LED is on iff the first byte is 1 |
| `ManualExample.LedAfterFirstByteOnly` | src/manual_example.cpp:134-139 | for a non-empty downlink the new LED depends only on its first byte, not on the earlier LED, and a repeated downlink changes nothing more |
| `ManualExample.RestoredCounter` | src/manual_example.cpp:39-43 | the restored counter is the stored state when the NVM read succeeds and 0 when it fails |
| `ManualExample.RestoreAfterUp` | src/manual_example.cpp:39-51 | after up_counter, a read restores the incremented counter if the write succeeded, and the earlier stored state if it failed |
| `ManualExample.Advanced` | src/manual_example.cpp:49 | `k` increments take counter `c` to `(c + k) mod 2^16` |
| `ManualExample.SuccessivePayloads` | src/manual_example.cpp:114-117 | successive uplinks carry successive counter values, modulo 2^16 |
| `ManualExample.RunNvmLastWrite` | src/manual_example.cpp:39-51 | after several rounds, a read restores the counter of the last round whose NVM write succeeded |
| `ManualExample.RunNvmNoWrite` | src/manual_example.cpp:39-51 | after rounds in which no NVM write succeeded, a read restores the state stored before them |
| `ManualExample.RunLedLastDownlink` | src/manual_example.cpp:120-140 | after several rounds the LED shows the first byte of the last non-empty downlink received after a successful send, or is unchanged if there was none |
| `ManualExample.CompiledCredentials` | src/manual_example.cpp:15-17 | the three compiled-in credentials have lengths 8, 32 and 32 and consist of hex digits |
| `ManualExample.DevAddrBytes` | src/manual_example.cpp:15 | the compiled-in DEV_ADDR decodes to A8 0B AD 2C |
| `ManualExample.App.constructor` | src/manual_example.cpp:35-37 | the static state starts at counter 0 and the LED starts off |
| `ManualExample.App.ReadCounter` | src/manual_example.cpp:39-46 | the counter becomes the state stored at 0x100, or 0 if the read fails; the NVM is not changed |
| `ManualExample.App.UpCounter` | src/manual_example.cpp:48-54 | the counter is incremented with wrap-around; if the ignored `nvmWrite` status is success, 0x100 then holds it, otherwise the NVM is unchanged; no other address changes |
| `ManualExample.App.Boot` | src/manual_example.cpp:71-109 | on a cold start the ABP credentials go to the stack exactly as InitializePersonalized sends them; after a resume from deep sleep nothing is configured; then the counter is restored |
| `ManualExample.App.Step` | src/manual_example.cpp:111-141 | one loop round increments the counter, persists it when the NVM write succeeds, and sends exactly its 2-byte payload; recv is called iff send returned MDOT_OK; the LED follows LedAfter only in that case |
| `ManualExample.App.Run` | src/manual_example.cpp:111-148 | `k` rounds advance the counter by `k` mod 2^16; round `j` sends the payload of counter `c+j+1`; the log, the NVM and the LED are exactly those of the rounds in order |

## Left out

- `strtoul` on malformed text (a non-hex character or a short string) is not modelled. Every decoding member requires `Hex.IsHexCredential`: at least `2N` characters, all of them hex digits. The code's partial parses, such as `"0xG1"` giving 0 and `"0xAG"` giving 0xA, are outside the model.
- A decoder that rejects malformed credentials is not modelled, because the code has no such path.
- All behaviour of the mDot library is out of scope: `setJoinMode`, the configuration helpers, `send`, `recv`, `saveConfig` and the rest. Its status codes and the downlink are parameters, and its configuration and radio calls are only recorded. The NVM is a map from address to stored state; NVM reads and writes change or read that map and are not part of the call log. `dot_util.h`, where the configuration helpers live, is not part of this model.
- Mdot.Dot.NvmWrite: a failed write is modelled as leaving the NVM unchanged; a partial write is not modelled.
- Mdot.Dot.NvmRead: an NVM read fails only when nothing is stored at the address. Other library failures are not modelled. The stored state is a number, not the raw bytes of the struct.
- The start-up calls `resetConfig`, `resetNetworkSession`, `setLogLevel`, `setTxPower`, `setTxDataRate`, `saveConfig`, `display_config`, `setEvents` and `restoreNetworkSession` are left out of `App.Boot`'s log. They are pure pass-throughs to the library. The deep-sleep standby flag is a parameter.
- Logging, `Serial`/`printf` output, and the hex dump of a downlink are not modelled.
- Sleep and wake, interrupt pins and the LED hardware are not modelled. Only the LED's logical level is kept.
- ManualExample.Payload: `counter >> 8 & 0xff` and `counter & 0xff` are computed as `/ 256 % 256` and `% 256` on the non-negative promoted value, instead of as bit-vector operations. The two agree for every non-negative `int`.
- ManualExample.App.Run: the endless `while (true)` loop is modelled as its first `k` rounds, for any `k`.
- The `uint8_t` loop counters of the five decoding loops are not modelled separately. They never exceed 16, so they cannot wrap. One method, `ParseKeys.DecodeInto`, models all five loops. The arrays' stack lifetime is not modelled.
- `src/auto_ota_example.cpp` is start-up glue, sensor reads and sleep over the same library. It is not modelled.
