/** `ParseKeys`: decodes the hex credentials of the two LoRaWAN activation
    modes into fixed-size `uint8_t` arrays and hands them to the radio stack.

    Array sizes follow section 6 of the LoRaWAN 1.0 specification: DevAddr
    4 bytes, NwkSKey and AppSKey 16 bytes each, AppEUI 8 bytes, AppKey
    16 bytes.
 */
module ParseKeys {
  import opened Hex
  import opened Mdot

  const DevAddrLength: nat := 4
  const SessionKeyLength: nat := 16
  const AppEuiLength: nat := 8
  const AppKeyLength: nat := 16

  /** One decoding loop: round `k` builds `{'0', 'x', s[2k], s[2k+1], '\0'}`,
      runs `strtoul` on it and stores the result, narrowed to `uint8_t`, at
      index `k`. */
  method DecodeInto(s: string, a: array<Byte>)
    requires IsHexCredential(s, a.Length)
    modifies a
    ensures a[..] == Decode(s, a.Length)
  {
    var k := 0;
    while k < a.Length
      invariant 0 <= k <= a.Length
      invariant a[..k] == Decode(s, k)
    {
      a[k] := ToUint8(PairVal(s[2 * k], s[2 * k + 1]));
      assert a[..k + 1] == a[..k] + [a[k]];
      k := k + 1;
    }
    assert a[..] == a[..a.Length];
  }

  /** ABP set-up: decode NwkSKey, AppSKey and DevAddr, request join mode
      MANUAL, then pass the three arrays to the manual-session configuration
      with sub-band 0, public network on and the caller's `ack`. Whatever the
      stack answers to the join-mode request, the result is `true`; a
      refusal is only logged. */
  method InitializePersonalized(dot: Dot, devAddr: string, nwkSKey: string, appSKey: string,
                                ack: bool, joinModeReply: int)
    returns (ok: bool)
    requires IsHexCredential(devAddr, DevAddrLength)
    requires IsHexCredential(nwkSKey, SessionKeyLength)
    requires IsHexCredential(appSKey, SessionKeyLength)
    modifies dot`calls
    ensures ok
    ensures dot.calls == old(dot.calls) + [
      Call.SetJoinMode(Manual),
      Call.UpdateManualConfig(Decode(devAddr, DevAddrLength), Decode(nwkSKey, SessionKeyLength),
                              Decode(appSKey, SessionKeyLength), 0, true, ack)]
  {
    var loriotNwkSKey := new Byte[SessionKeyLength];
    DecodeInto(nwkSKey, loriotNwkSKey);

    var loriotAppSKey := new Byte[SessionKeyLength];
    DecodeInto(appSKey, loriotAppSKey);

    var loriotDevAddr := new Byte[DevAddrLength];
    DecodeInto(devAddr, loriotDevAddr);

    var ret := dot.SetJoinMode(Manual, joinModeReply);
    // ret != MdotOk is logged and otherwise ignored

    dot.UpdateManualConfig(loriotDevAddr[..], loriotNwkSKey[..], loriotAppSKey[..], 0, true, ack);
    ok := true;
  }

  /** OTA set-up: decode AppKey and AppEUI, request join mode AUTO_OTA, then
      pass both arrays to the OTA identity configuration with sub-band 0,
      public network on and the caller's `ack`. Always `true`. */
  method InitializeOta(dot: Dot, appEui: string, appKey: string, ack: bool, joinModeReply: int)
    returns (ok: bool)
    requires IsHexCredential(appEui, AppEuiLength)
    requires IsHexCredential(appKey, AppKeyLength)
    modifies dot`calls
    ensures ok
    ensures dot.calls == old(dot.calls) + [
      Call.SetJoinMode(AutoOta),
      Call.UpdateOtaConfigIdKey(Decode(appEui, AppEuiLength), Decode(appKey, AppKeyLength), 0, true, ack)]
  {
    var loriotAppKey := new Byte[AppKeyLength];
    DecodeInto(appKey, loriotAppKey);

    var loriotAppEui := new Byte[AppEuiLength];
    DecodeInto(appEui, loriotAppEui);

    var ret := dot.SetJoinMode(AutoOta, joinModeReply);
    // ret != MdotOk is logged and otherwise ignored

    dot.UpdateOtaConfigIdKey(loriotAppEui[..], loriotAppKey[..], 0, true, ack);
    ok := true;
  }
}
