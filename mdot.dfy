/** The mDot radio stack as the firmware sees it.

    The stack itself is an external library; here it is only a record of the
    calls made into it, the replies it gives (supplied by the caller of each
    method, since nothing about them is known), and its non-volatile memory,
    a map from address to the application state stored there.
 */
module Mdot {
  import opened Hex

  /** `mDot::MDOT_OK`, the success status of every stack call. */
  const MdotOk: int := 0

  /** The value range of a C `uint16_t`. */
  type Uint16 = x: int | 0 <= x < 0x1_0000

  /** The join modes the firmware requests. */
  datatype JoinMode = Manual | AutoOta

  /** One call into the stack, with the arguments it was given. */
  datatype Call =
    | SetJoinMode(mode: JoinMode)
    | UpdateManualConfig(devAddr: seq<Byte>, nwkSKey: seq<Byte>, appSKey: seq<Byte>,
                         subBand: int, publicNetwork: bool, ack: bool)
    | UpdateOtaConfigIdKey(appEui: seq<Byte>, appKey: seq<Byte>,
                           subBand: int, publicNetwork: bool, ack: bool)
    | Send(payload: seq<Byte>)
    | Recv

  class Dot {
    /** Every configuration and radio call made so far, oldest first. */
    var calls: seq<Call>
    /** Non-volatile memory: the 2-byte application state stored per address. */
    var nvm: map<int, Uint16>

    constructor (stored: map<int, Uint16>)
      ensures calls == [] && nvm == stored
    {
      calls := [];
      nvm := stored;
    }

    method SetJoinMode(mode: JoinMode, reply: int) returns (ret: int)
      modifies this`calls
      ensures calls == old(calls) + [Call.SetJoinMode(mode)]
      ensures ret == reply
    {
      calls := calls + [Call.SetJoinMode(mode)];
      ret := reply;
    }

    method UpdateManualConfig(devAddr: seq<Byte>, nwkSKey: seq<Byte>, appSKey: seq<Byte>,
                              subBand: int, publicNetwork: bool, ack: bool)
      modifies this`calls
      ensures calls == old(calls) + [Call.UpdateManualConfig(devAddr, nwkSKey, appSKey, subBand, publicNetwork, ack)]
    {
      calls := calls + [Call.UpdateManualConfig(devAddr, nwkSKey, appSKey, subBand, publicNetwork, ack)];
    }

    method UpdateOtaConfigIdKey(appEui: seq<Byte>, appKey: seq<Byte>,
                                subBand: int, publicNetwork: bool, ack: bool)
      modifies this`calls
      ensures calls == old(calls) + [Call.UpdateOtaConfigIdKey(appEui, appKey, subBand, publicNetwork, ack)]
    {
      calls := calls + [Call.UpdateOtaConfigIdKey(appEui, appKey, subBand, publicNetwork, ack)];
    }

    method Send(payload: seq<Byte>, reply: int) returns (ret: int)
      modifies this`calls
      ensures calls == old(calls) + [Call.Send(payload)]
      ensures ret == reply
    {
      calls := calls + [Call.Send(payload)];
      ret := reply;
    }

    /** `recv` fills the caller's vector with `downlink` and returns `reply`. */
    method Recv(reply: int, downlink: seq<Byte>) returns (ret: int, data: seq<Byte>)
      modifies this`calls
      ensures calls == old(calls) + [Call.Recv]
      ensures ret == reply && data == downlink
    {
      calls := calls + [Call.Recv];
      ret, data := reply, downlink;
    }

    /** A read succeeds exactly when something was stored at `addr`. */
    method NvmRead(addr: int) returns (ok: bool, value: Uint16)
      ensures ok <==> addr in nvm
      ensures ok ==> value == nvm[addr]
    {
      ok := addr in nvm;
      value := if ok then nvm[addr] else 0;
    }

    /** `nvmWrite` reports success or failure with `reply`; a failed write
        leaves the memory as it was. */
    method NvmWrite(addr: int, value: Uint16, reply: bool) returns (ok: bool)
      modifies this`nvm
      ensures ok == reply
      ensures nvm == if reply then old(nvm)[addr := value] else old(nvm)
    {
      ok := reply;
      if ok {
        nvm := nvm[addr := value];
      }
    }
  }
}
