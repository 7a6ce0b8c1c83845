/** The ABP example application: a persisted 16-bit uplink counter, the
    2-byte big-endian uplink payload built from it, and the rule that turns a
    downlink into the state of the built-in LED.
 */
module ManualExample {
  import opened Hex
  import opened Mdot
  import ParseKeys

  /** The compiled-in credentials. */
  const DevAddr: string := "A80BAD2C"
  const NwkSKey: string := "BD86A216B4DE6752938FFC6D260C5649"
  const AppSKey: string := "9A74BEA119106EEE661E20F48CD1C216"

  /** The NVM address the application state lives at. */
  const CounterAddr: int := 0x100

  /** The two levels written to the LED: BUILTIN_LED_OFF (0), BUILTIN_LED_ON (1). */
  datatype Led = LedOff | LedOn

  /** `state.counter++` on a `uint16_t`: wraps from 65535 to 0. */
  function Increment(c: Uint16): (r: Uint16)
    ensures c < 0xFFFF ==> r == c + 1
    ensures c == 0xFFFF ==> r == 0
  {
    (c + 1) % 0x1_0000
  }

  /** `x >> 8 & 0xff` for the non-negative `int` a `uint16_t` is promoted
      to; for a 16-bit value the mask drops nothing. */
  function HighByte(x: nat): (b: Byte)
    ensures x < 0x1_0000 ==> b == x / 256
  {
    x / 256 % 256
  }

  /** `x & 0xff` for a non-negative `x`: the byte that agrees with `x`
      modulo 2^8. */
  function LowByte(x: nat): (b: Byte)
    ensures (x - b) % 256 == 0
    ensures x < 256 ==> b == x
  {
    x % 256
  }

  /** The uplink `tx_data`: `counter >> 8 & 0xff`, then `counter & 0xff`,
      so big-endian. */
  function Payload(c: Uint16): (p: seq<Byte>)
    ensures |p| == 2
    ensures 256 * p[0] as int + p[1] as int == c
  {
    [HighByte(c), LowByte(c)]
  }

  /** The counter a receiver reads back from a 2-byte big-endian payload. */
  function PayloadValue(p: seq<Byte>): (c: Uint16)
    requires |p| == 2
  {
    256 * p[0] as int + p[1] as int
  }

  /** Payload and PayloadValue are inverse bijections between counters and
      2-byte payloads. */
  lemma PayloadRoundTrip(c: Uint16, p: seq<Byte>)
    requires |p| == 2
    ensures PayloadValue(Payload(c)) == c
    ensures Payload(PayloadValue(p)) == p
  {
    var q := Payload(PayloadValue(p));
    assert 256 * q[0] as int + q[1] as int == 256 * p[0] as int + p[1] as int;
    assert q[0] == p[0] && q[1] == p[1];
  }

  /** The LED after a successful send whose `recv` left `downlink` behind. */
  function LedAfter(led: Led, downlink: seq<Byte>): (r: Led)
    ensures |downlink| == 0 ==> r == led
    ensures |downlink| > 0 ==> (r == LedOn <==> downlink[0] == 1)
  {
    if |downlink| > 0 then (if downlink[0] == 1 then LedOn else LedOff) else led
  }

  /** Only the first byte of a non-empty downlink matters: the earlier LED
      state and the rest of the downlink do not. Delivering the same downlink
      twice has the effect of delivering it once. */
  lemma LedAfterFirstByteOnly(l: Led, m: Led, d: seq<Byte>, e: seq<Byte>)
    requires |d| > 0 && |e| > 0 && d[0] == e[0]
    ensures LedAfter(l, d) == LedAfter(m, e)
    ensures LedAfter(LedAfter(l, d), d) == LedAfter(l, d)
  {
  }

  /** The counter `read_counter` restores from the NVM: the stored state,
      or 0 when the read fails. */
  function RestoredCounter(nvm: map<int, Uint16>): (c: Uint16)
    ensures CounterAddr in nvm ==> c == nvm[CounterAddr]
    ensures CounterAddr !in nvm ==> c == 0
  {
    if CounterAddr in nvm then nvm[CounterAddr] else 0
  }

  /** The NVM after `up_counter` writes counter `c`, with write status `ok`. */
  function WrittenNvm(nvm: map<int, Uint16>, c: Uint16, ok: bool): map<int, Uint16> {
    if ok then nvm[CounterAddr := c] else nvm
  }

  /** What a later read restores after `up_counter`: the incremented counter
      when its write succeeded, and the earlier stored state when it failed. */
  lemma RestoreAfterUp(nvm: map<int, Uint16>, old_counter: Uint16, ok: bool)
    ensures ok ==> RestoredCounter(WrittenNvm(nvm, Increment(old_counter), ok)) == Increment(old_counter)
    ensures !ok ==> RestoredCounter(WrittenNvm(nvm, Increment(old_counter), ok)) == RestoredCounter(nvm)
  {
  }

  /** The replies the stack gives in one loop round: the `nvmWrite` status,
      the `send` and `recv` status codes, and the downlink. */
  datatype Reply = Reply(nvmWrite: bool, send: int, recv: int, downlink: seq<Byte>)

  /** The counter after `k` increments. */
  function Advanced(c: Uint16, k: nat): (r: Uint16)
    ensures r == (c + k) % 0x1_0000
  {
    if k == 0 then c else Increment(Advanced(c, k - 1))
  }

  /** The application: the global `state` and `led`, over the global `dot`. */
  class App {
    const dot: Dot
    var counter: Uint16
    var led: Led

    /** `state` is zero-initialised static storage; the LED starts off. */
    constructor (dot: Dot)
      ensures this.dot == dot && counter == 0 && led == LedOff
    {
      this.dot := dot;
      counter := 0;
      led := LedOff;
    }

    /** The counter in RAM equals the one persisted in NVM. */
    ghost predicate Persisted()
      reads this, dot
    {
      CounterAddr in dot.nvm && dot.nvm[CounterAddr] == counter
    }

    /** `read_counter`: take the stored state, or 0 if `nvmRead` fails. */
    method ReadCounter()
      modifies this`counter
      ensures counter == RestoredCounter(dot.nvm)
      ensures CounterAddr in dot.nvm ==> Persisted()
    {
      var ok, stored := dot.NvmRead(CounterAddr);
      counter := stored;
      if !ok {
        counter := 0;
      }
    }

    /** `up_counter`: increment with 16-bit wrap-around and write the new
        state back to NVM; the write's status is ignored. */
    method UpCounter(writeReply: bool)
      modifies this`counter, dot`nvm
      ensures counter == Increment(old(counter))
      ensures dot.nvm == WrittenNvm(old(dot.nvm), counter, writeReply)
      ensures writeReply ==> Persisted()
    {
      counter := Increment(counter);
      var _ := dot.NvmWrite(CounterAddr, counter, writeReply);
    }

    /** Start-up of `main`: unless the device resumed from deep sleep,
        configure the ABP credentials; then restore the counter. */
    method Boot(resumedFromStandby: bool, joinModeReply: int)
      modifies this`counter, dot`calls
      ensures !resumedFromStandby ==> dot.calls == old(dot.calls) + [
        Call.SetJoinMode(Manual),
        Call.UpdateManualConfig([0xA8, 0x0B, 0xAD, 0x2C], Decode(NwkSKey, 16), Decode(AppSKey, 16), 0, true, true)]
      ensures resumedFromStandby ==> dot.calls == old(dot.calls)
      ensures counter == RestoredCounter(dot.nvm)
    {
      if !resumedFromStandby {
        CompiledCredentials();
        DevAddrBytes(DevAddr);
        var _ := ParseKeys.InitializePersonalized(dot, DevAddr, NwkSKey, AppSKey, true, joinModeReply);
      }
      ReadCounter();
    }

    /** One round of the main loop, without the sleep that ends it:
        increment, send the counter, and only if the send succeeded receive
        and let a non-empty downlink set the LED. */
    method Step(reply: Reply) returns (tx: seq<Byte>)
      modifies this`counter, this`led, dot`nvm, dot`calls
      ensures counter == Increment(old(counter))
      ensures dot.nvm == WrittenNvm(old(dot.nvm), counter, reply.nvmWrite)
      ensures reply.nvmWrite ==> Persisted()
      ensures tx == Payload(counter) && PayloadValue(tx) == counter
      ensures dot.calls == old(dot.calls) + [Call.Send(tx)] + (if reply.send == MdotOk then [Call.Recv] else [])
      ensures led == if reply.send == MdotOk then LedAfter(old(led), reply.downlink) else old(led)
    {
      UpCounter(reply.nvmWrite);

      tx := [];
      tx := tx + [HighByte(counter)];
      tx := tx + [LowByte(counter)];
      PayloadRoundTrip(counter, tx);

      var ret := dot.Send(tx, reply.send);
      if ret == MdotOk {
        var recvData;
        ret, recvData := dot.Recv(reply.recv, reply.downlink);
        // a failed recv is only logged; the LED rule still looks at recvData
        if |recvData| > 0 {
          if recvData[0] == 1 {
            led := LedOn;
          } else {
            led := LedOff;
          }
        }
      }
    }

    /** The first `|replies|` rounds of the endless main loop; `sent` holds
        the payload of each round. */
    method Run(replies: seq<Reply>) returns (sent: seq<seq<Byte>>)
      modifies this`counter, this`led, dot`nvm, dot`calls
      ensures counter == Advanced(old(counter), |replies|)
      ensures dot.nvm == RunNvm(old(dot.nvm), old(counter), replies)
      ensures |replies| > 0 && replies[|replies| - 1].nvmWrite ==> Persisted()
      ensures dot.calls == old(dot.calls) + RunCalls(old(counter), replies)
      ensures led == RunLed(old(led), replies)
      ensures |sent| == |replies|
      ensures forall k :: 0 <= k < |sent| ==> sent[k] == Payload(Advanced(old(counter), k + 1))
    {
      sent := [];
      var i := 0;
      while i < |replies|
        invariant 0 <= i <= |replies|
        invariant counter == Advanced(old(counter), i)
        invariant dot.nvm == RunNvm(old(dot.nvm), old(counter), replies[..i])
        invariant i > 0 && replies[i - 1].nvmWrite ==> Persisted()
        invariant dot.calls == old(dot.calls) + RunCalls(old(counter), replies[..i])
        invariant led == RunLed(old(led), replies[..i])
        invariant |sent| == i
        invariant forall k :: 0 <= k < i ==> sent[k] == Payload(Advanced(old(counter), k + 1))
      {
        ghost var done, next := replies[..i], replies[..i + 1];
        assert next[..i] == done && next[i] == replies[i];
        var tx := Step(replies[i]);
        assert dot.nvm == WrittenNvm(RunNvm(old(dot.nvm), old(counter), done), counter, replies[i].nvmWrite);
        sent := sent + [tx];
        i := i + 1;
      }
      assert replies[..i] == replies;
    }
  }

  /** The calls one loop round makes when it sends counter `c`. */
  function RoundCalls(c: Uint16, reply: Reply): seq<Call> {
    [Call.Send(Payload(c))] + (if reply.send == MdotOk then [Call.Recv] else [])
  }

  /** The calls of the first `|replies|` rounds, starting from counter `c`. */
  function RunCalls(c: Uint16, replies: seq<Reply>): seq<Call> {
    if replies == [] then []
    else RunCalls(c, replies[..|replies| - 1]) + RoundCalls(Advanced(c, |replies|), replies[|replies| - 1])
  }

  /** The NVM after the first `|replies|` rounds, starting from counter `c`. */
  function RunNvm(nvm: map<int, Uint16>, c: Uint16, replies: seq<Reply>): map<int, Uint16> {
    if replies == [] then nvm
    else WrittenNvm(RunNvm(nvm, c, replies[..|replies| - 1]), Advanced(c, |replies|), replies[|replies| - 1].nvmWrite)
  }

  /** After a run in which no NVM write succeeded, a read restores the
      state stored before the run. */
  lemma {:induction false} RunNvmNoWrite(nvm: map<int, Uint16>, c: Uint16, replies: seq<Reply>)
    requires forall i :: 0 <= i < |replies| ==> !replies[i].nvmWrite
    ensures RestoredCounter(RunNvm(nvm, c, replies)) == RestoredCounter(nvm)
  {
    if replies != [] {
      var n := |replies| - 1;
      var prefix := replies[..n];
      assert forall i :: 0 <= i < n ==> !prefix[i].nvmWrite;
      RunNvmNoWrite(nvm, c, prefix);
      assert RunNvm(nvm, c, replies) == RunNvm(nvm, c, prefix);
    }
  }

  /** After a run, a read restores the counter of round `i`, the last round
      whose NVM write succeeded. */
  lemma {:induction false} RunNvmLastWrite(nvm: map<int, Uint16>, c: Uint16, replies: seq<Reply>, i: nat)
    requires i < |replies| && replies[i].nvmWrite
    requires forall j :: i < j < |replies| ==> !replies[j].nvmWrite
    ensures RestoredCounter(RunNvm(nvm, c, replies)) == Advanced(c, i + 1)
  {
    var n := |replies| - 1;
    var prefix := replies[..n];
    if i < n {
      assert prefix[i].nvmWrite && forall j :: i < j < n ==> !prefix[j].nvmWrite;
      RunNvmLastWrite(nvm, c, prefix, i);
      assert RunNvm(nvm, c, replies) == RunNvm(nvm, c, prefix);
    }
  }

  /** Whether a round's downlink reaches the LED rule and is non-empty. */
  predicate Delivers(reply: Reply) {
    reply.send == MdotOk && |reply.downlink| > 0
  }

  /** The LED after the first `|replies|` rounds. */
  function RunLed(led: Led, replies: seq<Reply>): Led {
    if replies == [] then led
    else
      var r := replies[|replies| - 1];
      var before := RunLed(led, replies[..|replies| - 1]);
      if r.send == MdotOk then LedAfter(before, r.downlink) else before
  }

  /** After a run the LED shows the first byte of the last downlink that
      reached it, or is unchanged when none did. */
  lemma {:induction false} RunLedLastDownlink(led: Led, replies: seq<Reply>)
    ensures (forall i :: 0 <= i < |replies| ==> !Delivers(replies[i])) ==> RunLed(led, replies) == led
    ensures forall i :: 0 <= i < |replies| && Delivers(replies[i]) &&
                        (forall j :: i < j < |replies| ==> !Delivers(replies[j])) ==>
                        (RunLed(led, replies) == LedOn <==> replies[i].downlink[0] == 1)
  {
    if replies != [] {
      var n := |replies| - 1;
      var prefix := replies[..n];
      RunLedLastDownlink(led, prefix);
      forall i | 0 <= i < n
        ensures replies[i] == prefix[i]
      {
      }
    }
  }

  /** Successive uplinks carry successive counter values, modulo 2^16. */
  lemma SuccessivePayloads(c: Uint16, k: nat)
    ensures PayloadValue(Payload(Advanced(c, k + 1))) == Increment(PayloadValue(Payload(Advanced(c, k))))
  {
  }

  /** The compiled-in credentials are well formed. */
  lemma CompiledCredentials()
    ensures |DevAddr| == 8 && |NwkSKey| == 32 && |AppSKey| == 32
    ensures IsHexCredential(DevAddr, 4) && IsHexCredential(NwkSKey, 16) && IsHexCredential(AppSKey, 16)
  {
  }

  /** The compiled-in DevAddr decodes to A8 0B AD 2C. The string is a
      parameter equal to DevAddr so that the verifier does not unfold the
      literal through every call of Decode. */
  lemma DevAddrBytes(addr: string)
    requires addr == DevAddr
    ensures IsHexCredential(addr, 4) && Decode(addr, 4) == [0xA8, 0x0B, 0xAD, 0x2C]
  {
    CompiledCredentials();
    var d := Decode(addr, 4);
    assert addr == "A80BAD2C";
    assert d[0] == 0xA8 && d[1] == 0x0B && d[2] == 0xAD && d[3] == 0x2C;
  }
}
