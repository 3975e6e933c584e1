/**
 * The injected bus transport (struct scd30_driver_s, lib/scd30/scd30.h:13-25),
 * modelled as an oracle: every call is appended to a trace, and each
 * transaction consumes the next scripted reply, which stands for whatever the
 * platform and the sensor answer.
 */
module Transport {

  /** One bus transaction as the driver issues it: context pointer, address byte, payload or length. */
  datatype Op =
    | Write(ctx: nat, addr: bv8, bytes: seq<bv8>)
    | Read(ctx: nat, addr: bv8, len: nat)

  /** The outcome of one transaction: a return code, and for a read the bytes on the wire. */
  datatype Reply = Reply(code: int, data: seq<bv8>)

  /** With nothing scripted, no device acknowledges: the transaction fails. */
  const NACK: Reply := Reply(-1, [])

  function Next(script: seq<Reply>): Reply {
    if script == [] then NACK else script[0]
  }

  function Rest(script: seq<Reply>): seq<Reply> {
    if script == [] then [] else script[1..]
  }

  /**
   * The `len` bytes a successful read delivers: the scripted bytes, and 0xFF
   * (an undriven, pulled-up data line) past their end.
   */
  function Delivered(data: seq<bv8>, len: nat): (r: seq<bv8>)
    ensures |r| == len
    ensures forall i :: 0 <= i < len && i < |data| ==> r[i] == data[i]
    ensures forall i :: |data| <= i < len ==> r[i] == 0xFF
  {
    if len == 0 then []
    else Delivered(data, len - 1) + [if len - 1 < |data| then data[len - 1] else 0xFF]
  }

  /** A read of exactly as many bytes as the device sends delivers those bytes. */
  lemma DeliveredExactly(data: seq<bv8>)
    ensures Delivered(data, |data|) == data
  {
  }

  /** How many bytes a failed read has placed: the scripted ones, at most `len`. */
  function Partial(data: seq<bv8>, len: nat): nat {
    if |data| < len then |data| else len
  }

  /**
   * A buffer after a read of `len` bytes into its start with outcome `reply`:
   * on success the delivered bytes followed by the rest; on failure the
   * platform may already have stored part of the transfer, so the scripted
   * bytes (at most `len`) replace the start and the rest is untouched.
   */
  function AfterRead(buf: seq<bv8>, reply: Reply, len: nat): (r: seq<bv8>)
    requires len <= |buf|
    ensures |r| == |buf|
    ensures r[len..] == buf[len..]
    ensures reply.code >= 0 ==> r[..len] == Delivered(reply.data, len)
    ensures reply.code < 0 ==> forall i :: 0 <= i < len && |reply.data| <= i ==> r[i] == buf[i]
    ensures reply.code < 0 ==> forall i :: 0 <= i < len && i < |reply.data| ==> r[i] == reply.data[i]
    ensures reply == NACK ==> r == buf
  {
    if reply.code < 0 then
      var k := Partial(reply.data, len);
      reply.data[..k] + buf[k..]
    else Delivered(reply.data, len) + buf[len..]
  }

  class Bus {
    /** Every transaction issued so far, oldest first. */
    var trace: seq<Op>
    /** The replies still to come. */
    var script: seq<Reply>

    constructor (script: seq<Reply>)
      ensures trace == [] && this.script == script
    {
      trace := [];
      this.script := script;
    }

    /** i2c_write: send the first `len` bytes of `data` to `addr`. */
    method Write(ctx: nat, addr: bv8, data: array<bv8>, len: nat) returns (res: int)
      requires len <= data.Length
      modifies this
      ensures trace == old(trace) + [Op.Write(ctx, addr, data[..len])]
      ensures script == Rest(old(script))
      ensures res == Next(old(script)).code
    {
      res := Next(script).code;
      trace := trace + [Op.Write(ctx, addr, data[..len])];
      script := Rest(script);
    }

    /**
     * i2c_read: receive `len` bytes from `addr` into the start of `data`; a
     * failed read may have stored the scripted bytes that arrived before it
     * failed, and no more than `len` of them.
     */
    method Read(ctx: nat, addr: bv8, data: array<bv8>, len: nat) returns (res: int)
      requires len <= data.Length
      modifies this, data
      ensures trace == old(trace) + [Op.Read(ctx, addr, len)]
      ensures script == Rest(old(script))
      ensures res == Next(old(script)).code
      ensures data[..] == AfterRead(old(data[..]), Next(old(script)), len)
    {
      var reply := Next(script);
      res := reply.code;
      trace := trace + [Op.Read(ctx, addr, len)];
      script := Rest(script);
      if res >= 0 {
        var wire := Delivered(reply.data, len);
        forall i | 0 <= i < len {
          data[i] := wire[i];
        }
        assert data[..] == wire + old(data[len..]);
      } else {
        var k := Partial(reply.data, len);
        forall i | 0 <= i < k {
          data[i] := reply.data[i];
        }
        assert data[..] == reply.data[..k] + old(data[k..]);
      }
    }
  }
}
