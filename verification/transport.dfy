/**
 The I2C transport the firmware reaches through the vendor's i2c.h: opening a
 controller on a pin pair, a blocking write transaction and a blocking read
 transaction. Its implementation is not part of this model. Every call the
 firmware makes is recorded in a log of `Call`s, and `Replay` says which logs
 the dispatcher may produce.
 */
module Transport {

  /** A 32-bit word: the mailbox words, the pin numbers, the values returned. */
  type Word = bv32

  /** An 8-bit byte (uint8_t): device addresses and frame bytes. */
  type Byte = bv8

  datatype Option<T> = None | Some(value: T)

  /** The opaque handle returned by i2c_open, identified by the pin pair it was opened on. */
  datatype Handle = Opened(sda: Word, scl: Word)

  /** One call into the transport, with its arguments (and, for a read, what it returned). */
  datatype Call =
    | Open(sda: Word, scl: Word)
    | Write(device: Handle, addr: Byte, bytes: seq<Byte>)
    | Read(device: Handle, addr: Byte, count: nat, result: Word)

  /** The 3-byte frame iic_custom_writeByte sends: register pointer 0, then 80, 0. */
  const PROBE: seq<Byte> := [0, 80, 0]

  /** The number of bytes iic_custom_readByte asks for. */
  const READ_COUNT: nat := 2

  /**
   The handle a log leaves bound, or None when the log is not one the firmware
   can produce: it starts with an Open, and after that every entry is either an
   Open or a probe Write immediately followed by a 2-byte Read on the handle of
   the latest Open and at the same address.
   */
  function Replay(t: seq<Call>): (h: Option<Handle>)
    decreases |t|
  {
    if t == [] then None
    else
      match t[|t| - 1]
      case Open(sda, scl) =>
        if |t| == 1 || Replay(t[..|t| - 1]).Some? then Some(Opened(sda, scl)) else None
      case Write(_, _, _) => None
      case Read(d, a, n, _) =>
        if |t| >= 2 && t[|t| - 2] == Write(d, a, PROBE) && n == READ_COUNT && Replay(t[..|t| - 2]) == Some(d)
        then Some(d)
        else None
  }

  /** The number of completed write-then-read transactions in a log. */
  function Transactions(t: seq<Call>): nat
    decreases |t|
  {
    if t == [] then 0 else Transactions(t[..|t| - 1]) + (if t[|t| - 1].Read? then 1 else 0)
  }

  /** Opening a controller after a valid log binds the new pin pair and adds no transaction. */
  lemma LogOpen(t: seq<Call>, sda: Word, scl: Word)
    requires Replay(t).Some?
    ensures Replay(t + [Open(sda, scl)]) == Some(Opened(sda, scl))
    ensures Transactions(t + [Open(sda, scl)]) == Transactions(t)
  {
  }

  /** A probe write followed by a read on the bound handle keeps the log valid and adds one transaction. */
  lemma LogTransaction(t: seq<Call>, h: Handle, a: Byte, reply: Word)
    requires Replay(t) == Some(h)
    ensures Replay(t + [Write(h, a, PROBE), Read(h, a, READ_COUNT, reply)]) == Some(h)
    ensures Transactions(t + [Write(h, a, PROBE), Read(h, a, READ_COUNT, reply)]) == Transactions(t) + 1
  {
    var w := t + [Write(h, a, PROBE)];
    var u := t + [Write(h, a, PROBE), Read(h, a, READ_COUNT, reply)];
    assert u[..|u| - 2] == t;
    assert u[..|u| - 1] == w;
    assert w[..|w| - 1] == t;
  }
}
