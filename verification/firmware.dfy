/**
 The IOP firmware itself: the globals `device` and `customAddr`, the mailbox
 command register and data slots, the device-session routines and one
 iteration of the command loop in main. Calls into i2c.h go through the three
 transport methods of the class, which record each call in the ghost `trace`.
 */
module Firmware {
  import opened Transport
  import opened Mailbox

  class Iop {
    /** The mailbox command register, MAILBOX_CMD_ADDR. */
    var cmd: Word
    /** The mailbox data slots, MAILBOX_DATA(i). */
    const data: array<Word>
    /** The I2C handle currently in use. */
    var device: Handle
    /** The bus address of the sensor. */
    var customAddr: Byte
    /** Every transport call made so far, in order. */
    ghost var trace: seq<Call>

    /** The firmware's state as a value of the dispatcher model. */
    ghost function Abs(): Session
      reads this, data
    {
      Session(cmd, data[..], device, customAddr, trace)
    }

    ghost predicate Valid()
      reads this, data
    {
      Inv(Abs())
    }

    /** Start-up: `device = i2c_open(3, 7); custom_init();` on a mailbox the host can already see. */
    constructor Init(mailbox: array<Word>, word: Word)
      requires mailbox.Length >= 2
      ensures data == mailbox
      ensures Valid() && Abs() == Boot(mailbox[..], word)
    {
      data := mailbox;
      cmd := word;
      trace := [];
      new;
      device := I2cOpen(BOOT_SDA, BOOT_SCL);
      CustomInit();
      assert trace == [Open(BOOT_SDA, BOOT_SCL)];
      assert Abs() == Boot(mailbox[..], word);
    }

    /** i2c_open: a handle bound to the given pins. */
    method I2cOpen(sda: Word, scl: Word) returns (h: Handle)
      modifies this`trace
      ensures h == Opened(sda, scl)
      ensures trace == old(trace) + [Open(sda, scl)]
    {
      h := Opened(sda, scl);
      trace := trace + [Open(sda, scl)];
    }

    /** i2c_write: a blocking write of `bytes` to `addr`. */
    method I2cWrite(h: Handle, addr: Byte, bytes: seq<Byte>)
      modifies this`trace
      ensures trace == old(trace) + [Write(h, addr, bytes)]
    {
      trace := trace + [Write(h, addr, bytes)];
    }

    /**
     i2c_read: a blocking read of `count` bytes from `addr`. What the
     transport returns is not known to the firmware; it is the parameter `reply`.
     */
    method I2cRead(h: Handle, addr: Byte, count: nat, reply: Word) returns (len: Word)
      modifies this`trace
      ensures len == reply
      ensures trace == old(trace) + [Read(h, addr, count, reply)]
    {
      len := reply;
      trace := trace + [Read(h, addr, count, reply)];
    }

    /** iic_custom_writeByte: sends the probe frame [0, 80, 0] to `devAddr` on the current handle. */
    method CustomWriteByte(devAddr: Byte)
      modifies this`trace
      ensures trace == old(trace) + [Write(device, devAddr, PROBE)]
    {
      var temp := new Byte[3];
      temp[0] := 0;
      temp[1] := 80;
      temp[2] := 0;
      assert temp[..] == PROBE;
      I2cWrite(device, devAddr, temp[..]);
    }

    /** iic_custom_readByte: reads 2 bytes from `devAddr` and returns what i2c_read returned, not the bytes. */
    method CustomReadByte(devAddr: Byte, reply: Word) returns (len: Word)
      modifies this`trace
      ensures len == reply
      ensures trace == old(trace) + [Read(device, devAddr, READ_COUNT, reply)]
    {
      len := I2cRead(device, devAddr, READ_COUNT, reply);
    }

    /** custom_init: installs the INA219's default address. */
    method CustomInit()
      modifies this`customAddr
      ensures customAddr == INA219_DEFAULT_ADDRESS
    {
      customAddr := INA219_DEFAULT_ADDRESS;
    }

    /** custom_reset: does nothing. */
    method CustomReset()
      ensures Abs() == old(Abs())
    {
    }

    /** custom_getValue: the probe write, then the read, both at customAddr; returns the read's return value. */
    method CustomGetValue(reply: Word) returns (v: Word)
      modifies this`trace
      ensures v == reply
      ensures trace == old(trace)
        + [Write(device, customAddr, PROBE), Read(device, customAddr, READ_COUNT, reply)]
    {
      CustomWriteByte(customAddr);
      v := CustomReadByte(customAddr, reply);
    }

    /**
     One iteration of the loop in main. `observed` is what the poll reads from
     the command register, one word per read; `reply` is what i2c_read returns
     should the command be GET_VALUE. When no read has bit 0 set the firmware is
     still polling and only the register's content has moved on.
     */
    method Step(observed: seq<Word>, reply: Word) returns (k: Option<nat>)
      requires Valid()
      modifies this, data
      ensures Valid()
      ensures k.Some? ==> k.value < |observed| && Pending(observed[k.value])
      ensures k.Some? ==> forall j :: 0 <= j < k.value ==> !Pending(observed[j])
      ensures k.Some? ==> Abs() == Dispatch(old(Abs()).(cmd := observed[k.value]), reply)
      ensures k.None? ==> forall j :: 0 <= j < |observed| ==> !Pending(observed[j])
      ensures k.None? ==> Abs() == old(Abs()).(cmd := if observed == [] then old(cmd) else observed[|observed| - 1])
    {
      k := WaitForCommand(observed);
      if k.None? {
        if observed != [] {
          cmd := observed[|observed| - 1];
        }
        return;
      }
      cmd := observed[k.value];
      ghost var posted := Abs();
      var c := cmd;
      match Decode(c) {
        case ConfigIopSwitch =>
          var scl := data[0];
          var sda := data[1];
          device := I2cOpen(sda, scl);
          CustomInit();
          cmd := 0;
        case GetValue =>
          var v := CustomGetValue(reply);
          data[0] := v;
          cmd := 0;
        case Reset =>
          cmd := 0;
        case Unknown =>
          cmd := 0;
      }
      DispatchKeepsInv(posted, reply);
    }
  }
}
