/**
 The mailbox command protocol of the custom I2C IOP firmware, as values: the
 command codes, the decoding of a command word, the busy poll on the command
 register, the effect of one dispatched command on the firmware's state, and
 runs of host actions and dispatches. The class in module Firmware is proved
 to follow these definitions.
 */
module Mailbox {
  import opened Transport

  // Mailbox command codes.
  const CONFIG_IOP_SWITCH: Word := 0x1
  const GET_VALUE: Word := 0xD
  const RESET: Word := 0xF

  /** The INA219's bus address, which custom_init installs. */
  const INA219_DEFAULT_ADDRESS: Byte := 0x40

  /** The pins main opens the controller on at start-up: i2c_open(3, 7). */
  const BOOT_SDA: Word := 3
  const BOOT_SCL: Word := 7

  /** The branch of the switch in main that a command word selects. */
  datatype Command = ConfigIopSwitch | GetValue | Reset | Unknown

  /** A command is pending when bit 0 of the command register is set. */
  predicate Pending(w: Word) {
    w & 1 != 0
  }

  /** The switch in main: the whole word is compared with each code. */
  function Decode(w: Word): (c: Command)
    ensures c == ConfigIopSwitch <==> w == CONFIG_IOP_SWITCH
    ensures c == GetValue <==> w == GET_VALUE
    ensures c == Reset <==> w == RESET
    ensures !Pending(w) ==> c == Unknown
  {
    if w == CONFIG_IOP_SWITCH then ConfigIopSwitch
    else if w == GET_VALUE then GetValue
    else if w == RESET then Reset
    else Unknown
  }

  /**
   The busy poll `while ((MAILBOX_CMD_ADDR & 0x01) == 0);`, given the successive
   values the firmware reads from the command register: the index of the first
   read with bit 0 set, or None while the firmware is still polling.
   */
  method WaitForCommand(observed: seq<Word>) returns (k: Option<nat>)
    ensures k.Some? ==> k.value < |observed| && Pending(observed[k.value])
    ensures k.Some? ==> forall j :: 0 <= j < k.value ==> !Pending(observed[j])
    ensures k.None? ==> forall j :: 0 <= j < |observed| ==> !Pending(observed[j])
  {
    var i := 0;
    while i < |observed| && !Pending(observed[i])
      invariant 0 <= i <= |observed|
      invariant forall j :: 0 <= j < i ==> !Pending(observed[j])
    {
      i := i + 1;
    }
    k := if i < |observed| then Some(i) else None;
  }

  /**
   Everything one dispatch reads or writes: the command register, the mailbox
   data slots, the global `device` handle and `customAddr`, and the log of
   transport calls made so far.
   */
  datatype Session = Session(cmd: Word, slots: seq<Word>, device: Handle, addr: Byte, trace: seq<Call>)

  /**
   What holds of the firmware's state between dispatches: the mailbox has the
   two slots the commands use, the address is the INA219's, and the log is a
   valid one whose latest Open made the current handle.
   */
  predicate Inv(s: Session) {
    |s.slots| >= 2 && s.addr == INA219_DEFAULT_ADDRESS && Replay(s.trace) == Some(s.device)
  }

  /** The state after main's initialisation, `device = i2c_open(3, 7); custom_init();`. */
  function Boot(mailbox: seq<Word>, word: Word): (s: Session)
    requires |mailbox| >= 2
    ensures Inv(s)
    ensures s.device == Opened(3, 7) && s.addr == 0x40
    ensures s.trace == [Open(3, 7)] && Transactions(s.trace) == 0
    ensures s.slots == mailbox && s.cmd == word
  {
    Session(word, mailbox, Opened(BOOT_SDA, BOOT_SCL), INA219_DEFAULT_ADDRESS, [Open(BOOT_SDA, BOOT_SCL)])
  }

  /**
   One pass through the switch in main for the word in the command register,
   with `reply` the value i2c_read returns if the command reads the sensor.
   */
  function Dispatch(s: Session, reply: Word): (r: Session)
    requires |s.slots| >= 2
    ensures r.cmd == 0
    ensures |r.slots| == |s.slots| && r.slots[1..] == s.slots[1..]
    ensures r.slots[0] == if Decode(s.cmd) == GetValue then reply else s.slots[0]
    ensures Decode(s.cmd) == ConfigIopSwitch ==>
      r.device == Opened(s.slots[1], s.slots[0]) && r.addr == INA219_DEFAULT_ADDRESS
      && r.trace == s.trace + [Open(s.slots[1], s.slots[0])]
    ensures Decode(s.cmd) == GetValue ==>
      r.trace == s.trace + [Write(s.device, s.addr, PROBE), Read(s.device, s.addr, READ_COUNT, reply)]
    ensures Decode(s.cmd) != ConfigIopSwitch ==> r.device == s.device && r.addr == s.addr
    ensures Decode(s.cmd).Reset? || Decode(s.cmd).Unknown? ==> r == s.(cmd := 0)
  {
    match Decode(s.cmd)
    case ConfigIopSwitch =>
      var scl := s.slots[0];
      var sda := s.slots[1];
      s.(cmd := 0, device := Opened(sda, scl), addr := INA219_DEFAULT_ADDRESS, trace := s.trace + [Open(sda, scl)])
    case GetValue =>
      var log := s.trace + [Write(s.device, s.addr, PROBE), Read(s.device, s.addr, READ_COUNT, reply)];
      s.(cmd := 0, slots := s.slots[0 := reply], trace := log)
    case Reset =>
      s.(cmd := 0)
    case Unknown =>
      s.(cmd := 0)
  }

  /** Every dispatch keeps the invariant; a GET_VALUE adds exactly one transaction to the log. */
  lemma DispatchKeepsInv(s: Session, reply: Word)
    requires Inv(s)
    ensures Inv(Dispatch(s, reply))
    ensures Transactions(Dispatch(s, reply).trace) == Transactions(s.trace) + (if s.cmd == GET_VALUE then 1 else 0)
  {
    match Decode(s.cmd)
    case ConfigIopSwitch =>
      LogOpen(s.trace, s.slots[1], s.slots[0]);
    case GetValue =>
      LogTransaction(s.trace, s.device, s.addr, reply);
    case Reset =>
    case Unknown =>
  }

  /** Reconfiguring twice from the same slots binds the same pin pair and address both times. */
  lemma ConfigIdempotent(s: Session, reply1: Word, reply2: Word)
    requires |s.slots| >= 2 && s.cmd == CONFIG_IOP_SWITCH
    ensures Dispatch(s, reply1).device == Opened(s.slots[1], s.slots[0])
    ensures var once := Dispatch(s, reply1);
      var twice := Dispatch(once.(cmd := CONFIG_IOP_SWITCH), reply2);
      twice.device == once.device && twice.addr == once.addr && twice.slots == once.slots
  {
  }

  /** A word with bit 0 clear, such as 0x2, is never acknowledged: the register keeps it. */
  lemma UnpendingNeverCleared(s: Session, w: Word, reply: Word)
    requires |s.slots| >= 2 && !Pending(w) && s.cmd == w
    ensures Apply(s, HostPost(w, reply)) == s && Apply(s, HostPost(w, reply)).cmd == w
  {
  }

  /**
   After CONFIG_IOP_SWITCH, a GET_VALUE probes the INA219 through a controller
   opened with sda from slot 1 and scl from slot 0, and nothing is called in between.
   */
  lemma ConfigThenGetValue(s: Session, reply1: Word, reply2: Word)
    requires |s.slots| >= 2 && s.cmd == CONFIG_IOP_SWITCH
    ensures var h := Opened(s.slots[1], s.slots[0]);
      var r := Dispatch(Dispatch(s, reply1).(cmd := GET_VALUE), reply2);
      r.trace == s.trace + [Open(s.slots[1], s.slots[0]), Write(h, 0x40, PROBE), Read(h, 0x40, 2, reply2)]
      && r.slots[0] == reply2 && r.device == h
  {
  }

  /**
   What happens on the mailbox between two observations: the host writes a data
   slot, or the host writes a word into the command register and the firmware's
   poll sees it (`reply` is what i2c_read returns should the word be GET_VALUE).
   */
  datatype Event = HostWrite(slot: nat, value: Word) | HostPost(word: Word, reply: Word)

  /**
   One pass of the loop in main with the host's action before it. A posted word
   with bit 0 clear never ends the poll, so only the register changes and it is
   never cleared; a host write changes that one slot and nothing the firmware owns.
   A word already pending before the event (possible only at start-up) is not
   dispatched here; see FirstPoll.
   */
  function Apply(s: Session, e: Event): (r: Session)
    requires |s.slots| >= 2
    ensures |r.slots| == |s.slots|
    ensures e.HostPost? && !Pending(e.word) ==> r == s.(cmd := e.word)
    ensures e.HostPost? && Pending(e.word) ==> r.cmd == 0
    ensures e.HostWrite? ==> r.cmd == s.cmd && r.device == s.device && r.addr == s.addr && r.trace == s.trace
    ensures e.HostWrite? ==> forall i :: 0 <= i < |s.slots| && i != e.slot ==> r.slots[i] == s.slots[i]
  {
    match e
    case HostWrite(i, v) => if i < |s.slots| then s.(slots := s.slots[i := v]) else s
    case HostPost(w, reply) => if Pending(w) then Dispatch(s.(cmd := w), reply) else s.(cmd := w)
  }

  /** The firmware's main loop over a finite run of mailbox events; the mailbox keeps its size. */
  function Run(s: Session, evs: seq<Event>): (r: Session)
    requires |s.slots| >= 2
    ensures |r.slots| == |s.slots|
    ensures evs == [] ==> r == s
    decreases |evs|
  {
    if evs == [] then s else Run(Apply(s, evs[0]), evs[1..])
  }

  /** The number of GET_VALUE commands the host posts in a run. */
  function Gets(evs: seq<Event>): nat {
    if evs == [] then 0
    else (if evs[0].HostPost? && evs[0].word == GET_VALUE then 1 else 0) + Gets(evs[1..])
  }

  /** The value slot i holds after a run in which the firmware never wrote it: the host's last write, else v. */
  function HostValue(evs: seq<Event>, i: nat, v: Word): Word {
    if evs == [] then v
    else HostValue(evs[1..], i, if evs[0].HostWrite? && evs[0].slot == i then evs[0].value else v)
  }

  /**
   The firmware's first poll. A word already pending in the register when a run
   starts is dispatched by that poll, which is the event HostPost(s.cmd, reply)
   at the head of the run; afterwards the register holds no pending word, which
   is how every later event finds it.
   */
  lemma FirstPoll(s: Session, reply: Word, evs: seq<Event>)
    requires |s.slots| >= 2
    ensures var first := Apply(s, HostPost(s.cmd, reply));
      && first == (if Pending(s.cmd) then Dispatch(s, reply) else s)
      && !Pending(first.cmd)
      && Run(s, [HostPost(s.cmd, reply)] + evs) == Run(first, evs)
  {
  }

  /** After an event, the register never holds a pending word: the poll has dispatched it. */
  lemma {:induction false} RunSettles(s: Session, evs: seq<Event>)
    requires |s.slots| >= 2 && !Pending(s.cmd)
    ensures !Pending(Run(s, evs).cmd)
    decreases |evs|
  {
    if evs != [] {
      RunSettles(Apply(s, evs[0]), evs[1..]);
    }
  }

  /** The invariant holds after every run of the loop. */
  lemma {:induction false} RunKeepsInv(s: Session, evs: seq<Event>)
    requires Inv(s)
    ensures Inv(Run(s, evs))
    decreases |evs|
  {
    if evs != [] {
      var e := evs[0];
      if e.HostPost? && Pending(e.word) {
        DispatchKeepsInv(s.(cmd := e.word), e.reply);
      }
      RunKeepsInv(Apply(s, e), evs[1..]);
    }
  }

  /**
   A word with bit 0 clear stays in the register for good: over any run in which
   the host only writes data slots or posts that same word again, the firmware
   never clears the register and makes no transport call.
   */
  lemma {:induction false} UnpendingStays(s: Session, evs: seq<Event>)
    requires |s.slots| >= 2 && !Pending(s.cmd)
    requires forall k :: 0 <= k < |evs| ==> evs[k].HostWrite? || evs[k].word == s.cmd
    ensures Run(s, evs).cmd == s.cmd && Run(s, evs).trace == s.trace
    ensures Run(s, evs).device == s.device && Run(s, evs).addr == s.addr
    decreases |evs|
  {
    if evs != [] {
      var t := Apply(s, evs[0]);
      UnpendingStays(t, evs[1..]);
    }
  }

  /** Each GET_VALUE the host posts adds exactly one write-then-read pair to the log, and nothing else adds one. */
  lemma {:induction false} RunTransactions(s: Session, evs: seq<Event>)
    requires Inv(s) && !Pending(s.cmd)
    ensures Transactions(Run(s, evs).trace) == Transactions(s.trace) + Gets(evs)
    decreases |evs|
  {
    if evs != [] {
      var e := evs[0];
      if e.HostPost? && Pending(e.word) {
        DispatchKeepsInv(s.(cmd := e.word), e.reply);
      }
      RunTransactions(Apply(s, e), evs[1..]);
    }
  }

  /** The firmware writes no data slot other than slot 0: every other slot holds the host's last write. */
  lemma {:induction false} RunUpperSlots(s: Session, evs: seq<Event>, i: nat)
    requires |s.slots| >= 2 && 1 <= i < |s.slots|
    ensures Run(s, evs).slots[i] == HostValue(evs, i, s.slots[i])
    decreases |evs|
  {
    if evs != [] {
      var t := Apply(s, evs[0]);
      assert t.slots[i] == if evs[0].HostWrite? && evs[0].slot == i then evs[0].value else s.slots[i];
      RunUpperSlots(t, evs[1..], i);
    }
  }

  /** Without a CONFIG_IOP_SWITCH command, a run keeps the handle and the address. */
  lemma {:induction false} RunKeepsBinding(s: Session, evs: seq<Event>)
    requires |s.slots| >= 2 && !Pending(s.cmd)
    requires forall k :: 0 <= k < |evs| ==> !(evs[k].HostPost? && evs[k].word == CONFIG_IOP_SWITCH)
    ensures Run(s, evs).device == s.device && Run(s, evs).addr == s.addr
    decreases |evs|
  {
    if evs != [] {
      RunKeepsBinding(Apply(s, evs[0]), evs[1..]);
    }
  }

  /**
   The host selects pins sda 5 and scl 4, reconfigures, then reads the sensor
   twice while i2c_read returns 0x1A2B: slot 0 holds 0x1A2B after each read, the
   controller is the one opened on (5, 4), and the log is exactly the start-up
   open, the reconfiguring open and two probe-write/read pairs at 0x40.
   */
  lemma Scenario(mailbox: seq<Word>, word: Word)
    requires |mailbox| >= 2 && !Pending(word)
    ensures var evs := [HostWrite(0, 4), HostWrite(1, 5), HostPost(CONFIG_IOP_SWITCH, 0),
                        HostPost(GET_VALUE, 0x1A2B), HostPost(GET_VALUE, 0x1A2B)];
      var h := Opened(5, 4);
      var first := Run(Boot(mailbox, word), evs[..4]);
      var s := Run(Boot(mailbox, word), evs);
      && first.slots[0] == 0x1A2B && first.cmd == 0
      && s.slots[0] == 0x1A2B && s.cmd == 0 && s.device == h && s.addr == 0x40
      && s.trace == [Open(3, 7), Open(5, 4), Write(h, 0x40, PROBE), Read(h, 0x40, 2, 0x1A2B),
                     Write(h, 0x40, PROBE), Read(h, 0x40, 2, 0x1A2B)]
      && Transactions(s.trace) == 2
  {
    var evs := [HostWrite(0, 4), HostWrite(1, 5), HostPost(CONFIG_IOP_SWITCH, 0),
                HostPost(GET_VALUE, 0x1A2B), HostPost(GET_VALUE, 0x1A2B)];
    var s0 := Boot(mailbox, word);
    var s1 := Apply(s0, evs[0]);
    var s2 := Apply(s1, evs[1]);
    var s3 := Apply(s2, evs[2]);
    var s4 := Apply(s3, evs[3]);
    var s5 := Apply(s4, evs[4]);
    assert Run(s0, evs) == Run(s1, evs[1..]);
    assert Run(s1, evs[1..]) == Run(s2, evs[2..]);
    assert Run(s2, evs[2..]) == Run(s3, evs[3..]);
    assert Run(s3, evs[3..]) == Run(s4, evs[4..]);
    assert Run(s4, evs[4..]) == Run(s5, []);
    var pre := evs[..4];
    assert Run(s0, pre) == Run(s1, pre[1..]);
    assert Run(s1, pre[1..]) == Run(s2, pre[2..]);
    assert Run(s2, pre[2..]) == Run(s3, pre[3..]);
    assert Run(s3, pre[3..]) == Run(s4, []);
    assert s3.device == Opened(5, 4);
    RunTransactions(s0, evs);
    assert Gets(evs[4..]) == 1;
    assert Gets(evs[3..]) == 2;
    assert Gets(evs[2..]) == 2;
    assert Gets(evs[1..]) == 2;
  }
}
