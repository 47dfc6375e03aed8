# Custom I2C IOP firmware: mailbox command dispatcher

A Dafny model of the MicroBlaze firmware `pmod_custom_i2c.c`. The firmware sits
in a PYNQ I/O processor and serves commands that the host posts through a
shared-memory mailbox. It busy-polls the mailbox command register until bit 0 is
set. It then compares the whole word with three codes:

- `CONFIG_IOP_SWITCH` (0x1) re-opens the I2C controller on the pins in data slots 0 and 1, then resets the device address.
- `GET_VALUE` (0xD) sends the probe frame [0, 80, 0] to the INA219 and reads 2 bytes back. It stores what `i2c_read` returned in data slot 0.
- `RESET` (0xF) and every other word with bit 0 set do nothing.

Every branch then clears the command register to 0.

The project has three files:

- `transport.dfy` (module `Transport`) covers the vendor `i2c.h` interface. Words are `bv32`, bytes are `bv8`, and a handle is identified by the pin pair it was opened on. Every transport call is recorded in a log. `Replay` is an independent definition of the logs the firmware may produce: an initial Open, then Opens and probe-Write/Read pairs on the currently bound handle.
- `mailbox.dfy` (module `Mailbox`) is the dispatcher as values. It holds the command codes, `Decode` (the `switch`), `WaitForCommand` (the busy poll), `Dispatch` (one pass through the switch), `Boot` (start-up) and `Run` (the loop over a finite run of host events). It also holds the lemmas about them.
- `firmware.dfy` (module `Firmware`) is the firmware in its own form. Class `Iop` has the globals `device` and `customAddr`, the command register, the data-slot array and a ghost log of transport calls. The constructor `Init` is proved to produce `Mailbox.Boot`, and `Step` (one iteration of `main`'s loop) is proved to produce `Mailbox.Dispatch`. The session routines (`CustomWriteByte`, `CustomReadByte`, `CustomGetValue`, `CustomInit`, `CustomReset`) are specified by the transport calls they add to the log, by what they return, and by the fields they may change.

Four points of the code decide the model:

- **Pin slots.** Slot 0 carries the clock pin and slot 1 the data pin: the code reads slot 0 into `scl` and slot 1 into `sda`, then calls `i2c_open(sda, scl)`. The model opens `Opened(sda := slot 1, scl := slot 0)`.
- **GET_VALUE result.** The value stored in slot 0 is what `i2c_read` returns (a transfer length or status), not the two bytes read; `custom_getValue` discards those bytes. The model stores that return value, and the bytes are never modelled.
- **RESET.** The call to `custom_reset()` in the `RESET` branch is commented out, and `custom_reset` is empty anyway, so `RESET` changes nothing but the register. `RESET` does not call `Firmware.Iop.CustomReset` in the model either.
- **Words with bit 0 clear.** An unrecognised word only reaches the default branch, and is only acknowledged, if its bit 0 is set (0x3, say). A word with bit 0 clear, such as 0x2, never ends the poll, so the register is never cleared and a host waiting for the clear waits forever. `Mailbox.Apply`, `Mailbox.UnpendingNeverCleared` and `Mailbox.UnpendingStays` state this; in `Firmware.Iop.Step` it is the case where the poll finds no command.

The C code passes the value `i2c_read` returns through `uint32_t`, `int`, `unsigned int` and a `u32` mailbox word. All of these are 32 bits wide, so the bit pattern survives unchanged. The model carries that value as one `bv32`.

## Model

| member | source | states |
|---|---|---|
| `Mailbox.Decode` | microblaze_custom_i2c_demo_ina219/pmod_custom_i2c/src/pmod_custom_i2c.c:13-15 | each branch is taken exactly when the whole word equals its code (0x1, 0xD, 0xF); any word with bit 0 clear selects the default branch, and so does 0x3 |
| `Mailbox.WaitForCommand` | microblaze_custom_i2c_demo_ina219/pmod_custom_i2c/src/pmod_custom_i2c.c:71 | the poll stops at the first register read with bit 0 set and at no earlier one; if no read has bit 0 set, it is still polling |
| `Mailbox.Boot` | microblaze_custom_i2c_demo_ina219/pmod_custom_i2c/src/pmod_custom_i2c.c:65-66 | before the first poll the handle is opened on (sda 3, scl 7), the address is 0x40, the log holds only that open, and the invariant holds |
| `Mailbox.Dispatch` | microblaze_custom_i2c_demo_ina219/pmod_custom_i2c/src/pmod_custom_i2c.c:74-97 | every branch leaves the command register 0. Only GET_VALUE writes a data slot, and only slot 0, with the read's return value. CONFIG_IOP_SWITCH opens sda = slot 1 and scl = slot 0 and sets the address to 0x40. GET_VALUE makes exactly one probe write and then one 2-byte read at `customAddr` on the current handle. Only CONFIG_IOP_SWITCH changes the handle or the address. RESET and unknown codes change nothing but the register |
| `Mailbox.DispatchKeepsInv` | microblaze_custom_i2c_demo_ina219/pmod_custom_i2c/src/pmod_custom_i2c.c:74-97 | every dispatch keeps the address 0x40 and keeps the log valid, with its latest Open matching the current handle; the log gains a transaction exactly when the word is GET_VALUE |
| `Mailbox.ConfigIdempotent` | microblaze_custom_i2c_demo_ina219/pmod_custom_i2c/src/pmod_custom_i2c.c:77-80 | CONFIG_IOP_SWITCH run twice with the same slots binds the same pin pair and address both times and leaves the slots alone |
| `Mailbox.ConfigThenGetValue` | microblaze_custom_i2c_demo_ina219/pmod_custom_i2c/src/pmod_custom_i2c.c:77-87 | after CONFIG_IOP_SWITCH, GET_VALUE probes at 0x40 through the controller just opened on (slot 1, slot 0), with no call in between, and slot 0 gets the read's return value |
| `Mailbox.UnpendingNeverCleared` | microblaze_custom_i2c_demo_ina219/pmod_custom_i2c/src/pmod_custom_i2c.c:71 | one pass of the loop: posting again a word with bit 0 clear (0x2, say) that the register already holds leaves the whole state as it is |
| `Mailbox.UnpendingStays` | microblaze_custom_i2c_demo_ina219/pmod_custom_i2c/src/pmod_custom_i2c.c:71 | a word with bit 0 clear is never cleared: over any run of host slot writes and re-posts of that word, the register keeps it, and the handle, the address and the log stay as they were |
| `Mailbox.Apply` | microblaze_custom_i2c_demo_ina219/pmod_custom_i2c/src/pmod_custom_i2c.c:69-98 | one pass of the loop after one host action. A posted word with bit 0 clear changes only the register, which keeps the word. A posted word with bit 0 set leaves the register 0. A host write to a slot changes no other slot and nothing the firmware owns, when the register holds no pending word (see `Mailbox.Apply` under Left out). The mailbox keeps its size |
| `Mailbox.Run` | microblaze_custom_i2c_demo_ina219/pmod_custom_i2c/src/pmod_custom_i2c.c:69-98 | the loop over a finite run of host actions; its own contract only says the mailbox keeps its size and an empty run changes nothing. What the loop keeps is stated by the `Run…` lemmas below |
| `Mailbox.FirstPoll` | microblaze_custom_i2c_demo_ina219/pmod_custom_i2c/src/pmod_custom_i2c.c:71-74 | the first poll of a run dispatches a word already pending in the register (and leaves a non-pending one alone); the run that starts with that poll equals the rest of the run from the dispatched state, whose register holds no pending word |
| `Mailbox.RunSettles` | microblaze_custom_i2c_demo_ina219/pmod_custom_i2c/src/pmod_custom_i2c.c:71-97 | from a register with no pending word, every run ends with no pending word in the register: each posted command with bit 0 set has been dispatched and cleared |
| `Mailbox.RunKeepsInv` | microblaze_custom_i2c_demo_ina219/pmod_custom_i2c/src/pmod_custom_i2c.c:69-98 | the invariant holds after any run of host writes and posted commands |
| `Mailbox.RunTransactions` | microblaze_custom_i2c_demo_ina219/pmod_custom_i2c/src/pmod_custom_i2c.c:84-87 | over any run that starts with no pending word in the register, the log gains exactly one write-then-read pair per GET_VALUE the host posts, and no pair otherwise |
| `Mailbox.RunUpperSlots` | microblaze_custom_i2c_demo_ina219/pmod_custom_i2c/src/pmod_custom_i2c.c:85 | the firmware never writes a data slot other than 0: after any run, every other slot holds the host's last write to it, or its old value |
| `Mailbox.RunKeepsBinding` | microblaze_custom_i2c_demo_ina219/pmod_custom_i2c/src/pmod_custom_i2c.c:75-80 | a run that starts with no pending word in the register and posts no CONFIG_IOP_SWITCH leaves the handle and the address as they were |
| `Mailbox.Scenario` | microblaze_custom_i2c_demo_ina219/pmod_custom_i2c/src/pmod_custom_i2c.c:69-98 | from start-up with no pending word in the register, the host selects pins (sda 5, scl 4), then posts CONFIG_IOP_SWITCH, GET_VALUE and GET_VALUE, with reads that return 0x1A2B. Slot 0 is 0x1A2B after each GET_VALUE and the register is 0. The controller is the one opened on (5, 4) at address 0x40. The log is exactly: the start-up open, the reconfiguring open, and two probe-write/read pairs on that controller |
| `Transport.LogOpen` | microblaze_custom_i2c_demo_ina219/pmod_custom_i2c/src/pmod_custom_i2c.c:79 | opening after a valid log binds the new pins and adds no transaction |
| `Transport.LogTransaction` | microblaze_custom_i2c_demo_ina219/pmod_custom_i2c/src/pmod_custom_i2c.c:54-55 | a probe write followed by a 2-byte read at the same address on the bound handle keeps the log valid and adds exactly one transaction |
| `Firmware.Iop.Init` | microblaze_custom_i2c_demo_ina219/pmod_custom_i2c/src/pmod_custom_i2c.c:64-66 | the constructed firmware state is `Boot` of the mailbox, so the invariant holds |
| `Firmware.Iop.I2cOpen` | microblaze_custom_i2c_demo_ina219/pmod_custom_i2c/src/pmod_custom_i2c.c:79 | the `i2c_open(sda, scl)` call: returns the handle bound to those pins and adds exactly one Open entry to the log |
| `Firmware.Iop.I2cWrite` | microblaze_custom_i2c_demo_ina219/pmod_custom_i2c/src/pmod_custom_i2c.c:31 | the `i2c_write` call: adds exactly one Write entry with the handle, address and bytes to the log |
| `Firmware.Iop.I2cRead` | microblaze_custom_i2c_demo_ina219/pmod_custom_i2c/src/pmod_custom_i2c.c:37 | the `i2c_read` call: adds exactly one Read entry to the log and returns `reply`, a value the model leaves unconstrained |
| `Firmware.Iop.CustomWriteByte` | microblaze_custom_i2c_demo_ina219/pmod_custom_i2c/src/pmod_custom_i2c.c:25-32 | fills a 3-byte buffer with [0, 80, 0] and makes exactly one write of it to `devAddr` on the current handle |
| `Firmware.Iop.CustomReadByte` | microblaze_custom_i2c_demo_ina219/pmod_custom_i2c/src/pmod_custom_i2c.c:34-39 | makes exactly one 2-byte read from `devAddr` and returns what `i2c_read` returned |
| `Firmware.Iop.CustomInit` | microblaze_custom_i2c_demo_ina219/pmod_custom_i2c/src/pmod_custom_i2c.c:41-44 | sets the address to 0x40 and changes nothing else |
| `Firmware.Iop.CustomReset` | microblaze_custom_i2c_demo_ina219/pmod_custom_i2c/src/pmod_custom_i2c.c:46-48 | changes nothing |
| `Firmware.Iop.CustomGetValue` | microblaze_custom_i2c_demo_ina219/pmod_custom_i2c/src/pmod_custom_i2c.c:50-57 | the probe write, then the read, both at `customAddr`, and nothing else; it returns the read's return value unchanged |
| `Firmware.Iop.Step` | microblaze_custom_i2c_demo_ina219/pmod_custom_i2c/src/pmod_custom_i2c.c:69-98 | one loop iteration. If the poll finds a word with bit 0 set, the new state is `Dispatch` of the old state with that word. Otherwise only the register's content has moved on. The invariant is kept |

## Left out

- The host-side Python wrapper `pmod_custom_i2c.py` is not part of this model. It only calls PYNQ mailbox routines, and those are not visible. The host appears only as the `HostWrite` and `HostPost` events of `Mailbox.Run`.
- The vendor libraries `i2c.h`, `timer.h` and `circular_buffer.h` are not part of this model. `i2c_open`, `i2c_write` and `i2c_read` are abstract, and each call is recorded in the log. `i2c_open` returns a handle identified by its pins. What `i2c_read` returns is a parameter (`reply`). I2C bus timing, NACKs and timeouts are not modelled.
- Firmware.Iop.CustomReadByte: the 2 bytes `i2c_read` writes into the caller's buffer are not modelled. `custom_getValue` discards them, and the transport's implementation is not visible.
- Memory-mapped `volatile` access and the host running concurrently with the firmware are not modelled. `Step` takes the successive values the poll reads as an input. The read at the `cmd = MAILBOX_CMD_ADDR` line is taken to return the same word that ended the poll. The host posts nothing while a command is pending, so the word cannot change in between.
- Mailbox.Apply: a host write onto a register that already holds a pending word leaves that word undispatched, while the program's next poll would dispatch it. That state occurs only at start-up, before the first poll; `Mailbox.FirstPoll` dispatches it, and from a register with no pending word no run leaves one pending (`Mailbox.RunSettles`).
- Mailbox.Run: a word already pending in the register when a run starts is not dispatched by `Run` on its own. The program's first poll dispatches it, and `Firmware.Iop.Step` models that. In `Run` that first poll is the event `HostPost(s.cmd, reply)` at the head of the run, as `Mailbox.FirstPoll` proves; after it the register holds no pending word.
- RunTransactions: stated for runs that start with no pending word in the register. A run that starts with a pending word is covered by first applying `Mailbox.FirstPoll`.
- RunKeepsBinding: stated for runs that start with no pending word in the register, because a pending CONFIG_IOP_SWITCH at the start is dispatched and re-binds. That case is covered by `Mailbox.FirstPoll`.
- Scenario: stated for a start-up register with no pending word. A pending start-up word is first dispatched, as `Mailbox.FirstPoll` states, and the log then begins with that command's calls.
- The non-terminating `while(1)` loop is covered by `Step`, one iteration at a time, and by `Mailbox.Run`, over a finite run of events.
- The dead initial stores `len = 0xAA` in `iic_custom_readByte` and `custom_getValue` are not modelled, because they are always overwritten.
- INA219 readings are never converted to physical units, in the firmware or here.
