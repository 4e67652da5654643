# ESP8266 Arduino core: a verified model

The project models, in Dafny 4.11, the parts of the ESP8266 Arduino core where several
functions, interrupt handlers or whole programs have to agree with each other:

* **the software I2C bus** (`TwiSlave.dfy`, `TwiProtocol.dfy`, `TwiBus.dfy`): a bit-banged master
  and the interrupt-driven slave of the same driver on a wired-AND bus. The slave's states and
  handlers are pure functions with an invariant; the class `Twi` changes the driver's fields step
  by step and is proved against them; the class `Wire` is the master, whose every pin write that
  changes a line runs the handlers, while the slave's event routine may run before any step.
  The protocol is that of UM10204, sections 3.1.3 to 3.1.6, 3.1.9 and 3.1.10.
* **over-the-air updates** (`Flash.dfy`, `Updater.dfy`, `EbootCommand.dfy`, `SectorCopy.dfy`,
  `Eboot.dfy`, `Reboot.dfy`, `Image.dfy`, `Crc.dfy`, `Ota.dfy`): the updater buffers an image and
  stages it in NOR flash, hands it over in RTC words under a CRC, the bootloader copies it to its
  place and starts it. `Ota.dfy` joins all of them: from the chunks received to the segments
  loaded, including resets at any point of the copy.
* **the clock** (`Clock.dfy`): 64-bit time from a 32-bit counter, and its division by 1000.
* **schedulers and timeouts** (`Schedule.dfy`, `Recurrent.dfy`, `PolledTimeout.dfy`): linked lists
  that the scheduled functions extend while they are run, and periodic timeouts on a counter that
  wraps around.
* **I2S output and the circular buffer** (`I2s.dfy`, `Cbuf.dfy`).

`Words.dfy` holds bytes, 32-bit words and bitwise operations on them. Bytes and words are
integers in range; every wrap-around, truncation and shift of the C++ code is written out.
Scheduled functions, alarms and whoever schedules them are separate objects that record every call,
answer and request.
What hardware, callbacks and other agents decide (which step an interrupt hits, whether a flash
operation fails and what it then leaves behind, what a scheduled function schedules, how long a
write waits) is nondeterministic, so the contracts hold for every such choice. On a chip marked
`reliable` flash operations fail exactly outside the chip; the contracts say what then succeeds.

## What the code turns out to do

Where a law one would expect does not hold for all inputs, the model says exactly when it does.

* A master that sends one byte more than the slave's buffer holds is told that all went well, and
  the byte is lost; from two bytes too many on it is told 3 and the slave is handed nothing.
* A START sent while the slave still holds the clock low to deliver the previous message is
  missed, and the master is told 2.
* The MD5 sum of an update is that of the bytes sent if and only if the mode byte is not
  replaced, or is one of the four known modes, or 0xff. The comment at
  `ESP8266/Libs/cores/esp8266/Updater.cpp:375-376` says it always is; the model follows the code.
* An image sealed by the image tool passes the core's own flash CRC check after an over-the-air
  installation if and only if its mode byte was not replaced on the way.
* `begin` keeps an update to its area if and only if the rounded size does not wrap around and, when
  the size of the running sketch cannot be read, one sector is left free.
* An empty `write` after the end of an image erases the sector above the update when the image
  ends where a sector ends.
* `end(true)` after a failed flush goes on with an empty update: it can return true, with a
  command to copy nothing.
* An over-the-air update is sure to survive power failures during its installation if and only if twice its
  rounded size fits below the filesystem; `begin` also accepts larger ones.
* A copy can be restarted after a reset if and only if its source does not begin inside its
  destination, above the start of the destination.
* The bootloader clears its command whether or not the copy succeeded.
* `copy_raw` copies nothing, and reports success, for sizes above 2^31 - 4096.
* `millis` is exact for all times below 48038396025285999 microseconds, which is beyond the
  documented bound, and wrong at that time; the exact set of times is stated. `micros64` is exact
  if and only if no two ticks, nor the last tick and the query, are 2^32 microseconds apart.

## Model

| member | source | states |
|---|---|---|
| TwiSlave.OnSclKeepsValid | ESP8266/Libs/cores/esp8266/core_esp8266_si2c.cpp:665-861 | every clock edge, in every state, keeps the driver's invariant: buffer indexes in range, bit count 1..8 while receiving, clock held low exactly while an event is queued, an acknowledged read always has a next byte |
| TwiSlave.OnSdaKeepsValid | ESP8266/Libs/cores/esp8266/core_esp8266_si2c.cpp:863-956 | every data edge keeps the invariant |
| TwiSlave.TaskKeepsValid | ESP8266/Libs/cores/esp8266/core_esp8266_si2c.cpp:624-655 | the event routine keeps the invariant, empties the queue and lets the clock go |
| TwiSlave.Twi.OnSclChange | ESP8266/Libs/cores/esp8266/core_esp8266_si2c.cpp:665-861 | the handler's field updates amount to the state function `OnScl` |
| TwiSlave.Twi.OnSdaChange | ESP8266/Libs/cores/esp8266/core_esp8266_si2c.cpp:863-956 | the handler's field updates amount to the state function `OnSda` |
| TwiSlave.Twi.TransmitBytes | ESP8266/Libs/cores/esp8266/core_esp8266_si2c.cpp:438-462 | the slave's answer is taken when it fits and the slave is being read; 1 or 2 otherwise, with nothing changed |
| TwiProtocol.OneMoreBit | ESP8266/Libs/cores/esp8266/core_esp8266_si2c.cpp:665-699 | one clock cycle shifts the bit on SDA into the slave, whatever came before |
| TwiProtocol.EightBits | ESP8266/Libs/cores/esp8266/core_esp8266_si2c.cpp:686-697 | eight such cycles leave exactly the byte sent, in place of whatever the register held |
| TwiProtocol.AckCycle | ESP8266/Libs/cores/esp8266/core_esp8266_si2c.cpp:700-784 | in the ninth cycle SDA is low exactly when the address matches or the byte can be taken |
| TwiProtocol.AddressedForWriting | ESP8266/Libs/cores/esp8266/core_esp8266_si2c.cpp:741-764 | the slave's own address with a write bit makes it a receiver with an empty buffer |
| TwiProtocol.ByteCollected | ESP8266/Libs/cores/esp8266/core_esp8266_si2c.cpp:524-538 | each byte acknowledged extends the prefix of the message in the receive buffer, up to its size |
| TwiProtocol.ByteRefused | ESP8266/Libs/cores/esp8266/core_esp8266_si2c.cpp:766-782 | the second byte beyond the buffer is refused and the message given up |
| TwiProtocol.NotAddressed | ESP8266/Libs/cores/esp8266/core_esp8266_si2c.cpp:741-747 | another address leaves the slave waiting for the STOP with its buffers and messages unchanged |
| TwiProtocol.StopAfterMessage | ESP8266/Libs/cores/esp8266/core_esp8266_si2c.cpp:923-954 | a STOP hands over exactly the message collected, once, and leaves the slave idle |
| TwiProtocol.StopAfterWait | ESP8266/Libs/cores/esp8266/core_esp8266_si2c.cpp:897-907 | a STOP after a refusal or the end of an answer hands over nothing and leaves the slave idle |
| TwiProtocol.StartSeen | ESP8266/Libs/cores/esp8266/core_esp8266_si2c.cpp:873-888 | a START makes an idle slave ready for eight address bits |
| TwiProtocol.AddressedForReading | ESP8266/Libs/cores/esp8266/core_esp8266_si2c.cpp:559-572 | the slave's own address with a read bit holds the clock until the answer is loaded; SDA then shows its first bit |
| TwiProtocol.NextAnswerByte | ESP8266/Libs/cores/esp8266/core_esp8266_si2c.cpp:785-860 | after an acknowledged byte of the answer the slave shows the next one, and leaves the bus after the last |
| TwiProtocol.LastAnswerByte | ESP8266/Libs/cores/esp8266/core_esp8266_si2c.cpp:845-858 | a refused byte ends the answer and takes the slave off the bus |
| TwiBus.Wire.WriteByte | ESP8266/Libs/cores/esp8266/core_esp8266_si2c.cpp:298-307 | for every interleaving with the event routine, the slave ends with the byte, and the master sees its acknowledgement |
| TwiBus.Wire.ReadByte | ESP8266/Libs/cores/esp8266/core_esp8266_si2c.cpp:309-319 | for every interleaving, the byte read is the one the slave shows |
| TwiBus.Wire.WriteStart | ESP8266/Libs/cores/esp8266/core_esp8266_si2c.cpp:241-253 | fails exactly when SDA is held; seen by the slave unless it still holds the clock |
| TwiBus.Wire.WriteStop | ESP8266/Libs/cores/esp8266/core_esp8266_si2c.cpp:255-266 | its pin writes realise the state function `AfterStop` under every interleaving, and leave the bus free where that function leaves the slave quiet |
| TwiBus.Wire.WriteTo | ESP8266/Libs/cores/esp8266/core_esp8266_si2c.cpp:321-364 | for every address, data and interleaving: the result code, and exactly one message with the data for a slave that saw the START, was addressed and has room, none otherwise; only an accepted message can then be undelivered |
| TwiBus.Wire.ReadFrom | ESP8266/Libs/cores/esp8266/core_esp8266_si2c.cpp:366-403 | for every address and length: the bytes the callback supplied in order and ones behind them, or a single zero when it supplied none, no message, and the slave back to idle; 4 and nothing changed on a held SDA line |
| TwiBus.Wire.Session | ESP8266/Libs/cores/esp8266/core_esp8266_si2c.cpp:321-403 | over any run of writes and reads to any addresses: other addresses return 2; for its own, address and length alone decide every result, except that a transfer right after an accepted message, or the first one with a message undelivered, can return 2; the slave is handed exactly the messages whose writes returned 0, once each and in order, and every read that returns 0 yields its answer |
| TwiBus.Wire.SessionMeans | ESP8266/Libs/cores/esp8266/core_esp8266_si2c.cpp:321-403 | the same transfer by transfer: the code for every address and length, and the bytes read, as the transmit callback supplied them, with ones behind them |
| TwiBus.Wire.GainedMeans | ESP8266/Libs/cores/esp8266/core_esp8266_si2c.cpp:649-653 | with nothing left to deliver, the receive callback has been handed exactly the messages accepted |
| TwiBus.Wire.AcceptedStep | ESP8266/Libs/cores/esp8266/core_esp8266_si2c.cpp:508-551 | which messages these are: the data of each write that returned 0, cut to the buffer |
| Crc.CrcUpdate | ESP8266/Libs/bootloaders/eboot/eboot_command.c:3-23 | the loops of the bootloader and of the core compute the CRC of the message's bits |
| Crc.Crc8266 | ESP8266/Libs/tools/elf2bin.py:103-120 | the image tool computes the same CRC from its initial value |
| Crc.Chaining | ESP8266/Libs/cores/esp8266/crc32.cpp:26-43 | passing one CRC as the seed of the next gives the CRC of the whole |
| Crc.Remainder | ESP8266/Libs/cores/esp8266/crc32.cpp:26-43 | the CRC is the remainder of the seed and the message, as a polynomial, on division by the generator |
| Crc.Generator | ESP8266/Libs/bootloaders/eboot/eboot_command.c:12-20 | the exponents of the generator, and the initial value |
| Crc.BitsInOrder | ESP8266/Libs/bootloaders/eboot/eboot_command.c:9-20 | the message is taken byte by byte, the highest bit first |
| Crc.CrcBitsInjective | ESP8266/Libs/cores/esp8266/crc32.cpp:26-43 | different seeds give different CRCs for any message |
| Crc.BurstDetected | ESP8266/Libs/bootloaders/eboot/eboot_command.c:3-23 | two messages of equal length that differ only within 32 consecutive bits have different CRCs |
| EbootCommand.CommandWrite | ESP8266/Libs/cores/esp8266/core_esp8266_eboot_command.cpp:52-62 | leaves the magic word, the action, the arguments and their CRC in RTC memory |
| EbootCommand.CommandRead | ESP8266/Libs/bootloaders/eboot/eboot_command.c:31-46 | returns the words found, and 0 exactly when magic word and CRC are right |
| EbootCommand.CommandClear | ESP8266/Libs/bootloaders/eboot/eboot_command.c:60-64 | zeroes the magic and the CRC word and nothing else |
| EbootCommand.SealedAccepted | ESP8266/Libs/bootloaders/eboot/eboot_command.c:31-58 | what is written is read back: accepted, with the same action and arguments |
| EbootCommand.ClearedRefused | ESP8266/Libs/bootloaders/eboot/eboot_command.c:60-64 | nothing is accepted after a clear, even one cut short between its two stores |
| EbootCommand.CorruptionRefused | ESP8266/Libs/bootloaders/eboot/eboot_command.c:25-46 | a burst of up to 32 wrong bits in the 124 bytes of a command makes the read return 1 |
| Flash.ProgramErased | ESP8266/Libs/bootloaders/eboot/eboot.c:161-196 | programming, which can only clear bits, stores the data in an erased range |
| Flash.ProgrammedBits | ESP8266/Libs/bootloaders/eboot/eboot.c:193-195 | programming leaves a bit set exactly where it was set and is to be |
| SectorCopy.CopiedInside | ESP8266/Libs/bootloaders/eboot/eboot.c:161-200 | what each destination sector finally holds, for every overlap of source and destination |
| SectorCopy.CopiedOutside | ESP8266/Libs/bootloaders/eboot/eboot.c:161-200 | every other sector is unchanged |
| SectorCopy.RestartSafe | ESP8266/Libs/bootloaders/eboot/eboot.c:161-252 | after any number of copies cut short at any step, a complete one gives the result of an undisturbed copy |
| SectorCopy.RestartUnsafe | ESP8266/Libs/bootloaders/eboot/eboot.c:161-252 | otherwise one reset is enough for a wrong result |
| SectorCopy.RestartExactly | ESP8266/Libs/bootloaders/eboot/eboot.c:161-252 | restarting is safe for all chips if and only if the source does not begin inside the destination, above its start |
| Eboot.RoundsExactly | ESP8266/Libs/bootloaders/eboot/eboot.c:132-161 | the loop covers the image if and only if its size is at most 2^31 - 4096, and else does not run |
| Eboot.CopySector | ESP8266/Libs/bootloaders/eboot/eboot.c:161-200 | one round either fails and touches one sector at most, or copies one sector, read after the erase; inside a reliable chip it succeeds |
| Eboot.CopyRaw | ESP8266/Libs/bootloaders/eboot/eboot.c:119-203 | 1 exactly for unaligned addresses, with nothing changed; only the destination range ever changes; 0 means that all sectors were copied, or in verification that they are equal; inside a reliable chip a plain copy returns 0; above 2^31 - 4096 bytes it returns 0 with nothing changed |
| Eboot.BootMain | ESP8266/Libs/bootloaders/eboot/eboot.c:205-260 | every command and outcome: the copy, which succeeds inside a reliable chip, the application loaded only after success or without a copy, and the command cleared in any case |
| Reboot.InterruptedIsCutShort | ESP8266/Libs/bootloaders/eboot/eboot.c:161-200 | at every point inside the copy loop the flash is one of those a cut copy is modelled by |
| Reboot.ResetsOnTheWay | ESP8266/Libs/bootloaders/eboot/eboot.c:213-252 | after any number of boots cut short, either the command is intact and so is all that is needed to repeat the copy, or it is cleared and the copy complete |
| Reboot.BootAfterResets | ESP8266/Libs/bootloaders/eboot/eboot.c:205-260 | the next complete boot then leaves the same flash as a single boot, and starts the image, when what is left of the copy succeeds, as it does on a reliable chip |
| Reboot.RebootUnsafe | ESP8266/Libs/bootloaders/eboot/eboot.c:161-252 | where the source begins inside the destination one cut boot leaves a command that will be carried out and a wrong first sector |
| Reboot.CutBoot | ESP8266/Libs/bootloaders/eboot/eboot.c:205-252 | the bootloader's own steps, stopped anywhere, leave one of the machines that a cut boot is modelled by |
| Reboot.Outage | ESP8266/Libs/bootloaders/eboot/eboot.c:205-252 | any number of such boots in a row |
| Image.WriteBin | ESP8266/Libs/tools/elf2bin.py:67-101 | appends the header, the segments, zeros and the checksum in the last byte of a 16-byte line; fails exactly for over 255 segments or too small a fixed size |
| Image.ImageBytes | ESP8266/Libs/tools/elf2bin.py:67-71 | where the magic byte, the segment count, the mode, the size and frequency and the entry point are |
| Image.ImageChecksum | ESP8266/Libs/tools/elf2bin.py:73-95 | the last byte of an image makes 0xef with all data bytes, bit by bit |
| Image.Esp.GetSketchSize | ESP8266/Libs/cores/esp8266/Esp.cpp:582-611 | the size found in flash, computed once |
| Image.LoadApp | ESP8266/Libs/bootloaders/eboot/eboot.c:42-97 | the error code of the first failing read, or the sections loaded, in order, and the entry point |
| Image.SelectedStep | ESP8266/Libs/bootloaders/eboot/eboot.c:63-88 | the segments copied are exactly those that begin in the three windows, in order |
| Image.MemoryMap | ESP8266/Libs/bootloaders/eboot/eboot.c:67-77 | data and instruction RAM and the memories from 0x60000000 on are copied to, the boot ROM and mapped flash never |
| Image.ImageRoundTrip | ESP8266/Libs/bootloaders/eboot/eboot.c:42-97 | for all segments: an image as written is measured as exactly its length and loads exactly its segments in the three windows, with its entry point |
| Image.AddCrc | ESP8266/Libs/tools/elf2bin.py:122-142 | stores length and CRC of the image with both words zeroed |
| Image.BlankedExactly | ESP8266/Libs/tools/elf2bin.py:134-139 | the CRC covers all bytes, with the eight of length and CRC as zeros |
| Image.CheckFlashCRC | ESP8266/Libs/cores/esp8266/Esp.cpp:455-471 | the three chained calls compare one CRC over the image with both words zeroed |
| Image.SealedImageAccepted | ESP8266/Libs/cores/esp8266/Esp.cpp:455-471 | every sealed image of at least 4096 bytes is accepted, whatever follows it, and sealing twice changes nothing |
| Image.CorruptImageRefused | ESP8266/Libs/cores/esp8266/Esp.cpp:455-471 | a sealed image with a burst of up to 32 wrong bits is refused |
| Updater.AcceptedInArea | ESP8266/Libs/cores/esp8266/Updater.cpp:123-170 | an accepted update stays between sketch and filesystem, or in the filesystem, if and only if its rounded size does not wrap around and, where the sketch size could not be read, one sector is left |
| Updater.AcceptedExactly | ESP8266/Libs/cores/esp8266/Updater.cpp:90-171 | `begin` accepts, in its area, exactly the updates there is room for, above the sketch and below the filesystem or in it, and refuses the others for the first reason that applies |
| Updater.WrappedAccepted | ESP8266/Libs/cores/esp8266/Updater.cpp:123-145 | a size that is accepted although the update would begin in the filesystem |
| Updater.HashedIsSent | ESP8266/Libs/cores/esp8266/Updater.cpp:344-388 | when the bytes summed are the bytes sent |
| Updater.HashDiffers | ESP8266/Libs/cores/esp8266/Updater.cpp:344-388 | an image whose sum is not that of the bytes sent |
| Updater.ModeKept | ESP8266/Libs/cores/esp8266/Updater.cpp:344-372 | an image that is not packed arrives with the mode byte of the running sketch and is otherwise what was sent; packed images and filesystems arrive unchanged |
| Updater.IgnoringCase | ESP8266/Libs/cores/esp8266/Updater.cpp:286-291 | two sums match exactly when their characters agree but for the case of letters; for lower-case sums, when they are equal |
| Updater.FlushStep | ESP8266/Libs/cores/esp8266/Updater.cpp:333-392 | a flush of any consistent update keeps what was sent equal to what is staged, summed and buffered, and stays in the update's sectors |
| Updater.PageProgrammed | ESP8266/Libs/cores/esp8266/Updater.cpp:337-372 | every page is programmed into erased flash: its sector was erased in this update, and not since |
| Updater.Updater.Begin | ESP8266/Libs/cores/esp8266/Updater.cpp:76-196 | succeeds exactly when all checks pass, and reports the first that fails; a filesystem update starts at the filesystem, a sketch ends where the filesystem starts; the new update is consistent if and only if it is in its area |
| Updater.Updater.WriteBuffer | ESP8266/Libs/cores/esp8266/Updater.cpp:333-392 | the whole new state of a successful flush; any failure ends the update and has touched only its sectors |
| Updater.Updater.Write | ESP8266/Libs/cores/esp8266/Updater.cpp:394-425 | all bytes are accepted, in order, for every chunking and buffer size, or none beyond the size, or a flash operation failed and ended the update; on a reliable chip no data within the size is refused; only the update's sectors change |
| Updater.Updater.WriteFrom | ESP8266/Libs/cores/esp8266/Updater.h:140-174 | the template `write` takes a prefix of what its source yields, treats it as `write` does, and stops only when the source is empty, the image complete or a flash operation failed |
| Updater.HeaderDecides | ESP8266/Libs/cores/esp8266/Updater.cpp:443-480 | `end` passes an image, as sent, if and only if it is packed or has the magic byte and a size that fits the chip; neither the replaced mode byte nor what follows a short image in flash matters, and the header can always be read |
| Updater.ToolImagePasses | ESP8266/Libs/tools/elf2bin.py:31 | an image made for a size code of the image tool passes exactly when that size fits the chip |
| Updater.SizeCodesRead | ESP8266/Libs/cores/esp8266/Esp.cpp:327-346 | the core reads from a header the size the image tool was given |
| Updater.Updater.End | ESP8266/Libs/cores/esp8266/Updater.cpp:207-312 | true exactly for a complete update, or one cut short on request, whose sum and header pass; all bytes sent are then staged, and a lower-case target equals the sum; only then the command is written; the failed-flush case of `end(true)` |
| Ota.Receive | ESP8266/Libs/cores/esp8266/Updater.cpp:76-425 | for every chunking: `end` returns true only for an accepted size, exactly that many bytes and a sound image, and on a reliable chip it then does; these bytes are staged and a command to install them written, or nothing is asked of the bootloader; sketch and filesystem are untouched in any case |
| Ota.ReceiveFilesystem | ESP8266/Libs/cores/esp8266/Updater.cpp:76-425 | a filesystem update changes nothing below or behind the filesystem and asks the bootloader for nothing; success means that the filesystem begins with exactly the bytes sent, which match the sum set; on a reliable chip it succeeds whenever they fit |
| Ota.ReadyCommanded | ESP8266/Libs/cores/esp8266/Updater.cpp:286-293 | what `end` leaves is a command that the bootloader accepts and whose copy covers the image |
| Ota.CopiedInstalled | ESP8266/Libs/bootloaders/eboot/eboot.c:161-200 | the copy, even onto itself, leaves the staged image at the start of flash and all above it unchanged |
| Ota.PowerSafeExactly | ESP8266/Libs/cores/esp8266/Updater.cpp:123-130 | the installation can be restarted if and only if the image is staged above its rounded size |
| Ota.PowerSafeAtBegin | ESP8266/Libs/cores/esp8266/Updater.cpp:123-130 | for what `begin` accepts this is so if and only if twice the rounded size fits below the filesystem |
| Ota.UnsafeAccepted | ESP8266/Libs/cores/esp8266/Updater.cpp:123-130 | a size that `begin` accepts and that is not power-safe |
| Ota.PowerUnsafe | ESP8266/Libs/bootloaders/eboot/eboot.c:161-252 | an update that is not power-safe can be spoilt by one reset: the next complete copy is not the image, unless two sectors happen to be equal |
| Ota.Install | ESP8266/Libs/bootloaders/eboot/eboot.c:205-260 | after any number of resets one complete boot installs the image and starts it, on a reliable chip always |
| Ota.UpdateAndBoot | ESP8266/Libs/cores/esp8266/Updater.cpp:76-425 | end to end, with power failing any number of times during the installation: on a reliable chip an accepted, complete and sound image is installed, flash begins with the bytes sent but for the mode byte, the filesystem is unchanged, and exactly the loadable segments that were linked start at their entry point |
| Ota.BootsInto | ESP8266/Libs/tools/elf2bin.py:67-101 | an installed image starts with exactly its loadable segments, and is measured exactly, even with its mode byte replaced |
| Ota.PlainExactly | ESP8266/Libs/bootloaders/eboot/eboot.c:138-139 | an image is taken for a packed one exactly by its first two bytes |
| Ota.SealedFirmware | ESP8266/Libs/tools/elf2bin.py:130-142 | a sealed image still is a boot part followed by the same application |
| Ota.FlashCrcAfterUpdate | ESP8266/Libs/cores/esp8266/Esp.cpp:455-471 | the flash CRC check of an installed sealed image succeeds if and only if the mode byte was not replaced |
| Clock.NoOverflow | ESP8266/Libs/cores/esp8266/core_esp8266_wiring.cpp:111-124 | the accumulator of `millis` never overflows, for any counter and overflow count |
| Clock.MillisExactly | ESP8266/Libs/cores/esp8266/core_esp8266_wiring.cpp:163-195 | the result is the quotient modulo 2^32 if and only if the time is precise, for all 2^64 times |
| Clock.PreciseForCenturies | ESP8266/Libs/cores/esp8266/core_esp8266_wiring.cpp:73-104 | all times with an overflow count below 2^22 are precise, as documented |
| Clock.FirstImprecise | ESP8266/Libs/cores/esp8266/core_esp8266_wiring.cpp:73-104 | the first time that is not |
| Clock.SystemClock.MicrosOverflowTick | ESP8266/Libs/cores/esp8266/core_esp8266_wiring.cpp:61-67 | keeps count of all wrap-arounds but those unnoticed between ticks, whose number is stated |
| Clock.SystemClock.Micros64 | ESP8266/Libs/cores/esp8266/core_esp8266_wiring.cpp:201-206 | by how much the result lags behind the true time, and that it is the true time if and only if none went unnoticed |
| Clock.SystemClock.Millis | ESP8266/Libs/cores/esp8266/core_esp8266_wiring.cpp:163-195 | the milliseconds of the time seen, modulo 2^32, exactly when that time is precise; it is the true time if and only if no wrap-around went unnoticed |
| Schedule.Scheduler.GetFn | ESP8266/Libs/cores/esp8266/Schedule.cpp:38-55 | a node of the free list, or a new one while there are fewer than 32, that is in neither list; none only when neither is to be had, or memory is short |
| Schedule.Scheduler.ScheduleFunction | ESP8266/Libs/cores/esp8266/Schedule.cpp:65-86 | an accepted function goes to the end of the queue; a refused one changes nothing; none is refused while there is a free node, or while memory is plenty and there are fewer than 32 nodes |
| Schedule.Scheduler.RunScheduledFunctions | ESP8266/Libs/cores/esp8266/Schedule.cpp:118-154 | calls exactly what was accepted before it, once each and in order as their owners record, and ends; what it accepts meanwhile is exactly what was asked for and granted, in order, so that the queue is empty after a run in which nobody asked; queue and free list stay disjoint and hold all of at most 32 nodes |
| Recurrent.Spliced | ESP8266/Libs/cores/esp8266/Schedule.cpp:199-215 | relinking around one node leaves a well-formed list of the others |
| Recurrent.OneVisited | ESP8266/Libs/cores/esp8266/Schedule.cpp:188-221 | one round turns the next node into one kept or one removed, with the rest and the added nodes behind it |
| Recurrent.Scheduler.ScheduleRecurrent | ESP8266/Libs/cores/esp8266/Schedule.cpp:88-116 | a new node with the function, period and alarm given at the end of the list, whose first period starts now, or nothing changed; nothing is refused while memory is plenty |
| Recurrent.Scheduler.RunScheduledRecurrent | ESP8266/Libs/cores/esp8266/Schedule.cpp:156-233 | one pass visits the functions present at its start once each and in order, asks every alarm and polls every timeout once, calls exactly the functions alarmed or due, which are those their nodes were scheduled with, removes exactly those that returned false, as their owners record, leaves at the end exactly those asked for and granted meanwhile, ends, and does nothing inside another pass |
| Recurrent.KeptExactly | ESP8266/Libs/cores/esp8266/Schedule.cpp:191-221 | which nodes stay, visit by visit, in terms of alarm, clock and answer |
| Recurrent.AnswersExactly | ESP8266/Libs/cores/esp8266/Schedule.cpp:191-194 | which alarms and functions answer, visit by visit |
| Recurrent.AddedAsAsked | ESP8266/Libs/cores/esp8266/Schedule.cpp:88-116 | the nodes added during a pass are those of the requests granted, in order |
| Recurrent.CalledWhenDue | ESP8266/Libs/cores/esp8266/Schedule.cpp:187-194 | every function due when a pass begins is called in it; none is called before its period is over unless its alarm asks for it |
| Recurrent.NotDueAgain | ESP8266/Libs/cores/esp8266/Schedule.cpp:187-194 | a function called because it was due is not due again before the end of its period, which has not drifted |
| PolledTimeout.ConversionExact | ESP8266/Libs/cores/esp8266/PolledTimeout.h:126-128 | no user timeout up to the maximum overflows in the conversion |
| PolledTimeout.TimeMaxExactly | ESP8266/Libs/cores/esp8266/PolledTimeout.h:124-126 | a timeout can expire if and only if its largest conversion stays below 2^32 - 1 |
| PolledTimeout.BoundaryUnique | ESP8266/Libs/cores/esp8266/PolledTimeout.h:224-234 | at any time there is one last period boundary |
| PolledTimeout.Retriggered | ESP8266/Libs/cores/esp8266/PolledTimeout.h:229-234 | the new start, across wrap-around, is less than a period ago, and whole periods after the old one |
| PolledTimeout.Timeout.ExpiredRetrigger | ESP8266/Libs/cores/esp8266/PolledTimeout.h:224-237 | polled within 2^32 ticks, it returns true exactly when a period boundary has passed since it last did, and the start stays on the boundaries for ever |
| PolledTimeout.Timeout.ExpiredOneShot | ESP8266/Libs/cores/esp8266/PolledTimeout.h:240-244 | within 2^32 ticks, true exactly when the timeout has passed or is zero |
| PolledTimeout.Reported | ESP8266/Libs/cores/esp8266/PolledTimeout.h:151-244 | both kinds report a timeout that can expire exactly when its time in ticks has passed |
| I2s.FinishConsistent | ESP8266/Libs/cores/esp8266/core_esp8266_i2s.cpp:161-173 | an end-of-frame interrupt keeps the account of what each past and coming play plays |
| I2s.PopConsistent | ESP8266/Libs/cores/esp8266/core_esp8266_i2s.cpp:132-140 | so does taking a buffer, which is then ahead of its play |
| I2s.PutConsistent | ESP8266/Libs/cores/esp8266/core_esp8266_i2s.cpp:291-317 | so does writing a sample |
| I2s.PlaybackExact | ESP8266/Libs/cores/esp8266/core_esp8266_i2s.cpp:132-317 | while the queue never overflowed and no sample was late, the buffers play the samples accepted in order without gaps, after eight silent ones |
| I2s.LateExactly | ESP8266/Libs/cores/esp8266/core_esp8266_i2s.cpp:101-110 | as long as no buffer was lost, a sample is late exactly when `i2s_is_empty` holds as it is stored |
| I2s.Transmitter.QueueDistinct | ESP8266/Libs/cores/esp8266/core_esp8266_i2s.cpp:34-40 | the queued buffers are different, and none is being played |
| I2s.Transmitter.QueueNextItem | ESP8266/Libs/cores/esp8266/core_esp8266_i2s.cpp:132-140 | returns the buffer finished first; the rest of the array, shifted in place, is still the last buffers finished |
| I2s.Transmitter.Isr | ESP8266/Libs/cores/esp8266/core_esp8266_i2s.cpp:157-177 | the queue is the last buffers finished, at most seven, in the order they finished |
| I2s.Transmitter.WriteSample | ESP8266/Libs/cores/esp8266/core_esp8266_i2s.cpp:291-317 | accepts the sample, or fails only without waiting and with no buffer free; with no buffer lost and `i2s_is_empty` false afterwards the sample was not late; a buffer is never taken from an empty queue |
| I2s.Transmitter.WriteBuffer | ESP8266/Libs/cores/esp8266/core_esp8266_i2s.cpp:336-392 | accepts a prefix of the frames, in order, mono doubled or stereo paired, all of them when it may wait, and else stops only with no buffer free; frames for one buffer were not late when no buffer was lost and `i2s_is_empty` is false afterwards |
| I2s.FrameHalves | ESP8266/Libs/cores/esp8266/core_esp8266_i2s.cpp:371-385 | the halves of the word for a frame, read as signed numbers, are its samples |
| Cbuf.WindowGrows | ESP8266/Libs/cores/esp8266/cbuf.cpp:144-158 | storing at the end extends the contents, up to and around the end of the storage |
| Cbuf.WindowShrinks | ESP8266/Libs/cores/esp8266/cbuf.cpp:119-133 | moving the beginning drops the first characters |
| Cbuf.Buffer.PeekMany | ESP8266/Libs/cores/esp8266/cbuf.cpp:94-108 | the first characters, with nothing changed |
| Cbuf.Buffer.ReadMany | ESP8266/Libs/cores/esp8266/cbuf.cpp:119-133 | takes the first characters out |
| Cbuf.Buffer.WriteMany | ESP8266/Libs/cores/esp8266/cbuf.cpp:144-158 | appends as many characters as there is room for |
| Cbuf.Buffer.Room | ESP8266/Libs/cores/esp8266/cbuf.cpp:80-85 | room and contents always add up to one less than the size |
| Cbuf.Buffer.Remove | ESP8266/Libs/cores/esp8266/cbuf.cpp:165-179 | drops the first characters and returns how many are left |
| Cbuf.Buffer.Resize | ESP8266/Libs/cores/esp8266/cbuf.cpp:36-67 | never loses a character; a size that would is refused |

## Left out

- TwiBus.Wire.WriteTo: transactions without a STOP (`sendStop` 0), repeated START, the 10 ms timer and bus-error recovery are not followed over whole transactions; the state functions and their invariant cover repeated START and bus errors.
- TwiBus.Wire.WriteStop: the clock pulses that `writeTo` and `readFrom` send after it while SDA is low are not written out, because it is proved to leave SDA high.
- TwiBus.Wire.WriteStart: a slave left in the middle of a transaction with SDA released is not among the starting states; the bus is free, or SDA held.
- TwiBus.Wire.ReadFrom: needs a length of at least 1; for 0 the loop bound of the code wraps around.
- TwiBus.Wire.WaitClockStretch: the stretch limit never expires, because the event routine is run in time.
- TwiBus.Wire.EventTask: interrupt handlers and the event routine run to their end before the master's next pin write; a transaction that overwrites the receive buffer during the delivery callback is not modelled.
- Status words that the driver only writes (`twip_status`, `twi_error`), `status()`, and the generic busy waits.
- Updater.Updater.Begin: the linker script's layout is assumed: a measured sketch size not above the start of the filesystem, and that on a sector boundary inside the chip.
- Updater.Updater.Write: chunks of 2^31 bytes and more, for which the sums of the code wrap around.
- Updater.Updater.End: no signature verifier is installed; MD5 is any function of the bytes.
- Ota.Receive: chunks are not empty and an accepted size keeps to its area; what the other cases do is stated by `Updater.Write` and `AcceptedInArea`.
- Ota.UpdateAndBoot: the image is not a gzip file; power fails during the installation only where the image is power-safe.
- Image.CheckFlashCRC: a stored length below 4096 or beyond the flash, as an image that was never sealed can show, for which the last call of the code runs over memory outside the image.
- Eboot.CopyRaw: the decompressor may fail or produce any bytes; of a gzip copy only its range is stated.
- `Updater::writeStream`, progress callbacks, the LED, and the atomic filesystem update option.
- `flash_hal` and its unaligned paths, area erase, and the PUYA flash workaround; reads fail exactly outside the chip.
- Schedule.Scheduler.RunScheduledFunctions: no interrupt schedules between the copy of the last pointer and the first check of an empty queue, and functions do not call `run_scheduled_functions` themselves.
- Recurrent.Scheduler.RunScheduledRecurrent: the timeouts run on a clock that does not wrap around; `PolledTimeout` proves that the 32-bit ones agree with it when polled within 2^32 ticks. What `delete` does with a node is not modelled beyond its never being used again.
- PolledTimeout.ConversionExact: the floating-point computation of the range compensation; a unit is any multiplier and divider.
- I2s.PlaybackExact: interrupts are served before the next play ends, and a buffer counts as played with its contents at the end of its play.
- The receive side of I2S, the sample rate search, and the callbacks of the interrupt.
- Cbuf.Buffer.Resize: a capacity of 0 and a failing allocation.
- Clock.SystemClock.Micros64: times from 2^64 microseconds on.
- The sketch, networking, serial ports, filesystems, tools other than `elf2bin.py`, and register setup: input and output around the parts above.
