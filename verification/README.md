# A verified model of the Zumo firmware, its host decoder and its boot loaders

The model follows two families of components.

**The firmware stack and the host reader.** `Ring_Buffer.dfy` is the masked circular buffer; `Filter.dfy` the
IIR filter on four such rings; `Encoder.dfy` and `MotorPWM.dfy` the wheel counters and the duty cycle
conversions. `WireFormat.dfy`, `SerialIO.dfy`, `HostDecoder.dfy` and `Link.dfy` are the framed transmit path
from `usb_send_msg` through the ring and the one-byte drain to the Python reader thread.
`MessageHandling.dfy` is the receive path: one byte per turn of the main loop, commands cut out of packets,
unrecognised commands flushed. `HostCommands.dfy` is the sending half of the host: every command with its typed
values, packed like any other message, without a look at the firmware's tables. `Drive.dfy`, `DriveSafety.dfy`,
`DriveLaws.dfy` and `MainLoop.dfy` are the drive state machine that the commands, the flag handlers of the main
loop and the obstacle avoidance share: its protocol and books in `DriveSafety.dfy`, what the wheels do in
numbers, signs and sides in `DriveLaws.dfy`. `Firmware.dfy` puts receive path and drive together, and, in
`HostToVehicle`, the host before them.

**The flash loaders.** `Flash.dfy` is one flash memory with page erase, buffer fill and page commit, and the
device object the loaders call; `Eeprom.dfy` the EEPROM. `HexLoader.dfy` is the byte-fed Intel HEX parser of the
printer loader, `DfuLoader.dfy` the DFU class loader, `CdcLoader.dfy` the AVR109 loader.

Where the source changes state in place there is a class with the source's variables (`RingBuffer`,
`FilterData`, `Encoders`, `MotorTimer`, `Serial`, `SerialData`, `MessageTask`, `Robot`, `FlashDevice` and three
classes called `Loader`). Every method is proved to do what a function says does to the abstract state, and
the theorems are about that function over whole runs.

Readings of the source that shape the model:

- The AVR `int` has 16 bits: ring indices, `ECount_to_Distance`, duty cycles and the shifted address byte of
  AVR109 wrap or change sign accordingly. Counters of milliseconds wrap at 2^32.
- Arithmetic on `float` is exact, over `real`; a float on the wire is four opaque bytes, and the whole-stack
  theorems hold for every way of reading them as a number.
- What hardware supplies (clock values, encoder counts, battery voltage, proximity counts, endpoint readiness,
  packets) is a parameter of each step and otherwise arbitrary. The clock may be read differently at every
  place it is read in a turn.
- `SPM_PAGESIZE`, `BOOT_START_ADDR` and the device signature are constants of the build and stay arbitrary: any
  power of two up to 256 for the page, any page boundary below 16 MB for the boot section.
- Programming a flash cell can only clear bits. Filling a word replaces it in the page buffer. The buffer is blank
  after a page write; what it holds before the first one is arbitrary.
- A float too large for `int16_t` keeps the low 16 bits of its integer part when it is converted.
- `bit_is_set` of avr-libc (its header is not part of the repository) yields the masked bit of the register, not 0 or
  1. The outside world supplies what the two decoders count; the counters are what was counted since the last
  zeroing (`Quadrature.ZeroingShifts`).
- "Whatever the page buffer held" rests on the reading that filling a word replaces it. AVR data sheets do not allow
  a word of the buffer to be filled twice without erasing the buffer; for a device that does not replace it, these
  results hold when the buffer is blank.

Where the code and its documentation differ, the model is the code:

- A negative angle is documented as a right turn. Spins turn left for either sign, and `v`/`V` always turn left
  (`Geometry.NegativeAngleTurnsRight` and `Geometry.VelocityTurnsLeft` say exactly when).
- A spin turns half the commanded angle: each track gets a quarter of wheel base times angle
  (`DriveLaws.SpinTurn`).
- `~` is documented as a one-byte command, but its handler never removes the byte (`ReceiveLoop.RestartBlocks`),
  and the restart clears neither the velocity nor the avoidance flag and leaves the motors on
  (`DriveSafety.RestartDisarms`).
- `d` zeroes the encoders to start afresh, but the controller may still compare with counts from before
  (`DriveSafety.StaleMove`).
- The encoder decoder means channel A to be the exclusive or of its two pins, but combines masks: it sees the
  inclusive or, and loses every second pair of steps (`Quadrature.FourStepsCountTwo`).
- The frame comment counts the format without its NUL; the code counts it.
- `rb_set_*` is meant to extend the list up to any index; for the last index it never returns
  (`Deque.SetLoopExits`).
- The DFU comment at line 781 of `BootloaderDFU.c` speaks of a valid application; the code starts it when word 0
  is blank (`DfuProofs.RunsUnlessStarted`).
- AVR109 fills a word by its two bytes, but each of them fills the word anew: the high byte is lost, so the word
  is stored as sent exactly when that byte is 0 (`Avr109Proofs.ByteFills`).
- AVR109 word addresses from 0x4000 on do not become the byte address (`Avr109Proofs.AddressIsExact`).

Properties that turned out to hold only under a condition have the condition proved in both directions:
`Deque.SetLoopExits`, `FilterLaws.SetToHolds`, `FilterLaws.ShiftCarriesOver`,
`FilterLaws.InitKeepsCoefficients`, `Quadrature.StepIsExact`, `Pwm.RoundTripNeedsHundredSteps`,
`Pwm.MinimumRequest`, `Link.DeliverableExactly`, `Quadrature.CountIsDisplacement`, `ReceiveLoop.AgreesExactly`,
`HostCommands.RecognisedExactly`, `Geometry.NegativeAngleTurnsRight`, `DriveSafety.DeadmanExactly`, `DriveSafety.MoveDeadmanExactly`,
`DriveSafety.TimedPwmExactly`, `DriveSafety.TimedPwmEnds`, `DriveSafety.MeasuredFromStart`, `Flash.RestIsBlank`,
`HexLoading.FileLoadsExactly`, `HexLoading.ExtendedAddressIsSwapped`, `HexLoading.EndOfFileNeedsChecksum`,
`HexLoading.DigitsExactly`, `DfuProofs.WholeBankIsEmpty`,
`DfuProofs.ProgramDownloadExactly`, `DfuProofs.RunsUnlessStarted`, `Avr109Proofs.AddressIsExact`,
`Avr109Proofs.Kept`, `Avr109Proofs.ByteFills`.

## Model

| member | source | states |
|---|---|---|
| Bits.MaskedIsMod | Driver/Ring_Buffer.c:29-41 | masking a 16-bit difference or sum with size - 1 is reduction modulo the power-of-two size, negative differences included |
| Deque.PushAllKeepsLast | Driver/Ring_Buffer.c:44-69 | of any stream of pushes exactly the last size - 1 elements survive |
| Deque.PushFrontMirrors | Driver/Ring_Buffer.c:72-99 | pushing at the front is pushing at the back of the mirrored buffer, the loss when full included |
| Deque.SetLoopExits | Driver/Ring_Buffer.c:164-203 | the padding loop of rb_set ends if and only if the index is below size - 1 |
| Ring_Buffer.RingBuffer.Initialize | Driver/Ring_Buffer.c:10-25 | the buffer is empty, whatever it held |
| Ring_Buffer.RingBuffer.Length | Driver/Ring_Buffer.c:29-41 | the masked index difference is the number of live elements, for every size up to 256 |
| Ring_Buffer.RingBuffer.PushBack | Driver/Ring_Buffer.c:44-69 | refines the bounded deque: append, drop the front when full |
| Ring_Buffer.RingBuffer.PushFront | Driver/Ring_Buffer.c:72-99 | refines the bounded deque: prepend, drop the back when full |
| Ring_Buffer.RingBuffer.PopBack | Driver/Ring_Buffer.c:102-123 | removes and returns the last element; an empty buffer returns the default and stays empty |
| Ring_Buffer.RingBuffer.PopFront | Driver/Ring_Buffer.c:126-147 | removes and returns the first element; an empty buffer returns the default and stays empty |
| Ring_Buffer.RingBuffer.Get | Driver/Ring_Buffer.c:150-161 | an index inside the active length reads that element |
| Ring_Buffer.RingBuffer.Set | Driver/Ring_Buffer.c:164-203 | replaces an element inside the active length; up to size - 2 pads with the value up to the index; indices beyond the size change nothing; it ends for every index but size - 1 |
| FilterLaws.RunRefinesDifferenceEquation | Driver/Filter.c:35-113 | after any number of values the rings hold the last inputs and outputs of the difference equation on the unbounded history |
| FilterLaws.OutputIsY | Driver/Filter.c:82-113 | the k-th value returned is (sum b[i] x[k-i] - sum a[i] y[k-i]) / a[0] |
| FilterLaws.FilterIsLinear | Driver/Filter.c:92-113 | from the zero state outputs are linear in the inputs |
| FilterLaws.ShiftCarriesOver | Driver/Filter.c:53-65 | shifting the lists and all later inputs by s shifts all later outputs by s, if and only if the coefficient sums agree or s is 0 |
| FilterLaws.SetToHolds | Driver/Filter.c:67-80 | after SetTo(c) the constant input c answers c forever, if and only if the coefficient sums agree or c is 0 |
| FilterLaws.ControllerIntegrates | Application/Main.c:41-44 | with denominator {1, -1} the output is b0 times the newest input plus (b0 + b1) times the sum of the earlier ones |
| FilterLaws.InitKeepsCoefficients | Driver/Filter.c:42-48 | initialisation keeps all coefficients if and only if the order is at most 6; above, the first ones are lost |
| Filter.InitIsZeroState | Driver/Filter.c:35-51 | up to order 6 the initialised lists are the zero state of the difference equation |
| Filter.FilterData.Init | Driver/Filter.c:35-51 | the four rings receive coefficients and zeros, order + 1 of each |
| Filter.FilterData.ShiftBy | Driver/Filter.c:59-65 | both histories are shifted in place, coefficients untouched |
| Filter.FilterData.SetTo | Driver/Filter.c:73-80 | both histories are overwritten in place, coefficients untouched |
| Filter.FilterData.Value | Driver/Filter.c:92-113 | one step of the difference equation; all four rings keep their length |
| Filter.FilterData.LastOutput | Driver/Filter.c:119-121 | the newest output, without changing the filter |
| Quadrature.ChannelAIsOr | Driver/Encoder.c:22-26 | the exclusive or of the two masked bits, taken as a bool, is the inclusive or of the two pins |
| Quadrature.InterruptCounts | Driver/Encoder.c:146-169 | an even move is ignored; an odd one counts what the step to the nearest Gray neighbour counts: nothing into or out of the phase with both pins set |
| Quadrature.CountIsHalf | Driver/Encoder.c:93-169 | over any walk of single Gray steps the counter is the difference of the half counts since zeroing, as an int32_t: each cycle of four steps counts two |
| Quadrature.CountIsDisplacement | Driver/Encoder.c:93-169 | the counter is the displacement since zeroing if and only if no step into or out of the phase with both pins set lies between the two positions |
| Quadrature.FourStepsCountTwo | Driver/Encoder.c:146-169 | from power-up: four single steps count 2, and so do the first three |
| Quadrature.CountFromInit | Driver/Encoder.c:34-54 | after power-up in the phase with both pins set, the first step is counted, from then on the half counts |
| Quadrature.ZeroingShifts | Driver/Encoder.c:93-103 | for any walk, the count since a zeroing is the count without it less the one at the zeroing |
| Quadrature.CountParity | Driver/Encoder.c:146-169 | whatever edges were missed, the counter has the parity of the half counts at the last recorded sample |
| Quadrature.StepIsExact | Driver/Encoder.c:146-169 | one interrupt follows the wheel if and only if it did not move, or moved by one step neither from nor to the phase with both pins set |
| Encoder.Encoders.LeftInterrupt | Driver/Encoder.c:146-154 | the left channel takes one decoding step, the right one is untouched |
| Encoder.Encoders.RightInterrupt | Driver/Encoder.c:161-169 | the right channel takes one decoding step, the left one is untouched |
| Encoder.Encoders.Zero | Driver/Encoder.c:93-103 | both counters are zero, the remembered pins stay |
| Pwm.CompareValue | Driver/MotorPWM.c:78-83 | the compare value is the rounded-down (100 - duty) percent of TOP and at most TOP |
| Pwm.RoundTrip | Driver/MotorPWM.c:65-130 | for TOP of at least 100, setting and reading back gives min(abs(request), 100) despite both truncations |
| Pwm.RoundTripNeedsHundredSteps | Driver/MotorPWM.c:65-130 | the read-back is right for every request but the int16 minimum if and only if TOP is at least 100 |
| Pwm.MinimumRequest | Driver/MotorPWM.c:65-130 | the int16 minimum keeps its sign when negated; it is read back as 100 if and only if TOP is 42271 |
| MotorPWM.MotorTimer.Left | Driver/MotorPWM.c:65-84 | direction pin by sign, compare value in 0..TOP; the other motor untouched |
| MotorPWM.MotorTimer.Right | Driver/MotorPWM.c:90-110 | direction pin by sign, compare value in 0..TOP; the other motor untouched |
| MotorPWM.MotorTimer.SetAndReadLeft | Driver/MotorPWM.c:65-120 | the setter followed by the getter returns the saturated magnitude for TOP of at least 100, and of the int16 minimum exactly for TOP 42271 |
| WireFormat.FieldRoundTrip | Driver/SerialIO.c:383-386 | every c, b, B, h or f value is unpacked from its packed bytes |
| WireFormat.UnpackPack | User/serial_monitor_lib.py:100-103 | unpacking a packed message with its own format returns the message, and the sizes agree |
| WireFormat.FrameIsEncode | Driver/SerialIO.c:396-403 | the pieces usb_send_msg pushes are the encoding of the typed message |
| HostSpec.FrameDecoded | User/serial_monitor_lib.py:190-228 | an idle reader with a whole frame waiting delivers exactly its message and leaves the bytes after it, unless a character is not ASCII |
| HostSpec.LongFrameStalls | User/serial_monitor_lib.py:190-191 | a length byte of 128 to 254 is read as negative: the reader never moves again |
| HostDecoder.SerialData.ParseData | User/serial_monitor_lib.py:100-153 | the callbacks see the unpacked message, or the thread ends |
| HostDecoder.SerialData.Turn | User/serial_monitor_lib.py:173-242 | for formats without repeat counts and strings, one turn of the thread refines the reader step; bytes not read stay waiting |
| SerialIO.Serial.ReadNextByte | Driver/SerialIO.c:253-302 | at most one byte enters the ring; an empty bank is acknowledged only after a first byte, and ends a flush |
| SerialIO.Serial.WriteNextByte | Driver/SerialIO.c:308-340 | at most one byte leaves the ring, the oldest one |
| SerialIO.Serial.SendStr | Driver/SerialIO.c:369-376 | the characters and the NUL are appended |
| SerialIO.Serial.SendMsg | Driver/SerialIO.c:396-403 | the frame goes through the ring; with room for it nothing is lost |
| SerialIO.Serial.MsgPeek | Driver/SerialIO.c:429-442 | the head byte, or 0, without removal |
| SerialIO.Serial.MsgReadInto | Driver/SerialIO.c:472-484 | all the bytes asked for, in order, or none and no change |
| SerialIO.Serial.FlushInputBuffer | Driver/SerialIO.c:492-496 | the ring is empty and the rest of the packet void |
| Link.RunKeepsInv | Driver/SerialIO.c:308-403 | for any interleaving, what travels is the rest of the current frame and whole frames, and the reader's counters match it |
| Link.DeliveredIsPrefix | User/serial_monitor_lib.py:190-228 | safety: for any interleaving of sends with room, one-byte drains and reader turns, the messages delivered are a prefix of those sent, the reader never fails and a payload read finds all its bytes waiting |
| Link.EverythingArrives | Driver/SerialIO.c:308-403 | completeness: after enough ready drains, and then enough reader turns, in any order with other quiet actions, exactly the messages sent were delivered, in order |
| Link.DeliveredExactly | Driver/SerialIO.c:308-403 | in any order of actions, everything sent was delivered if and only if nothing travels any more |
| Link.DeliverableExactly | Driver/SerialIO.c:343-403 | all messages sent can still be delivered if and only if every one found room in the ring when it was sent and has only ASCII characters |
| Commands.HandlersConsumeMessage | Application/MEGN540_MessageHandeling.c:1148-1185 | the length table is one more than what each handler reads |
| HostCommands.LengthAgrees | Application/MEGN540_MessageHandeling.c:1148-1185 | for every command of the host, ~ apart, the length table gives the number of bytes the host packs |
| HostCommands.RecognisedExactly | Application/MEGN540_MessageHandeling.c:1148-1185 | a byte is recognised if and only if it is ~ or the code of one of the 24 commands of the host |
| HostCommands.CommandParses | User/serial_monitor_lib.py:244-289 | the bytes the host packs for a command, whatever follows them, are dispatched as that command with its packed values |
| HostCommands.StreamParses | User/serial_monitor_lib.py:244-289 | any sequence of commands sent is dispatched command by command, and parsing goes on behind it |
| Commands.ParseAppend | Application/MEGN540_MessageHandeling.c:91-101 | parsing goes on from what an earlier parse left |
| Commands.RecognisedStreamIgnoresPackets | Application/MEGN540_MessageHandeling.c:91-101 | for recognised streams the packet-wise reference is the one-shot parse of all bytes |
| ReceiveLoop.FlushIsExact | Driver/SerialIO.c:253-283 | for every arrival of packets, as long as no ~ came to the front: the log is the reference's, a flush voids exactly the rest of the offending packet, clear_buffer is set exactly until its acknowledgement, and the ring holds at most 12 bytes |
| ReceiveLoop.AgreesExactly | Driver/SerialIO.c:253-283 | the receive path agrees with the packet-wise reference if and only if no ~ came to the front |
| ReceiveLoop.ChunkingIndependence | Application/MEGN540_MessageHandeling.c:91-1124 | the commands dispatched are those of a one-shot parse, however the bytes were cut and spread over turns |
| ReceiveLoop.NothingLost | Driver/SerialIO.c:253-302 | acknowledged, current and waiting packets are exactly those that arrived |
| ReceiveLoop.TurnProgresses | Driver/SerialIO.c:260-283 | a turn makes progress on waiting packets unless an empty packet comes before the first byte |
| ReceiveLoop.EverythingIsRead | Driver/SerialIO.c:253-302 | after enough turns every waiting packet is read and acknowledged |
| ReceiveLoop.RestartBlocks | Application/MEGN540_MessageHandeling.c:189-194 | a ~ at the front stays there until the ring overflows |
| ReceiveLoop.RestartBlocksRun | Application/MEGN540_MessageHandeling.c:189-194 | behind a ~ no command is dispatched while the ring has room; every turn sets the restart flag again |
| ReceiveLoop.StopBehindRestart | Application/MEGN540_MessageHandeling.c:189-194 | from power-up, a packet of ~ and s: the s is never dispatched |
| ReceiveLoop.AllDispatched | Application/MEGN540_MessageHandeling.c:91-101 | liveness: after enough turns all that waits in a recognised stream is dispatched, as a one-shot parse says |
| ReceiveLoop.OverflowDropsRestart | Driver/SerialIO.c:269-273 | the byte that finds the ring full drops the ~ and nothing else; dispatch of recognised bytes resumes with it |
| MessageHandling.MessageTask.Run | Application/MEGN540_MessageHandeling.c:91-101 | one whole command is removed and handed on and its answer, whatever it is, appended to the send ring; an incomplete one waits; an unrecognised one flushes the input and sends the '?' frame |
| MessageHandling.MessageTask.Turn | Application/Main.c:112-115 | reading a byte and handling a message refine the turn of the receive model |
| Avoidance.TaskKeepsInv | Application/Obstacle_Avoidance.c:42-205 | left reading, right reading and decision alternate; a hold follows a turn and lasts exactly OA_HOLD_TIMEOUT decisions; alpha is its age and 0 outside it |
| Geometry.ArcTurn | Application/MEGN540_MessageHandeling.c:576-604 | the outer track is longer by wheel base times angle, and both tracks need the same time |
| Geometry.NegativeAngleTurnsRight | Application/MEGN540_MessageHandeling.c:558-604 | a negative angle turns right if and only if the move is not a spin |
| Geometry.VelocityTurnsLeft | Application/MEGN540_MessageHandeling.c:838-853 | v turns left for every angle |
| DriveSafety.ReachableInv | Application/Main.c:283-583 | in every reachable state distance control excludes velocity, avoidance and timed PWM, an armed stop excludes avoidance and timed PWM, and during avoidance the targets are those of the decision being followed |
| DriveSafety.StopIsSafe | Application/MEGN540_MessageHandeling.c:432-454 | after s the motors stay off and every drive flag down until a drive command is accepted |
| DriveSafety.ElapsedAcrossWrap | Driver/Timing.c:124-135 | the millisecond difference is the time passed, modulo 2^32, across a wrap of the counter |
| DriveSafety.DeadmanStops | Application/Main.c:518-539 | after an accepted D or V, without ~ and without another accepted drive command, the first turn that finds the limit reached ends with the motors off, and they stay off |
| DriveSafety.DeadmanExactly | Application/Main.c:518-539 | after an accepted V without a later stop or accepted drive command, the car is stopped if and only if a turn found the limit reached before any ~ was handled |
| DriveSafety.MoveDeadmanExactly | Application/Main.c:518-539 | after an accepted D without a later stop or accepted drive command, the car is stopped if and only if a turn found the limit reached before any ~ was handled, or the first ~ found the motors off |
| DriveSafety.TimedPwmExactly | Application/Main.c:283-294 | P ends with the motors off, and they stay off, in every run without ~ or another accepted drive command, if and only if it was not accepted during an avoidance still before its first decision |
| DriveSafety.TimedPwmEnds | Application/Main.c:283-294 | otherwise, in every run without another accepted drive command, the motors end off if and only if a turn found the limit of P reached before any ~ was handled, or a stop was handled |
| DriveSafety.RestartDisarms | Application/MEGN540_MessageHandeling.c:69-84 | ~ handled while the motors are on: whatever would have ended the drive is disarmed, and the motors stay on until a stop or a drive command, however often ~ is handled again |
| DriveSafety.MoveStarts | Application/Main.c:324-333 | a move is measured from its first tick, or, when first_time was left false, from the stale counts of an earlier drive |
| DriveSafety.MeasuredFromStart | Application/Main.c:324-362 | a move is measured from the counts of its first tick if and only if first_time held, or the stale counts equal them in 16 bits and neither target is 0 |
| DriveSafety.MoveZeroes | Application/MEGN540_MessageHandeling.c:607-617 | an accepted d zeroes both counters where the wheels stand, but leaves first_time and the stale counts |
| DriveSafety.StaleMove | Application/MEGN540_MessageHandeling.c:607-617 | from power-up: after a stopped reverse drive, a move of 0.1 is over in its first tick with the car standing |
| DriveSafety.MoveTurn | Application/Main.c:333-421 | remaining target plus travel is the commanded distance; the incremental test stops the car in exactly the tick in which total travel reaches the command on either track; targets keep their sign until then |
| DriveSafety.MoveRun | Application/Main.c:324-421 | the same over whole undisturbed runs |
| DriveSafety.MoveEnds | Application/Main.c:324-421 | ticks with at least one count of progress in the commanded direction, on either track, are fewer than its commanded distance in counts |
| DriveLaws.VelocityTick | Application/Main.c:426-516 | a tick of the velocity controller drives each wheel at the duty cycle that is its own target velocity in its own characteristic, truncated toward zero |
| DriveLaws.DistanceTick | Application/Main.c:362-421 | a tick of the distance controller that does not end the move does the same, with the sign of what remains of each track |
| DriveLaws.StraightMoveDuties | Application/Main.c:362-421 | over any undisturbed run of a straight move every tick drives both wheels at 75, forward or backward as what remains |
| DriveLaws.VelocityStarts | Application/Main.c:426-441 | a first tick only takes the counts and leaves the period over, so the next turn drives |
| DriveLaws.CountsAreDistances | Driver/MotorPWM.c:172-174 | distances of counts add up within 16 bits, and 22743 counts are 25 turns of the wheel |
| DriveLaws.NothingDue | Application/Main.c:283-583 | without a command, and with no limit or period over, a turn changes nothing |
| DriveLaws.MotorsOffIsZero | Application/Main.c:105-585 | in every reachable state with the motors off both duty cycles are 0 |
| DriveLaws.CommandZeroes | Application/MEGN540_MessageHandeling.c:510-993 | d, D, v and V start with both counters at 0; no other command zeroes them |
| DriveLaws.LowBattery | Application/MEGN540_MessageHandeling.c:322-993 | below 4.75 V no drive command changes anything |
| DriveLaws.CommandModes | Application/MEGN540_MessageHandeling.c:322-1112 | from 4.75 V on a drive command leaves on exactly its own controllers; p and P leave a running avoidance on, ~ leaves velocity control and avoidance on |
| DriveLaws.CommandTimes | Application/MEGN540_MessageHandeling.c:322-1112 | time limits are the seconds of the command in milliseconds, from now; the controllers run every 10 ms |
| DriveLaws.DirectDuties | Application/MEGN540_MessageHandeling.c:322-414 | after the turn that handles an accepted p, or P with a limit not over at once, the motors run, each wheel at its own value |
| DriveLaws.DutiesStay | Application/MEGN540_MessageHandeling.c:322-414 | they keep these duty cycles as long as they run, in every run without another accepted drive command |
| DriveLaws.MoveTargets | Application/MEGN540_MessageHandeling.c:510-789 | targets of d and D: straight, arc with the inner track as commanded and the outer longer by wheel base times angle, or spin |
| DriveLaws.SpinTurn | Application/MEGN540_MessageHandeling.c:558-575 | a spin goes left about half the magnitude of the angle, at 25 percent on both wheels |
| DriveLaws.DriveTargets | Application/MEGN540_MessageHandeling.c:802-993 | targets of v and V: both the velocity, or the right wheel faster by wheel base times the magnitude of the angular velocity |
| DriveLaws.DecisionFollowsReading | Application/Obstacle_Avoidance.c:85-205 | in every state that keeps the invariants: an obstacle in the way of a straight drive makes the wheel on its side the faster one; nothing in sight means straight on at 30 percent; a turn goes on until nothing is in sight, then holds for its time |
| DriveLaws.EveryDecisionFollowsReading | Application/Obstacle_Avoidance.c:85-205 | along every run from power-up a turn is entered only on an obstacle on the other side, and a hold only when nothing is in sight |
| DriveLaws.FirstDecisionDrives | Application/Obstacle_Avoidance.c:85-115 | the first decision starts the velocity controller |
| DriveLaws.AvoidancePeriod | Application/Main.c:577-583 | the avoidance acts in exactly the turns that find its period over; only a decision starts the period anew |
| DriveLaws.AvoidanceStraightDuty | Application/Main.c:426-516 | avoidance driving straight: a tick of the velocity controller sets 30 on both wheels |
| DriveLaws.PoweredIsStopped | Application/Main.c:46-83 | at power-up the motors are off, every drive flag is down and the duty cycles are 0 |
| MainLoop.Robot.constructor | Application/Main.c:46-83 | the powered-on state satisfies the invariants |
| MainLoop.Robot.HandleMessage | Application/MEGN540_MessageHandeling.c:322-993 | each drive command changes flags, targets, PWM and the zero of the encoders as specified, refused below 4.75 V |
| MainLoop.Robot.ResetDriveFlags | Application/MEGN540_MessageHandeling.c:1129-1138 | all five drive flags are down, nothing else changed |
| MainLoop.Robot.TimedPwmHandler | Application/Main.c:283-294 | the handler's whole effect |
| MainLoop.Robot.DistanceHandler | Application/Main.c:324-423 | the handler's whole effect, first tick and completion included |
| MainLoop.Robot.VelocityHandler | Application/Main.c:426-516 | the handler's whole effect |
| MainLoop.Robot.StopHandler | Application/Main.c:519-539 | the handler's whole effect |
| MainLoop.Robot.AvoidanceHandler | Application/Main.c:577-583 | the avoidance task runs under its flag; its timer is reset only after a decision |
| MainLoop.Robot.RunStateMachine | Application/Obstacle_Avoidance.c:85-205 | decision, targets and hold counter move together |
| MainLoop.Robot.Loop | Application/Main.c:105-585 | one turn of the loop is the turn of the model and keeps the invariants |
| Firmware.EveryByteStreamKeepsInv | Application/Main.c:105-585 | the drive invariants hold for every stream of bytes in any packets, unrecognised ones and ~ included |
| Firmware.StopOnTheWireStops | Application/MEGN540_MessageHandeling.c:432-454 | if the bytes read parse to a command list with a stop after its last drive command, the motors are off and every drive flag down |
| Firmware.StopArrives | Application/Main.c:105-585 | liveness: if all bytes that ever arrived parse to commands with a stop after the last drive command, then after enough turns the motors are off and every drive flag down |
| Firmware.DeadmanOnTheWire | Application/Main.c:518-539 | if the bytes read parse to commands of which an accepted D or V is the last drive command, and a later turn finds its limit reached, the motors are off and every drive flag down |
| HostToVehicle.DecodeMeaning | Application/MEGN540_MessageHandeling.c:322-1112 | for every command of the host the handler reads back the values packed, 16-bit integers and floats, each in its place |
| HostToVehicle.CommandsHandled | Application/Main.c:105-585 | whenever the bytes read are those of some commands and the beginning of another, the drive has handled exactly these commands, in order, however the bytes were cut into packets |
| HostToVehicle.StopSentStops | Application/MEGN540_MessageHandeling.c:432-454 | liveness from the host: if a stop was sent after the last drive command, then after enough turns the motors are off and every drive flag down |
| HostToVehicle.StopByteStops | Application/MEGN540_MessageHandeling.c:432-454 | from power-up the single byte s or S is dispatched in one turn and leaves the car stopped |
| Flash.ProgramOpsLoad | lufa/Bootloaders/Printer/BootloaderAPI.c:38-76 | erasing, filling and committing page by page leaves exactly the loaded words in flash and the rest in the buffer |
| Flash.ProgramOpsComplete | lufa/Bootloaders/Printer/BootloaderAPI.c:38-76 | after the last commit the image is in flash, whatever the page buffer held before; its last page is filled up, every other cell unchanged |
| Flash.RestIsBlank | lufa/Bootloaders/Printer/BootloaderAPI.c:60-76 | the rest of the last page is blank if and only if the image has a whole page or the buffer was blank there |
| Flash.ProgramOpsInOrder | lufa/Bootloaders/Printer/BootloaderAPI.c:38-76 | each page is erased before its fills and committed once after them, in ascending order |
| Flash.ChipEraseBlanks | lufa/Bootloaders/DFU/BootloaderDFU.c:789-791 | the erase loop blanks every cell of the application section |
| Flash.BootSectionKept | lufa/Bootloaders/Printer/BootloaderAPI.c:38-76 | no sequence of erases, fills and commits changes a cell of the boot section |
| Flash.UnalignedWritesNothing | lufa/Bootloaders/Printer/BootloaderAPI.c:38-76 | loading from an address off a page boundary changes no cell |
| BootloaderAPI.FlashDevice.ErasePage | lufa/Bootloaders/Printer/BootloaderAPI.c:38-58 | every cell of an aligned page below the boot section is blank, every other cell and the buffer are kept; any other address changes nothing |
| BootloaderAPI.FlashDevice.WritePage | lufa/Bootloaders/Printer/BootloaderAPI.c:38-71 | every blank cell of an aligned page below the boot section takes its buffered byte, cells outside are kept and the buffer is blank; any other address changes nothing |
| BootloaderAPI.FlashDevice.FillWord | lufa/Bootloaders/Printer/BootloaderAPI.c:73-76 | low and high byte are at their place in the page buffer, its other bytes and all of flash are kept |
| Eeprom.ReadBack | lufa/Bootloaders/DFU/BootloaderDFU.c:384-406 | what is written from an address on reads back from there, across a wrap of the pointer |
| Eeprom.OthersKept | lufa/Bootloaders/DFU/BootloaderDFU.c:384-406 | no cell outside the range changes |
| HexLoading.TwoDigits | lufa/Bootloaders/Printer/BootloaderPrinter.c:254-273 | the two digits of a byte are parsed to that byte, whatever came before |
| HexLoading.RecordsFed | lufa/Bootloaders/Printer/BootloaderPrinter.c:238-369 | after any contiguous even data records the parser has asked for exactly the page-wise load of their data |
| HexLoading.FileOps | lufa/Bootloaders/Printer/BootloaderPrinter.c:238-369 | a whole file stops the loader, and its operations are the page-wise load; the last page is committed unless it is page 0 |
| HexLoading.FileLoads | lufa/Bootloaders/Printer/BootloaderPrinter.c:214-369 | contiguous data records of at least a page and the end-of-file record leave flash equal to the image, each page erased first and committed once |
| HexLoading.FileLoadsExactly | lufa/Bootloaders/Printer/BootloaderPrinter.c:214-230 | a file leaves its image in flash if and only if it has at least a page or is blank |
| HexLoading.ExtendedAddressIsSwapped | lufa/Bootloaders/Printer/BootloaderPrinter.c:307-345 | an extended address record sets the base it means if and only if its two bytes are equal, because the first byte is taken as the low one |
| HexLoading.EndOfFileNeedsChecksum | lufa/Bootloaders/Printer/BootloaderPrinter.c:351-363 | the end-of-file record stops the loader if and only if its checksum is right; with a wrong one it asks nothing of the flash |
| HexLoading.WrongChecksum | lufa/Bootloaders/Printer/BootloaderPrinter.c:351-363 | the last byte of a record with a wrong checksum has no effect, whatever the record |
| HexLoading.BootSectionRefused | lufa/Bootloaders/Printer/BootloaderPrinter.c:299-305 | a data byte for the boot section asks nothing of the flash, and nothing after it does up to the next colon |
| HexLoading.DigitsExactly | lufa/Bootloaders/Printer/BootloaderPrinter.c:198-206 | the hex digits are exactly the sixteen upper-case ones, each with its value; every other character is none |
| HexLoading.OtherTypesIgnored | lufa/Bootloaders/Printer/BootloaderPrinter.c:317-345 | data of records of any other type reaches neither flash nor the base address |
| HexLoader.Loader.FlushPageIfRequired | lufa/Bootloaders/Printer/BootloaderPrinter.c:214-230 | a dirty page that was left is committed, once |
| HexLoader.Loader.ParseIntelHexByte | lufa/Bootloaders/Printer/BootloaderPrinter.c:238-369 | one character moves parser and flash as specified |
| HexLoader.Loader.Receive | lufa/Bootloaders/Printer/BootloaderPrinter.c:238-369 | a text moves them like its characters one after the other |
| DfuProofs.SecureGate | lufa/Bootloaders/DFU/BootloaderDFU.c:609-652 | over every request sequence from a secure start: no erase, fill, commit, EEPROM write or memory upload before a chip erase of every page, and until then only the states idle and error |
| DfuProofs.SecureRunIsBlind | lufa/Bootloaders/DFU/BootloaderDFU.c:253-576 | while secure, runs and replies do not depend on what the memories hold |
| DfuProofs.LoopIsProgram | lufa/Bootloaders/DFU/BootloaderDFU.c:325-382 | the erase of the command and the word loop, with its 8-bit word counter, are the page-wise load of the image |
| DfuProofs.ProgramDownload | lufa/Bootloaders/DFU/BootloaderDFU.c:310-383 | a download to a page-aligned range leaves exactly the streamed words in it, whatever the page buffer held, each page erased first and committed once, everything outside its pages unchanged |
| DfuProofs.ProgramDownloadExactly | lufa/Bootloaders/DFU/BootloaderDFU.c:310-383 | a download to a range below the boot section leaves the streamed words in it if and only if the range starts at a page boundary or held them before |
| DfuProofs.ReadRange | lufa/Bootloaders/DFU/BootloaderDFU.c:443-483 | an upload returns exactly the bytes of the selected range |
| DfuProofs.ProgramReadBack | lufa/Bootloaders/DFU/BootloaderDFU.c:325-483 | download, any requests but downloads, display command for the same range, upload: the bytes downloaded come back |
| DfuProofs.WholeBankIsEmpty | lufa/Bootloaders/DFU/BootloaderDFU.c:325-331 | the 16-bit byte count is right for every range but a whole 64K bank, which counts as empty |
| DfuProofs.EepromReadBack | lufa/Bootloaders/DFU/BootloaderDFU.c:384-507 | EEPROM download, any requests but downloads, display command for the same range, upload: the bytes downloaded come back, for every range |
| DfuProofs.RunsUnlessStarted | lufa/Bootloaders/DFU/BootloaderDFU.c:747-786 | over every request sequence the loader runs on if and only if no request reached the start command by jump without data while word 0 was blank |
| DfuProofs.EraseCommandErases | lufa/Bootloaders/DFU/BootloaderDFU.c:787-795 | the erase command, in any state, secure or not, an exit pending or not, leaves every cell of the application section blank, the boot section as it was, and the loader unlocked |
| DfuProofs.EraseAlwaysErases | lufa/Bootloaders/DFU/BootloaderDFU.c:787-795 | so it does after any sequence of requests from power-up |
| DfuProofs.StartCommand | lufa/Bootloaders/DFU/BootloaderDFU.c:747-786 | a start command leaves an exit pending until the next download, and ends the loader if and only if it is a jump and word 0 is blank |
| DfuProofs.UploadEnds | lufa/Bootloaders/DFU/BootloaderDFU.c:419-510 | an upload ends the reading of a range and changes no other state and no memory |
| DfuProofs.BlankCheck | lufa/Bootloaders/DFU/BootloaderDFU.c:715-741 | a blank application section is no error; otherwise the status says so and the upload returns the address of the first cell in use |
| DfuProofs.InfoReads | lufa/Bootloaders/DFU/BootloaderDFU.c:801-844 | an upload returns the requested version, identification or signature byte; any other index is an address error |
| DfuProofs.BankSelected | lufa/Bootloaders/DFU/BootloaderDFU.c:646-650 | the command selects the 64K bank it names |
| DfuProofs.SecureRefuses | lufa/Bootloaders/DFU/BootloaderDFU.c:609-629 | in secure mode every command but erase and information reads is reported as a write error |
| DfuProofs.StatusAndState | lufa/Bootloaders/DFU/BootloaderDFU.c:517-574 | after clearing the status it reads 0, after an abort the state reads idle; reading them changes nothing |
| DfuProofs.UploadMoves | lufa/Bootloaders/DFU/BootloaderDFU.c:419-510 | after an upload the current address is the last one of a flash range, or the one behind an EEPROM range |
| DfuLoader.Loader.constructor | lufa/Bootloaders/DFU/BootloaderDFU.c:43-93 | the start state of the machine, secure as built |
| DfuLoader.Loader.ControlRequest | lufa/Bootloaders/DFU/BootloaderDFU.c:253-576 | each request changes the loader's variables and the memories, and replies, as the machine does |
| DfuLoader.Loader.ProcessBootloaderCommand | lufa/Bootloaders/DFU/BootloaderDFU.c:609-652 | the gate and the dispatch |
| DfuLoader.Loader.ProcessMemProgCommand | lufa/Bootloaders/DFU/BootloaderDFU.c:674-698 | the range is loaded, the first flash page erased |
| DfuLoader.Loader.ProcessMemReadCommand | lufa/Bootloaders/DFU/BootloaderDFU.c:704-742 | the range is loaded, or the first cell that is not blank found |
| DfuLoader.Loader.ProcessWriteCommand | lufa/Bootloaders/DFU/BootloaderDFU.c:747-796 | start of the application, or chip erase and end of secure mode |
| DfuLoader.Loader.WriteFlash | lufa/Bootloaders/DFU/BootloaderDFU.c:328-379 | the word loop with its counters refines the recursive description |
| DfuLoader.Loader.ReadFlash | lufa/Bootloaders/DFU/BootloaderDFU.c:446-480 | the upload loop returns the bytes from the current address on |
| Avr109Proofs.AddressIs | lufa/Bootloaders/CDC/BootloaderCDC.c:478-479 | what each word address turns into |
| Avr109Proofs.AddressIsExact | lufa/Bootloaders/CDC/BootloaderCDC.c:475-483 | a word address becomes its byte address if and only if it is below 0x4000 |
| Avr109Proofs.AddressStaysEven | lufa/Bootloaders/CDC/BootloaderCDC.c:432-621 | over every run of commands the address is even |
| Avr109Proofs.BlockAdvances | lufa/Bootloaders/CDC/BootloaderCDC.c:300-362 | reading and writing a block advance the address alike: by the whole words of a flash block, by twice the size of an EEPROM block, modulo 2^32 |
| Avr109Proofs.WriteBlockOps | lufa/Bootloaders/CDC/BootloaderCDC.c:329-369 | the byte pairing with HighByte yields the words in order between one erase and one commit |
| Avr109Proofs.BlockLoads | lufa/Bootloaders/CDC/BootloaderCDC.c:329-369 | a block of at most a page at a page boundary leaves its whole words in flash, its page filled up, everything else unchanged |
| Avr109Proofs.BlockInOrder | lufa/Bootloaders/CDC/BootloaderCDC.c:329-369 | the page is erased before its fills and committed once |
| Avr109Proofs.FlashRoundTrip | lufa/Bootloaders/CDC/BootloaderCDC.c:276-374 | set address, write a block, any commands that keep the flash, set address, read: the block comes back, whatever the page buffer held; of an odd block the last byte is lost |
| Avr109Proofs.Kept | lufa/Bootloaders/CDC/BootloaderCDC.c:334-353 | what comes back is the block if and only if its size is even or its last byte is what the page buffer held there |
| Avr109Proofs.HighAddressesWriteNothing | lufa/Bootloaders/CDC/BootloaderCDC.c:475-483 | with word addresses that have bit 14 set, a block of any size reaches no flash cell |
| Avr109Proofs.EepromRoundTrip | lufa/Bootloaders/CDC/BootloaderCDC.c:319-361 | an EEPROM block of any size at any address comes back |
| Avr109Proofs.EraseErases | lufa/Bootloaders/CDC/BootloaderCDC.c:506-514 | the erase command leaves every cell of the application section blank and the boot section as it was |
| Avr109Proofs.WordReadsBlock | lufa/Bootloaders/CDC/BootloaderCDC.c:584-594 | a word read answers the two bytes a block read answers there, high byte first |
| Avr109Proofs.EepromByteBack | lufa/Bootloaders/CDC/BootloaderCDC.c:597-615 | an EEPROM byte written at any address is read back there; both commands move on by one cell |
| Avr109Proofs.ByteFills | lufa/Bootloaders/CDC/BootloaderCDC.c:557-575 | a word filled by its high and low byte is in the page buffer, with nothing else changed, if and only if the high byte is 0; otherwise its high byte is lost |
| Avr109Proofs.PageWritten | lufa/Bootloaders/CDC/BootloaderCDC.c:576-583 | a page write into a blank page leaves the page buffer in it and the buffer blank |
| Avr109Proofs.RunsUntilExit | lufa/Bootloaders/CDC/BootloaderCDC.c:444-450 | the exit command and no other ends the loader |
| Avr109Proofs.OnlyTheseAct | lufa/Bootloaders/CDC/BootloaderCDC.c:432-621 | which commands move the address, which change the flash and which the EEPROM; no other does |
| Avr109Proofs.MemoryTypes | lufa/Bootloaders/CDC/BootloaderCDC.c:287-295 | block commands for anything but flash and EEPROM answer '?' and change nothing; a block read answers as many bytes as asked for |
| CdcLoader.Loader.Execute | lufa/Bootloaders/CDC/BootloaderCDC.c:432-621 | each command changes address and memories, and replies, as the machine does |
| CdcLoader.Loader.WriteFlashBytes | lufa/Bootloaders/CDC/BootloaderCDC.c:334-353 | the loop with its HighByte toggle refines the recursive description |
| CdcLoader.Loader.ReadFlashBytes | lufa/Bootloaders/CDC/BootloaderCDC.c:300-315 | the loop returns the bytes and the final address of the description |

## Left out

- Ring_Buffer.RingBuffer.Set: index size - 1 is excluded, because the loop does not end there.
- HostDecoder.SerialData.Turn: digit repeat counts, `s` and `p` codes and whitespace in a format make the modelled reader start over, where the source accepts them; the firmware sends none of them.
- DfuProofs.ProgramReadBack: for page-aligned ranges below the boot section (`DfuProofs.ProgramDownloadExactly` says why); starts without a pending exit; with one, the previous command runs again first, as `DfuMachine.DownloadCommand` says.
- DriveLaws.VelocityTick: for target velocities below 100 m/s, whose duty cycle fits the 16 bits of `int16_t`; beyond, it keeps the low bits, as `MotorPWM.MotorTimer` and `Bits.Int16` say. The same holds for `DriveLaws.DistanceTick`.
- DriveLaws.DirectDuties: in the turn that handles the command; `DriveLaws.DutiesStay` takes over from there.
- Link.EverythingArrives: counts the turns of the reader after the ring is empty; earlier ones may help but are not needed.
- DriveSafety.TimedPwmExactly: for limits the 32-bit millisecond clock can reach; a longer one never ends.
- DriveSafety.MoveEnds: a track commanded to stand still (distance 0) gives no bound; the move then ends by the other track.
- IEEE rounding, overflow and NaN: filter, distance, duty and voltage arithmetic is over `real`.
- Downloads whose range reaches into the boot section: only that they leave it alone is proved (`Flash.BootSectionKept`).
- What half counts mean for metres: the drive theorems are about counts, whatever the decoder made of the wheel.
- Microseconds of `SecondsSince`: the flags use only the millisecond part, and the subtraction has no borrow.
- Calculator, time, encoder, battery, system data and proximity reports: only the bytes they consume are modelled, not what they answer.
- Low-battery warnings, debug messages ("Turn", duty reports) and the `CNTRL_SYS` and `DEBUG` branches that are compiled out.
- The fixed-format mode of the host, and its conversion of entered text to numbers before a command is packed.
- `reset_input_buffer`, the serial port, its mutexes and the callback list of the host; the GUI, plotting, recording and gamepad modules.
- A host reader turn sees all the bytes that are waiting; several threads sharing the port are not modelled.
- Early returns when the USB device is unattached, endpoint banks and zero-length packets on the transmit side.
- The USB echo task, descriptors, line coding, enumeration and all other LUFA projects, including the HID and mass storage loaders.
- Register set-up, ADC, servo, LEDs, IR strobe, delays and interrupt masking.
- DFU filler bytes and file suffix, which are discarded, and stalls as such; a zero-length first packet is read as command 0.
- Jumps to the application, watchdog, fuse and lock bits, `AppStartPtr` and the magic boot key.
- Fixed replies of the AVR109 command set (identifiers, versions, signature, LED and mode commands), which change no modelled state.
- AVR109 commands arrive with all their parameters: waiting for more bytes of a command is not modelled.
- EEPROM and flash reads beyond the fitted memory: the EEPROM has the full 16-bit address space and flash reads blank above its end.
- HEX files with extended addresses, gaps, odd-length records or wrong data checksums: the parser is modelled on them, but of what they leave in flash only single steps are proved (`HexLoading.ExtendedAddressIsSwapped`, `WrongChecksum`, `BootSectionRefused`, `OtherTypesIgnored`).
- HEX addresses are 32 bits wide; devices with a 16-bit `flashaddr_t` differ only above 64K.
