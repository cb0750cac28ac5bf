# Verification of the distributed vehicle control

This project models the parts of the vehicle software that decide when the car steers,
drives and brakes, and proves what they keep over every run:

- **The HPSC steering link** from the operator's remote controller (or the bench sender) to
  the FRONT servo: CRC-32, wrapping sequence numbers, the three-stage frame parser, the
  watchdog, the rate limiter, the start-up resynchronisation and the handling of failed
  sends.
- **The REAR drive unit**: the lock-free double buffers between its cores, the decoding of
  the drive command, and the control loop (MANUAL, ACC, AEB) with its anti-windup, down to
  the motor pins.
- **The AEB decision of the HPVC**: fusion of ranges and persons, the held stop, and its
  inputs and outputs on the wire (MID2, AEB1, HPAB).
- **Filters and checks below it**: the median ring of the ultrasonic sensors, the one's
  complement checksum, the relative speed estimator, and the stopping envelope and the state
  machine of the AEB prototype.

## How to read it

Code that changes state step by step is a class whose methods are proved equal to a function
of the old state; the theorems are lemmas about these functions and their runs.

| file | models |
|---|---|
| `Words`, `Float32`, `Rounding` | machine words, exclusive or, byte layout; float32 patterns and their values; rounding to doubles and float32 |
| `Crc32`, `CrcPolynomial`, `BitVectors`, `InternetChecksum` | the two check codes and what they detect; which CRC it is |
| `Hpsc`, `PacketBuffer`, `RemoteController` | the senders: packet layouts, counters, publish, resynchronisation, shutdown |
| `FrontState`, `FrontSteeringNode` | the FRONT receiver as a function of its state, and as it runs |
| `FrontPackets`, `LargestFloat`, `FrontFrames`, `SerialNumber`, `FrontSafety`, `FrontSingle`, `FrontSharp` | what the receiver accepts, and keeps over every run; its centering in float32, and that the bound is sharp |
| `SteeringLink`, `FailedBurst`, `SteeringTurn` | sender and receiver together as a protocol, after a start-up that failed, and down to the servo |
| `DoubleBuffer`, `RearBuffers` | single memory accesses of two cores in any interleaving; the buffers as written |
| `Motor`, `RearDrive`, `RearReference`, `RearSafety`, `RearLink`, `RearCores` | pins, control loop, what it computes, its invariants, the link from the operator to the pins, and the two cores as one machine |
| `AebFusion`, `AebSafety`, `DefaultThresholds` | the decision, what it means over a run, and the shipped thresholds |
| `Mid2`, `PersonWire`, `BrakeCommand` | the perception packet, persons from MIDDLE to the decision, the brake request |
| `SampleRing`, `SensorPacket`, `SensorNode` | echoes to median, the AEB1 frame, and from echoes to the brake |
| `RelativeSpeed`, `AebEnvelope`, `AebStateMachine` | the ACC estimator, the stopping envelope, the prototype's state machine |

Conventions: `uint32` arithmetic is written out modulo 2^32; codecs carry floats as opaque
32-bit patterns with an IEEE 754 value function beside them. The AEB decision computes in
doubles, every operation rounded to nearest; the other control code computes with exact reals,
and the centering of the servo is proved both on reals and in float32. NaN and infinities are
explicit and take the branches they take in C and Python.
Clocks, sensor readings, socket failures and the contents of uninitialised memory are
parameters, so every theorem holds for all of them.

## Where the code and its documents differ

The model follows the code.

- `HPVC/Interfaces/HPVC_FRONT_STEERING_PROTOCOL.md` asks FRONT to center when a packet is
  invalid. The firmware ignores such a packet: `FrontPackets.CentersOnlyOnRequest` says
  exactly when a packet centers, and `FrontSafety.RefusedChangesOnlyCounter` that a refused
  one moves nothing but a counter. Centering then comes from the watchdog alone: within 500
  periods on exact reals (`FrontSafety.WatchdogCentersWithin500Periods`), within 501 and no fewer
  in the float32 arithmetic of the firmware (`FrontSingle.WatchdogCentersWithin501PeriodsInSingle`,
  `FrontSharp.FiveHundredPeriodsAreNotEnough`).
- The same document wants flag bits 3 to 7 to be zero; the firmware does not look at them
  (`FrontPackets.ReservedFlagsAreIgnored`), and acts on a packet that sets them all
  (`FrontPackets.ReservedFlagsAccepted`).
- The firmware's finiteness test also excludes the largest float32, and no other
  (`LargestFloat.OnlyLargestIsRefused`, `FrontPackets.LargestRateIsRefused`).
- The frame parser is a plain scan of the received bytes except that its second stage can
  read past them into the rest of the receive buffer: `FrontFrames.ParserAcceptsIff` is exact,
  `FrontFrames.OverrunAcceptsStalePacket` the witness.
- A publish whose later socket call fails is sent but not counted, so the next packet reuses
  its number and is ignored by FRONT, an emergency stop included
  (`SteeringLink.PublishAhead`); `SteeringLink.LinkObeysExactly` counts exactly which
  publishes are obeyed.
- A start-up burst that fails on the way leaves the sequence at the broken packet. Some receivers
  then ignore the publishes that follow: `FailedBurst.BrokenBurstLeaves` says exactly which,
  `FailedBurst.ExactlyLeadPlusOneLost` for exactly how long.
- A REAR datagram shorter than 29 bytes is decoded from stale stack contents
  (`RearLink.DecodedFromDatagramAlone`, both directions).
- `HPVC/Interfaces/TC375_FRONT_AEB_SENSOR_PROTOCOL.md` says bits 3 to 7 of the valid mask are
  zero; FRONT sends the steering status in bits 5 to 7 (`SensorNode.MaskBits`: they are zero
  exactly when there is no status to report).
- `HPVC/Interfaces/HPVC_MIDDLE_PROTOCOL.md` says the HPVC checks that the MIDDLE sequence is
  newer; the AEB controller does not: a packet with any number replaces the latest one and
  refreshes the link (`PersonWire.AnyNumberReplaces`).
- The receive loop of the AEB process means to print a refused datagram and go on. A packet that
  passes every check but carries an infinite person count raises `OverflowError` in `int`
  (`MIDDLE/protocol.py:202`), which `except ValueError` (`HPVC/hpvc_aeb.py:559`) does not catch,
  so that one datagram ends the loop: `PersonWire.LoopEndsExactly` says on the bytes which
  datagrams do, `PersonWire.InfiniteCountEndsLoop` is the witness.
- With a person in path the full-brake limit ahead is 18 cm * 1.25, which is 22.5 cm; in doubles
  the product is one unit less, so a range of exactly 22.5 cm only brakes partially
  (`DefaultThresholds.PersonLimitBelow225`).
- A sample taken while the 32-bit tick counter reads zero counts as stale
  (`SampleRing.FreshnessOnUnboundedClock`).

## Model

| member | source | states |
|---|---|---|
| `Crc32.Crc32Ieee` | FRONT/FrontSteeringNode.c:108-127 | The nested loop computes the CRC defined bit by bit on the register, for every length. |
| `Crc32.RunInjective` | FRONT/FrontSteeringNode.c:114-124 | For a fixed input byte the register update loses nothing: different registers stay different over any number of bit steps. |
| `Crc32.StateFeed` | FRONT/FrontSteeringNode.c:111-125 | Exclusive or of a whole byte followed by eight shifts is the same as feeding its eight bits one at a time. |
| `Crc32.PassesIsResidue` | FRONT/FrontSteeringNode.c:247-251 | A frame carries the right CRC exactly when the register, run over the whole frame, ends in 0xDEBB20E3. |
| `Crc32.CheckValue` | FRONT/FrontSteeringNode.c:108-127 | The CRC of the ASCII digits 1 to 9 is 0xCBF43926. |
| `CrcPolynomial.CrcIsRemainder` | FRONT/FrontSteeringNode.c:108-127 | For every message the CRC is the inverted remainder of a division of polynomials over GF(2) by the generator of section 8 of RFC 1952, with the first 32 coefficients of the dividend inverted and every byte read from its lowest bit on; no other sequence is. |
| `CrcPolynomial.RemainderIsUnique` | FRONT/FrontSteeringNode.c:116-119 | Whatever quotient and remainder multiply out to the dividend are those of long division. |
| `CrcPolynomial.DivisionWorks` | FRONT/FrontSteeringNode.c:116-119 | Long division finds such a quotient and remainder. |
| `Crc32.BurstDetected` | FRONT/FrontSteeringNode.c:247-251 | Every error burst of at most 32 bits is detected, in the message, in the appended CRC, or across the two. |
| `Crc32.FourByteDamageDetected` | FRONT/FrontSteeringNode.c:108-127 | Messages that differ only within four consecutive bytes have different CRCs, and only one of them can pass. |
| `Crc32.CrcAffine` | FRONT/FrontSteeringNode.c:108-127 | For equal lengths crc(a) ^ crc(b) ^ crc(c) = crc(a ^ b ^ c). |
| `Crc32.SealPasses` | FRONT/servo.py:111-111 | A body with its CRC appended passes the receiver's check. |
| `Hpsc.FieldsOfSealed` | FRONT/FrontSteeringNode.c:238-246 | The receiver's fixed offsets find again every field the sender packs. |
| `Hpsc.PackedFlags` | FRONT/servo.py:82-92 | Steering and upstream flags are set together, the center flag by itself. |
| `Hpsc.SteeringSender.SendPacket` | FRONT/servo.py:121-141 | One packet per call with the old counters, the angle only when armed; sequence and alive advance modulo their widths. |
| `FrontSteering.FrontSteeringNode.constructor` | FRONT/FrontSteeringNode.c:361-367 | The state after initialisation. |
| `FrontSteering.FrontSteeringNode.RejectPacket` | FRONT/FrontSteeringNode.c:204-207 | The reject counter wraps; nothing else moves. |
| `FrontSteering.FrontSteeringNode.AcceptNewTarget` | FRONT/FrontSteeringNode.c:209-222 | The whole new state after a packet is acted on. |
| `FrontSteering.FrontSteeringNode.AcceptHpscPacket` | FRONT/FrontSteeringNode.c:224-291 | State and verdict for any payload, in the order of the firmware's checks. |
| `FrontSteering.FrontSteeringNode.AcceptEthernetFrame` | FRONT/FrontSteeringNode.c:293-359 | State and verdict for any receive buffer and logical length: the places are tried in the firmware's order until one is accepted. |
| `FrontSteering.FrontSteeringNode.EthernetHeaders` | FRONT/FrontSteeringNode.c:300-318 | Where the Ethernet, IPv4 and UDP headers point to. |
| `FrontSteering.FrontSteeringNode.RawIpHeaders` | FRONT/FrontSteeringNode.c:326-338 | Where a frame that starts with the IPv4 header points to. |
| `FrontSteering.FrontSteeringNode.ScanForMagic` | FRONT/FrontSteeringNode.c:346-356 | The byte scan tries every offset that shows the magic, in order. |
| `FrontSteering.FrontSteeringNode.ApplyFailSafe` | FRONT/FrontSteeringNode.c:376-382 | What the watchdog sets. |
| `FrontSteering.FrontSteeringNode.RunOnceAt` | FRONT/FrontSteeringNode.c:371-405 | State after one servo period, and the pulse that goes out. |
| `FrontSteering.FrontSteeringNode.MoveTowardsTarget` | FRONT/FrontSteeringNode.c:392-403 | The applied angle after the limited step. |
| `FrontSteering.FrontSteeringNode.ServoPulse` | FRONT/FrontSteeringNode.c:141-174 | The pulse lies between the mechanical ends and is the whole microsecond nearest to the calibrated line through left, center and right. |
| `FrontSafety.ReachableIsSafe` | FRONT/FrontSteeringNode.c:209-222 | In every reachable state a command in force implies a live link and no emergency center, no command implies target 0, and all angles and rates are within limits. |
| `FrontSafety.PeriodMovesTowardsTarget` | FRONT/FrontSteeringNode.c:384-403 | One period in numbers: after more than 200 ms without a packet the command is taken away and the target is 0; the applied angle moves towards the target by the smaller of its distance and the rate times the milliseconds since the last period, 0.001f at least; nothing else changes. |
| `FrontSafety.PulseInRange` | FRONT/FrontSteeringNode.c:141-169 | The pulse lies in 1150 to 2000 us, is 1650 at zero and reaches both ends; the second clamp never acts. |
| `FrontSafety.PulseAntitone` | FRONT/FrontSteeringNode.c:141-156 | A larger angle never gives a longer pulse, across the different spans left and right of center. |
| `FrontState.PulseIsNearest` | FRONT/FrontSteeringNode.c:141-169 | The conversion rounds to the nearest microsecond of the calibrated line, and the sender's clamp never acts. |
| `FrontSafety.RefusedChangesOnlyCounter` | FRONT/FrontSteeringNode.c:224-291 | A packet that is not accepted moves at most the reject counter. |
| `FrontSafety.RefusedFrameChangesOnlyCounter` | FRONT/FrontSteeringNode.c:293-359 | The same for all attempts of a whole frame. |
| `FrontSafety.AcceptedCounts` | FRONT/FrontSteeringNode.c:221-221 | Over every run from boot the accept counter is the number of packets acted on, modulo 2^32. |
| `FrontSafety.LatchPersists` | FRONT/FrontSteeringNode.c:371-405 | The watchdog's fail-safe state survives any events until a packet is accepted, wrapped clock readings included. |
| `FrontSafety.WatchdogCentersWithin500Periods` | FRONT/FrontSteeringNode.c:371-405 | On exact reals: from the firing on, the applied angle never grows in magnitude and is exactly zero after 500 periods, the one in which the watchdog fires included, at any clock readings. |
| `FrontSingle.WatchdogCentersWithin501PeriodsInSingle` | FRONT/FrontSteeringNode.c:371-405 | The same in float32 arithmetic, with the float32 literals of the firmware, from every state it can reach: rounding costs at most one period. |
| `FrontSharp.LiteralsAreSingle` | FRONT/FrontSteeringNode.c:215 | The smallest rate and the smallest step are the float32 literals 0.05f and 0.001f. |
| `FrontSharp.FiveHundredPeriodsAreNotEnough` | FRONT/FrontSteeringNode.c:371-405 | A run from boot in which the wheel is not yet centered after 500 periods in float32: 501 is sharp. |
| `FrontPackets.AcceptIffAcceptable` | FRONT/FrontSteeringNode.c:224-291 | Which packets are acted on, on their 40 bytes; of the state only the sequence memory counts. What accepting sets. |
| `FrontPackets.HpscRoundTrip` | FRONT/servo.py:72-111 | From either language: which packed commands a receiver with an older memory accepts (if and only if), and the target, rate within 0.05f to 10, flags and counters it then holds. |
| `FrontPackets.LargestRateIsRefused` | FRONT/FrontSteeringNode.c:79-82 | A command with an allowed angle and a positive finite rate is refused exactly when the rate is the largest float32, pattern 0x7F7FFFFF. |
| `LargestFloat.OnlyLargestIsRefused` | FRONT/FrontSteeringNode.c:79-82 | Of all finite patterns without sign bit the finiteness test refuses exactly 0x7F7FFFFF. |
| `FrontPackets.ReservedFlagsAreIgnored` | FRONT/FrontSteeringNode.c:262-264 | Genuine packets that differ only in flag bits 3 to 7 have the same effect on every receiver. |
| `FrontPackets.ReservedFlagsAccepted` | HPVC/Interfaces/HPVC_FRONT_STEERING_PROTOCOL.md:38-38 | A packet with all reserved bits set is acted on. |
| `FrontPackets.StaleIsIgnored` | FRONT/FrontSteeringNode.c:257-260 | A duplicate or older packet changes nothing, not even a counter. |
| `FrontPackets.CentersOnlyOnRequest` | HPVC/Interfaces/HPVC_FRONT_STEERING_PROTOCOL.md:61-64 | Exactly when no command is in force after a packet: it is acceptable and asks for that, or it is not and none was before. An invalid packet does not center. |
| `FrontPackets.CorruptedPacketIsRejected` | FRONT/FrontSteeringNode.c:247-255 | A genuine packet hit by a burst of at most 32 bits is counted as rejected in every state and changes nothing else. |
| `FrontFrames.ParserAcceptsIff` | FRONT/FrontSteeringNode.c:293-359 | The parser accepts exactly when the received bytes hold an acceptable packet, or stage two overruns them and finds one behind. |
| `FrontFrames.ParserIsPlainScan` | FRONT/FrontSteeringNode.c:293-359 | Without an overrun the three stages accept exactly what a plain scan of the received bytes accepts. |
| `FrontFrames.FrameEffect` | FRONT/FrontSteeringNode.c:293-359 | The final state is that of acting on one packet of the buffer, up to the reject counter, or of refusals only. |
| `FrontFrames.HeaderPlaceWins` | FRONT/FrontSteeringNode.c:293-342 | An acceptable packet where the headers point to is the one acted on, whatever else the frame holds: behind an Ethernet header first, then behind a bare IPv4 header. |
| `FrontFrames.FirstOfScanWins` | FRONT/FrontSteeringNode.c:346-356 | Without such headers it is the first acceptable packet of the received bytes. |
| `FrontFrames.AcceptedFrameCountsOnce` | FRONT/FrontSteeringNode.c:221-221 | An accepted frame raises the accept counter by exactly one; an acceptable packet in the received bytes is never lost. |
| `FrontFrames.OverrunAcceptsStalePacket` | FRONT/FrontSteeringNode.c:326-342 | A frame without any packet in its 82 bytes that is accepted because of stale bytes behind them. |
| `SerialNumber.SequenceNewerIsRfc1982` | FRONT/FrontSteeringNode.c:102-106 | The comparison is the one of section 3.2 of RFC 1982. |
| `SerialNumber.NewerIffLater` | FRONT/FrontSteeringNode.c:102-106 | Within half the number space the truncated comparison is the true one. |
| `SerialNumber.WindowIsMaximal` | FRONT/FrontSteeringNode.c:102-106 | No larger window would do. |
| `SerialNumber.ReceiverRefinesUnboundedCounter` | FRONT/FrontSteeringNode.c:257-260 | Under any loss, duplication and reordering inside the window the receiver accepts exactly what one with an unbounded counter accepts. |
| `SerialNumber.AcceptedNumbersIncrease` | FRONT/FrontSteeringNode.c:257-260 | The accepted transmissions strictly increase, across any number of wraparounds. |
| `RemoteControl.HpvcRemoteController.constructor` | HPVC/remote_control_flask.py:113-113 | The counters and commands a controller starts with. |
| `RemoteControl.HpvcRemoteController.Command` | HPVC/remote_control_flask.py:177-200 | An emergency stop also stops and straightens, everything else sets what is given, the speed is clamped, and the new commands are published at once. |
| `RemoteControl.ClampedSpeedInRange` | HPVC/remote_control_flask.py:231-236 | For every input and every positive limit, an infinite one included: never negative nor above the limit, what is in range is kept, NaN becomes the limit; finite unless limit and input are not. |
| `RemoteControl.HpvcRemoteController.FillRear` | HPVC/remote_control_flask.py:280-297 | Filling the 32 bytes field by field gives the packed rear command. |
| `RemoteControl.HpvcRemoteController.SendFrontPacket` | HPVC/remote_control_flask.py:299-302 | Which copies are out when a socket call fails. |
| `RemoteControl.HpvcRemoteController.Publish` | HPVC/remote_control_flask.py:304-314 | What is sent, and that the counters move only if all of it is. |
| `RemoteControl.HpvcRemoteController.SendStop` | HPVC/remote_control_flask.py:333-337 | Shutdown: stop to REAR, center to FRONT, no counter moves. |
| `RemoteControl.HpvcRemoteController.SendBurst` | HPVC/remote_control_flask.py:349-356 | The four resynchronisation packets, in order and in their copies; after a failed socket call which datagrams are out, and that sequence and counters stay at the broken packet. |
| `RemoteControl.HpvcRemoteController.ResyncFrontSequence` | HPVC/remote_control_flask.py:339-368 | The whole start-up burst with the counters after success and after failure at any datagram; the operator's commands come back either way. |
| `SteeringLink.FrontCommandRoundTrip` | HPVC/remote_control_flask.py:247-278 | A newer packet of the controller is obeyed exactly when the turn is within limits, and an emergency stop always: left is the positive angle, right the negative one, at 2 rad/s, straight and emergency are 0. |
| `SteeringLink.ResyncCaptures` | HPVC/remote_control_flask.py:339-357 | Whatever a receiver remembers, the burst leaves it at the fourth number as soon as the last three packets arrive, each any number of times. |
| `SteeringLink.LossDefeatsResync` | HPVC/remote_control_flask.py:339-357 | Each of the last three is needed: a memory for which losing it fails. |
| `SteeringLink.LateFirstPacketUndoesResync` | HPVC/remote_control_flask.py:343-351 | In-order delivery is needed: a late first packet takes the receiver back. |
| `SteeringLink.StartUpSynchronises` | HPVC/remote_control_flask.py:339-368 | After the burst, received in full, any receiver is in step with the controller's next number. |
| `FailedBurst.BrokenBurstLeaves` | HPVC/remote_control_flask.py:349-368 | Exactly which receivers refuse the next publish after a burst broken off anywhere, by what they remembered before. |
| `FailedBurst.ExactlyLeadPlusOneLost` | HPVC/remote_control_flask.py:304-314 | A receiver ahead by some lead refuses every publish, whatever it carries and whichever socket calls fail, until that many and one more have got all their datagrams out; then it is in step, and not before. |
| `SteeringLink.PublishInSync` | HPVC/remote_control_flask.py:304-314 | A receiver in step obeys a publish exactly once although it may arrive twice; when only later socket calls fail it gets ahead. |
| `SteeringLink.ShutdownCenters` | HPVC/remote_control_flask.py:333-337 | The shutdown packet is accepted by a receiver in step and centers it. |
| `SteeringLink.PublishAhead` | HPVC/remote_control_flask.py:304-314 | A publish to a receiver that is ahead is lost, whatever it carries. |
| `SteeringLink.LinkObeysExactly` | HPVC/remote_control_flask.py:304-314 | Over every run of publishes and socket failures, with servo periods between, the number of packets acted on is what the socket results say. |
| `SteeringLink.HealthyLinkObeysAll` | HPVC/remote_control_flask.py:304-314 | Without failures every publish is obeyed exactly once, across wraparound, and the last one is in force. |
| `SteeringTurn.PeriodsTravel` | FRONT/FrontSteeringNode.c:384-403 | Over every run of periods with a quiet watchdog the distance to the target shrinks by exactly the sum of what the rate allows in each, down to zero; nothing else changes. |
| `SteeringTurn.HeldTurnTravels` | HPVC/remote_control_flask.py:238-245 | The same over a run of publishes that hold a turn, with periods in between. |
| `SteeringTurn.HeldTurnReachesServo` | FRONT/FrontSteeringNode.c:141-169 | From the operator to the servo: a turn held long enough ends on the commanded angle, left below 1650 us and right above it as soon as the pulse can resolve the angle, straight at 1650 us. |
| `SteeringTurn.PulseTurns` | FRONT/FrontSteeringNode.c:141-156 | Exactly from which angle on the pulse leaves the center, to either side. |
| `DoubleBuffer.ReadsAreAtomic` | REAR/Cpu0_Main.c:91-105 | In every interleaving of single accesses in which no store hits a field that a read in progress has yet to fetch, a completed read is the frame most recently published at its index load, and reads never go back. |
| `DoubleBuffer.PublishAlone` | REAR/Cpu0_Main.c:91-105 | An undisturbed publish replaces the spare slot, makes it live, and leaves the other slot alone. |
| `DoubleBuffer.ReadAlone` | REAR/Cpu1_Main.c:145-155 | An undisturbed read completes with the live frame and changes nothing. |
| `DoubleBuffer.DoubleOvertakeTears` | REAR/Cpu1_Main.c:145-155 | Two publishes in the middle of a read: the completed read is the head of the live frame with the tail of the second one, and so the live frame exactly if the tails agree. |
| `DoubleBuffer.SecondPublishOvertakes` | REAR/Cpu0_Main.c:91-105 | Two publishes in the middle of a read break the side condition exactly if a field is left to fetch. |
| `DoubleBuffer.BootRunTears` | REAR/Cpu1_Main.c:145-155 | For every position in the read a run from boot with two publishes in the middle of it: it breaks the side condition exactly while a field is left to fetch, and violates atomicity exactly if the tails differ. |
| `DoubleBuffer.SinglePublishIsHarmless` | REAR/Cpu1_Main.c:145-155 | One publish in the middle of a read is harmless: the read completes with the frame that was live. |
| `RearBuffers.DriveCmdBuffer.WriteDriveCmd` | REAR/Cpu0_Main.c:91-105 | The frame becomes the latest, the index flips, the old frame stays where it was; slots and index end as the step machine's publish ends from any matching memory. |
| `RearBuffers.DriveCmdBuffer.ReadDriveCmd` | REAR/Cpu1_Main.c:145-155 | An uninterrupted read returns the latest frame, as the load, fetches and finish of the step machine do. |
| `RearBuffers.UltraBuffer.constructor` | REAR/AebSensorNode.c:38-39 | Memory and index byte hold anything at power-up. |
| `RearBuffers.UltraBuffer.WriteUltra` | REAR/AebSensorNode.c:147-160 | The same for the ultrasonic frame, from any index byte, with its three fields. |
| `RearBuffers.UltraBuffer.ReadUltra` | REAR/Cpu0_Main.c:80-89 | An uninterrupted read returns the latest frame, from any index byte, as the step machine does. |
| `Motor.MotorDriver.constructor` | REAR/BSW/IO/Motor.c:12-26 | Initialisation clears the duties only. |
| `Motor.MotorDriver.MovChA` | REAR/BSW/IO/Motor.c:49-62 | Duty, direction and released brake of channel A. |
| `Motor.MotorDriver.MovChB` | REAR/BSW/IO/Motor.c:85-99 | The same for channel B. |
| `Motor.MotorDriver.CoastChA` | REAR/BSW/IO/Motor.c:103-106 | Duty zero, brake released, direction kept. |
| `Motor.MotorDriver.CoastChB` | REAR/BSW/IO/Motor.c:107-110 | The same for channel B. |
| `Motor.MotorDriver.BrakeChA` | REAR/BSW/IO/Motor.c:113-116 | Brake pin set at the given duty. |
| `Motor.MotorDriver.BrakeChB` | REAR/BSW/IO/Motor.c:117-120 | The same for channel B. |
| `RearDrive.ControlLoop.constructor` | REAR/Cpu1_Main.c:100-103 | The statics at boot. |
| `RearDrive.ControlLoop.RunTick` | REAR/Cpu1_Main.c:268-356 | State and telemetry after one tick, for every measured speed and command. |
| `RearDrive.ControlLoop.RunManual` | REAR/Cpu1_Main.c:293-327 | The open-loop branch. |
| `RearDrive.ControlLoop.RunAcc` | REAR/Cpu1_Main.c:329-355 | The ACC branch. |
| `RearDrive.ControlLoop.Integrate` | REAR/Cpu1_Main.c:341-352 | Saturated effort and the integrator with back-calculation and freeze. |
| `RearDrive.ControlLoop.ApplyOutput` | REAR/Cpu1_Main.c:222-255 | Pins and hysteresis after driving, coasting or braking. |
| `RearSafety.ReachableIsSafe` | REAR/Cpu1_Main.c:268-356 | In every reachable state a last mode other than ACC means reference and integrator zero, a zero reference means integrator zero, the reference is in 0 to 1.1, and the channels agree. |
| `RearSafety.AccReentersClean` | REAR/Cpu1_Main.c:330-332 | The reset on entering ACC never has anything to clear. |
| `RearSafety.ReferenceMovesSlowly` | REAR/Cpu1_Main.c:338-339 | The reference moves by at most 0.02 per tick, and drops to zero only on a stop or a change to MANUAL. |
| `RearReference.AccTickWrittenOut` | REAR/Cpu1_Main.c:329-356 | One ACC tick in numbers: the reference follows the acceleration (within 4 m/s2, NaN and infinities as 0) for 5 ms within 0 to 1.1 m/s, from 0 on entry; effort, integral and telemetry in the numbers of the car. |
| `RearReference.ReferenceRamps` | REAR/Cpu1_Main.c:334-339 | Over every run of ACC ticks at one acceleration a the reference is start + 0.005 n a within 0 to 1.1, whatever is measured. |
| `RearReference.EffortIncreases` | REAR/Cpu1_Main.c:343-347 | A larger acceleration, integral or reference and a lower measured speed never lower the effort, and raise it strictly up to saturation. |
| `RearReference.AccPinsWrittenOut` | REAR/Cpu1_Main.c:222-255 | What the effort does to pins and brake mode: forward at its duty, coasting while slow or weak, braking above 0.35 and down to 0.25. |
| `RearReference.OtherTicks` | REAR/Cpu1_Main.c:280-327 | What a stop and a MANUAL tick do to reference, integral, mode, pins and telemetry. |
| `RearReference.DutyMeans` | REAR/Cpu1_Main.c:224-229 | The duty of an effort in whole percent, 15 more from above one percent on. |
| `RearReference.ManualDutyMeans` | REAR/Cpu1_Main.c:211-216 | The duty of a commanded speed: 74.94 percent per m/s up to 1.1 m/s, and the 15 percent. |
| `RearSafety.TelemetryShowsState` | REAR/Cpu1_Main.c:347-355 | The reported effort is in -1 to 1 and the reported reference and integrator are those of the new state. |
| `RearSafety.ManualDutyMonotone` | REAR/Cpu1_Main.c:211-216 | The MANUAL duty is monotone in the commanded speed and at most 97 percent, dead-zone compensation included. |
| `RearSafety.AccBrakesWithHysteresis` | REAR/Cpu1_Main.c:222-255 | When ACC must and when it may brake, and that it never drives backwards. |
| `RearSafety.IntegratorNeverWindsUp` | REAR/Cpu1_Main.c:341-352 | Over every run with tracking errors of at most E the integrator stays in an explicit range, which does not depend on E up to 6.6 m/s. |
| `RearSafety.IntegratorBoundedAtPlausibleSpeeds` | REAR/Cpu1_Main.c:341-352 | Over every run with measured speeds of at most 5.5 m/s it stays in -1.958 to 1.1335. |
| `RearLink.CopyPartial` | REAR/udp_txrx.c:51-52 | The local buffer after the copy: the datagram over what the stack held. |
| `RearLink.ReceiveDatagram` | REAR/udp_txrx.c:38-64 | The decoded command is published to CPU1. |
| `RearLink.DecodedFromDatagramAlone` | REAR/udp_txrx.c:51-59 | The command is a function of the datagram exactly from 29 bytes on. |
| `RearLink.RearCommandRoundTrip` | HPVC/remote_control_flask.py:280-297 | Every packed rear command decodes to itself. |
| `RearLink.PackedRearBytes` | HPVC/remote_control_flask.py:280-297 | The packed rear command byte by byte. |
| `RearLink.EmergencyStopBrakesEveryTick` | REAR/Cpu1_Main.c:281-290 | From any state, after the operator's emergency stop every tick until the next datagram leaves both channels braked at full duty, reference and integrator zero. |
| `RearLink.StopDatagramBrakesEveryTick` | REAR/Cpu1_Main.c:281-290 | The same for every datagram with AEB mode or a stop byte. |
| `RearLink.EveryTickObeysOperator` | REAR/Cpu1_Main.c:281-327 | From any state, every tick between two commands shows the operator's command on the pins: braked, coasting, or driving that way at 74.94 percent per m/s and the 15 percent that get the motors moving. |
| `RearLink.PlayKeepsSafe` | REAR/Cpu1_Main.c:268-356 | The invariant survives every interleaving of datagrams and ticks. |
| `RearCores.TickRunsOnPublished` | REAR/Cpu1_Main.c:276-281 | With CPU0 and CPU1 as one machine of single accesses: a tick runs on the command most recently published when its read loaded the index. |
| `RearCores.StopTickBrakesInEveryInterleaving` | REAR/Cpu1_Main.c:276-290 | After any run from boot in any interleaving in which no store hits a field yet to be fetched, a tick whose index load followed the flip of a stop command brakes. |
| `RearCores.FlipMakesStopLive` | REAR/Cpu0_Main.c:103-104 | Every flip that ends the publish of a stop command makes it the live one, in the middle of a read or not. |
| `RearCores.StopStaysLive` | REAR/Cpu1_Main.c:276-290 | Every access of either core but a flip keeps it live, and a tick whose index load followed the flip brakes. |
| `RearCores.StopHoldsUntilNextFlip` | REAR/Cpu0_Main.c:91-105 | From boot and in any interleaving whatsoever, overtaken reads included: from the flip of a stop command to the next flip every tick of a read begun since brakes. |
| `AebFusion.HpvcAebController.constructor` | HPVC/hpvc_aeb.py:141-144 | Sequence and hold start at zero. |
| `AebFusion.HpvcAebController.FindPersonInPath` | HPVC/hpvc_aeb.py:282-298 | The loop finds a person exactly when one passes all tests with positive confidence, and returns the highest such confidence. |
| `AebFusion.BestConfidenceIsHighest` | HPVC/hpvc_aeb.py:282-298 | That confidence is one of a person that counts, and no such person is more confident. |
| `AebFusion.HpvcAebController.Candidates` | HPVC/hpvc_aeb.py:186-214 | The candidates of a frame: the valid range ahead, and the nearest valid side range. |
| `AebFusion.HpvcAebController.Pick` | HPVC/hpvc_aeb.py:223-233 | The loop picks the first candidate of the highest level, or none. |
| `AebFusion.BestIsFirstHighest` | HPVC/hpvc_aeb.py:223-233 | For every list of candidates: no level is above the one found, and it is that of the first candidate that has it. |
| `AebFusion.BestLevelIgnoresOrder` | HPVC/hpvc_aeb.py:223-233 | The level found is the same for every order of the candidates. |
| `AebFusion.HpvcAebController.RunDecide` | HPVC/hpvc_aeb.py:146-256 | State and decision of one call, confidence included, for any frames and clock, in double arithmetic. |
| `AebFusion.BestIsFrameThreat` | HPVC/hpvc_aeb.py:186-233 | The candidate loop computes the maximum level over all valid sensors, and its cause. |
| `AebSafety.BrakeFollowsState` | HPVC/hpvc_aeb.py:241-256 | Brake 100 exactly in FULL_BRAKE and STOP_HOLD, 65 exactly in PARTIAL_BRAKE. |
| `AebSafety.FreshnessIsAge` | HPVC/hpvc_aeb.py:156-158 | A frame is reported as fresh exactly when its age in doubles is within the limit of its source. |
| `AebSafety.StaleFrontNeverFullBrakes` | HPVC/hpvc_aeb.py:160-184 | With no front frame or one older than the limit: exactly which of fault, degraded, held stop and clear follows, braking only for the held stop, and the hold is untouched. |
| `AebSafety.InvalidSlotsDoNotMatter` | HPVC/hpvc_aeb.py:80-92 | Frames with the same valid readings give the same decision, whatever the other slots, the diagnostic byte and the sensor's counters hold. |
| `AebSafety.HoldSummarisesHistory` | HPVC/hpvc_aeb.py:241-247 | The one stored time answers, for every non-negative clock, whether some earlier full brake still holds. |
| `AebSafety.StopHoldIsExact` | HPVC/hpvc_aeb.py:241-247 | Over every run, for clocks that need not be monotone: a decision that is not a fault brakes fully if and only if it is a full brake or an earlier one still holds. |
| `AebSafety.FaultInterruptsHold` | HPVC/hpvc_aeb.py:160-184 | A fault releases a held stop and leaves the hold as it was. |
| `AebSafety.SequenceCounts` | HPVC/hpvc_aeb.py:155-155 | The sequence counts decisions modulo 2^32. |
| `AebSafety.FrameLevelIsNearestThreshold` | HPVC/hpvc_aeb.py:258-280 | The fused level reaches a level exactly when some valid sensor is within a threshold of it or a higher one. |
| `AebSafety.DecideMonotone` | HPVC/hpvc_aeb.py:186-247 | One call: a more threatening frame and a longer hold never lower brake or hold. |
| `AebSafety.WorseWorldNeverBrakesLess` | HPVC/hpvc_aeb.py:186-280 | Over whole runs: nearer ranges, more valid sensors or more persons, at any calls, never lower the brake at any call. |
| `AebSafety.StaleFrontBrakeDrops` | HPVC/hpvc_aeb.py:160-184 | While the front frame is stale, exactly when a change of the other input lowers the brake: a held stop is released by a person stepping in or MIDDLE going stale. |
| `AebSafety.ConfidenceMeans` | HPVC/hpvc_aeb.py:190-221 | What the confidence of a decision is for each reason, always in 0 to 1. |
| `AebSafety.ConfidenceOfPerson` | HPVC/hpvc_aeb.py:282-298 | A person is in path exactly when the confidence is positive, and then it is the highest of a person that counts. |
| `Mid2.FiniteClampInRange` | MIDDLE/protocol.py:241-245 | The clamp lands in 0 to 1 for every pattern, is idempotent, keeps what is strictly between, and gives the patterns of 0 and 1 otherwise. |
| `Mid2.SanitiseIdempotent` | MIDDLE/protocol.py:230-238 | Sanitising twice is sanitising once and keeps validity. |
| `Mid2.UnpackOfPack` | MIDDLE/protocol.py:163-227 | Unpacking a packed packet succeeds: header fields modulo their widths, lanes and ranges exactly, persons sanitised and padded to three. |
| `Mid2.PackedBytes` | MIDDLE/protocol.py:125-160 | A packed packet byte by byte. |
| `Mid2.AcceptedPackets` | MIDDLE/protocol.py:163-198 | Exactly which bytes are accepted as a packet of either version. |
| `Mid2.CountRead` | MIDDLE/protocol.py:202 | The person count read from any packet: whole persons, within 0 to 3, whatever float is sent. |
| `Mid2.PayloadRoundTrip` | MIDDLE/protocol.py:141-160 | The payload values survive if and only if the person count is not negative or nobody is detected. |
| `Mid2.PackOfUnpack` | MIDDLE/protocol.py:125-138 | And on exactly those packets packing after unpacking is the identity. |
| `Mid2.ReceivedPersonsInRange` | MIDDLE/protocol.py:150-153 | Whatever was packed, every float of a received person is in 0 to 1. |
| `Mid2.DamagedPacketIsRefused` | MIDDLE/protocol.py:170-174 | A packet of either version hit by a burst of at most 32 bits is refused as a CRC mismatch. |
| `Mid2.LegacyIsUpgraded` | MIDDLE/protocol.py:186-201 | A version 1 packet is read without persons, and packing it again keeps its floats and adds zeros. |
| `PersonWire.PersonInPathOverWire` | HPVC/hpvc_aeb.py:456-464 | A packed packet puts a person in the path if and only if it is fresh, flagged, and one of its first three persons is valid, confident and in the gate after sanitising. |
| `PersonWire.AnyNumberReplaces` | HPVC/hpvc_aeb.py:553-555 | A packet with any sequence number, older ones included, replaces the latest one and refreshes the link. |
| `PersonWire.LoopEndsExactly` | HPVC/hpvc_aeb.py:553-560 | On the bytes: a datagram ends the loop exactly if it is 156 bytes with the right CRC, magic, version 2, count 31, and an infinity at offset 76. |
| `PersonWire.InfiniteCountEndsLoop` | MIDDLE/protocol.py:199-202 | A sealed packet with any header fields, any other floats and an infinite person count ends the loop. |
| `PersonWire.RefusedKeepsLatest` | HPVC/hpvc_aeb.py:553-560 | A refused datagram keeps the latest frame if and only if it is not one of those that pass every check and carry an infinite person count; those end the loop. |
| `BrakeCommand.CommandRoundTrip` | HPVC/hpvc_aeb.py:341-390 | The brake request comes back as it was if and only if state and reason are known and the distance is absent or finite and not negative. |
| `BrakeCommand.RequestBytes` | HPVC/hpvc_aeb.py:341-365 | On the bytes: magic, version, state, brake, counters, one bit for each fresh input and for a person, the number of each reason, and -1 for no distance. |
| `BrakeCommand.AcceptedRequests` | HPVC/hpvc_aeb.py:368-390 | Exactly which bytes are accepted as a request. |
| `BrakeCommand.EveryDecisionTravels` | HPVC/hpvc_aeb.py:341-390 | Every decision the controller can take comes back from the wire as it was sent. |
| `BrakeCommand.DamagedRequestIsRefused` | HPVC/hpvc_aeb.py:368-375 | A request hit by a burst of at most 32 bits is refused. |
| `InternetChecksum.Checksum16` | FRONT/AebSensorNode.c:950-972 | Both loops terminate and compute the checksum; the 32-bit sum loses no carry. |
| `InternetChecksum.ExampleOfRfc1071` | FRONT/AebSensorNode.c:950-972 | The numeric example of section 3 of RFC 1071. |
| `InternetChecksum.FoldIsResidue` | FRONT/AebSensorNode.c:966-969 | Folding is reduction modulo 65535, with 65535 for zero unless the sum is zero. |
| `InternetChecksum.PassesIff` | FRONT/AebSensorNode.c:950-972 | Data verifies exactly when its sum is a multiple of 65535 other than zero. |
| `InternetChecksum.ChecksumVerifiesItself` | FRONT/AebSensorNode.c:1014-1014 | Written into its zeroed field of any header, at any even offset, the checksum makes the whole verify. |
| `InternetChecksum.WordChangeDetected` | FRONT/AebSensorNode.c:950-972 | A changed word goes undetected exactly between the two zeros of one's complement. |
| `InternetChecksum.SwappedWordsUndetected` | FRONT/AebSensorNode.c:950-972 | Exchanging two words never changes the checksum. |
| `SensorPacket.BuildPacket` | FRONT/AebSensorNode.c:994-1038 | Whatever the buffer held: the whole frame image, with the checksum taken while its field is zero, and the length. |
| `SensorPacket.ImageBytes` | FRONT/AebSensorNode.c:994-1038 | The frame on the wire byte by byte, headers and payload. |
| `SensorPacket.SentHeaderPasses` | FRONT/AebSensorNode.c:1002-1014 | The IPv4 header on the wire verifies. |
| `SensorPacket.SensorRoundTrip` | HPVC/hpvc_aeb.py:393-413 | The UDP payload decodes to the frame, in metres. |
| `SensorPacket.LegacyRoundTrip` | HPVC/hpvc_aeb.py:415-437 | Both older layouts give back ranges, mask, diagnostic and sequence number. |
| `SensorPacket.RefusedPayloads` | HPVC/hpvc_aeb.py:393-455 | Exactly which payloads are refused, and why. |
| `SensorPacket.FullBrakeInFirmwareUnits` | HPVC/hpvc_aeb.py:146-256 | For the shipped configuration in double arithmetic, exactly which mask and integer ranges of a frame not older than 0.5 s brake fully, and that an older one adds nothing to a held stop. |
| `SensorPacket.DecisionInFirmwareUnits` | HPVC/hpvc_aeb.py:146-280 | For the shipped configuration, state and brake of every decision without a held stop, by integer limits for full brake, partial brake and warning, with and without a person. |
| `DefaultThresholds.PersonLimitBelow225` | HPVC/hpvc_aeb.py:264-268 | 0.18 * 1.25 in doubles is below 225 / 1000.0 in doubles. |
| `DefaultThresholds.PartialLimit` | HPVC/hpvc_aeb.py:264-268 | 0.3 * 1.25 in doubles is 0.375 exactly: 37.5 cm is still within the partial brake with a person. |
| `DefaultThresholds.LimitInMillimetres` | HPVC/hpvc_aeb.py:467-468 | A limit of whole tenths of a centimetre separates packed ranges exactly there, after both are rounded. |
| `SampleRing.UltrasonicSensor.constructor` | FRONT/AebSensorNode.c:69-81 | An empty ring. |
| `SampleRing.UltrasonicSensor.Median3` | FRONT/AebSensorNode.c:195-238 | The swaps compute the median; two samples give their mean rounded down. |
| `SampleRing.UltrasonicSensor.Update` | FRONT/AebSensorNode.c:313-332 | After any history the ring holds exactly its last three valid samples and the filtered value is theirs; tick, diagnostic and freshness as computed. |
| `SampleRing.UltrasonicSensor.ReadCmX10` | FRONT/AebSensorNode.c:273-311 | Which echoes give a sample, and the diagnostic otherwise. |
| `SampleRing.DistanceIsRounded` | FRONT/AebSensorNode.c:299-307 | The distance is the nearest tenth of a centimetre, exactly the echoes of 114 to 29157 us pass the range test, and each failure has its code. |
| `SampleRing.MedianIsMiddle` | FRONT/AebSensorNode.c:212-237 | At least two of three are on each side, and the order does not matter. |
| `SampleRing.FilteredIsRobust` | FRONT/AebSensorNode.c:313-332 | After any sequence of valid and failed readings the filtered value is in range: the one sample, the mean of two rounded down, and then between any two of the last three. |
| `SampleRing.LastValidReading` | FRONT/AebSensorNode.c:313-332 | The last valid reading ends the history and sets the tick, whatever fails after it; the diagnostic is that of the last reading. |
| `SampleRing.FreshnessOnUnboundedClock` | FRONT/AebSensorNode.c:185-193 | Freshness in terms of a clock that does not wrap. |
| `SampleRing.FreshNeedsSample` | FRONT/AebSensorNode.c:185-193 | A sensor that never had a valid sample is never fresh. |
| `SensorNode.Node.Assemble` | FRONT/AebSensorNode.c:1162-1200 | The whole frame of one cycle: a valid slot carries its median, an invalid one its diagnostic. |
| `SensorNode.MaskBits` | FRONT/AebSensorNode.c:1162-1200 | What each slot carries, and every bit of the mask that is sent; bits 3 to 7 are zero exactly when the steering receiver has nothing to report. |
| `SensorNode.OnlyFreshMediansBrake` | FRONT/AebSensorNode.c:1154-1203 | From echoes and counter readings to the brake: a frame not older than 0.5 s brakes fully if and only if a sensor's last sample is fresh and the median of its last ones within the limit, or the valid range ahead is, or a stop is held; an older one never adds a full brake. |
| `RelativeSpeed.Estimator.Update` | HPVC/RPI1/acc_rel_speed.py:41-75 | State and estimate of one sample for every configuration, a division by zero included. |
| `RelativeSpeed.OutcomeMeans` | HPVC/RPI1/acc_rel_speed.py:41-75 | Exactly when the estimate is invalid, and then everything is forgotten; otherwise it is the speed kept, zero after a first sample or a dropout, held when a sample comes too early. |
| `RelativeSpeed.AsShipped` | HPVC/RPI1/acc_rel_speed.py:24-31 | The same in the numbers of the shipped configuration, which never divides by zero. |
| `RelativeSpeed.NoDivisionByZero` | HPVC/RPI1/acc_rel_speed.py:68-69 | Exactly which configurations never divide by zero, over all states, gaps and clocks. |
| `RelativeSpeed.SpeedIsBounded` | HPVC/RPI1/acc_rel_speed.py:70-72 | The estimate stays within the limit over every run. |
| `RelativeSpeed.ErrorDecays` | HPVC/RPI1/acc_rel_speed.py:68-75 | Along a gap of constant slope the error shrinks by exactly the product of the filter weights, whatever the spacing. |
| `AebEnvelope.LongitudinalMonotone` | HPVC/legacy/aeb_demo.py:2305-2335 | A nearer target that closes faster never gets a lower level. |
| `AebEnvelope.SlowClosingIsIrrelevant` | HPVC/legacy/aeb_demo.py:2177-2189 | Up to half the ego speed, the fallback included, the closing speed makes no difference: the envelope alone decides every level. |
| `AebEnvelope.TtcWithinEnvelope` | HPVC/legacy/aeb_demo.py:2306-2322 | When a time to collision below a threshold, at a closing speed up to a share of the ego speed, implies the envelope test of a given gain: for a full brake at every ego and closing speed. |
| `AebEnvelope.DecelWithinEnvelope` | HPVC/legacy/aeb_demo.py:2306-2322 | The same for a required deceleration. |
| `AebEnvelope.FullBrakeIsEnvelope` | HPVC/legacy/aeb_demo.py:2306-2316 | Up to a scaled 45 m/s a full brake is decided by distance and ego speed alone, at any closing speed. |
| `AebEnvelope.LevelMonotone` | HPVC/legacy/aeb_demo.py:2208-2335 | For a stable track in path the requested level is antitone in distance and monotone in the fastest closing speed that camera, ToF or ultrasonic sensors measure, across the jumps of the fallback. |
| `AebEnvelope.AssessWrittenOut` | HPVC/legacy/aeb_demo.py:2208-2335 | The level of a track in path by its limits in numbers, without a division. |
| `AebEnvelope.ClosingWrittenOut` | HPVC/legacy/aeb_demo.py:2177-2189 | The closing speed: the fastest measured, at most the ego speed, and at least half of it for a near track that nobody sees closing. |
| `AebEnvelope.BelowFullLeavesRoom` | HPVC/legacy/aeb_demo.py:2113-2130 | Any level below FULL leaves room for delay, braking at 7.85 m/s2 and margin; the required deceleration is below the available one. |
| `AebStateMachine.StateMachine.Update` | HPVC/legacy/aeb_demo.py:2688-2751 | State and brake of one cycle. |
| `AebStateMachine.HoldStateIsHistory` | HPVC/legacy/aeb_demo.py:2705-2719 | The machine holds a stop exactly when its history says so. |
| `AebStateMachine.FullBrakeIsHistory` | HPVC/legacy/aeb_demo.py:2688-2719 | Over every run: full brake if and only if requested, or a stop entered within a second is still held, and no override or fault. |
| `AebStateMachine.LowerRequestIsFollowed` | HPVC/legacy/aeb_demo.py:2688-2751 | Over every run: while no stop is held a lower request sets state and brake at once; an override or a fault gives no brake. |
| `AebStateMachine.ExpiredHoldReleases` | HPVC/legacy/aeb_demo.py:2715-2719 | A hold that runs out releases the brake for one cycle, even if a partial brake is requested. |
| `AebStateMachine.MonitoringNeedsFiveClearCycles` | HPVC/legacy/aeb_demo.py:2727-2745 | Over every run an active state is given up only after five clear cycles in a row. |
| `AebStateMachine.FiveClearCyclesSuffice` | HPVC/legacy/aeb_demo.py:2727-2745 | And five are enough: monitoring with the fifth and not before, with 30 percent left of a partial brake and 10 of a prefill until then. |

## Left out

- Sockets, Flask handlers, threads, sleeps, command lines and dashboards; GPIO, I2C and VL53L0X register scripts, Ethernet and PWM drivers: what they deliver enters as parameters.
- Float rounding outside the AEB decision and the centering of the servo: control code is on exact reals, and a Python float in a packed steering or drive field is taken to be representable in 32 bits. The duty and pulse conversions truncate and round as written, on the exact values. Rounding has an unbounded exponent range: overflow and subnormal numbers are not modelled.
- Wall-clock time on FRONT: the millisecond clock wraps with the tick counter, so rate and watchdog facts are about the differences the firmware computes.
- A null payload pointer is modelled as a payload of the wrong length; the firmware treats both alike.
- RemoteControl.HpvcRemoteController.Command: the text spellings of the commands are not modelled.
- RemoteControl.HpvcRemoteController.constructor: the start value of the sequence is a parameter; the original takes it from the clock.
- The speed and telemetry buffers of REAR, which follow the same pattern with one and five fields.
- AebFusion.HpvcAebController.RunDecide: the text of a decision is not modelled.
- AebEnvelope: crossing and cut-in branches and the collision probability, which do not apply to a track in path; the path test and the track age enter as fields.
- SampleRing: the raw reading kept for display, and the ToF sensor beyond its range, validity and diagnostic.
- The reference SPAD map of the ToF sensor, the loop that drains the receive ring (each frame is `AcceptEthernetFrame`, and `FrontSafety` covers every sequence of them), and the extra servo pulses that repeat the applied angle.
- `MIDDLE/RPI2` (a copy of MIDDLE with another magic), the runtime API of the HPVC, the diagnostic receiver, lane keeping and lane change control: they repeat what is modelled, or call libraries.
