# Verified model of the Remote MFi signing service

The service signs challenges with an MFi authentication chip behind a CH341 USB-to-I2C bridge and
offers the chip's certificate and its signatures to concurrent clients. This project models, in
Dafny, how a request travels from the clients down to the USB transfers, and proves what each layer
promises the one above it.

| module | what it holds |
|---|---|
| `Outcome` | error kinds and result types |
| `Wire` | CH341 commands, their bytes, and what they do on the I2C bus (START, byte sent, byte read with ACK or NACK, STOP, as in sections 3.1.4 to 3.1.10 of UM10204, and changes of the bus speed) |
| `Layout` | the bytes of the two forms, written down independently: units that are never split, packed into packets |
| `Encoder` | the stream compiler: the one-packet form and the segmenting builder |
| `Executor` | cutting a stream into packets, predicting each answer's lengths, reading and reassembling answers |
| `Delivery` | a bridge that answers packets correctly, however USB cuts the answers, and end-to-end delivery |
| `LostTail`, `HarmfulLoss` | what becomes of an answer whose end is lost, which requests notice, and which can return wrong data |
| `Acknowledgement` | which of the bytes sent the statuses tell about, for every pattern of acknowledgements |
| `Target` | the chip as a register file that listens to the bus and acknowledges bytes, the meaning of a whole transaction, and what happens with nobody at the address |
| `Timing` | the transfer timeout against the clocks of the bus |
| `Driver` | the chip driver over a transport that fails as an adversary likes |
| `Session` | the USB session's life: opening, invalidation and Close under two mutexes |
| `Transfer` | the transport's Transaction: encoding, session, execution and invalidation together |
| `Shared`, `Service` | the gate, the signature cache and the certificate pointer; the concurrent service as a transition system |
| `ServiceSafety` | what holds in every reachable state of the service |
| `Linearizability` | the service refines an atomic specification of idempotent signatures and a write-once certificate |
| `Signing` | the service's methods over its shared objects, each a run of the transition system |
| `Recent` | the ring buffer of recent requests |
| `UsbIds` | parsing and printing of the configured USB identities |

The layers meet in the middle. `Encoder.EncodeTransaction` yields a `Compiled` stream;
`Delivery.EndToEnd` and `Target.TransactionOnTheWire` say that executing any compiled stream returns
what `Target.Transact` reads from the chip; `Driver.ServedOnTheWire` makes that the driver's notion
of a served transaction; and `Driver` runs on transactions that are served or fail. `Wire.Decode` is
the meaning of packets, written down independently of both the encoder and the executor's own length
decoder; both are proved to agree with it.

Code that works by updating state is modelled that way: the builder, the USB link, the I2C bus and
driver, the transport's session, the cache, the gate, the service and the ring buffer are classes
whose methods are proved against functions of the old state. Interleavings of threads are runs of
transition systems whose steps are the sections the source makes atomic by a mutex, a channel or an
atomic pointer. `Service` and `Session` allow any number of threads and every order of steps.
`Signing` runs the service's own methods with other calls nested in their waits, at the gate and for
the chip, and shows that each execution is one of these runs.

What comes from outside is a parameter: USB transfers and their faults (`Executor.Link`), the bus
schedule with failures, drifting registers and elapsed time (`Driver.Schedule`), the digests,
Base64 and UUID syntax (`Service.Config`), the time of an entry in the recent list.

## What the proofs found

- A lost *tail* of an answer may go unnoticed. The executor takes missing bytes for leading status
  bytes. If the last k bytes of a packet's answer are lost instead, it succeeds if and only if k is
  at most the number of statuses and none of the statuses that keep their place reports a NACK; the
  returned window then lies k bytes too early (`LostTail.LostTailExactly`), and it may even hold a
  NACK status as data (`LostTail.LostTailExample`). For a whole request, every lost tail of every
  answer is reported if and only if it is a pure read of more than 32 bytes
  (`LostTail.LossesReported`). Where one is not reported, the returned data can be wrong if and only
  if some packet both reports statuses and returns data: for pure reads of at most 32 bytes, and for
  reads after a write whose last packet has room for the beginning of the read
  (`HarmfulLoss.LossesHarmless`, in numbers `HarmfulLoss.HarmInNumbers`).
- In what the encoder emits every byte sent has a status, in order, but for the read address in the
  segmented form (`Acknowledgement.EveryByteButOne`). With all statuses arriving, a NACK is reported
  exactly if one of the bytes with a status is not acknowledged (`Acknowledgement.NackExactly`). So
  with nobody at the requested address a request is reported if and only if it writes or reads at
  most 32 bytes, and a pure read of more than 32 bytes succeeds with ones (`Target.AbsenceReported`,
  for missing statuses `Target.NobodyThere`). It does happen: `Target.AbsenceHappens` gives the link,
  `Target.AbsenceExample` the run.
- The driver accepts certificates of up to 65525 bytes, but 128-byte windows behind register 0x31
  have register numbers of their own exactly up to 26496 bytes (`Driver.RegistersSuffice`). One byte
  more is read from register 0x00 (`Driver.CertificateWraps`).
- The parser's message asks for lowercase hexadecimal, but case is never looked at
  (`UsbIds.CaseIsIgnored`); its final check for an empty list cannot fail
  (`UsbIds.FailsOnlyOnAPart`).
- The guard in `invalidateSession` against closing another session never fires
  (`Session.GuardNeverFires`).

## Model

| member | source | states |
|---|---|---|
| Wire.DecodeEncode | internal/transport/ch341.go:365-402 | decoding the bytes of any valid commands gives the commands back, whatever payload bytes look like commands, and goes on with what follows |
| Wire.CompiledDataCount | internal/transport/ch341.go:260-306 | the packets of a compiled request yield exactly readLength data bytes, so the final length check is about the bridge only |
| Encoder.SegmentedStream.constructor | internal/transport/ch341_encoder.go:122-129 | a new builder is a well formed empty stream |
| Encoder.SegmentedStream.StartAndWrite | internal/transport/ch341_encoder.go:131-137 | performs START, the address and every data byte in order, never splitting START from the address; every byte reports a status when data follows, the address alone none; how full the packet is afterwards |
| Encoder.SegmentedStream.Write | internal/transport/ch341_encoder.go:139-148 | performs the address byte and the data bytes in order, each with a status unless there is no data |
| Encoder.SegmentedStream.Read | internal/transport/ch341_encoder.go:150-161 | performs n-1 acknowledged reads and one unacknowledged read over any number of packets, no packet with more than 32 data bytes or a status after data; shares a packet with statuses exactly if its first command fits into it |
| Encoder.SegmentedStream.Command | internal/transport/ch341_encoder.go:163-168 | appends one command with its bus events, to the packet being filled if it and the END fit, and otherwise to a new one |
| Encoder.SegmentedStream.FinishIntermediate | internal/transport/ch341_encoder.go:170-177 | adds one packet of 32 bytes and starts the next without changing what the stream performs |
| Encoder.SegmentedStream.Finish | internal/transport/ch341_encoder.go:179-186 | the 32-byte cuts of the stream are well formed packets that decode and perform everything appended and one STOP |
| Encoder.EncodeShort | internal/transport/ch341_encoder.go:81-112 | yields a stream exactly when the one-packet form fits; it has the bytes laid out in `Layout`, is one packet that compiles the request, and every byte sent has a status |
| Encoder.ShortFormInNumbers | internal/transport/ch341_encoder.go:81-112 | when the one-packet form fits, in the lengths of the data and the read |
| Encoder.EncodeSegmented | internal/transport/ch341_encoder.go:66-79 | compiles every request in the general form, with the bytes laid out in `Layout`; every byte written has a status and the read address has none; when a packet mixes statuses and data |
| Encoder.EncodeTransaction | internal/transport/ch341_encoder.go:53-79 | accepts exactly the legal requests, refuses the rest as invalid, and its stream performs exactly the requested bus transaction, with no change of the bus speed, in well formed packets of exactly the bytes laid out in `Layout`, with statuses for exactly the bytes `RequestMarks` names and a packet that mixes statuses and data exactly when `MixesPacket` says |
| Layout.LayoutExamples | internal/transport/ch341_encoder_test.go:10-18 | the bytes of a short write and read, and of a read that takes two packets |
| Acknowledgement.EveryByteButOne | internal/transport/ch341_encoder.go:53-79 | the stream sends exactly the request's bytes and each has a status, in order, but for the read address in the general form |
| Encoder.ShortRefinesGeneral | internal/transport/ch341_encoder.go:66-112 | wherever the one-packet form applies it performs the same bus events as the general form, with one more status when it reads |
| Encoder.AddressByte | internal/transport/ch341_encoder.go:114-120 | for 7-bit addresses the shift does not truncate and the low bit is the direction |
| Executor.BulkReadAtMost | internal/transport/ch341.go:327-363 | reads what `Collect` says for every USB schedule: stops at the limit, on silence after data or where none is needed, and reports other faults |
| Executor.Capacity | internal/transport/ch341.go:337-337 | the read buffer takes every chunk an endpoint of that packet size delivers, up to 32 bytes, and none larger |
| Executor.CollectEnds | internal/transport/ch341.go:339-362 | a wanted chunk that the endpoint delivers is taken; any fault but a timeout ends the read with its kind, a timeout or empty transfer only before anything has come that must come, and a larger chunk is a protocol error |
| Executor.InstructionLengths | internal/transport/ch341.go:365-394 | on every byte string counts the statuses and data of the decoded commands, and errs exactly where the bytes do not decode |
| Executor.LengthsExample | internal/transport/ch341_encoder_test.go:67-76 | a packet with two statuses, an address without one, and two data bytes |
| Executor.LengthField | internal/transport/ch341.go:396-402 | the length of a write or read command is its low six bits, and one if they are zero |
| Executor.CheckStatusBytes | internal/transport/ch341.go:404-415 | reports a NACK exactly when some status byte has bit 7 set |
| Executor.ExecutePacket | internal/transport/ch341.go:262-297 | one packet and its answer, as `RunPacket` defines it, over every USB schedule |
| Executor.Execute | internal/transport/ch341.go:246-308 | cutting every 32 bytes runs exactly the packets of the stream, and the result is what `Run` defines, whose meaning is `Delivery.EndToEnd` |
| Executor.ExecutionSends | internal/transport/ch341.go:246-266 | the OUT transfers are the packet that sets the configured speed and then the packets of the stream in order, all of them on success; a failed one ends the execution with its error |
| Executor.PacketsPartition | internal/transport/ch341.go:260-266 | the cuts put together are the stream, all but the last 32 bytes long |
| Delivery.StatusesThenData | internal/transport/ch341.go:270-297 | in a well formed packet the bridge answers all statuses before all data |
| Delivery.CollectChunks | internal/transport/ch341.go:327-363 | however the bytes are cut into transfers, they are collected in order |
| Delivery.PacketDelivered | internal/transport/ch341.go:262-297 | one packet's data are returned whatever leading statuses are missing, or a NACK if a received status says so |
| Delivery.StreamDelivered | internal/transport/ch341.go:260-306 | the data of all packets are joined in order, or a NACK is reported if and only if a received status has bit 7 set |
| Delivery.EndToEnd | internal/transport/ch341.go:246-308 | executing any compiled request returns exactly the readLength data bytes, or a NACK if and only if a received status has bit 7 set |
| LostTail.LostTailExactly | internal/transport/ch341.go:270-297 | exactly what comes of losing the last k bytes of a packet's answer, for every k and all statuses: a timeout, a missing device, a NACK, or success with a shifted window, and when it is which |
| LostTail.LostTailExample | internal/transport/ch341.go:270-297 | a one-byte read whose data byte is lost returns its status as data, be it an acknowledgement or a NACK |
| LostTail.PacketLossReported | internal/transport/ch341.go:270-297 | every lost tail of a packet's answer is reported if and only if the packet reports no status |
| LostTail.StreamLosses | internal/transport/ch341.go:246-308 | every lost tail of every answer of an execution is reported if and only if the stream reports no status |
| LostTail.LossesReported | internal/transport/ch341.go:246-308 | the condition on the request: no written data and more than 32 bytes to read |
| HarmfulLoss.StreamHarm | internal/transport/ch341.go:246-308 | every lost tail of every answer leads to an error or to the data the bridge sent if and only if no packet both reports statuses and returns data |
| HarmfulLoss.LossesHarmless | internal/transport/ch341.go:246-308 | the condition on the request: no read, or neither the one-packet form nor a write whose last packet the read shares |
| HarmfulLoss.HarmInNumbers | internal/transport/ch341_encoder.go:131-161 | that condition in the lengths of the data and the read alone |
| Acknowledgement.NackExactly | internal/transport/ch341.go:246-308 | for every pattern of acknowledgements, with all statuses arriving, a NACK is reported if and only if one of the bytes with a status is not acknowledged, and otherwise the data are returned |
| Delivery.LengthCheckNeverFails | internal/transport/ch341.go:300-306 | over every link, faithful or not, the final length check of a compiled request never fires |
| Target.DriveRequested | internal/chip/driver.go:211-275 | the requested bus events perform exactly one register transaction on the chip |
| Target.ServedData | internal/transport/ch341.go:260-306 | the data of the answers are what the chip puts on the bus over the whole stream |
| Target.RequestAcknowledged | internal/transport/ch341_encoder.go:53-79 | the chip at the address acknowledges every byte of a requested transaction |
| Target.RequestIgnored | internal/transport/ch341_encoder.go:53-79 | a chip at another address acknowledges nothing, drives nothing and keeps its state |
| Target.TransactionOnTheWire | internal/transport/ch341.go:246-308 | from register contents to USB transfers: with the chip at the address, executing a compiled request returns what the transaction reads from it and changes it as the transaction does |
| Target.NobodyThere | internal/transport/ch341.go:246-308 | with nobody at the address the execution reports a NACK if and only if a status arrives, and otherwise succeeds with ones |
| Target.AbsenceReported | internal/transport/ch341.go:246-308 | with all statuses arriving that is so if and only if the request writes or reads at most 32 bytes |
| Target.ServesTells | internal/transport/ch341.go:404-415 | the statuses of a bridge with a chip behind it tell that chip's acknowledgements of the bytes sent |
| Target.ServingAnswersServe | internal/transport/ch341.go:268-297 | for every stream and every chip there are answers of a bridge with that chip behind it |
| Target.PresenceHappens | internal/transport/ch341.go:246-308 | over the link with those answers every compiled request returns what the transaction reads from the chip |
| Target.AbsenceHappens | internal/transport/ch341.go:246-308 | over the link of a chip at another address every request ends as stated, so unnoticed absence is reachable |
| Target.AbsenceExample | internal/transport/ch341.go:59-77 | encoding and executing a read of 33 bytes from an address where nobody is succeeds with 33 ones |
| Transfer.Ch341.Transaction | internal/transport/ch341.go:59-77 | refused requests touch nothing, no session means no transfer, else the result is that of executing the encoder's stream; after a missing device, an I/O error or a protocol error the session and its three handles are closed, after anything else it is kept |
| Transfer.Outcomes | internal/transport/ch341.go:59-77 | over a bridge that loses nothing but leading statuses: the chip's data, or a NACK or ones with nobody there, and the session is kept |
| Timing.TimeoutCoversTheWire | internal/transport/ch341.go:417-426 | no 64-bit overflow, and at least a second more than the encoder's actual bus trace takes after the setting of the speed, whatever speed was set before; and no more than the time of eight further bytes, up to a nanosecond |
| Timing.CompiledKeepsSpeed | internal/transport/ch341_encoder.go:53-79 | no command of a compiled stream sets the bus speed |
| Timing.ConfigurationSetsSpeed | internal/transport/ch341_encoder.go:45-51 | the configuration packet sets the configured speed and does nothing else |
| Timing.SpeedCodes | internal/transport/ch341_encoder.go:30-43 | four speeds with codes from 0x60 to 0x63 that grow with the speed |
| Driver.Driver.SelectRegisterOnce | internal/chip/driver.go:241-254 | one transaction that on success leaves the pointer at the register |
| Driver.Driver.RetryIO | internal/chip/driver.go:277-292 | at most 102 attempts for every schedule; all failures but the last are the transport's own errors; a failure is that of the last transaction, and if it is worth retrying two seconds have passed |
| Driver.Driver.ReadRegister | internal/chip/driver.go:211-232 | a successful read returns the register's first bytes whatever failed before, as one read once failures are erased; bad lengths cause no transaction; a failure is that of the last transaction |
| Driver.Driver.WriteRegister | internal/chip/driver.go:256-275 | on success exactly one write of the data to the register once failures are erased; without data the register is selected; more than the transport takes never reaches the bus |
| Driver.Driver.ReadByte | internal/chip/driver.go:203-209 | the register's first byte |
| Driver.Driver.ReadUnsignedBigEndianShort | internal/chip/driver.go:187-193 | 256 times the register's first byte plus its second; a failure is that of the last transaction |
| Driver.Driver.WriteUnsignedBigEndianShort | internal/chip/driver.go:195-201 | writes numbers of 16 bits, most significant byte first, and refuses others without a transaction |
| Driver.Driver.BestEffortErrorCode | internal/chip/driver.go:175-185 | the error register's content, and no code exactly if the last transaction failed; nothing else is touched |
| Driver.Driver.AwaitSuccess | internal/chip/driver.go:142-159 | at most 302 polls, not before ten milliseconds, the last and only the last of which sees success; gives up only after three seconds more |
| Driver.Driver.StartAuthentication | internal/chip/driver.go:128-141 | length, challenge and start are written in this order; a failure is that of the last transaction |
| Driver.Driver.ReadResponse | internal/chip/driver.go:160-173 | the response register's content of the announced length; it fails only with the last transaction or on a length outside 1 to 65525 |
| Driver.Driver.SignChallenge | internal/chip/driver.go:120-173 | with failures erased a success is exactly write length, challenge, start, polls up to success, read length, read response; in every run the log divides at the successful poll, with no response register touched before it, failed attempts included, and nothing else after it; every transaction is one the encoder accepts; the number of transactions is bounded; it fails only with its last transaction, on a bad announced length, or after three seconds without success, with the error code if it can be read |
| Driver.SigningSpelledOut | internal/chip/driver.go:13-33 | that sequence in register numbers and values |
| Driver.ServedOnTheWire | internal/chip/driver.go:211-275 | what the driver calls a served transaction is the result of an execution over USB, with the same chip afterwards |
| Driver.Driver.ReadCertificate | internal/chip/driver.go:91-118 | reads the announced length and consecutive windows that partition the result; the result is the content of those registers; it fails only with its last transaction or on a bad announced length |
| Driver.CertificateSpelledOut | internal/chip/driver.go:91-118 | those reads in register numbers and slices |
| Driver.EraseConcat | internal/chip/driver.go:277-292 | erasing failures respects putting runs together |
| Driver.WindowByte | internal/chip/driver.go:107-116 | byte i of the reassembled bytes is byte i modulo 128 of the window's register |
| Driver.CertificateReassembled | internal/chip/driver.go:107-117 | the windows of a chip that holds a certificate are the certificate |
| Driver.CertificateIsRead | internal/chip/driver.go:91-118 | what a successful read returns from such a chip is the certificate |
| Driver.RegistersSuffice | internal/chip/driver.go:107-116 | the windows have registers of their own if and only if the length is at most 26496 |
| Driver.CertificateWraps | internal/chip/driver.go:107-116 | any longer certificate takes byte 26496 from register 0x00 |
| Session.Transport.OpenSession | internal/transport/ch341.go:167-202 | a failure on the way releases what was claimed |
| Session.Transport.EnsureSession | internal/transport/ch341.go:138-165 | the first identity that opens becomes the session; nothing else stays open; the last error is reported |
| Session.Transport.CurrentSession | internal/transport/ch341.go:129-136 | refuses a closed transport, else as above |
| Session.Transport.CloseTransport | internal/transport/ch341.go:109-127 | closes the session once and for all |
| Session.Transport.InvalidateSession | internal/transport/ch341.go:471-479 | closes exactly the session it is asked to close |
| Session.Transport.CloseHandles | internal/transport/ch341.go:481-489 | closes the session's three handles and no others |
| Session.FirstThatOpens | internal/transport/ch341.go:138-165 | the session is that of the first identity that opens, on the device opened for it, with just its handles added |
| Session.FailedOpenings | internal/transport/ch341.go:138-202 | if none opens, nothing more is open than before and the last error met is reported, or a missing device if all identities are absent |
| Session.AfterError | internal/transport/ch341.go:467-479 | a missing device, an I/O error or a protocol error closes the session, every other error keeps it |
| Session.Recovery | internal/transport/ch341.go:59-77 | after one of those errors the next call runs on a device never used before, after any other on the same session |
| Session.GivesUp | internal/transport/ch341.go:71-76 | in every reachable state a transaction goes on to invalidate its session exactly after those errors |
| Session.InvariantOverRuns | internal/transport/ch341.go:59-165 | mutual exclusion and session ownership hold after every interleaving |
| Session.SessionsAreSafe | internal/transport/ch341.go:59-165 | a session in use is the one open session, used by one transaction, with exactly its handles open and never closed before |
| Session.ClosedOnce | internal/transport/ch341.go:109-127 | no session is closed twice in any run |
| Session.OthersLeaveItOpen | internal/transport/ch341.go:59-127 | no step of another thread closes or replaces a session in use |
| Session.GuardNeverFires | internal/transport/ch341.go:471-479 | an invalidation always finds its session and closes just that one |
| Session.ClosedForGood | internal/transport/ch341.go:109-136 | after Close no run opens or closes anything |
| Session.NoDeadlock | internal/transport/ch341.go:59-136 | while a call is unfinished some started call can move |
| Shared.SignatureCache.Get | internal/biz/service.go:304-316 | finds exactly the entries still counting, and removing an expired one changes no later lookup |
| Shared.SignatureCache.Put | internal/biz/service.go:318-322 | replaces one entry |
| Shared.ChipGate.TrySend | internal/biz/service.go:251-256 | takes the token exactly when the channel is empty |
| Signing.SigningService.Runtime | internal/biz/service.go:210-217 | in every reachable state the name shown is that of the one client between taking and clearing it, who has the token, the time shown is not negative, and the number of entries is at least that of those still counting |
| ServiceSafety.GateStep | internal/biz/service.go:251-273 | every step keeps: the token is taken exactly while one client lies between grant and release, and the name in the gate is that client's |
| ServiceSafety.GateIsExclusive | internal/biz/service.go:239-282 | at most one client holds the gate, and a name in it means the token is taken |
| ServiceSafety.CertificateStep | internal/biz/service.go:91-134 | every step keeps: the pointer is stored at most once, whoever is about to store finds it empty, and all replies carry it |
| ServiceSafety.CertificateWriteOnce | internal/biz/service.go:91-134 | only a store changes the pointer, and only from empty; failures store nothing |
| ServiceSafety.CertificateForGood | internal/biz/service.go:91-134 | over every further run a stored certificate stays the same and the chip is not asked for it again |
| ServiceSafety.CacheStep | internal/biz/service.go:136-174 | every step keeps: entries and replies are backed by chip signatures, signatures for one id are spaced, and every young signature is in the cache or on its way there |
| ServiceSafety.MissMeansOld | internal/biz/service.go:155-157 | a second look that finds nothing proves all earlier signatures for the id older than an entry's lifetime |
| ServiceSafety.PutNeverOverwrites | internal/biz/service.go:163-168 | in no run does a put overwrite an entry, live or expired |
| ServiceSafety.ServiceIsSafe | internal/biz/service.go:91-188 | over every run: exclusive gate, write-once certificate and equal replies, every signature made by the chip for that id and digest, and two signatures for one id more than 60 seconds apart |
| Linearizability.StepRefines | internal/biz/service.go:91-188 | every step is nothing or one allowed call of the atomic specification, at the look, the put, the store or the decision |
| Linearizability.DecidedOnce | internal/biz/service.go:136-174 | a call takes effect in the step that decides its reply, after its arrival, and the reply never changes |
| Linearizability.CallsOnce | internal/biz/service.go:136-174 | over a run each decided call occurs exactly once, with its request and reply |
| Linearizability.Linearizable | docs/01-api-contract.md:45-49 | every interleaving of any number of calls is a run of the atomic specification, in which a live entry or a known certificate excludes chip calls, a fresh signature counts a lifetime from being made, and an id is signed again only more than a lifetime later; it ends in what the cache and the pointer hold |
| Linearizability.SpecIsIdempotent | docs/01-api-contract.md:45-49 | while an entry counts, its id is answered with that signature only, refused exactly for other digests, and the chip is never asked, so no hardware error occurs |
| Linearizability.SpecSpacesSignatures | docs/01-api-contract.md:45-49 | the specification never lets the chip begin a signature for an id within a lifetime of the end of an earlier one |
| Signing.SigningService.Acquire | internal/biz/service.go:251-273 | a grant takes the token and puts the name; a timeout or cancellation changes nothing but the caller's reply |
| Signing.SigningService.Release | internal/biz/service.go:261-267 | name cleared, token returned, in this order |
| Signing.SigningService.SignHolding | internal/biz/service.go:155-173 | behind the gate: an entry that counts answers the call; otherwise the reply is the chip's answer to it, which is then in the cache with the challenge's digest for 60 seconds, or its failure |
| Signing.SigningService.SignChallenge | internal/biz/service.go:136-174 | the method over cache and gate, whoever holds the gate and whatever calls run while it waits for the gate or the chip, is a run of the transition system that ends with its reply and leaves the gate as it was; an entry that counts answers it, else the gate is refused exactly on a cancellation, a timeout or a held gate, else the reply is the chip's answer, stored, or what a call in between stored |
| Signing.SigningService.Wait | internal/biz/service.go:251-273 | granted exactly if the wait ends so and the channel is empty |
| Signing.SigningService.GetCertificate | internal/biz/service.go:91-134 | likewise over the certificate pointer: a stored certificate is returned, else the refusal, else the certificate of the chip's answers, which is then stored |
| Signing.SigningService.CertificateHolding | internal/biz/service.go:103-134 | behind the gate a stored certificate is returned unchanged; otherwise the reply is made of the chip's two answers and stored, or is its failure and nothing is stored |
| Signing.SigningService.ProbeChip | internal/biz/service.go:180-188 | likewise for the probe, which has no second look: the refusal, or the chip's answer |
| Signing.SigningService.Serve | internal/biz/service.go:91-188 | every call runs from arrival to reply inside the transition system, leaves all other clients where they were and the gate as it was, and while another client holds the gate changes no certificate; every reply that needed the chip is the chip's answer to this call, an entry that counts answers it, and format and size errors occur exactly for such requests |
| Recent.RecentStore.constructor | internal/httpapi/recent.go:27-33 | an empty store of the given capacity |
| Recent.RecentStore.Add | internal/httpapi/recent.go:35-51 | writes one slot in place; the history grows by exactly that entry |
| Recent.RecentStore.ListNewestFirst | internal/httpapi/recent.go:53-69 | the last min(n, capacity) entries of the history, newest first |
| Recent.NewestAfterAdd | internal/httpapi/recent.go:35-69 | a further entry comes first in the listing and pushes out at most the oldest |
| UsbIds.ParseUsbIds | internal/config/config.go:129-157 | the loop with its set of seen identities computes `Parse` |
| UsbIds.SplitJoin | internal/config/config.go:130-130 | splitting undoes joining of parts without the separator |
| UsbIds.JoinSplit | internal/config/config.go:130-130 | joining undoes splitting |
| UsbIds.PrintForm | internal/config/config.go:29-31 | four lower-case digits, a colon, and four more |
| UsbIds.OneRoundTrip | internal/config/config.go:29-31 | parsing a printed identity gives it back |
| UsbIds.DedupMeaning | internal/config/config.go:147-151 | the parser keeps every identity once, in the order of first occurrence |
| UsbIds.FailsOnlyOnAPart | internal/config/config.go:153-155 | the parser fails exactly when a part does; its check for an empty list never fires |
| UsbIds.PrintParse | internal/config/config.go:29-31 | printing any nonempty list and parsing it gives the list without later duplicates |
| UsbIds.ParsePrintParse | internal/config/config.go:129-157 | every accepted text gives a nonempty list of distinct identities that printing and parsing preserves |
| UsbIds.CaseIsIgnored | internal/config/config.go:129-157 | any text parses as its upper-case form does |
| UsbIds.SpaceIsIgnored | internal/config/config.go:134-134 | white space at both ends of a part does not change its meaning |
| UsbIds.TrimDropsSpaceOnly | internal/config/config.go:134-134 | and nothing but white space is dropped |
| UsbIds.HexAccepted | internal/config/config.go:138-145 | a number is accepted if and only if it has digits, only hexadecimal ones, and fits into 16 bits; leading zeros do not matter |
| UsbIds.OneExactly | internal/config/config.go:134-146 | a part is accepted, with its meaning, if and only if it is two such numbers around a single colon, up to white space |

## Left out

- Driver.Driver.ReadCertificate: its result is tied to register contents only if the registers it names do not change meanwhile, because the chip could otherwise hold a different certificate in every window.
- Driver.Driver.RetryIO: the transport's own transfer timeouts are part of the schedule's elapsed times; that a transfer ends at all is assumed.
- UsbIds.ParseUsbIds: the three error messages are one failure; text is a sequence of Unicode characters, so invalid UTF-8 is not modelled.
- Signing.SigningService.Serve: the other calls nested in a wait run to completion, and a grant is not awaited while an outer call holds the gate; all finer interleavings are in the transition system of `Service`.
- Signing.SigningService.Acquire: that the timer fires after eight seconds is not modelled; a wait may end in a timeout or a cancellation at any time, which includes every real case.
- libusb: device enumeration, endpoint discovery, device strings and the classification of its errors; an opening attempt has one of the outcomes the source distinguishes.
- InspectUSB before it takes the session mutex, which uses the USB context outside the lock, and the closing of that context itself.
- HTTP routing, JSON, pages, authentication and the table of error texts and status codes.
- Flags and environment other than the list of USB identities; logging and shutdown.
- SHA-256, Base64, hexadecimal digests and UUID syntax: arbitrary functions, so the proofs speak of equal digests rather than equal challenges.
- The pause between a select and the read that follows it, and the detection of short OUT transfers, which is one failed transfer here.
- Wait and chip durations in replies, and the formatting of the time in the list of recent requests.
- The mutex of the ring buffer: each of its methods runs wholly under it.
- Cancellation inside the driver: the service hands it a context that cannot be cancelled.
- Aliasing of the byte slices in results; results are values.
- Reset, which does nothing, and ProtocolMajor, which is one ReadByte.
- Driver.Driver.SignChallenge: the transactions under the driver succeed as `Driver.ServedOnTheWire` says or fail; a success after a lost tail or with nobody at the address is outside its adversary and is the subject of `LostTail` and `Target`.
- What a chip does that acknowledges some bytes of a transaction to it and not others: `Target` acknowledges all or is not there; what the transport reports is proved for every pattern.
- The wrapping of the missing-device error in the service: all chip errors are one hardware error.
