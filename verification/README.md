# HDP: a verified model

HDP is a small reliable-datagram protocol over UDP: its own sequence window,
acknowledgements, handshake and 18-byte header, above an epoll dispatcher that
serves two directions of a descriptor with one one-shot kernel mask. This project
models those parts in Dafny and proves what they promise, for every input, run or
reachable state. Check it with `dafny verify dfyconfig.toml`.

## How it is built

Code that works in place is modelled in place, by classes with the original's
fields and loops. Each method is proved against a function on values, through a
ghost `model` field or a view, and the properties are proved of those functions
and of runs of them.

| area | values and their properties | in place |
|---|---|---|
| header, checksum | `Words`, `Header` | `Header` |
| number generator, ring | `RingSpec`, `RingInvariant`, `WrapAround`, `Residues` | `RingBuffer` |
| sender: ring, buffer, queue | `SendWindow`, `Starvation`, `SenderWrap`, `WrittenWindow`, `WrittenStarvation` | `HdpWrite` |
| two sides on a network | `Transport`, `AckSafety`, `AckExactly` | `HdpWrite` |
| handshake | `Handshake` | `HandshakeIo` |
| reading: header, payload, byte queue | `ReadSpec`, `FrameStream` | `ReadBuffer` |
| write queue | `WriteQueueSpec` | `WriteQueue` |
| epoll dispatcher | `PollerSpec`, `PollerSafety`, `PollerProgress` | `Poller` |
| event-buffer size | `ResizeControl` | `EventBuffer` |

Three places of the original depart from their evident intent. Each is a
parameter, so that one definition serves both versions and every lemma says which
it is about:

- `Drain`: acknowledging the last live item leaves the oldest pointer on the item
  just reset (`KeepOldest`, ringbuffer.go:170); the unused helper at
  ringbuffer.go:71 shows what was meant (`ClearOldest`).
- `DropRule`: a partial copy keeps its last copied byte (`KeepLast`, `[i:]` at
  buffer.go:366) instead of dropping it (`DropCopied`, `[i+1:]`).
- `DeadlineTest`: a new deadline compares the remembered error with a code that is
  never stored (`AgainstCode`, epoller/poller.go:460) instead of with the error
  that expiry stores (`AgainstDeadline`).

The checksum is an arbitrary function parameter throughout. The network of
`AckSafety` and `Handshake` is the set of datagrams ever sent to a side: delivery
takes any of them, any number of times, in any order or never. A socket call that
may fail is a parameter that says whether it does.

Two facts of the source shape the sender's model. The window size that a peer
announces reaches the reader's copy only, never the writer's, so the data phase
always opens with a window and a buffer of 16. And the frames kept in the map of
unacknowledged ones are empty: a request carries its payload under another key
than the one the map's writer reads.

## What the proofs found

- Before its numbers wrap the repaired sender is safe if and only if its buffer is no
  larger than its window (`SafeExactly`). As written it must also hold no more than
  two frames (`WrittenSafeExactly`): with three, the sizes 16 and 16 included, a drain
  with two frames queued lets a later number take a live item's slot.
- Repaired or as written, the ring alone survives the wrap if and only if its window
  is 1 or 2 (`WrapSafeExactly`), because 2^32 - 2 numbers do not fit the slots evenly
  and the modular test can step past full; and no sizes that the constructors produce
  save the whole sender (`NeverSafeForever`).
- As written, one sent and acknowledged frame strands the sender: at most 14 more
  are ever accepted (`FirstAckStarves`). The repaired sender stops too, exactly when
  its buffer is full of leaked entries, or its window is full and nobody waits for
  the oldest number (`StarvedExactly`); after one timed-out acknowledgement no frame
  more than a window beyond it is ever accepted (`OneTimeoutStarves`). When exactly
  the sender as written has stopped is settled too, before a drain
  (`WrittenStarvedExactly`) and after it (`StrandedStarvedExactly`).
- Payloads travel as bare datagrams, so one shaped like a header can be read as one.
  Repaired or as written, acknowledgement safety depends exactly on payloads that pass
  for acknowledgements (`AckSafeExactly`), and the safety of what is parsed exactly on
  those that pass for frames' headers (`GramSafeExactly`). An acknowledgement says
  that a header was parsed, not that its payload arrived (`ReleasedUnread`).
- Neither side acknowledges while it has a frame of its own buffered: two sides that
  both have put one wait for each other for ever, and only then (`CrossingExactly`);
  and one leaked entry silences a side (`LeakSilences`).
- The dialer takes any CONNECT_ACK, and its handshake can still be completed exactly
  when the number in it was the listener's (`CompletableExactly`). The
  listener stores the peer's number before checking that the message is for it.
  Agreement holds all the same (`Agreement`).
- A request whose EpollCtl call fails is answered twice, and nothing else is
  (`OnceExactly`). A second request of a direction displaces the first, which is
  then never answered (`EveryRequestAccounted`). An error event forgets waiters
  (`HandleExactly`, `ErrorForgets`). A cancelled waiter is told nil, as if it were
  ready, and only cancellations do that (`CancelExactly`, `CancelInvents`). As
  written an unclaimed timeout is never cleared (`WrittenNeverRecovers`), and a
  cancelled deadline may still answer the next request (`LateExpiryExactly`).
- A payload is refused for its checksum only by a frame large enough for it
  (`RefusedExactly`). When a payload is lost, the next datagram is given in its place
  (`LostPayloadTakesNext`). An empty payload, an empty datagram and a closing header
  read as end of file, though more may follow (`EofExactly`).
- A frame resent in part never leaves the resend list (`ResendRunExactly`).

## Model

| member | source | states |
|---|---|---|
| Header.VerifyChecksum1 | base.go:252-262 | Blanks the two checksum bytes of the caller's buffer, whether or not the test passes, and succeeds exactly when they held the checksum of the blanked header |
| Header.WriteHeader1 | transport1.go:391-404 | The buffer filled field by field is the encoded header: reference, both numbers, flag, size, frame checksum, sealed last |
| Header.SealIsChecked | base.go:252-262 | A header sealed with any checksum function passes the test, and blanking it gives back what was sealed |
| Header.EncodedBytes | transport1.go:391-404 | Where every field of an encoded header stands, at the offsets its readers slice |
| Header.RoundTrip | transport1.go:41-78 | Parsing an encoded header returns the same numbers, flag and frame checksum for any checksum function; the size survives if and only if it is below 65536; the closing flag reads as the peer's close |
| Header.ParseExactly | transport1.go:41-78 | For every datagram and every checksum function, which of the four outcomes parsing has, in bytes: wrong reference, wrong sum, closing, or a frame or acknowledgement whose numbers, flag, size and sum are the bytes at their offsets, low byte first |
| Header.EncodedInBytes | transport1.go:391-404 | Every byte of an encoded header, low byte first, and its sum |
| Header.TamperedExactly | base.go:252-262 | A sealed header changed on the way is refused if and only if the checksum tells the two apart |
| RingInvariant.InitInv | base.go:150-160 | A new ring satisfies the window invariant |
| RingInvariant.FullExactly | ringbuffer.go:26-34 | Under the invariant the test by modulus holds if and only if something is live and the next number is exactly a window ahead of the oldest |
| RingInvariant.NextKeeps | ringbuffer.go:115-121 | Handing out a number keeps the invariant before the wrap; the answer is "full" exactly when the window is, and otherwise the next number |
| RingInvariant.OldestIffLive | ringbuffer.go:130-132 | The oldest pointer is empty if and only if nothing is live |
| RingInvariant.IdleHasCapacity | ringbuffer.go:115-121 | Meant progress: with nothing live the next number is always handed out |
| RingInvariant.InstallSlotFree | ringbuffer.go:124-135 | The slot of the next number to install holds nothing live while at most a window is handed out |
| RingInvariant.InstallKeeps | ringbuffer.go:124-135 | Installing keeps the invariant, sets the oldest pointer only if it was empty, and makes the number's slot live |
| RingInvariant.ScanStopsFirst | ringbuffer.go:157-171 | The wrap-around loop stops at the first live slot it meets, or has seen none live |
| RingInvariant.ScanPlace | ringbuffer.go:47-49 | A number d after x, d below the window, is met at place d of the scan from x's slot and at no other |
| RingInvariant.ScanFindsMinimum | ringbuffer.go:157-171 | The circular scan from the oldest item's slot stops at the live item with the smallest number, and falls through if and only if nothing is live |
| RingInvariant.AckKeeps | ringbuffer.go:138-172 | Acknowledging any number whatever keeps the invariant of the repaired ring: the oldest pointer is again the smallest live number |
| RingInvariant.AckRemovesExactly | ringbuffer.go:138-151 | Acknowledging n makes n's slot dead and leaves every other live slot and its item as they were |
| RingInvariant.SameUntilDrain | ringbuffer.go:152-171 | The written and the repaired acknowledgement give the same result, and the same ring unless the ring drains |
| RingInvariant.AckOutcomeExactly | ringbuffer.go:138-172 | Which outcome an acknowledgement has: empty slot, item already acknowledged, another number, not the oldest, or drained; and that the first three change nothing |
| RingInvariant.OverflowExactly | ringbuffer.go:54-66 | The overflow error comes exactly at the last 32-bit number, which no run reaches |
| RingBuffer.RingBuffer.constructor | base.go:150-160 | A new ring object stands for the initial ring value: number 1, empty slots, no oldest item |
| RingBuffer.RingBuffer.WindowFull | ringbuffer.go:26-34 | In place, with a null oldest pointer never full |
| RingBuffer.RingBuffer.NextSeqNum | ringbuffer.go:115-121 | In place: the three outcomes and the generator's new state are those of the ring value; nothing else changes |
| RingBuffer.RingBuffer.SetNextItem | ringbuffer.go:124-135 | In place: a fresh item enters its slot, and becomes the oldest only if there was none |
| RingBuffer.RingBuffer.ScanFrom | ringbuffer.go:157-171 | The loop over the slots finds the slot the recursive scan finds |
| RingBuffer.RingBuffer.ResetSlot | ringbuffer.go:96-99 | Resetting an item shows through every pointer to it, the oldest pointer included |
| RingBuffer.RingBuffer.UpdateAckSeqNum | ringbuffer.go:138-172 | In place: all six outcomes and the whole new ring, as written or with the drain repair |
| SendWindow.QueueFits | transport1.go:251-274 | The queue of numbered frames is never longer than the buffer, nor the buffer than the window |
| SendWindow.PutExactly | transport1.go:251-274 | What becomes of every frame put: refused for the buffer first, then for the window, changing nothing, or queued last under the next number with an empty buffer entry |
| SendWindow.PutKeeps | transport1.go:251-274 | Numbering and buffering a frame keeps the combined invariant of ring, buffer and queue |
| SendWindow.WriteKeeps | transport1.go:342-365 | Writing the head of the queue keeps it, whether it is installed or its write fails and its buffer entry stays behind |
| SendWindow.FireKeeps | transport1.go:367-377 | Releasing an acknowledged frame keeps it |
| SendWindow.RunKeeps | transport1.go:251-274 | Every interleaving of those events and of timeouts before the wrap keeps it |
| SendWindow.InitKeeps | base.go:135-147 | A new sender satisfies the combined invariant when its buffer is no larger than its window |
| SendWindow.SpreadWithinWindow | ringbuffer.go:115-135 | In every such run, from the smallest live or queued number to the next one is at most a window, and every one of them is buffered |
| SendWindow.HeadSlotFree | transport1.go:364-365 | In every reachable state the write at the head of the queue installs over nothing live |
| SendWindow.BurstOverwrites | buffer.go:69-87 | With a buffer larger than the window there is a run before the wrap that installs over a live item |
| SendWindow.SafeExactly | base.go:73-81 | Repaired: no run before the wrap ever installs over a live item if and only if the buffer size is at most the window |
| WrittenWindow.DrainKept | ringbuffer.go:152-171 | As written, when at most two frames are buffered, everything out after a drain lies in the window that ends where the stranded generator stops |
| WrittenWindow.KeptStep | transport1.go:251-377 | It stays there over every event before the wrap |
| WrittenWindow.ThreeOverwrite | ringbuffer.go:115-171 | With room for three frames, at any window of three or more, a run of the code as written drains with two frames queued and comes to install over the first of them |
| WrittenWindow.WrittenSafeExactly | base.go:73-81 | As written: no run before the wrap ever installs over a live item if and only if the buffer size is at most the window and at most two |
| Starvation.WrittenIsRepairedUntilDrain | ringbuffer.go:152-171 | Until its first drain the code as written runs exactly as the repaired code |
| Starvation.DrainStrands | ringbuffer.go:170-171 | As written, acknowledging the last live item leaves the oldest pointer on the item just reset |
| Starvation.StrandedFull | ringbuffer.go:26-34 | From then on the window reads full if and only if the next number is a multiple of the window |
| Starvation.AllowanceStep | ringbuffer.go:54-66 | Each number handed out, across the wrap too, brings the stranded generator one nearer to the number at which it stops |
| Starvation.StrandedStarves | ringbuffer.go:152-171 | After a drain, over every continuation, the oldest pointer never changes and exactly as many frames are accepted as the allowance shrinks by; once that is 0, none ever again |
| Starvation.FirstAckStarves | transport1.go:342-377 | With the sizes the transport is opened with, one frame sent and acknowledged leaves at most 14 more ever accepted |
| Starvation.BurstEither | buffer.go:69-87 | With a buffer larger than the window either version installs over a live item before anything is acknowledged |
| Starvation.LeakExactly | transport1.go:354-377 | In either version, a buffered entry is leaked after an event before the wrap if and only if it was before, its write failed, or the wait for its acknowledgement timed out |
| Starvation.LeakStays | transport1.go:354-377 | A leaked entry is never released, over every run of either version before the wrap |
| Starvation.TimeoutAbandons | transport1.go:369-370 | A timeout leaves its number live with nobody waiting for it |
| Starvation.AbandonedBounds | ringbuffer.go:26-34 | Such a number stays live over every run before the wrap, and the next number never gets more than a window ahead of it |
| Starvation.OneTimeoutStarves | transport1.go:369-370 | One timed-out acknowledgement of number n is enough: over every continuation before the wrap the repaired sender accepts no frame beyond number n + window |
| Starvation.FireFrees | transport1.go:371-375 | An acknowledgement makes room for a frame if the window was not full or if it is the oldest number's |
| Starvation.StarvedExactly | transport1.go:251-264 | Repaired: the sender refuses every later frame, whatever happens before the wrap, if and only if its buffer is full of leaked entries or its window is full and nobody waits for the oldest number |
| Starvation.StrandedStarvedExactly | ringbuffer.go:26-34 | As written, after a drain: it refuses every later frame if and only if the next number is a multiple of the window or the buffer is full of leaked entries |
| WrittenStarvation.DrainsExactly | ringbuffer.go:152-171 | An acknowledgement that is waited for drains the ring if and only if nothing else is live |
| WrittenStarvation.WayOn | transport1.go:251-377 | As written, a sender that has not stopped is at most three events from accepting a frame |
| WrittenStarvation.WrittenStarvedExactly | transport1.go:251-264 | As written, before any drain: it refuses every later frame if and only if the repaired sender would, or it refuses frames now at a multiple of the window with one number alone out |
| WrapAround.NthNumber | ringbuffer.go:54-66 | The number after k calls is 1 + k mod (2^32 - 2), so the overflow error is out of reach and consecutive numbers take consecutive slots before the wrap |
| WrapAround.TwoSend | ringbuffer.go:115-135 | A ring of two, stranded or not, keeps its invariant over a send, at the wrap included, and overwrites nothing |
| WrapAround.TwoAck | ringbuffer.go:138-172 | A ring of two keeps it over any acknowledgement, in either version |
| WrapAround.OneStep | ringbuffer.go:115-172 | A ring of one keeps its invariant over every operation and overwrites nothing |
| WrapAround.AheadKeeps | ringbuffer.go:115-172 | With the next number sent before the last is acknowledged the ring never drains, so both versions come to the next number alone |
| WrapAround.OneLiveAt | ringbuffer.go:115-172 | Every number before the wrap is reached by a run of either version that leaves it alone live |
| WrapAround.PastWrapOverwrites | ringbuffer.go:26-34 | One number past full, across the wrap, the modular test no longer reads full, and one of the next two sends overwrites a live item |
| WrapAround.WrapOverwrites | ringbuffer.go:47-66 | For every window of three or more there is a run, in either version, that overwrites a live item at the wrap |
| WrapAround.WrapSafeExactly | ringbuffer.go:115-172 | In either version, no run of any length ever overwrites a live item if and only if the window is 1 or 2 |
| SenderWrap.RoundKeepsIdle | transport1.go:251-377 | Repaired: sending one frame and having it acknowledged brings the idle sender to the next number, idle again |
| SenderWrap.AheadRound | transport1.go:251-377 | In either version, sending the next frame before the last is acknowledged brings the sender to the next number alone |
| SenderWrap.NeverSafeForever | base.go:73-81 | In either version, for every window and every buffer size the constructors can produce, some run of the whole sender installs over a live item, before the wrap or at it |
| Transport.EncodedReads | transport1.go:64-77 | An encoded header reads as an acknowledgement of n, or as frame n, exactly when it was written as one for this reader |
| Transport.SentExactly | transport1.go:318-404 | What each action puts on the wire: header and payload as far as the socket takes them, an acknowledgement only with nothing of its own buffered, the closing header always, and otherwise nothing |
| Transport.ReceiveExactly | transport1.go:64-77 | What a delivered datagram changes, in bytes: acknowledgements and frames' headers pass their number on, and everything else changes nothing |
| Transport.ActExactly | transport1.go:277-382 | What each action does beside the sender: channels, headed, signalled and released numbers |
| AckSafety.OutReads | transport1.go:238-248 | Payloads aside, what a side writes reads at the peer as an acknowledgement only of a number whose frame header it has handled while nothing of its own was buffered, and as a frame only under a number it has written |
| AckSafety.AckOwnActs | transport1.go:342-377 | The sending side's steps keep its acknowledgements backed by what the peer has parsed |
| AckSafety.AckPeerActs | transport1.go:238-248 | So do the acknowledging side's, whatever frames it sends as long as none passes for an acknowledgement |
| AckSafety.AckOwnReceives | transport1.go:277-286 | So does any datagram delivered to the sender |
| AckSafety.GramOwnActs | transport1.go:342-362 | A writing side's steps keep everything readable as a frame's header under a number it has written |
| AckSafety.GramPeerReceives | transport1.go:64-77 | So does any datagram delivered to the reader |
| AckSafety.SwapRun | transport1.go:41-78 | The two sides are symmetric: swapping them in a run swaps them in its result |
| AckSafety.PoppedWasParsed | transport1.go:367-377 | Over every run on the losing, duplicating, reordering network, a side releases number n only if the peer has parsed a valid frame header with n, as long as no payload sent to that side passes for an acknowledgement; as written and repaired alike |
| AckSafety.ParsedWasHeaded | transport1.go:64-77 | A side parses number n only if the peer has written n into a header, as long as no payload sent to that side passes for a frame's header |
| AckExactly.DriveTo | transport1.go:251-377 | For every number before the wrap a fair run of either version leaves that frame out and waited for, with nothing of it parsed and nothing sent by the peer |
| AckExactly.ForgedAckPops | transport1.go:359 | In either version, a payload that passes for an acknowledgement of any number n makes its reader release frame n although the peer has not parsed it |
| AckExactly.AckSafeExactly | transport1.go:359-377 | Between two sides that agree on their numbers, either version releases only what was parsed, over every fair run, if and only if no allowed payload passes at its reader for an acknowledgement of a number some frame can have |
| AckExactly.ForgedGramParses | transport1.go:359 | In either version, a payload that passes for the header of frame n is parsed as n although n was never written into a header |
| AckExactly.GramSafeExactly | transport1.go:64-77 | In either version, each side parses only numbers the other wrote, over every fair run, if and only if no allowed payload passes for a frame's header |
| AckExactly.CrossedNeverPops | transport1.go:238-248 | Once both sides have a frame buffered and no acknowledgement is on its way, no fair run ever releases anything again |
| AckExactly.CrossingFramesStarve | transport1.go:238-248 | So two sides whose first frames cross wait for each other for ever |
| AckExactly.CrossingExactly | transport1.go:238-274 | Whatever frames the two sides of an opened session have put, some fair continuation releases one if and only if not both sides have one buffered |
| AckExactly.ReleasedUnread | transport1.go:64-77 | A frame is acknowledged when its header is parsed: it can be released though nothing but its header was ever delivered |
| AckExactly.LeakSilences | transport1.go:238-248 | One leaked entry keeps a side from acknowledging anything, over every run before the wrap of its numbers, in either version |
| HdpWrite.HdpWrite2.constructor | base.go:135-147 | A new writer stands for the opened endpoint, with at least 16 buffer entries |
| HdpWrite.HdpWrite2.PutFrame | transport1.go:251-274 | In place: the endpoint's Put step and its outcome |
| HdpWrite.HdpWrite2.WriteFrame | transport1.go:342-382 | In place: the endpoint's Write step, the datagrams sent for each point at which the socket may refuse, and that exactly a frame written whole asks the reader to parse one more datagram |
| HdpWrite.HdpWrite2.Install | transport1.go:363-366 | Takes the ring slot and opens the acknowledgement channel of the number, and changes nothing else |
| HdpWrite.HdpWrite2.AcknowSeqnum | transport1.go:238-248 | Acknowledges at once if nothing of its own is buffered, and otherwise sends nothing |
| HdpWrite.HdpWrite2.ResetAckSeqnum | transport1.go:277-286 | Signals the number's channel if there is one |
| HdpWrite.HdpWrite2.OnAcknowledged | transport1.go:371-376 | Releases the ring slot and the buffer entry, as the endpoint's Fire step does |
| HdpWrite.HdpWrite2.OnTimeout | transport1.go:369-370 | The goroutine ends; slot and entry stay |
| HdpWrite.HdpWrite2.SendClosing | transport1.go:318-320 | Sends the closing header |
| Handshake.GetRefNum | base.go:97-103 | Never below 1000; below-1000 remainders are moved up by exactly 1000 |
| Handshake.MessageReads | transport.go:385-435 | A handshake message reads back: both references, flag, window size, valid checksum |
| Handshake.MessagesInBytes | transport.go:348-473 | Every byte of the four messages, references, flags and windows included |
| Handshake.AnswerInBytes | transport.go:413-433 | The listener's answer in order: message, address length low byte first, address |
| Handshake.VerdictsExactly | transport.go:61-256 | Which check refuses a message, for each of the four readers: the sum first, then the reference where there is one, then the flag |
| Handshake.ReadsExactly | transport.go:45-266 | What each read step makes of a delivered message, in bytes: it passes with the step's flag, a valid sum and, on the last two, its own number, and fails otherwise; and what the pair becomes |
| Handshake.StepsAreEarned | transport.go:45-266 | In every run a side is through a reading step only if a message with that step's flag, a valid sum and, on the last two, its own number was sent towards it |
| Handshake.AcceptsOnlyDialer | transport.go:71-76 | Without strays that pass for one, the listener is through its first step only after the dialer has sent its request |
| Handshake.FirstMessageExactly | transport.go:71-76 | The listener ever sends its answer if and only if the first message it reads is a connect request with a valid sum |
| Handshake.OtherFirstSendsNothing | listener.go:54-63 | Any other message delivered first ends the accept for good with nothing sent |
| Handshake.ReadKeeps | transport.go:97-136 | Reading any delivered message keeps the handshake invariant |
| Handshake.AnswerKeeps | transport.go:385-435 | The listener's answer of three datagrams, header, address length and address, or any part of it that gets out, keeps it |
| Handshake.StepKeeps | transport.go:348-456 | Every send, read, stray and socket failure keeps it |
| Handshake.Agreement | transport.go:229-266 | Over any losing, duplicating, reordering network with strays that carry neither number, with socket calls failing anywhere, a dialer past its last check, or a listener past its own, means that the two pairs mirror each other |
| Handshake.PairIsFixed | transport.go:348-382 | A dialer past its second step never changes its pair again |
| Handshake.CompletableExactly | transport.go:176-266 | In any reachable session in which both sides have completed two steps, the handshake can still be completed if and only if the number the dialer took from its CONNECT_ACK is the listener's |
| Handshake.StrayAckMisleads | transport.go:176-212 | The dialer takes any CONNECT_ACK, a stray one's number included, and then never finishes |
| Handshake.HeadersPass | transport1.go:49-57 | After agreement each side's data headers pass the peer's checks and strays fail both |
| Handshake.ZeroRefTakesStrays | transport.go:246-252 | An own number of 0 would accept any stray's open message, so the bound of getRefNum is needed |
| Handshake.LeavesCleanNetwork | dialer.go:24-57 | What a completed handshake leaves on the network, the address included, reads as neither an acknowledgement nor a frame, and the two sides are paired: the data phase starts where acknowledgement safety assumes |
| Handshake.Completes | dialer.go:24-57 | On a network that behaves both sides do finish |
| HandshakeIo.Compose | transport.go:385-435 | The header buffer filled in place is the message |
| HandshakeIo.Reader.OnAccept | transport.go:45-78 | Opens the accepting socket, then checks the connect request, and reports which of these failed |
| HandshakeIo.Reader.OnConnectAcknow | transport.go:176-226 | Takes the peer's number and window from any valid acknowledgement, without a reference check, and keeps them even if the address that follows cannot be read |
| HandshakeIo.Reader.OnAcceptAcknow | transport.go:97-136 | Stores the peer's number before the reference and flag checks, and the window after them |
| HandshakeIo.Reader.OnOpenAcknow | transport.go:229-266 | The checks in the code's order, changing no number |
| HandshakeIo.Writer.ConnectHdp | transport.go:456-473 | Sends the connect request |
| HandshakeIo.Writer.AcknowConnect | transport.go:385-435 | Sends the own number and window, the address length and the address, as many of the three as the socket takes |
| HandshakeIo.Writer.AcknowAccept | transport.go:348-382 | Sends the peer's number first and the own number second |
| HandshakeIo.Writer.AcknowOpen | transport.go:438-453 | Sends the peer's number |
| HandshakeIo.Dial | dialer.go:24-57 | The four steps in order, stopping at the first error, a failing socket call included: numbers, datagrams and result |
| HandshakeIo.AcceptOne | listener.go:54-78 | The listener's four steps likewise |
| HandshakeIo.DialIsTheDialer | dialer.go:24-57 | Dial run on delivered headers, whichever of its socket calls fail, is the dialer of the session machine: same numbers, same datagrams, connected exactly when it is through step four |
| HandshakeIo.AcceptIsTheListener | listener.go:54-78 | The same for the listener |
| HandshakeIo.DialExactly | dialer.go:24-57 | When Dial returns a connection, what it has sent and which numbers it ends with, in terms of the two messages' bytes and of the socket calls that succeed |
| HandshakeIo.AcceptExactly | listener.go:54-78 | The same of the listener: it sends nothing unless the first message is a connect request with a valid sum |
| PollerSafety.RearmTidy | epoller/poller.go:496-520 | A request answers only itself and is stored only if unanswered |
| PollerSafety.HandleTidy | epoller/poller.go:311-369 | A handled event answers stored waiters only, each once, and what stays stored is unanswered |
| PollerSafety.CancelTidy | epoller/poller.go:227-241 | The same of a cancellation |
| PollerSafety.TimeoutTidy | epoller/poller.go:171-188 | The same of an expired deadline |
| PollerSafety.InvExactly | epoller/poller.go:496-520 | A step keeps the race-state invariant if and only if it is not a request that EpollCtl fails after the request was stored; a failing rearm of a handled event does no harm |
| PollerSafety.SingleAnswer | epoller/poller.go:113-188 | In every run in which EpollCtl succeeds for requests, a stored waiter excludes a stored error and a token, and no request channel gets two results |
| PollerSafety.FailedAnswersTwice | epoller/poller.go:511-519 | From any state, a request that EpollCtl fails is answered at once, stays stored, and is answered again when a deadline of its direction expires |
| PollerSafety.OnceExactly | epoller/poller.go:496-520 | After a step each request is answered at most once in every continuation with EpollCtl succeeding for requests, if and only if the step was no such failure |
| PollerSafety.EveryRequestAccounted | epoller/poller.go:372-520 | In every such run each request is answered, still stored, or displaced by a later request of its direction, never two of these, and a displaced one is never answered |
| PollerProgress.HandleExactly | epoller/poller.go:311-369 | Handling an event keeps every waiter covered, if and only if it is not an error event that was the last thing covering one |
| PollerProgress.NoneForgotten | epoller/poller.go:496-533 | In every run without error events and with EpollCtl succeeding, a waiter of either direction means a non-empty mask or an unhandled event, though each rearm overwrites the mask |
| PollerProgress.ErrorForgets | epoller/poller.go:320-322 | A three-step run in which an error event leaves a waiter with neither |
| PollerProgress.FirstWithAppend | epoller/poller.go:323-368 | A newly delivered event never postpones the first event that carries a direction's bit |
| PollerProgress.DeliverKeepsBound | epoller/poller.go:523-533 | A delivery never raises the number of events still needed |
| PollerProgress.HandleAnswersOrAdvances | epoller/poller.go:323-368 | A handled event answers the waiter or lowers that number |
| PollerProgress.WokenWithin | epoller/poller.go:323-368 | A waiter is answered as ready once that many more events are handled |
| PollerProgress.AnyWaiterWoken | epoller/poller.go:323-368 | With k events in flight, k + 2 handled events always suffice |
| PollerProgress.NeverStuck | epoller/poller.go:523-533 | While a waiter is covered there is an event to handle or one the kernel may deliver |
| PollerProgress.HandlePays | epoller/poller.go:323-356 | A handled event pays for at most one answer or token per direction whose bit it carries |
| PollerProgress.RequestPays | epoller/poller.go:506-510 | An answer from the token uses the token up |
| PollerProgress.OthersPayNothing | epoller/poller.go:536-544 | Timeouts, deadlines, cancels and resets use up no readiness and leave no token |
| PollerProgress.ReadinessConserved | epoller/poller.go:161-168 | Over every run, failing EpollCtl and error events included, answers given from the token, answers given by readiness and the stored token never exceed the handled events with that bit |
| PollerProgress.ConservedFromStart | epoller/poller.go:650-661 | In particular from a newly watched descriptor |
| PollerProgress.CancelExactly | epoller/poller.go:227-241 | An event sends a waiter a nil that no readiness paid for if and only if it is a cancellation that meets a stored waiter with no remembered error, and then exactly one |
| PollerProgress.ToldReadyBounded | epoller/poller.go:146-168 | Over every run, the requests that were told nil, whatever the cause, and the token never exceed the handled events with that bit plus the waiters cancelled |
| PollerProgress.CancelInvents | epoller/poller.go:227-241 | A waiter can be told nil, which is all it sees of readiness, with no event ever handled |
| PollerProgress.KeptExactly | epoller/poller.go:323-356 | With nobody waiting and nothing remembered, handling an event leaves the next request an answer at once if and only if it had one already or the event carries the direction's bit and no error |
| PollerProgress.SpentExactly | epoller/poller.go:502-510 | An event spends that answer if and only if it is a request, a reset or an expired deadline of the direction |
| PollerProgress.ReadinessKept | epoller/poller.go:328-330 | Readiness that meets no waiter is kept over every continuation that does not spend it, and answers the next request at once |
| PollerProgress.FirstEventKept | epoller/poller.go:650-661 | An event that comes before any request on a newly watched descriptor is kept for the first one |
| PollerProgress.TimeoutSpendsToken | epoller/poller.go:502-505 | A request told a remembered error drops the token too |
| PollerProgress.WaiterTaken | epoller/poller.go:161-168 | An event for a waiter tells it nil and leaves its race with no waiter, token, error or racer, from any state |
| PollerProgress.MaskExactly | epoller/poller.go:496-533 | What the shared mask is after every event, EpollCtl failing or not |
| PollerProgress.RacersExactly | epoller/poller.go:104-128 | Which deadline racers are out after every event, and the racer number |
| PollerProgress.RacersFromStart | epoller/poller.go:205-211 | Over every run the racer number counts the direction's deadlines, modulo 65536 |
| PollerProgress.CallersTold | epoller/poller.go:372-412 | What the callers of a cancellation, a deadline, a reset and a failing request are told themselves |
| PollerProgress.ExpiryExactly | epoller/poller.go:171-188 | An expired deadline is told to the waiter and forgotten if there is one, and remembered exactly if there is none |
| PollerProgress.RememberStep | epoller/poller.go:453-473 | A step forgets it if and only if it is a new deadline under the repaired test; every request meanwhile is answered with it |
| PollerProgress.RememberedUntil | epoller/poller.go:453-473 | So repaired it lasts until the direction's next deadline, and as written for ever |
| PollerProgress.UnclaimedTimeoutAnswers | epoller/poller.go:171-188 | A deadline that expires with nobody waiting answers every later request of its direction with a timeout: repaired until a new deadline, as written for ever |
| PollerProgress.WrittenNeverRecovers | epoller/poller.go:460 | As written, after any continuation, every later request on the direction still gets the timeout |
| PollerProgress.LateExpiryExactly | epoller/poller.go:171-188 | From any state with no remembered error, a deadline cancelled with its waiter that expires all the same answers the next request with a timeout if and only if no token answered that first |
| Poller.IoRace.CancelDeadlines | epoller/poller.go:113-128 | In place: stops every outstanding racer, whatever the order, and answers the waiter |
| Poller.IoRace.DoIoReady | epoller/poller.go:161-168 | In place: clears error and token, then answers |
| Poller.IoRace.DoIoTimeout | epoller/poller.go:171-188 | In place: answers the waiter, or stores the error if there is none |
| Poller.IoRace.NewDoneCh | epoller/poller.go:205-211 | In place: the 16-bit racer number goes up by one and wraps |
| Poller.IoRace.RaceDeadline | epoller/poller.go:453-473 | In place: clears a matching error and adds a racer |
| Poller.Epoller.Watch | epoller/poller.go:650-661 | Two fresh idle races replace whatever the descriptor had; the mask changes only if EpollCtl takes it; other descriptors untouched |
| Poller.Epoller.Rearm | epoller/poller.go:496-520 | In place: error first, then token, else stored and the mask overwritten; an unwatched descriptor is refused |
| Poller.Epoller.Rearm1 | epoller/poller.go:523-533 | The shared mask becomes this direction's alone if EpollCtl succeeds |
| Poller.Epoller.HandleIoReady | epoller/poller.go:311-369 | In place: both halves, the read half's rearm suppressing the write half's; only this descriptor changes |
| Poller.Epoller.HandleTimeout | epoller/poller.go:415-434 | In place: only the timed-out direction changes; unwatched descriptors are ignored |
| Poller.Epoller.CancelIo | epoller/poller.go:227-241 | In place: a remembered error goes to the canceller, otherwise the waiter is told nil |
| Poller.Epoller.RaceDeadline | epoller/poller.go:453-473 | In place: the deadline request is answered with whatever error remains |
| Poller.Epoller.ResetIoReady | epoller/poller.go:536-544 | In place: the token alone is dropped |
| ReadSpec.ReadGives | buffer.go:281-294 | A read of k gives the first k queued bytes, with io.EOF exactly when there are fewer; what it leaves is the rest, or as written the rest from the last byte given on, whenever the read ends inside a chunk |
| ReadSpec.StreamInOrder | buffer.go:281-294 | As meant, any sequence of reads gives the queued bytes in order, once |
| ReadSpec.OneByteReadsStick | buffer.go:350-368 | As written, one-byte reads of a longer chunk give its first byte for ever |
| ReadSpec.FillWhole | buffer.go:297-314 | A payload that waits as one datagram is read whole and nothing after it is touched |
| ReadSpec.SplitRoundTrip | transport1.go:166-186 | As meant, the peeked prefix and the later reads concatenate to the payload, all of it once the sizes reach its end |
| ReadSpec.TwoReadsOverlap | buffer.go:366 | As written, the read after one that stopped inside a chunk starts with the byte already given |
| ReadSpec.WrittenRepeatsByte | transport1.go:166-186 | As written, the third piece of a split payload repeats the last byte of the second |
| ReadBuffer.BufferR.Add | buffer.go:245-248 | Appends the chunk |
| ReadBuffer.BufferR.Len | buffer.go:260-266 | The number of queued bytes |
| ReadBuffer.BufferR.WriteTo | buffer.go:350-368 | In place: copies from the first chunk into the frame from an offset on, touching no other byte, and drops or cuts the chunk |
| ReadBuffer.BufferR.Read | buffer.go:281-294 | In place: the loop ends, fills the frame from the queue and leaves the queue the specification leaves |
| ReadBuffer.FrameReader.FillFrame | buffer.go:297-314 | Reads datagram after datagram until the size is reached or a read fails |
| ReadBuffer.FrameReader.ReadFrom | buffer.go:317-333 | Queues the bytes beyond the prefix, and only then looks at the checksum |
| ReadBuffer.FrameReader.Read3 | transport1.go:166-186 | In place: straight read with its checksum over the user's frame, or peek and queue with the remainder's error dropped |
| ReadBuffer.FrameReader.ParseHeader | transport1.go:41-78 | In place: one datagram is taken whatever the outcome, and read as the header value is parsed |
| ReadBuffer.FrameReader.ReadFrame | transport1.go:123-163 | In place: queued bytes first, else a header and its payload; every reply, and the bytes in the user's frame |
| FrameStream.HeaderLeads | transport1.go:151-163 | The header a writer sends leads its reader to the payload with its true size and checksum |
| FrameStream.FetchWaiting | transport1.go:166-186 | A waiting payload is read whole and accepted, or its prefix is given and exactly the remainder queued |
| FrameStream.OneRead | transport1.go:123-148 | A read into any non-empty frame takes something, in order and without refusing a payload, while anything is left, and changes nothing when nothing is |
| FrameStream.EofExactly | transport1.go:123-148 | A read reports end of file if and only if nothing is queued and nothing is left, or next comes an empty payload, an empty datagram or the closing header |
| FrameStream.ReplyExactly | transport1.go:123-163 | With nothing queued, which reply the next datagram's bytes decide: wrong peer, wrong sum, acknowledgement seen, end of file, nothing, or data; and that all but data take that datagram alone |
| FrameStream.AcksAndClosings | transport1.go:144-147 | An acknowledgement sent to this reader is answered as one, and a closing notice as end of file |
| FrameStream.FillExactly | buffer.go:297-314 | Filling a buffer takes whole datagrams until the size is reached and cuts the last; an empty one or a dry socket fails it with what was taken lost |
| FrameStream.SplitExactly | transport1.go:178-186 | With a frame smaller than the payload, the front of the next datagram is given and the remainder queued if enough follow; if not, it is lost without a word |
| FrameStream.NothingBehind | transport1.go:166-186 | A header with a dry socket behind it, or with an empty datagram, which the peek leaves where it is |
| FrameStream.FramesInOrder | transport1.go:123-186 | Over any number of frames sent, any datagrams between them that are no frame's header, and any sequence of positive read sizes, the reads give the payloads' bytes in order, each once, and enough reads give every byte and leave nothing |
| FrameStream.NothingInvented | transport1.go:123-186 | On any socket whatever, with frames lost, parted, reordered or damaged, and with reads that the writer asks for in between, any sequence of user reads gives bytes of the queue and the socket in their order and none of them twice |
| FrameStream.RefusedExactly | transport1.go:166-186 | A payload is refused for its checksum if and only if the user's frame is large enough for it and the checksum differs; either way its bytes are given and queued whole |
| FrameStream.LostPayloadTakesNext | transport1.go:166-186 | A header whose payload is lost gives the user the next datagram in its place, whatever it is; unreported if and only if it is not empty and the user's frame is smaller than the payload was or happens to have its checksum |
| FrameStream.EmptyPayloadReadsAsEof | transport1.go:166-177 | An empty payload is reported as end of file with more to come |
| FrameStream.DrySocket | transport1.go:125-135 | With the socket dry, reads give what the queue alone gives |
| FrameStream.SplitReadIsRead | transport1.go:123-186 | The reads of one sent frame, begun with too small a frame, are the split read of its payload, in either version |
| WriteQueueSpec.AddConserves | buffer.go:100-111 | Accepting a frame appends exactly the bytes accepted to the queued stream |
| WriteQueueSpec.WriteConserves | buffer.go:194-209 | A whole or partial write moves exactly its bytes from the front of the queued stream to the written one |
| WriteQueueSpec.RewriteConserves | buffer.go:212-234 | A resend moves nothing |
| WriteQueueSpec.StreamConserved | buffer.go:100-209 | In every proper run, bytes accepted are bytes written followed by what is queued in order, and the counter is the queued total, between 0 and the limit |
| WriteQueueSpec.InitConserved | base.go:60-70 | It holds of a new queue |
| WriteQueueSpec.AcceptsExactly | buffer.go:100-111 | A frame is cut exactly when it would pass the limit, and the queue is then full; its entry, place and count are otherwise those of the bytes accepted |
| WriteQueueSpec.FirstAcceptsExactly | base.go:60-70 | A new queue accepts its first frame up to its limit, and never less than 16 bytes of it |
| WriteQueueSpec.RestExactly | buffer.go:212-234 | While a resend is partial, what is left of it is the frame without the bytes resent so far |
| WriteQueueSpec.PoppedStalls | buffer.go:171-175 | Dropping the entry that is next to be written stops the queue |
| WriteQueueSpec.CounterExactly | buffer.go:194-209 | The counter stays the queued total if and only if the result reported is no longer than the head frame |
| WriteQueueSpec.HeadLeavesExactly | buffer.go:194-209 | The head leaves the order of writing if and only if the result covers what was left of it; otherwise exactly the bytes written are cut from its front |
| WriteQueueSpec.PartialResendSticks | buffer.go:212-234 | After one partial resend no sequence of results ever takes the number off the list |
| WriteQueueSpec.ResendRunExactly | buffer.go:212-234 | Over any results the head leaves the resend list if and only if it was not resent in part before and the first result completes it |
| WriteQueue.BufferW.constructor | base.go:60-70 | An empty queue with a limit of at least 16 bytes |
| WriteQueue.BufferW.AddEntry | buffer.go:100-111 | In place: as much as there is room for, under the given number |
| WriteQueue.BufferW.NextEntry | buffer.go:153-168 | The head of the chosen list, or nothing if the list is empty or its head is gone |
| WriteQueue.BufferW.OnFrameWrite | buffer.go:194-209 | In place: cuts or drops the head and moves the counter |
| WriteQueue.BufferW.OnFrameRewrite | buffer.go:212-234 | In place: the three cases of a resend's result |
| WriteQueue.BufferW.Pop | buffer.go:171-175 | In place: the entry goes, the lists stay |
| ResizeControl.LengthBounded | epoller/poller.go:673-696 | Over every run of polls the length stays between 64 and 4096 |
| ResizeControl.SinceCounts | epoller/poller.go:693-695 | The call counter passes 2 exactly when neither of the last two polls resized, and the log holds the last two counts |
| ResizeControl.ResizesExactly | epoller/poller.go:673-724 | A poll resizes if and only if neither of the two before it did and the last three were all full or all slack; both logged counts were then taken at the present length |
| ResizeControl.LengthExactly | epoller/poller.go:673-696 | The length after each poll, in numbers: 64 at first, 16 more up to 4096 on a resize upon three full polls, 16 less down to 64 on one upon three slack polls, and otherwise unchanged |
| ResizeControl.ResizesSpaced | epoller/poller.go:675-676 | Two resizes are at least three calls apart |
| EventBuffer.EventBuffer.constructor | epoller/base.go:45-50 | 64 empty events and no history |
| EventBuffer.EventBuffer.UpSizable | epoller/poller.go:713-724 | This count and both logged ones fill the buffer |
| EventBuffer.EventBuffer.DownSizable | epoller/poller.go:699-710 | This count and both logged ones leave 16 places free |
| EventBuffer.EventBuffer.Resize | epoller/poller.go:673-696 | In place: the controller's step; growing appends and shrinking keeps the front |

## Left out

- Socket system calls, addresses, binding and connecting: a socket is a queue of datagrams with read and peek, and a write is refused before the header, after it, or not at all.
- The CRC library is not part of this model; the checksum is any function of the bytes.
- Real time: an acknowledgement timeout or a deadline is a step that may come at any moment. The stale-timeout test (epoller/poller.go:172) compares a time that is never set, and is taken as never firing.
- Goroutine interleaving inside one step: the acknowledgement goroutine changes the ring outside the event loop, and is modelled as an atomic step.
- Channel capacities, and with them deadlock: queues of events are unbounded, and a second acknowledgement of one number does not block its channel.
- Resending after a timeout only logs and is not modelled beyond the leak it leaves; stored acknowledgements are dropped, as the value receivers of BufferSN drop them.
- Close and wakeup of the dispatcher, deleting a descriptor, and events that report a hang-up alone.
- The read that the writer asks for after each frame (transport1.go:379) as a competitor of the user's reads: `HdpWrite2.WriteFrame` says when it is asked for, and `AckSafety` covers it as a delivery, and `NothingInvented` holds with it; that every byte arrives (`FramesInOrder`) does not, since it may take a frame's header away.
- HdpEvent as a dynamic map and its encoding, logging, Timer, HdpConn, utilities, the test programs, `BufferR.resize` and `addEntry1`.
- Handshake headers assembled from several short datagrams, and a second Accept on one listener.
- Fields that are written and never consulted to effect: `armed`, `timedAt`, BufferR's size counters.
- Aliasing of a user's memory by queued slices: queued bytes are values.
- A window of 0, with which the original divides by zero, and a readiness event for a descriptor that is not watched, on which it dereferences nil.
- Repeated waits while a read would block (EAGAIN): a dry socket fails the read at once.
- RingInvariant.NextKeeps: before the wrap only; what the wrap does is the subject of WrapAround.
- AckSafety.PoppedWasParsed: after the wrap a number stands for any frame that carried it.
- AckExactly.AckSafeExactly: of the code as written, for a window and a buffer of at least two, as all that are constructed are; with less a drain stops it at its first numbers.
- FrameStream.FramesInOrder: for payloads below 65536 bytes, all that the header's size field can name, each still behind its header; without that `NothingInvented` holds, and `LostPayloadTakesNext` shows what else can happen.
- SenderWrap.NeverSafeForever: for the buffer sizes the constructor produces, 16 and up; smaller ones are not decided.
- PollerSafety.EveryRequestAccounted: for runs in which EpollCtl succeeds for requests, because a failed one is both answered and stored.
- WriteQueueSpec.StreamConserved: for fresh numbers and write results no longer than the head frame; `CounterExactly` shows that the second is needed.
- PollerProgress.WokenWithin: in a run of deliveries and handled events alone; a new request of the other direction may overwrite the mask again and postpone it.
