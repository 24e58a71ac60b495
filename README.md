# WSL multicast adapter: the 2-byte length-prefix frame protocol

WSL multicast adapter bridges a virtual NIC inside a WSL guest (the `mcast0`
kernel module) to a Windows host service over one TCP connection. Both ends
speak the same framing: a 2-byte length, then that many frame bytes. This
project models that protocol and proves properties of the model in Dafny.

- **Transmit path** (`mcast0_xmit`). Each outgoing Ethernet frame goes out as
  one gathered message. The message starts with the frame length truncated to
  `unsigned short`, in the machine's native byte order. The frame bytes follow.
  It is modelled as `Mcast0.Encode`.
- **Receive thread** (`rxfn`). Each blocking read into a reused 2048-byte
  buffer is taken as exactly one frame. A read is accepted only when:
  - it is longer than 2 bytes;
  - the length it declares is non-zero;
  - the declared length fits in the bytes after the prefix.

  An accepted read's declared bytes are copied into a fresh skb and injected.
  Everything else is dropped without notice. `-EINTR` retries at once. Any
  other error pauses 100 ms and retries. Errors never end the loop, and neither
  does a zero-length read. The per-read check is `Mcast0.Decode` and `Mcast0.Step`.
  The loop is `Mcast0.RxThread`, which runs over a sequence of read results.
- **Host service** (`Main` in `WSlMcastSvc/Program.cs`). Each receive of `n`
  bytes into a reused 2048-byte buffer is handled like this:
  - `n <= 0` ends the loop;
  - `n < 2` sends nothing;
  - otherwise the service reads a little-endian `ushort` length and echoes the
    first `min(2 + framelen, n)` received bytes.

  This is `WslMcastSvc.Serve`, specified by `WslMcastSvc.Echoes`.
- **Both ends together** (module `Link`). These lemmas feed the host's echo
  back into the kernel decoder, under the condition that each message
  arrives as exactly one read.

Both sides process **one read as one frame**. A frame split across reads is
not reassembled, and neither are two frames coalesced into one read. The model
keeps that behaviour and states it as lemmas. For the kernel decoder these are
`SplitReadDropped`, `CoalescedReadLosesSecond`, `CoalescedAfterEmptyDropped` and
`OversizeFrameNeverDelivered`. For the host echo, `HostCoalescedEchoLosesSecond`
shows that the second of two messages in one receive is discarded. Native byte order is
modelled as little-endian, which is what x86 and arm64 (the WSL targets) and
Windows use.

A frame of 65536 bytes or more is not rejected: its length prefix wraps modulo
65536 (`WrappedLengthMisframes`). For a frame below 65536 bytes, a read holding less than its declared frame
is dropped; the decoder never waits for more bytes (`SplitReadDropped`).

Files: `wire.dfy` holds the bytes, the little-endian `u16` and the reused-buffer
receive. `mcast0.dfy` models `kernel/mcast0.c`. `wsl_mcast_svc.dfy` models
`WSlMcastSvc/Program.cs`. `link.dfy` holds the cross-component lemmas.

## Model

| member | source | states |
|---|---|---|
| Wire.LeU16 | WSlMcastSvc/Program.cs:35 | the little-endian u16 of two bytes is below 65536, and its low byte and high byte are the two bytes |
| Wire.U16Le | kernel/mcast0.c:44-48 | the 2-byte native image of a u16 reads back, little-endian, as that value |
| Wire.Receive | kernel/mcast0.c:89-93 | a receive puts the delivered bytes at the front of the reused buffer and leaves the rest of the buffer untouched |
| Mcast0.Encode | kernel/mcast0.c:40-54 | the sent message is exactly 2 + len bytes long; its prefix reads as len mod 65536, little-endian; the frame bytes follow verbatim |
| Mcast0.DeclaredLength | kernel/mcast0.c:103-104 | the declared frame length is the u16 taken from bytes 0..1, so it is below 65536 |
| Mcast0.Accepts | kernel/mcast0.c:102-105 | a read is accepted when it is longer than 2 bytes and declares a length framelen with 0 < framelen <= len - 2, so the frame lies wholly inside the read |
| Mcast0.Decode | kernel/mcast0.c:102-109 | a read of 2 or fewer bytes gives no frame; a frame is produced iff 0 < framelen <= len - 2; the frame has exactly framelen bytes, equal to data[2..2+framelen]; no byte past the read is used |
| Mcast0.RoundTrip | kernel/mcast0.c:86-109 | for every frame of 1..2046 bytes, the message fits the 2048-byte buffer and decoding it gives the frame back |
| Mcast0.EmptyFrameDropped | kernel/mcast0.c:102 | an empty frame is sent as the bare prefix 00 00, and the decoder drops it |
| Mcast0.TrailingBytesIgnored | kernel/mcast0.c:105-109 | bytes after an accepted frame in the same read do not change what is decoded |
| Mcast0.CoalescedReadLosesSecond | kernel/mcast0.c:102-109 | for a first frame of 1 to 65535 bytes, when two messages arrive in one read, only the first frame is injected |
| Mcast0.CoalescedAfterEmptyDropped | kernel/mcast0.c:104-105 | when an empty frame and another message arrive in one read, the read declares length 0 and is dropped whole, so the second frame is lost too |
| Mcast0.SplitReadDropped | kernel/mcast0.c:102-105 | for a frame below 65536 bytes, a read that holds only a proper prefix of its message is dropped |
| Mcast0.OversizeFrameNeverDelivered | kernel/mcast0.c:82-105 | a frame of 2047 to 65535 bytes is never accepted from any read of at most 2048 bytes taken from the start of its message |
| Mcast0.WrappedLengthMisframes | kernel/mcast0.c:44 | a frame of 65536 bytes or more whose length mod 65536 is between 1 and 2046 has its prefix truncated, so a 2048-byte read of its message start injects the shorter frame frame[..len mod 65536] |
| Mcast0.IsRecvResult | kernel/mcast0.c:89-94 | what the receive loop assumes of one read: at most sizeof(buf) = 2048 bytes, or a negative errno |
| Mcast0.Step | kernel/mcast0.c:93-116 | -EINTR gives an immediate retry; any other error gives a 100 ms back-off; a successful read is injected iff it is accepted, and the injected frame is its decoding |
| Mcast0.FramesOf | kernel/mcast0.c:102-115 | a read contributes at most one frame; a failed read contributes none; a frame it does contribute is its decoding |
| Mcast0.Delivered | kernel/mcast0.c:86-117 | the loop injects no more frames than there are reads |
| Mcast0.DeliveredAppend | kernel/mcast0.c:86-117 | the frames delivered for two runs of reads in a row are the first run's frames followed by the second's |
| Mcast0.ErrorDoesNotStopLoop | kernel/mcast0.c:94-100 | a failed read (a negative errno, -EINTR or not) contributes no frame, and the reads after it are still processed |
| Mcast0.DeliveredSnoc | kernel/mcast0.c:86-117 | each further read appends its own frame, if any, after the frames already delivered |
| Mcast0.DeliveredFromReads | kernel/mcast0.c:105-113 | every injected frame is the decoding of one successful read |
| Mcast0.OneReadPerFrameDelivers | kernel/mcast0.c:86-113 | when each frame of 1..2046 bytes arrives as exactly one read, the injected frames are exactly the frames sent, in order |
| Mcast0.RxThread | kernel/mcast0.c:78-119 | the loop runs one iteration per read, whose outcome is Step of that read, even though the buffer is reused; the frames handed to the stack are Delivered of the reads |
| Mcast0.TakeFrame | kernel/mcast0.c:93-113 | one successful read puts its bytes at the front of the reused buffer and leaves the rest untouched, and gives exactly Step of that read, whatever earlier reads left in the buffer |
| Mcast0.CopyOut | kernel/mcast0.c:106-109 | the fresh skb holds exactly buf[2..2+framelen] |
| WslMcastSvc.EchoCount | WSlMcastSvc/Program.cs:39 | the echo count is at most n and at most 2 + framelen, and equal to one of them |
| WslMcastSvc.FrameLen | WSlMcastSvc/Program.cs:35 | framelen is the little-endian u16 of buf[0], buf[1], below 65536 |
| WslMcastSvc.Echo | WSlMcastSvc/Program.cs:33-39 | a send happens iff n >= 2; it has min(2 + framelen, n) bytes and is a prefix, from offset 0, of the bytes received |
| WslMcastSvc.SendsOf | WSlMcastSvc/Program.cs:33-40 | each receive produces at most one send, exactly when it has at least 2 bytes |
| WslMcastSvc.Echoes | WSlMcastSvc/Program.cs:27-41 | the loop issues no more sends than it has receives |
| WslMcastSvc.EchoesAppend | WSlMcastSvc/Program.cs:27-41 | when no close comes first, the sends for two runs of receives are the first run's sends followed by the second's |
| WslMcastSvc.EchoesSnoc | WSlMcastSvc/Program.cs:29-40 | each non-close receive appends its own send, if any, after the sends already made |
| WslMcastSvc.NoSendAfterClose | WSlMcastSvc/Program.cs:29-30 | a receive of n <= 0 ends the loop, and nothing received after it is sent, whatever came before it |
| WslMcastSvc.EchoesArePrefixes | WSlMcastSvc/Program.cs:25-39 | every send is the echo of one receive, is a prefix of that receive, and is at most BUFFER_SIZE = 2048 bytes |
| WslMcastSvc.Serve | WSlMcastSvc/Program.cs:25-41 | the loop on the reused buffer sends exactly Echoes of the receives |
| Link.WellFormedEchoAccepted | WSlMcastSvc/Program.cs:35-39 | a receive holding a well-formed frame is echoed as exactly that 2+framelen-byte frame; the kernel accepts the echo and decodes the same frame from it |
| Link.EchoAcceptedIffWellFormed | WSlMcastSvc/Program.cs:33-39 | the kernel accepts an echo iff the receive it came from was well formed |
| Link.EchoReturnsFrame | WSlMcastSvc/Program.cs:35-39 | a transmitted frame of 1..2046 bytes, received whole, is echoed unchanged, and the receive thread gets the original frame from the echo |
| Link.HostCoalescedEchoLosesSecond | WSlMcastSvc/Program.cs:35-39 | for a first frame below 65536 bytes, when two messages arrive in one receive, only the first is echoed and the second is discarded |
| Link.EchoesOfFrames | WSlMcastSvc/Program.cs:27-41 | one receive per message of 1..2046-byte frames: the host echoes the whole stream back verbatim |
| Link.LoopbackDeliversFrames | kernel/mcast0.c:40-117 | end to end, frames of 1..2046 bytes that are sent, echoed and read back one message per read are injected exactly as sent, in order |

## Left out

- Byte streams are not reassembled. A read is taken as one whole frame. Split and coalesced reads appear only as the lemmas above. This is what both ends do.
- The sockets themselves are inputs to the model: `kernel_recvmsg`, `kernel_sendmsg`, `conn.Receive` and `conn.Send`. Each read is a value in a given sequence. `MSG_DONTWAIT` is not modelled. The transmit path ignores a partial or failed send (it only logs) and always returns `NETDEV_TX_OK`. The model assumes the whole message is sent.
- The kernel's stop signal (`kthread_should_stop` and `kthread_stop`) is modelled as the end of the read sequence. The service's `while (true)` also ends in the model when the receives run out; the real service would block in `Receive`.
- `msleep(100)` is recorded as a `BackedOff(100)` event; no time passes in the model. `allow_signal` and the thread start are not modelled.
- A failed `alloc_skb` is left out, because memory allocation is resource handling. The model assumes every accepted frame gets its skb; the real code would then drop the frame.
- `eth_type_trans`, `netif_rx`, the `net_device` setup and `open`/`stop`, and module init/exit with their cleanup order are left out. They are foreign kernel plumbing with no logic beyond handing the frame over.
- Parsing the host IPv4 string (`in4_pton`, `in_aton`), socket creation and connection, and the listener setup (`Bind`, `Listen`, `Accept`, `ReuseAddress`) are left out as I/O.
- All logging (`pr_info`, `pr_err`, `Console.WriteLine`) is left out.
- An exception thrown by `Receive`/`Send` on the host would end `Main`. It is not modelled.
