# aesd circular buffer, char driver and socket server, in Dafny

This project models the sequential core of the AESD assignments repository and
proves properties about that model:

- **The circular entry buffer** (`aesd-char-driver/aesd-circular-buffer.c`). It is a ring of
  `AESDCHAR_MAX_WRITE_OPERATIONS_SUPPORTED` (10) slots of byte runs. It has a write
  cursor `in_offs`, a read cursor `out_offs` and a `full` flag. The ring means
  `Live(b)`: the live entries from `out_offs` onwards, oldest first. Its logical byte
  stream is `Concat(Live(b))`. Offset lookup, insertion with eviction and
  initialisation are all stated against these two abstractions.
- **The char driver's `read` and `write`** (`aesd-char-driver/main.c`). Each is a pure
  transition over the device record. That record is the ring plus the pending,
  not yet newline-terminated, write. A write appends to the pending run. Once a
  chunk holds a newline, the whole pending run is committed as one entry, and the
  entry this evicts is returned as "freed". A read returns at most the rest of one
  entry and advances the file position.
- **The socket server's receive loop** (`server/aesdsocket.c`). One `recv` is one pure
  step over the framing buffer and the data file. If the buffer holds a newline,
  the prefix through the first newline is appended to the file. The whole file is
  then handed to `send`, and the prefix is dropped from the buffer. The step also
  covers disconnect, the signal handler and the removal of the data file at exit.

Files: `base.dfy` (bytes, `Option`, `Flatten`, `FirstNewline`), `circular_buffer.dfy`,
`char_driver.dfy`, `socket_server.dfy`.

Modelling choices:

- NULL pointers are `Option` values. This covers the buffer, the entry to add and
  `entry_offset_byte_rtn`.
- The C function that returns `&buffer->entry[i]` is modelled as returning the slot index `i`.
- Mutex acquisition, `krealloc` and `copy_{to,from}_user` become boolean parameters.
  In the server, `realloc` and `fopen` become booleans too, and `fwrite` becomes the
  number of bytes it stores (`None` when it stores them all).
- Error returns use the Linux values `-ENOMEM` (12), `-EFAULT` (14) and `-ERESTARTSYS` (512).
- `WellFormed` is the shape that every C access relies on: the array length and
  cursors in range. `Valid` adds the invariant `full ==> in_offs == out_offs`. Every
  reachable ring keeps `Valid` (`Init`, `Add`).
- The driver's write takes no file position. `aesd_write` reads `*f_pos` only for a
  debug message and never updates it, so the position cannot affect where data goes.
- The server's data file is `Option<seq<byte>>`, where `None` means it does not exist.
  "Sent" means the bytes handed to `send()`. A `send` that returns -1 is only logged;
  a `send` to a peer that has closed raises SIGPIPE, which is not modelled (see Left out).

The model follows the code:

- The server frames **one** packet per `recv` (an `if`, not a loop). A later newline
  that arrives in the same chunk stays buffered (see Findings).
- The server is single-threaded. It serves one connection at a time, and
  connections share only the data file.

## Model

| member | source | states |
|---|---|---|
| `CircularBuffer.EntryCount` | aesd-char-driver/aesd-circular-buffer.c:43-58 | the live count is at most the capacity; it equals the capacity exactly when `full`; it is 0 exactly when not full with equal cursors; counting that many slots from `out_offs` lands on `in_offs` |
| `CircularBuffer.Init` | aesd-char-driver/aesd-circular-buffer.c:111-114 | the zeroed ring is valid, not full, has both cursors at 0 and every slot empty, and holds no live entries and no content |
| `CircularBuffer.InitFindsNothing` | aesd-char-driver/aesd-circular-buffer.c:111-114 | on a freshly initialised ring the lookup returns NULL for every offset and leaves the out-pointer unchanged |
| `CircularBuffer.Search` | aesd-char-driver/aesd-circular-buffer.c:60-74 | the search loop, walking live entries from the `i`-th: finds a hit exactly when the remaining offset lies inside the remaining entries' bytes; the hit is the entry where the skipped sizes plus the in-entry offset equal the remaining offset, and the in-entry offset is below that entry's size |
| `CircularBuffer.Locate` | aesd-char-driver/aesd-circular-buffer.c:40-74 | an offset is found exactly when it is below `|Concat(Live)|`; the hit names a live entry and its slot, the offset equals that entry's start plus the in-entry offset, the in-entry offset is below its size, and `Concat(Live)[off]` is that entry's byte |
| `CircularBuffer.FindEntryOffsetForFpos` | aesd-char-driver/aesd-circular-buffer.c:29-75 | a NULL buffer yields NULL; otherwise a slot is returned exactly when the offset is inside the logical stream; the slot is that of the live entry covering the offset and `*entry_offset_byte_rtn` is the offset inside it (as `Locate` pins them), so the slot's byte there is the stream's byte; the out-pointer is written only on success and only through a non-NULL pointer |
| `CircularBuffer.FindInvertsLayout` | aesd-char-driver/aesd-circular-buffer.c:23-27 | for every live entry `k` and every byte `o` inside it, looking up the offset `Start(k) + o` returns the slot of entry `k` and in-entry offset `o`: the lookup is the inverse of laying the entries end to end |
| `CircularBuffer.Add` | aesd-char-driver/aesd-circular-buffer.c:88-104 | insertion keeps validity and never clears `full`; it leaves `out_offs` alone on a non-full ring; `full` afterwards holds exactly when it was already set or `in_offs` caught up with `out_offs`; live entries become `Live + [e]` when not full and `Live[1..] + [e]` when full (oldest overwritten); the count grows by one up to the capacity |
| `CircularBuffer.AddEntry` | aesd-char-driver/aesd-circular-buffer.c:84-106 | a NULL buffer stays NULL and a NULL entry changes nothing; otherwise the live entries become `Live + [e]`, or `Live[1..] + [e]` when full |
| `CircularBuffer.AddAll` | aesd-char-driver/aesd-circular-buffer.c:84-106 | any run of insertions keeps the ring well-formed and valid |
| `CircularBuffer.AddAllKeepsNewest` | aesd-char-driver/aesd-circular-buffer.c:77-106 | after any run of insertions the live entries are exactly the newest `MaxWriteOperations` of the old live entries followed by the inserted ones, oldest first (bounded eviction) |
| `Base.FirstNewline` | server/aesdsocket.c:217 | `memchr` for `'\n'`: none exactly when the buffer has no newline, otherwise the position of a newline with none before it |
| `CharDriver.InitModule` | aesd-char-driver/main.c:227-232 | the device after module init satisfies the driver invariant, has no live entries and no content, and has an empty pending write |
| `CharDriver.Read` | aesd-char-driver/main.c:55-111 | interrupted lock: `-ERESTARTSYS`, position unchanged; position at or past the end of the content: 0, position unchanged; copy fault: `-EFAULT`, position unchanged; otherwise returns `min(count, end of the entry holding f_pos - f_pos)`, advances the position by exactly that much, never past the end of that entry, and the bytes returned are `Concat(Live)[f_pos .. f_pos + n]` |
| `CharDriver.ReadToEnd` | aesd-char-driver/main.c:55-111 | a reader that starts at offset 0 with a positive count and calls `read` until it returns 0 receives exactly `Concat(Live)` |
| `CharDriver.Write` | aesd-char-driver/main.c:114-188 | interrupted lock, allocation failure and copy fault return `-ERESTARTSYS`, `-ENOMEM` and `-EFAULT` with ring and pending run unchanged and nothing freed; otherwise it returns the byte count; a chunk without newline leaves the ring alone and appends to the pending run; a chunk with a newline commits `pending + chunk`, including bytes after the newline, as one entry, empties the pending run, and frees exactly the oldest live entry when the ring was full (nothing otherwise) |
| `CharDriver.WritePreservesInv` | aesd-char-driver/main.c:162-184 | every write outcome keeps the device invariant: valid ring, empty unused slots, every live entry contains a newline, and no newline in the pending run; a commit overwrites a slot that is either handed back as freed or was empty, so no live entry is lost without being freed |
| `SocketServer.Written` | server/aesdsocket.c:228-231 | the bytes `fwrite` stores are a prefix of the packet, and all of it when the write is not short |
| `SocketServer.Receive` | server/aesdsocket.c:191-257 | `realloc` failure ends the connection with the partial buffer discarded and the file untouched; otherwise a packet is framed exactly when old buffer plus chunk holds a newline; the packet runs through the first newline; packet followed by new buffer equals old buffer followed by chunk, so `buf_len` drops by the packet length; without a newline the buffer just grows and nothing is sent; with one the file gains the written part of the packet if it opens for appending and is otherwise unchanged (the packet is dropped, not retried), and the bytes sent are the whole file |
| `SocketServer.LaterNewlineStaysBuffered` | server/aesdsocket.c:217-256 | when buffer plus chunk holds two newlines, one receive frames a packet and a newline is still buffered afterwards |
| `SocketServer.EchoOnEmptyStore` | server/aesdsocket.c:217-251 | a single packet received on a fresh connection with no data file becomes the file and is echoed back unchanged, and the buffer is left empty |
| `SocketServer.ServeConserves` | server/aesdsocket.c:191-257 | over a whole connection, the packets framed followed by what is still buffered equal the initial buffer followed by everything received |
| `SocketServer.ServeAppendsPackets` | server/aesdsocket.c:191-257 | over a whole connection the data file grows by exactly the packets framed, each ending at its only newline |
| `SocketServer.ConnectionLosesOnlyTheTail` | server/aesdsocket.c:191-265 | over a whole connection that ends with the client closing, when every library call succeeds, the buffer is released, the file has grown by exactly the packets framed, and the bytes discarded are exactly the buffered tail: packets followed by that tail are the old buffer followed by everything received |
| `SocketServer.SecondClientSeesBoth` | server/aesdsocket.c:174-269 | after one client's packet is stored and its connection closes, a second client's packet is answered with both packets, oldest first |
| `SocketServer.CompletePacketDroppedOnClose` | server/aesdsocket.c:217-265 | as written, receiving `"a\nb\n"` in one chunk frames only `"a\n"`; after disconnect only `"a\n"` is in the file |
| `SocketServer.Frame` | server/aesdsocket.c:217-256 | splitting a buffer into complete packets and a remainder loses nothing (packets followed by remainder are the buffer), leaves no newline in the remainder, and yields only newline-terminated packets |
| `SocketServer.ReceiveAll` | server/aesdsocket.c:191-257 | the draining receive appends exactly the complete packets of old buffer plus chunk to the file, keeps exactly the unterminated remainder (which holds no newline) in the buffer, and so file followed by buffer is the old file followed by old buffer and chunk |
| `SocketServer.ReceiveAllCommitsWholePackets` | server/aesdsocket.c:191-257 | with the draining receive, data ending on a packet boundary is committed whole and nothing stays buffered |
| `SocketServer.DrainingKeepsBothPackets` | server/aesdsocket.c:217-265 | with the draining receive, `"a\nb\n"` in one chunk puts both packets in the file before the disconnect |
| `SocketServer.SignalHandler` | server/aesdsocket.c:18-26 | a raised stop flag stays raised; from a clear flag, the handler raises it exactly for SIGINT (2) and SIGTERM (15) |
| `SocketServer.StopFlagIffTerminatingSignal` | server/aesdsocket.c:18-26 | from a clear flag, a run of handler invocations raises the flag exactly when one of them is for SIGINT or SIGTERM |
| `SocketServer.ShutdownRemovesDataFile` | server/aesdsocket.c:172-276 | after a run of handler invocations from a clear flag, if one was for SIGINT or SIGTERM the loop condition at line 174 is false, so the accept loop ends the next time it is tested and the data file is then removed; if none was, the loop condition still holds and the server keeps serving |

## Left out

- Capacity: `AESDCHAR_MAX_WRITE_OPERATIONS_SUPPORTED` is defined in `aesd-circular-buffer.h`, which is not part of this model. It is fixed at 10; eviction for any run of insertions is covered by `CircularBuffer.AddAllKeepsNewest`.
- Integer widths: cursors, counts and offsets are unbounded naturals. With a capacity of 10 the `uint8_t` loop variables cannot overflow. `size_t` offsets only decrease after a guard, so they never wrap. A negative `loff_t` file position is not modelled.
- `CharDriver.Read`: on a copy fault the user buffer may be partly written; the model returns no bytes for that case.
- Device registration and teardown: `aesd_open`, `aesd_release`, `aesd_setup_cdev`, the chrdev region calls and `aesd_cleanup_module` are kernel plumbing with no state of the model in them. The mutex and the `krealloc`/`kfree` mechanics are left out too. Memory ownership is the abstract "freed" entry.
- Socket setup, `-d` daemonisation, syslog and `printf` (server/aesdsocket.c:49-171, 177-188, 267-279) are OS plumbing. They are left out, and `accept` failures are not modelled.
- `SocketServer.Receive`: a failing `fread` midway through the echo is not modelled. When the file opens for reading, the whole file is taken as sent.
- `SocketServer.ShutdownRemovesDataFile`: only invocations of the installed handler are modelled. A handler is installed for SIGINT and SIGTERM only (server/aesdsocket.c:59-70); any other signal, such as SIGHUP or the SIGPIPE that a `send` to a closed peer raises, takes its default action, which ends the process without removing the data file. The flag is tested only at the head of the accept loop (server/aesdsocket.c:174), never in the receive loop, and `sa_flags` is 0 (server/aesdsocket.c:53-56). A handler that runs while the server is not blocked therefore ends nothing at once: the next `accept` or `recv` blocks until a client connects, sends or closes, and the packets that client sends are still committed and echoed. The lemma states what happens once the loop condition is next tested, not that this test is ever reached.
- `SocketServer.ReceiveAll`: the repeated echo after each drained packet is not modelled. Its contract covers the buffer and the data file only.
- `SocketServer.ServeConserves`, `SocketServer.ServeAppendsPackets`: these state conservation for connections on which every library call succeeds.
- `SocketServer.ConnectionLosesOnlyTheTail`: covers only connections on which every library call succeeds. A failed `fopen` leaves a framed packet out of the file, a short `fwrite` stores part of it, and a failed `realloc` ends the connection from the server side.
- The example utilities (`examples/systemcalls/systemcalls.c`, `examples/threading/threading.c`, `finder-app/writer.c`) are not part of this model. They hold only process control, a thread demo and a one-shot file write.

## Findings

| source | as written | input that shows it | evidently intended | confidence | as-written member | corrected member |
|---|---|---|---|---|---|---|
| server/aesdsocket.c:217-257 | each `recv` handles at most one packet (`if`, not `while`), so a second complete packet in the same chunk stays buffered and is discarded when the client disconnects | one `recv` of `"a\n" "b\n"` followed by a close: only `"a\n"` reaches the data file | every complete packet is appended, and echoed, as soon as its newline arrives | medium, not executed | `SocketServer.CompletePacketDroppedOnClose` | `SocketServer.ReceiveAll` |

`SocketServer.Receive` and the lemmas about connections (`ServeConserves`, `ServeAppendsPackets`, `SecondClientSeesBoth`) follow the code as written. The draining step `ReceiveAll`, built on `Frame`, is the corrected behaviour. Its properties are proved in `ReceiveAll`, `Frame` and `ReceiveAllCommitsWholePackets`.
