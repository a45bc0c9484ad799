# AESD character driver: write assembly and offset reads

A Dafny model of the `aesdchar` Linux character device (`aesd-char-driver/main.c`).

- **Writes.** Bytes written to the device are collected into newline-terminated entries. A write appends its bytes to the pending partial write. If the combined buffer ends in a newline, the buffer becomes one new entry of a fixed-capacity ring, and the partial write is cleared. Otherwise the combined buffer becomes the new partial write. After a short copy the zero-filled tail ends the buffer, so the delivered bytes are held even when they end in a newline.
- **Reads.** A read at the file position finds the entry that holds that byte of the concatenated entries. It returns bytes of that one entry, from the offset inside it, and advances the file position by the number of bytes returned.

The state is the device structure of `aesd-char-driver/aesdchar.h`: the ring, the partial-write pointer and the partial-write length. It is modelled as the class `AesdChar.AesdDev`.

The ring's own implementation file is not part of this model. `CircularBuffer.Ring` stands in for it. Its behaviour is what the driver's calls assume of it:
- a fixed number of slots;
- an add that overwrites the slot at the write cursor and advances the cursor modulo the capacity;
- a find-by-offset that walks the occupied entries in ring order (oldest first), adding up their sizes.

These ring contracts are assumptions. The verified claims are about what the driver's write and read do, given them.

Files:
- `bytes.dfy`: the byte type, the newline delimiter, concatenation and total size of entries.
- `circular_buffer.dfy`: the ring, its abstract view as a sequence of entries (oldest first), `Locate` (offset translation) and the lemmas about them.
- `aesd_char.dfy`: write assembly, the read, the device class, and the write as the code has it (see Findings).

I/O is replaced by parameters:
- The user's buffer is a byte sequence.
- `copy_from_user` delivers a prefix of it, of length `copied`, and fills the rest of its destination with zeros.
- `copy_to_user` can write the first `writable` bytes of the reader's buffer.
- `*f_pos` is an object (`FilePos`) that the read updates in place.

## Model

| member | source | states |
|---|---|---|
| `AesdChar.AesdDev.constructor` | aesd-char-driver/main.c:188-190 | after initialisation the ring holds no entry, the partial pointer is NULL (None) and the partial length is 0 |
| `AesdChar.AesdDev.Write` | aesd-char-driver/main.c:107-147 | returns the number of bytes `copy_from_user` delivered, never more than the buffer's size. The new buffer is the pending bytes, the delivered bytes and zeros for the undelivered rest; its outcome is `WriteStep`'s. On completion exactly that buffer is added to the ring as one entry of size `partial_len + count`, and the partial becomes NULL with length 0. Otherwise the ring is untouched, the partial pointer holds the new buffer and `partial_len` grows by `retval` |
| `AesdChar.AesdDev.Read` | aesd-char-driver/main.c:78-105 | returns the bytes of the entry holding `*f_pos`, from the intra-entry offset, at most `count` and at most the rest of that entry, and advances `*f_pos` by exactly the number returned. Returns 0 and leaves `*f_pos` as it was when no entry holds the offset. The ring and the partial state are unchanged |
| `AesdChar.Assemble` | aesd-char-driver/main.c:117-144 | a write whose bytes all arrived completes an entry exactly when the pending bytes followed by the new bytes end in a newline; either way the outcome is exactly those bytes |
| `AesdChar.WriteStep` | aesd-char-driver/main.c:117-146 | one write completes an entry exactly when the copy was full and the combined buffer ends in a newline; the entry is the pending bytes followed by the written bytes, of size `partial_len + count`. Otherwise the pending bytes followed by the delivered bytes are held, even when those end in a newline, because the zero-filled tail of a short copy ends the buffer |
| `AesdChar.ShortCopyGluedToNextWrite` | aesd-char-driver/main.c:123-143 | `"a\nb"` with two bytes delivered holds `"a\n"`, and the following write `"b\n"` stores the single entry `"a\nb\n"` |
| `AesdChar.OnlyLastByteDecides` | aesd-char-driver/main.c:125 | a newline inside the new bytes does not split the write. If the last byte is not a newline, everything is held as pending |
| `AesdChar.EmbeddedNewlineHeld` | aesd-char-driver/main.c:125 | the write `"a\nb"` on an idle device is held entirely as pending |
| `AesdChar.FeedAllConserves` | aesd-char-driver/main.c:117-144 | over any series of fully copied writes, the completed entries followed by the pending bytes are exactly the bytes written, in order: nothing is lost, duplicated or reordered |
| `AesdChar.FeedAllTerminated` | aesd-char-driver/main.c:125-144 | every entry a series of fully copied writes completes ends in a newline, and after at least one such write the pending partial does not end in one |
| `AesdChar.SplitWriteJoined` | aesd-char-driver/main.c:117-144 | writes `"ab"` then `"c\n"` produce the one entry `"abc\n"` and leave nothing pending |
| `AesdChar.ReadBytes` | aesd-char-driver/main.c:92-101 | one read returns at most `count` bytes (and no more than the reader's buffer accepts), and, when it returns anything, never runs past the total size of the entries |
| `AesdChar.ReadBounds` | aesd-char-driver/main.c:99-100 | what a read returns is the located entry's bytes from the residual offset, so it never crosses an entry boundary. At or past the total size it returns nothing |
| `AesdChar.ReadMatchesDump` | aesd-char-driver/main.c:90-101 | the bytes one read returns are exactly the bytes of the concatenated entries at `*f_pos`. A read with room for a byte, below the total size, returns at least one byte |
| `AesdChar.ReadLocated` | aesd-char-driver/main.c:90-101 | when an entry holds `*f_pos`, the read is exactly the dump's bytes at `*f_pos`, stays inside the dump, and returns at least one byte whenever the user buffer has room for one |
| `AesdChar.ReadToEnd` | aesd-char-driver/main.c:78-105 | reading again and again from a position into a buffer with room for at least one byte that `copy_to_user` can write, each read starting where the last one left `*f_pos`, until a read returns 0, yields every retained byte from that position on, in order. A reader none of whose bytes can be written gets 0 at once (`ReadBytes` bounds each read by `writable`) |
| `AesdChar.HelloRoundTrip` | aesd-char-driver/main.c:78-147 | writing `"hello\n"` to a freshly initialised device with ten slots, then reading at position 0, returns `"hello\n"` |
| `AesdChar.HelloSteps` | aesd-char-driver/main.c:78-147 | on values: the write of `"hello\n"` with every byte copied completes that entry, a ten-slot ring that held nothing then holds exactly it, and a read at 0 with room for 100 bytes returns it |
| `AesdChar.TwoSlotRingKeepsLastTwo` | aesd-char-driver/main.c:132 | a two-slot ring given `"one\n"`, `"two\n"`, `"three\n"` dumps `"two\nthree\n"` |
| `AesdChar.WriteAsWritten` | aesd-char-driver/main.c:117-146 | the write as the code has it, with the undelivered tail zero-filled: the `size_t` index of the tested byte is outside the buffer exactly when nothing is pending and the write is empty; an entry is stored only after a full copy and is the pending bytes followed by the written ones, of size `partial_len + count`; a held buffer is the pending bytes, the delivered bytes and zeros, with `partial_len` grown by the bytes delivered |
| `AesdChar.AsWrittenAgrees` | aesd-char-driver/main.c:117-146 | for every write that is not empty, full or short copy, the code as written and `WriteStep` give the same entry and size, or the same held bytes, and the same return value |
| `AesdChar.ZeroLengthWrite` | aesd-char-driver/main.c:117-125 | a zero-byte write with nothing pending makes the code as written read byte `2^64 - 1` of a zero-byte buffer. The modelled write holds the empty buffer and stores nothing |
| `CircularBuffer.Ring.constructor` | aesd-char-driver/main.c:188 | the ring starts empty with its write cursor at slot 0 (assumed behaviour of the ring's init) |
| `CircularBuffer.Ring.Add` | aesd-char-driver/main.c:132 | the entry is stored at the write cursor and the cursor advances modulo the capacity. The retained entries become: the old ones plus the new one, or, once every slot is in use, the old ones without the oldest plus the new one (assumed behaviour of the ring's add) |
| `CircularBuffer.AddEntry` | aesd-char-driver/main.c:132 | one add leaves between 1 and `cap` entries, the newest last, and one more entry than before unless the ring was full |
| `CircularBuffer.AddAllKeepsLatest` | aesd-char-driver/main.c:132 | after any series of adds, the ring holds exactly the latest `cap` entries ever added, oldest first, and nothing older |
| `CircularBuffer.Ring.FindEntryOffsetForFpos` | aesd-char-driver/main.c:90 | walking the occupied entries oldest first and adding up their sizes gives the position `Locate` specifies (assumed behaviour of the ring's find-by-offset) |
| `CircularBuffer.Locate` | aesd-char-driver/main.c:90 | the position of a file offset among the retained entries, walked oldest first (assumed behaviour of the ring's find-by-offset). A found position names one of the retained entries; `LocateFound` adds that the offset lies inside that entry |
| `CircularBuffer.LocateNoneIff` | aesd-char-driver/main.c:90-96 | no entry is found exactly when the offset is at or past the total size of the retained entries |
| `CircularBuffer.LocateFound` | aesd-char-driver/main.c:90 | a found position lies inside its entry, and the sizes of the entries before it plus the residual offset give back the file position |
| `CircularBuffer.LocateExact` | aesd-char-driver/main.c:90 | every byte of every entry is located at its own entry and offset. Together with `LocateFound`, this makes the translation exact in both directions: empty entries are skipped, and an offset on an entry boundary goes to the next entry |
| `CircularBuffer.LocateSuffix` | aesd-char-driver/main.c:90-100 | the concatenated entries from the file position on start with the rest of the located entry, followed by the entries after it |

## Left out

- `server/aesdsocket.c`, `examples/systemcalls/systemcalls.c` and `finder-app/writer.c` are not part of this model. They are socket, thread, signal, timer, file and process I/O around the device, or trivial argument handling.
- Kernel plumbing is not modelled: character-device registration, `alloc_chrdev_region` and its failure path, module init/exit hooks and the `file_operations` table.
- `aesd_open` and `aesd_release` are not modelled. `aesd_open` binds the open file to the single device through `filp->private_data` (main.c:40-41), which `aesd_read` and `aesd_write` read back (main.c:81, 110); the model replaces that binding with the receiver of `AesdDev.Read` and `AesdDev.Write`. Apart from that both only log the ring's contents, and `aesd_release` also unlocks the mutex.
- The debug logging (`PDEBUG`) is not modelled.
- `aesd_cleanup_module` frees memory, so it is left out with the rest of memory management.
- The mutex is not modelled. Each locked call is treated as atomic, and concurrent readers and writers are not modelled. The read keeps using the located entry after releasing the lock, where a concurrent add could overwrite it. That race is outside a sequential model.
- Allocation is not modelled. `kmalloc` is taken to always succeed, because the code never checks for NULL, so the initial `-ENOMEM` return value is never returned. Leaks are not modelled: the entry structure, and buffers of overwritten ring slots, are not freed.
- The freshly allocated write buffer is modelled as a value sequence, not a byte array filled in place.
- Widths: `size_t` lengths and the `loff_t` file position are unbounded naturals. Overflow of `partial_len + count` and of `*f_pos` is not modelled. Negative file positions are not modelled. The one exception is the `size_t` wrap of the last-byte index, which `WriteAsWritten` states explicitly.
- `strncpy`'s stop at a NUL byte is not modelled. Data is assumed to hold no NUL bytes, so the whole partial write is copied.
- The ring's implementation file is not part of this model, and neither is its capacity constant, which is here a constructor parameter of at least 1. The ring is assumed to be representable by a write cursor and a count of occupied slots; that is an assumption, not a reading of its implementation.
- Ring order for the find-by-offset walk is oldest entry first, not slot index order 0..C-1; the two agree until the ring wraps.
- One write with several newlines is not split at every newline: the code checks only the final byte, and `"x\ny\n"` in one write is one entry.
- `AesdChar.AesdDev.Write`, `AesdChar.WriteStep`: follow the corrected write of the Findings for a zero-byte write with nothing pending, which stores nothing instead of reading outside the buffer. In every other case they are the code as written (`AsWrittenAgrees`).
- `AesdChar.FeedAllConserves`, `AesdChar.FeedAllTerminated`: are stated for series of fully copied writes; a short copy is covered one write at a time by `WriteStep`.

## Findings

| source | as written | input that shows it | evidently intended | confidence | as-written member | corrected member |
|---|---|---|---|---|---|---|
| aesd-char-driver/main.c:117-125 | the completion test reads `new_buf[count + partial_len - 1]`, computed in `size_t` | a zero-byte write with no partial pending: the index wraps to `2^64 - 1` in a buffer of 0 bytes | an empty write with nothing pending stores nothing and returns 0 | not executed; medium (what happens depends on the kernel passing zero-byte writes to the driver) | `AesdChar.ZeroLengthWrite` | `AesdChar.AesdDev.Write` |
