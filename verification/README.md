# gps-read: frame recovery and sentence dispatch

`gps-read` reads NMEA sentences from a serial GPS receiver. It turns each read into one `$ ... \n` frame, has the libnmea library decode the frame, and prints the decoded fields to the terminal. The receive loop is `while (1)` in `main` (`gps-read.c`). This project models one pass of that loop, plus a fold of passes over a finite sequence of reads:

- **Frame recovery** (`frame_recovery.dfy`, `cstring.dfy`). The 256-byte buffer is zeroed, and the read overwrites a prefix of it. Byte 0 is then forced to `$`. `strchr(buf, '\n')` searches for the first newline, and the search stops at the first NUL. A NUL is written just after that newline, and the parser receives `(buf, strlen(buf))`. If there is no newline, the pass ends silently. The C string routines are modelled as byte walks. Each walk reports where it stopped, and reports explicitly when it would run off the end of the buffer.
- **Sentence dispatch** (`dispatch.dfy`, `nmea.dfy`, `display.dfy`). The decoded sentence is tested against the tags GPTXT, GPRMC, GPVTG, GPGSA and GPGSV in five separate `if` statements. Each branch prints its fields. GPRMC clears the view before it prints. GPGSA clears it after printing, unless the fix type is 1 ("no fix"). Display output is a sequence of `ClearView` / `Print(line)` actions. A printed line carries the values it shows. Number formatting is not modelled.
- **The loop** (`receive_loop.dfy`). `Iterate` composes the two stages. The parser is a function parameter `seq<byte> -> Option<Sentence>`. `None` stands for `nmea_parse` returning NULL, which the pass reports with a single "Failed to parse sentence!" notice. `Run` folds passes over a list of reads.

Bytes are a `byte` newtype (0..255), and the buffer is a `seq<byte>` of length 256.

The loop is easy to describe as "search the buffer for the first newline", but the code does something narrower in two ways. The model follows the code:
- The newline search does not look at the whole buffer. It stops at the first NUL, because it uses C string semantics.
- A newline in byte 0 never ends a frame, because sentinel repair overwrites it with `$` first. So "the first newline at position i" means the first one at an index of at least 1 that comes before any NUL (`FrameRecovery.LineAt`).

## Model

| member | source | states |
|---|---|---|
| CString.ScanFrom | gps-read.c:95 | `CString.Strchr` is this walk started at byte 0. The search stops at the first byte that is a newline or NUL and reports which one it was, with no such byte before it. It reports running off the end exactly when the rest of the buffer holds neither byte. |
| CString.StrchrFindsFirstNewline | gps-read.c:95 | `strchr` returns index i exactly when byte i is a newline and no earlier byte is a newline or NUL. |
| CString.NulFrom | gps-read.c:107 | `CString.Strlen` is this walk started at byte 0. `strlen` finds the first NUL, with no NUL before it. It fails exactly when the buffer holds no NUL. |
| CString.StrlenOfTerminated | gps-read.c:97-107 | A NUL placed after a NUL-free prefix of length n makes `strlen` return n. |
| FrameRecovery.Cleared | gps-read.c:82 | At the start of a pass, every one of the 256 bytes is zero, whatever the buffer held before. |
| FrameRecovery.Fill | gps-read.c:84 | The read overwrites exactly the prefix it returns. The rest of the buffer keeps its contents. |
| FrameRecovery.Receive | gps-read.c:82-84 | After clearing and reading, the buffer is the read bytes followed by zeros. No byte of an earlier pass survives. |
| FrameRecovery.Repair | gps-read.c:89-92 | Byte 0 becomes `$` and every other byte is unchanged. A zero-byte read therefore gives `$` followed by zeros. |
| FrameRecovery.Prepared | gps-read.c:82-92 | The searched buffer is `$`, then read bytes 1 and onwards, then zeros. |
| FrameRecovery.Recover | gps-read.c:79-101 | The pass exactly as written, with reads of up to 256 bytes. A produced frame is well formed: it starts with `$`, ends with its only newline and holds no NUL. It is the repaired prefix of the read bytes. Behaviour outside the buffer happens only on a full 256-byte read. |
| FrameRecovery.Delimit | gps-read.c:95-107 | Search, terminator write and `strlen` on a prepared buffer. A frame comes out exactly when `strchr` finds a newline at i with i+1 < 256, and it is the buffer's first i+1 bytes. The pass is skipped exactly when the search stops at a NUL. |
| FrameRecovery.FramedIsPrefix | gps-read.c:95-98 | When the newline is at i and i+1 < 256, the frame is the buffer's first i+1 bytes, because the NUL at i+1 ends the string. When i = 255, the terminator write falls outside the buffer. |
| FrameRecovery.NewlineIffLine | gps-read.c:89-96 | The search on the prepared buffer finds a newline at i exactly when the read bytes have their first newline at i ≥ 1 with no NUL before it. |
| FrameRecovery.RunsOffIffFullAndPlain | gps-read.c:84-95 | The search runs past the buffer exactly when the read filled all 256 bytes and bytes 1..255 hold no newline and no NUL. |
| FrameRecovery.RecoverCharacterized | gps-read.c:82-101 | Every outcome in terms of the read bytes. A line at i with i+1 < 256 gives `$` plus bytes 1..i. The pass is skipped exactly when there is no line and no overrun. Behaviour is undefined exactly for a full read whose bytes 1..255 hold neither a newline nor a NUL, or whose first line ends in byte 255. |
| FrameRecovery.RecoverFrame | gps-read.c:82-101 | Recovery with the read capped at 255 bytes. A frame exists exactly when the read holds a line. That frame is `$` followed by read bytes 1..i and is well formed. A zero-byte read or a cut sentence gives no frame. |
| FrameRecovery.IndicesStayInBuffer | gps-read.c:84-98 | With reads of at most 255 bytes, the search never runs off the buffer, and the index of the terminator write is below 256. |
| FrameRecovery.Leftover | gps-read.c:95-98 | The buffer after the search and terminator write, with reads of at most 255 bytes. When the read has its first line at i, it is the prepared buffer with exactly one byte changed: byte i+1 becomes NUL. This is the buffer handed to the parser. Without a line the prepared buffer is left untouched. |
| FrameRecovery.RecoverForgetsPrevious | gps-read.c:82-84 | The recovered frame does not depend on the buffer the previous pass left behind. |
| FrameRecovery.CutFullReadOverruns | gps-read.c:84-95 | As written, a 256-byte read of a sentence cut before its newline makes the search read past the buffer. |
| FrameRecovery.NewlineInLastByteOverflows | gps-read.c:84-98 | As written, a 256-byte read whose first newline is its last byte puts the terminator at `buf[256]`. |
| Dispatcher.Dispatch | gps-read.c:114-191 | The five separate tag tests produce exactly one handler's output (the match-based `Present`). The view is cleared exactly for RMC, and for GSA with a fix type other than 1. Only unhandled types print nothing. No handler prints the parse-failure notice. |
| Dispatcher.Present | gps-read.c:114-191 | Reference routing by a match, one handler per sentence type. The view is cleared exactly for RMC, and for GSA with a fix type other than 1. Only unhandled types print nothing. The failure notice is never printed. |
| Dispatcher.RmcClearsFirst | gps-read.c:124-144 | An RMC sentence clears the view first, and only prints after that. |
| Dispatcher.GsaClearsAfterPrinting | gps-read.c:157-175 | A GSA sentence prints its eight lines first. It then clears the view, as its last action, exactly when the fix type is not 1. |
| Dispatcher.OnlyPrintsOtherwise | gps-read.c:114-191 | TXT, VTG and GSV sentences never clear the view. |
| Dispatcher.GsvPrintsFourSlots | gps-read.c:177-191 | A GSV sentence prints eight lines, and the last four are satellite slots 1 to 4 in order. |
| Dispatcher.GsvSlotsIgnoreCount | gps-read.c:177-191 | The satellite-slot lines are the same whatever satellite count the sentence reports. |
| Dispatcher.GsvPrintsItsLines | gps-read.c:177-191 | A GSV sentence reaches the GSV branch and no other. |
| Dispatcher.TxtShowsIdsAndText | gps-read.c:114-122 | A TXT sentence reaches the TXT branch alone. It prints its title, the underline, its three identifiers and its text, in that order. |
| ReceiveLoop.Iterate | gps-read.c:78-191 | One pass, with reads of at most 255 bytes. A frame appears exactly when the read holds a line, and equals `$` plus bytes 1..i. Without a frame nothing is shown. A parsed frame shows exactly its handler's output. The failure notice appears exactly when the parser rejects the frame, and then it is the only action. |
| ReceiveLoop.IterateForgetsPrevious | gps-read.c:78-84 | A pass's frame and actions do not depend on the buffer the previous pass left behind. |
| ReceiveLoop.Run | gps-read.c:78-217 | The loop over a finite list of reads of at most 255 bytes each. Every action it shows comes from the pass of one of the reads. |
| ReceiveLoop.RunForgetsBuffer | gps-read.c:78-217 | The loop's output over any sequence of reads does not depend on the starting buffer. |
| ReceiveLoop.RunAppend | gps-read.c:78-217 | With reads of at most 255 bytes, running over two batches gives the first batch's output followed by the second's. |
| ReceiveLoop.RunCons | gps-read.c:78-217 | A run over one more read is that read's pass followed by the rest of the run. |
| ReceiveLoop.ParseFailureIsContained | gps-read.c:107-112 | A frame the parser rejects adds exactly one notice. The loop then continues with the next read unaffected. |
| ReceiveLoop.IncompleteReadIsSilent | gps-read.c:95-101 | A read with no line adds nothing. The loop continues with the next read unaffected. |

## Findings

| source | as written | input that shows it | evidently intended | confidence | as-written member | corrected member |
|---|---|---|---|---|---|---|
| gps-read.c:84 | `read(fd, buf, sizeof (buf))` may fill all 256 bytes. Then no NUL follows the data, so `strchr` walks past the buffer. A newline in byte 255 also makes `*newline = '\0'` write `buf[256]`. | A 256-byte read with no newline and no NUL byte (a line longer than the buffer, which canonical mode returns in 256-byte pieces), or a 256-byte read whose first newline is its last byte, with no NUL before it | Read at most `sizeof(buf) - 1` bytes, so a NUL always ends the data | high; not executed | FrameRecovery.Recover (with FrameRecovery.CutFullReadOverruns, FrameRecovery.NewlineInLastByteOverflows) | FrameRecovery.RecoverFrame (with FrameRecovery.IndicesStayInBuffer) |

`ReceiveLoop.Iterate` and `ReceiveLoop.Run` use the corrected recovery, so each read is at most 255 bytes.

## Left out

- Opening the serial device, the termios and baud-rate setup, and their exit codes (gps-read.c:36-73). These are operating-system I/O.
- The single `clear()` before the loop starts (gps-read.c:75). It runs once before the first pass and is not part of any pass.
- The blocking `read` itself. It is an input byte sequence, and its return value is not modelled because the loop never looks at it.
- `nmea_parse` and `nmea_free`: sentence grammar and field extraction are libnmea's job. The parser function parameter stands for `nmea_parse(buf, strlen(buf), 0)`, whose last argument turns checksum checking off. Freeing is memory management.
- `printf` formatting (`%f`, `%.2lf`, `%u`), the `strftime` date rendering, and the escape sequence in `clear()`. These are libc and terminal output. A printed line carries the values it shows, as integers, reals, characters, strings and a date record.
- `strftime` writing the date into `buf` in the RMC branch. The model does not track it. `FrameRecovery.RecoverForgetsPrevious` and `ReceiveLoop.IterateForgetsPrevious` show that no previous buffer content can affect a later pass.
- The commented-out GPGLL handler (gps-read.c:193-213), because it is dead code.
- The infinite loop and its unreachable `close`/`return`. Only a finite sequence of passes is modelled.
- FrameRecovery.Leftover: it does not include the date that the RMC branch's `strftime` writes into the buffer (gps-read.c:140). The next pass clears the buffer either way.
