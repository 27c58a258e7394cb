# Active-mode FTP client: protocol engine

This project models the protocol engine of a small FTP client in two
variants. The active client is `cliente/myftp_skel.c`. It makes a single
login attempt and fetches a file over a data connection it advertises with
PORT. The retrying client is `myftp_skel.c`. It repeats USER and PASS until
they are accepted, and its `get` sends no PORT; its `recv_file` is an empty
stub.

The model has one module per component:

- `Scan` holds the pieces of `sscanf`/`printf` the client relies on: white
  space, `%d`, and decimal printing.
- `Replies` reads one reply on the control connection, as `recv_msg` does
  (reply format of section 4.2 of RFC 959). A `recv` result is `Closed`,
  `Failed(stale)` or `Data(frame)`. The reply is parsed with
  `%d %[^\r\n]\r\n` and its code is compared with the expected one.
- `Commands` builds the zero-padded 512-byte buffer of `send_msg`. It also
  holds the peer's reader of that buffer, which inverts the formatter.
- `PortArgs` encodes the PORT argument as `set_data` does (section 4.1.2 of
  RFC 959). It also holds the server's parser of that argument, the inverse of the encoder.
- `SizeReply` reads the size from the non-standard
  `299 File <name> size <N> bytes` reply, using the pattern
  `File %*s size %ld bytes`.
- `Transfer` copies a data connection into a file, as `recv_file` does.
  The connection is a sequence of `recv` results, and `RecvFile` is the
  loop itself, proved against the function `Copy`.
- `Session` holds `class Client`. Its fields are:
  - the phase of the session;
  - the control reads still to come;
  - the keyboard lines still to come;
  - the local files;
  - a trace of what the client did: every `send_msg` as `Sent(op, param)`,
    every file opened, every data connection accepted.

  Its methods are the greeting check in `main`, both variants of
  `authenticate`, both variants of `get`, and `quit`. The retry loops are
  specified by `Retried`: round `count` is the first whose reply was not a
  refusal, given the verdicts `recv_msg` returns on the control reads.
- `Scenarios` proves whole sessions against scripted servers: a download, a
  refused login, and a login that needs retries.

Where the code and the protocol description of this client differ, the
model follows the code:

- `set_data` reads no reply to PORT, so the reply the client reads next is
  the one to RETR.
- `quit` does not act on a reply other than 221. The session ends unless
  the connection was closed.
- When the size pattern does not match, `get` passes on whatever `f_size`
  held. That value is the parameter `unsetSize`.
- A failed read on the data connection only warns and ends the copy. The
  file keeps what was written, and `get` still reads the 226 reply.

## Model

| member | source | states |
|---|---|---|
| Scan.CString | cliente/myftp_skel.c:53 | the string a buffer holds is its longest NUL-free prefix, followed by a NUL or by the end of the buffer |
| Scan.ScanIntOfDecimal | cliente/myftp_skel.c:49 | `%d` skips leading white space and reads a printed number back exactly, stopping at the first non-digit |
| Scan.ValueOfDecimal | cliente/myftp_skel.c:176 | the digits `%d` prints for a number denote that number |
| Replies.ParseReply | cliente/myftp_skel.c:49 | any message the parse yields is non-empty, contains no NUL, CR or LF, and does not start with white space |
| Replies.MessageText | cliente/myftp_skel.c:49 | the `%[^\r\n]` conversion after the code: any text it stores is non-empty, holds no NUL, CR or LF, and does not start with white space; nothing is stored exactly when nothing but white space (terminators included) is left; a stored text is a prefix of what follows that white space and stops only at its end or at a CR or LF (myftp_skel.c:49 is the same) |
| Replies.ParseReplyFrame | cliente/myftp_skel.c:49 | a frame `<code> <text>\r\n` whose text holds no NUL, CR or LF and does not start with white space parses back to that code and exactly that text, without the terminator; an empty text gives no message (the space in the pattern skips any leading white space, so `220  hi` gives `hi`) |
| Replies.Receive | cliente/myftp_skel.c:36-56 | the outcome is fatal exactly when `recv` returned 0; otherwise it warns exactly when `recv` returned less than 0, matches exactly when the parsed code is the expected one, and hands out text only when the caller passed a buffer; `recv_msg` in myftp_skel.c:36-55 is the same |
| Replies.ReceiveFrame | cliente/myftp_skel.c:49-55 | on a reply frame whose text holds no NUL, CR or LF and does not start with white space there is no warning, the code is the frame's, the match is exactly code equality, and the copied text is exactly the frame's text, present only when asked for and non-empty |
| Replies.Decode | cliente/myftp_skel.c:49-55 | the parse and comparison after the read: never fatal, the warning is the one passed in, a match exactly when the code found equals the expected one, no code exactly when `%d` fails, and a non-empty single-line text only when the caller passed a buffer (myftp_skel.c:49-54 is the same) |
| Replies.FailedReadOnlyWarns | cliente/myftp_skel.c:42-46 | a negative read is not fatal: it yields the same code, match and text as reading the stale buffer, plus a warning (likewise myftp_skel.c:42-46) |
| Commands.FrameShape | cliente/myftp_skel.c:64-77 | the buffer sent is BUFSIZE long, starts with `OP PARAM\r\n` (or `OP\r\n`), is zero after it, and holds that command as its C string |
| Commands.FormatCommand | cliente/myftp_skel.c:68-72 | the command text starts with the operation and ends in CR LF, and is longer than those exactly when a parameter is given (myftp_skel.c:68-71 is the same) |
| Commands.Frame | cliente/myftp_skel.c:65-76 | the buffer handed to `send` is always BUFSIZE bytes, whatever the command |
| Commands.UnframeFrame | cliente/myftp_skel.c:68-72 | a peer reading the buffer recovers exactly the operation and the parameter, or that there was none (the same `send_msg` is myftp_skel.c:63-78) |
| PortArgs.Octets | cliente/myftp_skel.c:168-173 | the four address fields are each at most 255, and read big-endian they give back the 32-bit address |
| PortArgs.PortBytes | cliente/myftp_skel.c:174-176 | `port/256` and `port%256` are each at most 255, and `hi*256 + lo` is the port |
| PortArgs.HostPort | cliente/myftp_skel.c:168-176 | the argument has six fields, each in [0,255] |
| PortArgs.PortArgument | cliente/myftp_skel.c:176 | the argument is at most 23 characters long and has no NUL, so it fits `portArgs` and the PORT command |
| PortArgs.FromHostPortOfHostPort | cliente/myftp_skel.c:168-174 | the six fields determine the endpoint: recombined, they give back its address and its port |
| PortArgs.ParseHostPortOfArgument | cliente/myftp_skel.c:168-176 | a server reading the argument as RFC 959 describes recovers exactly the address and the port |
| PortArgs.ExampleArgument | cliente/myftp_skel.c:176 | 203.0.113.5 port 4660 is sent as `203,0,113,5,18,52` |
| SizeReply.ParseSize | cliente/myftp_skel.c:230 | a size is found only in a message that starts with `File` |
| SizeReply.ParseSizeText | cliente/myftp_skel.c:230 | for any one-word file name, the size in `File <name> size <N> bytes` is read back exactly |
| SizeReply.SizeReplyRoundTrip | cliente/myftp_skel.c:222-230 | the whole 299 reply frame matches FILEXISTS, its text is handed out, and the size is read back from that text (the same parse is myftp_skel.c:171-178) |
| Transfer.CopyWritesWholeChunks | cliente/myftp_skel.c:193-199 | the file is exactly the first `written` chunks, each one whole, non-empty and in arrival order |
| Transfer.Copy | cliente/myftp_skel.c:193-199 | the `recv_file` loop writes no more chunks than the connection delivers and at least one byte per chunk written, so it writes nothing exactly when it writes no chunk |
| Transfer.CopyStopsAtBound | cliente/myftp_skel.c:193-199 | the copy stops on a 0-byte read exactly when reason PeerClosed is given; on a -1 read without writing it; and without writing once `received` exceeds the size; every chunk written, the last included, was written while the count was still within the size; it writes at most size - received + BUFSIZE bytes |
| Transfer.CopyWritesWithinSize | cliente/myftp_skel.c:193-198 | the size test precedes every write, so the last chunk written, like all before it, was written while the count of bytes written before it was at most the size |
| Transfer.RecvFile | cliente/myftp_skel.c:189-201 | the loop writes, stops and counts chunks as `Copy` does, and writes at most `fSize + BUFSIZE` bytes (nothing for a negative size) |
| Session.FgetsLineOverflows | cliente/myftp_skel.c:85-91 | as written, `read_input` can return a line, here 505 characters, whose USER command does not fit the buffer `send_msg` formats into |
| Session.InputLineFits | cliente/myftp_skel.c:70 | with input limited to BUFSIZE - 8 characters, every command built from a line fits, and every such line is one `fgets` can return |
| Session.VerdictsAt | myftp_skel.c:125 | the verdict of round `i` is what `recv_msg` makes of the `i`-th control read, a closed connection once the script is over |
| Session.RetriedUnique | myftp_skel.c:111-130 | the replies alone decide the number of rounds of a retry loop |
| Session.RetriedInScript | myftp_skel.c:111-130 | a retry loop ends at the latest on the read just past the scripted replies |
| Session.SizeUsed | cliente/myftp_skel.c:228-240 | the size `get` hands to `recv_file` is either the number `File %*s size %ld bytes` read from the 299 text or, when that pattern does not match, the value `f_size` already held |
| Session.SizeUsedOfAnnouncement | cliente/myftp_skel.c:222-240 | on a `299 File <name> size <N> bytes` reply with a one-word name, the size handed to `recv_file` is N, whatever `f_size` held before |
| Session.Client.RecvMsg | cliente/myftp_skel.c:36-56 | one control read is consumed, and the outcome is `Receive` of it |
| Session.Client.SendMsg | cliente/myftp_skel.c:64-79 | only a command that fits the buffer is sent, and exactly that send is appended to the trace |
| Session.Client.ReadInput | cliente/myftp_skel.c:85-91 | the next keyboard line is consumed, NULL once there is none, and it is a line commands can be built from |
| Session.Client.Greet | cliente/myftp_skel.c:345-350 | the session proceeds to authentication exactly when the first reply matches 220; otherwise the program ends |
| Session.Client.AuthenticateOnce | cliente/myftp_skel.c:97-136 | USER goes out with the first line; PASS goes out with the second only after the reply matches 331; the client is logged in only after 230; any other outcome ends the program, with the exact trace and the replies and lines consumed in each case |
| Session.Client.Round | myftp_skel.c:113-128 | one line is read, sent with the operation, and one reply is read; exactly one of each is consumed |
| Session.Client.Attempt | myftp_skel.c:111-130 | round `count` of a loop sends the `count`-th line and gets the `count`-th verdict, keeping the trace equal to one send per line so far |
| Session.Client.RetryUntil | myftp_skel.c:134-152 | a retry loop runs exactly the rounds `Retried` fixes, sends one command per line read, consumes one reply and one line per round, and accepts exactly when the last reply matched |
| Session.Client.AuthenticateRetry | myftp_skel.c:107-153 | USER is sent `k` times, until a 331 arrives, and only then PASS `m` times, until a 230 arrives; the trace is `USER^k PASS^m`; every earlier reply was a refusal; only a closed connection ends it otherwise |
| Session.Client.GetActive | cliente/myftp_skel.c:208-251 | PORT with the data endpoint, then RETR; on anything but 299 no file is opened and nothing is accepted; otherwise the file is opened, the connection accepted, the file's contents are `Copy` of the data connection bounded by `SizeUsed`: the announced size when the 299 text matches `File %*s size %ld bytes`, otherwise the arbitrary `unsetSize` standing for the unassigned `f_size`; and the 226 check is the result |
| Session.Client.GetStub | myftp_skel.c:160-196 | RETR without PORT; on anything but 299 no file is opened; otherwise the file is created empty and the 226 check is the result |
| Session.Client.Quit | cliente/myftp_skel.c:258-267 | QUIT without a parameter, then one reply checked against 221; the session terminates unless the connection was closed; myftp_skel.c:202-211 is the same |
| Scenarios.WelcomeLine | cliente/myftp_skel.c:345 | `220 Welcome` is an accepted greeting |
| Scenarios.PasswordLine | cliente/myftp_skel.c:113 | `331 Password required` is an accepted reply to USER |
| Scenarios.LoggedInLine | cliente/myftp_skel.c:130 | `230 Logged in` is an accepted reply to PASS |
| Scenarios.NotLoggedInLine | myftp_skel.c:125-149 | `530 Not logged in` is a refusal to both retry loops |
| Scenarios.SizeLine | cliente/myftp_skel.c:222-230 | `299 File report.txt size 5 bytes` is accepted and announces 5 bytes |
| Scenarios.OneChunk | cliente/myftp_skel.c:193-199 | a file that arrives in one chunk, no longer than announced, is written exactly, and the copy ends on the peer's close |
| Scenarios.Welcomed | cliente/myftp_skel.c:345-351 | after an accepted greeting the session is authenticating, with nothing sent |
| Scenarios.SignIn | cliente/myftp_skel.c:97-136 | with 331 and 230 replies the single-attempt client sends USER and PASS with the two lines and is logged in |
| Scenarios.Fetch | cliente/myftp_skel.c:208-251 | a logged-in client fetching an announced one-chunk file sends PORT and RETR, opens the file, accepts, stores exactly the data, and stays ready with the transfer confirmed |
| Scenarios.Download | cliente/myftp_skel.c:208-267 | a whole session: log in, fetch `name`, replacing any old copy, then quit; the exact seven-event trace; the session terminated |
| Scenarios.UnknownUser | cliente/myftp_skel.c:106-115 | a refused USER ends the program with no PASS sent |
| Scenarios.TwoRounds | myftp_skel.c:111-130 | over replies that refuse once and then accept, a retry loop takes exactly two rounds and ends accepted |
| Scenarios.PersistentLogin | myftp_skel.c:107-153 | with one refusal for each of USER and PASS, the retrying client sends USER, USER, PASS, PASS with the next keyboard line each time and is logged in |

## Left out

- Sockets: `socket`, `bind`, `listen`, `getsockname`, `accept`, `connect` and `close` are calls into the operating system. The data endpoint is a parameter of `GetActive`. The accepted connection is the chunk sequence it reads, and errors of these calls are not modelled.
- `main`'s argument checks, `inet_pton` and `atoi`, and exit codes. They are command-line plumbing; `errx` is the phase `Exited`.
- `operate` and the inside of `read_input` (`fgets`, `strtok`, `strcmp`) are terminal I/O. The keyboard is a given list of lines. A `get` typed without a name (`strtok` returning NULL) is not modelled: `GetActive` and `GetStub` take a name.
- Output of `printf`, `warn`, `perror` and `errx`. Only the outcome is modelled: a warning flag, the phase, the result. The swapped `perror`/`printf` branches of `quit` change only what is printed.
- `fopen`, `fwrite` and `fclose`: the local directory is a map from names to contents. A failing `fopen` is not modelled.
- `malloc` failure in `read_input` is not modelled.
- Failed sends: `send` returning less than 0 only warns, so `SendMsg` always records the send.
- Replies.Receive: when `%d` finds no number, the C compares an unassigned code variable. The model reports no code and no match instead of modelling the undefined value.
- Replies.Receive: when `%[^\r\n]` matches nothing, the C copies an unassigned buffer. The model hands out no text.
- Replies.Receive: `%d` into an `int` and `%ld` into a `long` are unbounded integers here. Overflow of an out-of-range number is not modelled.
- Replies.Receive: a `Data` frame has no length bound, although one `recv` into the BUFSIZE buffer returns at most 512 bytes; `ReceiveFrame` and `ParseReplyFrame` therefore also cover frames no single read delivers. A frame is read as given. A `recv` that does not NUL-terminate the buffer, where `sscanf` would read past the bytes received, is not modelled.
- Transfer.RecvFile: `received` is an unbounded integer, so its `long` overflow is not modelled.
- Session.Client.GetActive: the old contents of a local file are replaced when it is opened. The model writes the whole received contents at once after the copy, which gives the same final state.
- Commands.FrameShape: the model requires the command to fit BUFSIZE with its NUL, rather than modelling `sprintf` writing past the buffer.

## Findings

| source | as written | input that shows it | evidently intended | confidence | as-written member | corrected member |
|---|---|---|---|---|---|---|
| cliente/myftp_skel.c:85-91 | `read_input` accepts lines of up to BUFSIZE - 1 = 511 characters, but `send_msg` formats `USER <line>\r\n` into a 512-byte buffer, which needs the line to be at most 504 characters | a 505-character user name: the command takes 512 characters plus the NUL, so `sprintf` writes past the buffer | input lines limited so that every command built from them fits the buffer (at most BUFSIZE - 8 characters) | not executed | Session.FgetsLineOverflows | Session.InputLineFits |
