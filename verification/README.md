# A verified model of the hard parts of the W600 SDK

This project models the parts of the SDK that hold real logic and proves what
they promise. `dafny verify dfyconfig.toml` checks all of it.

## What is modelled

**The HTTP header parser and connection loop of the SSL demo server**
(`Demo/wm_ssl_server_demo.c`). `HttpScan` says what the parser computes: a
one-pass, line-by-line scan of the whole byte stream, together with what that
scan means position by position. `HttpParser` is the parser itself, over the
connection's parse buffer, the caller's receive buffer (whose CRs it overwrites,
and of which it may take in a byte too many) and an allocator that allows each
block to be freed once. Feeding a stream in chunks gives the answer of the scan of
the concatenation, except that a continuation of an open line longer than 256
bytes is an error; this exception is stated exactly. `HttpPass` says what one pass
over the connections comes to when they all read into the one static buffer: what
a burst of reads amounts to against the stream it is part of, and when an outcome
depends on bytes that other reads left in the buffer. `HttpServer` is the code: `selectLoop` moves the
entries of the connection records to a second ring and back around `select`
(`EntryList` has the list macros, `ConnLists` the two rings), and exactly those
connections whose outcome says so are closed, in order, with every block of
memory accounted for. `HttpRuns` puts the passes one after another; the server
loop is proved to come to what it says. `HttpLaws` says what all this means without
the functions that decide it: who stays open, for what reason a connection is
closed, that every descriptor is closed once, and when the server ends.

**The argument text of the demo console** (`Demo/console/wm_demo_console_task.c`).
`ConsoleText` defines splitting, trimming and unquoting on texts, and the
obvious printer (quote, escape, join with commas), and reading a number. `Console`
does the same in place over the receive buffer, up to the call of the command, and
`ConsoleArgs` says what a command gets of strings, bare texts and numbers as they
are typed (the body of `strtodec` is in `Platform/Common/utils/utils.c`, lines 209 to 242).
Parsing undoes printing if and only if every quoted string fits the 8-bit length,
no string but the last ends in a backslash, and the command takes as many
arguments as there are.

**The UART ring buffer** (`Include/Driver/wm_uart.h`). `RingIndex` derives what
the index macros compute from their masked 32-bit form. `RingProtocol` lets one
producer and one consumer use them with stale views of each other's index, in
any interleaving. `UartRead` is `tls_uart_read` on such a buffer (its body is in
`Platform/Drivers/uart/wm_uart.c`, lines 1100 to 1138).

**The intrusive lists** (`Include/list.h`, `ayla/drivers/list.h`). `Rings`
holds the cyclic heap structure and what one insertion or removal does to it;
`DlList` and `RtList` are the list functions, proved to be the expected
sequence operations, with deletion-safe iteration and the null-terminated
single list.

**Concurrent tasks.** `SocketServer` is the state machine of the socket server's
accept and receive tasks sharing the connection table
(`Demo/wm_socket_server_demo.c`), `UartEcho` that of the UART demo's interrupt
and echo task (`Demo/wm_uart_demo.c`), `WebSocket` that of the websocket demo's
session task and callbacks (`Demo/wm_websockets_demo.c`). Each comes with the
code of its tasks over their shared record (`SocketTasks`, `UartTask`,
`WebSocketTask`), proved to take only steps of the machine.

**The traffic indication map lookup** (`Include/WiFi/wm_ieee80211.h`). `Tim`
encodes a set of association identifiers as section 7.3.2.6 of IEEE 802.11-2007
says, and proves that the lookup answers membership.

**The image tools** (`Tools/makeimg.py`, `Tools/makeimg_fls.py`). `ImageFile`
has the header fields and a file written by seeking; `MakeImg` and `FlsImage`
are the two tools.

`Bytes`, `Bits` and `Decimals` hold what the modules share.

## Where the code does less than it seems to

Each of these is stated as an exact condition or shown by a reachable state.

* A request that is completed by a read announcing more data is forgotten
  (`HttpPass.ForgottenRequest`; `HttpPass.BurstAnswer` says exactly when a burst is
  answered as its stream says).
* Bytes that other reads left in the static buffer, of this connection or another,
  can decide what becomes of a connection, in exactly two cases
  (`HttpPass.LeftoverSeen`). A read that neither fails nor stores anything, as at the
  end of a stream, has the parser read the whole buffer (`HttpPass.LeftoverDecides`).
  A chunk that continues a saved line without ending it is taken together with the
  byte behind it if that is a newline (`HttpScan.ExtraByteMatters`,
  `HttpPass.LeftoverNewline`).
* The record of a connection whose handshake fails is never freed
  (`HttpServer.SslServer.SelectLoop`, `leaked`).
* A printed string that ends in a backslash swallows the argument behind it, and
  a quoted string of more than 256 bytes keeps its closing quote
  (`ConsoleText.RoundTrip`). An argument that is a lone quote has the backslashes
  among the 255 bytes behind it dropped and a NUL put behind them
  (`Console.QuotationFilter`).
* For a size of 2^31, `CIRC_CNT_TO_END` fails with a tail of 0
  (`RingIndex.CountToEnd`), so that nothing is ever read (`RingProtocol.NeverReads`;
  for every smaller size all can be, `RingProtocol.AllCanBeRead`), and the `_FULL` variant grants no slot more when head
  and tail are both 0 (`RingIndex.SpaceToEndFull`).
* With the accept task preempting, a descriptor accepted while the last place is
  being vacated stays open and in no slot (`SocketServer.AcceptedIsStored`,
  `SocketServer.Stranded`); without the priority the count can become negative
  (`SocketServer.NegativeCount`).
* Bytes that arrive between the load and the store of `rx_data_len -= ret` are
  never echoed (`UartEcho.TornDecrement`); with no such interrupt all bytes are.
* The seventh watchdog tick ends the session unless a callback of the same
  service call reports the connection established (`WebSocket.SeventhTick`); a run
  reaches that case (`WebSocket.SeventhTickSurvived`).
* Without a dot in the version file the image header is ten bytes short
  (`MakeImg.BodyPlace`); an application image below 312 bytes leaves a hole of
  zeros where the layout promises 0xFF (`FlsImage.LayoutHolds`), and a second
  boot image above 57144 bytes is overwritten (`FlsImage.SecSurvives`). The
  header comment of `makeimg_fls.py` promises 0xFF padding throughout; the model
  follows the code.

## Model

| member | source | states |
|---|---|---|
| HttpScan.ScanMeaning | Demo/wm_ssl_server_demo.c:725-764 | the scan answers ERROR, COMPLETE or PARTIAL exactly by the first deciding newline of the stream: one without a CR in front, an empty CRLF line, or none |
| HttpScan.PendingMeaning | Demo/wm_ssl_server_demo.c:755-765 | what is saved for the next call is the longest suffix of the stream without a newline |
| HttpScan.ScanSplit | Demo/wm_ssl_server_demo.c:701-723 | a decision is final, and an undecided prefix is summed up by its open line |
| HttpScan.FeedCases | Demo/wm_ssl_server_demo.c:690-782 | one call on any chunk, by cases on the line it closes: answer, saved line and the bytes left in the buffer |
| HttpScan.ExtraByteMatters | Demo/wm_ssl_server_demo.c:701-712 | when the byte behind the chunk is taken in too, and that it changes the outcome of the call exactly when the fragment is not too long anyway |
| HttpScan.RunIsScan | Demo/wm_ssl_server_demo.c:680-782 | feeding the chunks of any split gives the one-pass scan of the concatenation, or ERROR for an oversize continuation; the saved line is that of the stream |
| HttpScan.ChunkIndependence | Demo/wm_ssl_server_demo.c:680-782 | the split is invisible if and only if no undecided line is continued by more than 256 bytes, or the stream is an error anyway |
| HttpScan.RunAppend | Demo/wm_ssl_server_demo.c:701-723 | a connection fed over several passes: the passes compose |
| HttpScan.BlankMeaning | Demo/wm_ssl_server_demo.c:729-766 | parsing overwrites exactly the CRs that end a line before the answer is decided; no byte at or behind the deciding newline |
| HttpScan.OversizeMeans | Demo/wm_ssl_server_demo.c:703-713 | a continued line is refused exactly when the chunk is longer than 256 bytes and the first 256 of them do not end it |
| HttpScan.FeedBufferMeaning | Demo/wm_ssl_server_demo.c:690-782 | a call overwrites exactly the CRs that end a line before the answer is decided, but none in the fragment that was moved behind a saved line |
| HttpScan.LifeMeans | Demo/wm_ssl_server_demo.c:701-765 | an open connection holds the longest suffix without a newline of all bytes fed to it since it was opened or last completed a request, and these together decide nothing yet |
| HttpScan.TakeMeans | Demo/wm_ssl_server_demo.c:680-782 | the next chunk, in whatever pass it comes, is answered as the scan of those bytes and the chunk says, or refused for its size |
| HttpParser.SeekNewline | Demo/wm_ssl_server_demo.c:726 | the loop stops at the first newline or at the end |
| HttpParser.ParseLine | Demo/wm_ssl_server_demo.c:726-767 | one pass of the parse loop: the kind of the line, and its CR replaced by NUL |
| HttpParser.ParseLines | Demo/wm_ssl_server_demo.c:725-781 | the loop terminates with the answer of the scan and the open line, the buffer blanked as specified |
| HttpParser.HttpConn.Splice | Demo/wm_ssl_server_demo.c:714-716 | the saved line grows by the fragment, the old block is gone |
| HttpParser.HttpConn.Save | Demo/wm_ssl_server_demo.c:758-763 | the open line is copied to a block of its own |
| HttpParser.HttpConn.ParseSaved | Demo/wm_ssl_server_demo.c:701-776 | splices the fragment, parses the saved line and drops it once it is complete |
| HttpParser.HttpConn.ParseRest | Demo/wm_ssl_server_demo.c:725-781 | parses the rest of the buffer and saves the open line |
| HttpParser.HttpConn.ParseContinued | Demo/wm_ssl_server_demo.c:701-781 | a call that continues a saved line: the fragment is spliced and parsed, then the rest of the bytes the call takes in |
| HttpParser.HttpConn.Parse | Demo/wm_ssl_server_demo.c:680-782 | one call on the parse buffer and the bytes it takes in: the answer and saved line specified, the buffer blanked as specified, every block freed at most once |
| HttpParser.HttpConn.BasicParse | Demo/wm_ssl_server_demo.c:680-782 | one call over the life of the connection: the saved line stays that of all bytes fed since it was opened or last completed a request |
| HttpPass.BurstAnswer | Demo/wm_ssl_server_demo.c:562-630 | a burst of reads is answered as its stream says if and only if no announcing read completes the request, or the last read completes another |
| HttpPass.StreamIsWhole | Demo/wm_ssl_server_demo.c:562-630 | that stream answer is the one-pass scan of all bytes fed to the connection since it was opened or last completed a request, or the error for an oversize continuation |
| HttpPass.ForgottenRequest | Demo/wm_ssl_server_demo.c:576-591 | a burst whose stream is a complete request, kept open unanswered, and then fed as if nothing had come before |
| HttpPass.BufferUnseen | Demo/wm_ssl_server_demo.c:562-591 | an outcome does not depend on what the static buffer held when every byte that counts was stored by the connection's own reads |
| HttpPass.NewlineBehind | Demo/wm_ssl_server_demo.c:703-719 | a newline left behind bytes that continue an open line ends that line |
| HttpPass.LeftoverSeen | Demo/wm_ssl_server_demo.c:562-591 | when announcing reads fill the buffer, an outcome depends on what the buffer held if and only if the only read stores nothing or continues the open line without ending it |
| HttpPass.Independent | Demo/wm_ssl_server_demo.c:550-632 | a connection of which only its own bytes count ends as if it were served alone, whatever the connections before it do |
| HttpPass.LeftoverDecides | Demo/wm_ssl_server_demo.c:562-591 | two passes in which a second connection meets the same end of stream, and ends answered or as an error depending on what the first connection sent |
| HttpPass.LeftoverNewline | Demo/wm_ssl_server_demo.c:703-719 | a pass in which a newline sent by the first connection makes the second, served the same two bytes of a line, end as an error instead of staying open |
| HttpRuns.ClosingsAre | Demo/wm_ssl_server_demo.c:858-885 | the sessions closed in a pass are those of the connections dropped, in order |
| HttpRuns.RunConserves | Demo/wm_ssl_server_demo.c:842-845 | over any run of passes the descriptors of all connections that were open or joined are those still open and those whose session was closed, each as often |
| HttpRuns.RunMeans | Demo/wm_ssl_server_demo.c:842-845 | over any run of passes from connections of which the same holds, every open connection holds the pending line of all bytes fed to it since it was opened or last completed a request, which decide nothing yet |
| HttpLaws.StaysWhen | Demo/wm_ssl_server_demo.c:562-630 | a readable connection stays open if and only if its last read did not fail, the last answer of the parser is that the request goes on, and the open line does not start with the fifteen letters that ask for the end |
| HttpLaws.FailedReadCloses | Demo/wm_ssl_server_demo.c:567-571 | a failed read closes the connection with reason -6, unless an announcing read was an error before (-12); no response, no end of the server |
| HttpLaws.ClosedWhy | Demo/wm_ssl_server_demo.c:582-630 | what each other answer gives: an error -12; a complete request a response and 0, or -12 when the write fails; the line that asks for the end -6 and the end of the server |
| HttpLaws.OneRead | Demo/wm_ssl_server_demo.c:562-630 | one read by itself: the response is tried exactly when the scan of all bytes fed says the request is complete, and the connection stays open exactly when it says nothing yet, but for the limit of 256 bytes and the line that asks for the end |
| HttpLaws.AnnouncedParsesAll | Demo/wm_ssl_server_demo.c:562-591 | a read that announces more data has all 1024 bytes of the buffer parsed, its own in front |
| HttpLaws.KeptAt | Demo/wm_ssl_server_demo.c:550-632 | the connections kept stay in their order, each with its own life |
| HttpLaws.ClosingsSay | Demo/wm_ssl_server_demo.c:858-885 | the descriptors closed in a pass are those of the connections dropped, each once and in order; each is reported with its own reason; the responses are written on those whose outcome says so |
| HttpLaws.RunClosesSockets | Demo/wm_ssl_server_demo.c:858-885 | over any run of passes the sessions closed are those of the connections dropped, and the descriptors closed those of them other than -1 and those of the refused handshakes, each as often |
| HttpLaws.EndsWhen | Demo/wm_ssl_server_demo.c:592-602 | the server is told to end by a pass if and only if a reported connection whose last read did not fail, and whose request goes on, has a line open that asks for it |
| HttpLaws.FailedAreClosed | Demo/wm_ssl_server_demo.c:562-571 | after any run no connection is open on which recv failed on the way |
| EntryList.Init | Src/App/matrixssl/core/list.h:98-99 | the empty ring |
| EntryList.InsertTail | Src/App/matrixssl/core/list.h:111-117 | the sequence s + [node] |
| EntryList.GetHead | Src/App/matrixssl/core/list.h:140-143 | takes the first entry out and leaves the ring of the others |
| EntryList.Remove | Src/App/matrixssl/core/list.h:120-123 | takes an entry out at any place, from its own links |
| EntryList.MoveHead | Demo/wm_ssl_server_demo.c:478-480 | the first entry of one ring becomes the last of another; both stay rings with no entry in common |
| ConnLists.Lists.constructor | Demo/wm_ssl_server_demo.c:457-457 | two empty rings |
| ConnLists.Lists.NoConns | Src/App/matrixssl/core/list.h:125-125 | the pointer test is true exactly for the empty list |
| ConnLists.Lists.Detach | Demo/wm_ssl_server_demo.c:478-480 | the first connection goes to the end of the list of the pass |
| ConnLists.Lists.Reattach | Demo/wm_ssl_server_demo.c:552-554 | the first connection of the pass goes back to the end of g_conns |
| ConnLists.Lists.Join | Demo/wm_ssl_server_demo.c:543-543 | a new connection goes to the end of the list of the pass |
| ConnLists.Lists.Remove | Demo/wm_ssl_server_demo.c:860-860 | a connection leaves the list, the others stay in order |
| ConnLists.Lists.DetachAll | Demo/wm_ssl_server_demo.c:459-489 | all connections move over in order; every descriptor is below the bound given to select, which is attained |
| ConnLists.Lists.ReattachAll | Demo/wm_ssl_server_demo.c:494-500 | a failed select puts the connections back in their order |
| HttpServer.SslServer.constructor | Demo/wm_ssl_server_demo.c:799-800 | the server starts with no connection and its exit flag clear |
| HttpServer.SslServer.ReadAnnounced | Demo/wm_ssl_server_demo.c:562-591 | reading again while more data is announced, over the one buffer |
| HttpServer.SslServer.ReadLast | Demo/wm_ssl_server_demo.c:562-587 | the last read: without bytes stored, the whole buffer is parsed |
| HttpServer.SslServer.Conclude | Demo/wm_ssl_server_demo.c:582-630 | behind the last parse: the shutdown text, the response and its failure, and the reason each gives for closing |
| HttpServer.SslServer.ServeConn | Demo/wm_ssl_server_demo.c:562-630 | one readable connection: kept or closed for the reason `HttpLaws.StaysWhen`, `HttpLaws.FailedReadCloses` and `HttpLaws.ClosedWhy` say, the response written exactly when they say, with the buffer, its life and all memory accounted for |
| HttpServer.SslServer.CloseConn | Demo/wm_ssl_server_demo.c:858-885 | the entry leaves the ring, session and descriptor are closed and reported with the reason, each once (`HttpLaws.ClosingsSay`), the buffer and the record are freed once |
| HttpServer.SslServer.ServeNext | Demo/wm_ssl_server_demo.c:552-630 | the first connection of the pass moves back, is served, and leaves again if its outcome closes it |
| HttpServer.SslServer.ServeAll | Demo/wm_ssl_server_demo.c:550-632 | over the two rings: the list ends as exactly the kept connections in order, each served once, leading the lives their outcomes say; the others were closed in order for their reasons; the buffer is as the last one left it |
| HttpServer.SslServer.Accounted | Demo/wm_ssl_server_demo.c:550-632 | behind a pass the list and the connections closed are together all connections, each once; one stays exactly when its own outcome says so |
| HttpServer.SslServer.Accept | Demo/wm_ssl_server_demo.c:516-547 | at most one connection joins behind the others; a failed handshake closes the descriptor, leaks its record and nothing else |
| HttpServer.SslServer.SelectLoop | Demo/wm_ssl_server_demo.c:441-634 | one pass: return code 0, -7 or -13, connections, calls made, exit flag, buffer, select bound, and every block in use owned once or leaked by a failed handshake |
| HttpServer.SslServer.ServerIdle | Demo/wm_ssl_server_demo.c:842-845 | any number of passes, up to the one that asks for the end: descriptors, lives, buffer, flag and calls are those the passes come to one after another, so that the results on runs hold of the code |
| ConsoleText.SeparatorIsFirst | Demo/console/wm_demo_console_task.c:50-74 | the comma found is the first that separates |
| ConsoleText.UnescapeEscape | Demo/console/wm_demo_console_task.c:102-109 | dropping backslashes undoes escaping, whatever follows |
| ConsoleText.UnquoteQuoted | Demo/console/wm_demo_console_task.c:88-123 | a quoted string is unquoted to itself exactly when it has at most 256 bytes with its quotes and backslashes |
| ConsoleText.QuotedHolds | Demo/console/wm_demo_console_task.c:56-71 | no separator lies inside a quoted string; the comma behind it separates exactly when the string does not end in a backslash |
| ConsoleText.PrintableMeans | Demo/console/wm_demo_console_task.c:63-90 | which lists of strings can be printed, string by string |
| ConsoleText.FieldsOfPrinted | Demo/console/wm_demo_console_task.c:229-260 | a printable list splits into its quoted strings, as many as the command takes |
| ConsoleText.RoundTrip | Demo/console/wm_demo_console_task.c:229-296 | splitting, trimming and unquoting any printed list gives the list back if and only if it is printable and the command takes that many |
| ConsoleText.NumberArrives | Demo/console/wm_demo_console_task.c:285-294 | a printed number is read as itself if and only if it fits a signed 32-bit variable |
| ConsoleText.PrintedAddsNothing | Demo/console/wm_demo_console_task.c:203-204 | the printer adds no byte, such as a closing parenthesis, that could end the argument text |
| ConsoleArgs.FieldsOfJoined | Demo/console/wm_demo_console_task.c:229-260 | a list of bare texts without commas and of quoted strings, in any mixture, joined by commas splits into itself, as far as the command takes arguments |
| ConsoleArgs.BareRoundTrip | Demo/console/wm_demo_console_task.c:73-74 | a list of texts that start without a quote, joined by commas, splits back into itself if and only if none holds a comma and the command takes that many |
| ConsoleArgs.NumbersArrive | Demo/console/wm_demo_console_task.c:229-294 | printed numbers joined by commas arrive as many as the command takes, each as itself if and only if it fits a signed 32-bit variable |
| ConsoleArgs.TrimMeans | Demo/console/wm_demo_console_task.c:263-272 | the blanks around a text go, however many, and nothing else |
| ConsoleArgs.UnescapeSpelled | Demo/console/wm_demo_console_task.c:102-109 | whichever bytes of a text are escaped, the backslashes among them, the text comes back: an escaped byte stands for itself |
| ConsoleArgs.RefusedExactly | Demo/console/wm_demo_console_task.c:285-294 | a number between blanks is refused if and only if something is left that is not decimal digits, at least one, behind a minus sign or none |
| ConsoleArgs.ZerosInFront | Demo/console/wm_demo_console_task.c:285-294 | zeros in front make no difference to a number |
| Console.GetFirstComma | Demo/console/wm_demo_console_task.c:50-74 | finds the first separator of the C string, or none |
| Console.TrimField | Demo/console/wm_demo_console_task.c:263-272 | the argument without the blanks around it, in place |
| Console.UnescapeInPlace | Demo/console/wm_demo_console_task.c:102-110 | the shifting loop leaves the unescaped text, and nothing else changes |
| Console.DropQuotes | Demo/console/wm_demo_console_task.c:98-111 | the closing quote and the backslashes go; behind a lone quote the bytes specified are rewritten |
| Console.QuotationFilter | Demo/console/wm_demo_console_task.c:88-123 | leaves the unquoted text at the pointer returned; reports exactly an opening quote whose end was not found; nothing outside changes, except behind a lone quote, where it says what |
| Console.EndArgument | Demo/console/wm_demo_console_task.c:236-259 | ends one argument; the branch for more behind the last one is dead |
| Console.Split | Demo/console/wm_demo_console_task.c:229-260 | the arguments are the specified fields, each a C string of its own stretch of the buffer, and by `ConsoleArgs.FieldsOfJoined` what was typed between the commas; remain_len stays the length left |
| Console.ReadNumber | Demo/console/wm_demo_console_task.c:285-294 | the loop reads a decimal number, in wrapping 32-bit arithmetic, and refuses exactly what is none |
| Console.TakeValue | Demo/console/wm_demo_console_task.c:263-295 | one parameter: missing, a number or refused, or the unquoted string |
| Console.TakeValues | Demo/console/wm_demo_console_task.c:261-296 | every argument is delivered and none disturbs another, or the command is refused exactly when an argument should be a number and is not |
| Console.Defaults | Demo/console/wm_demo_console_task.c:298-308 | a null pointer or -1 for each parameter behind the arguments |
| Console.ParseArguments | Demo/console/wm_demo_console_task.c:229-308 | the parameters of a command from the text between its parentheses, or its refusal |
| Console.Execute | Demo/console/wm_demo_console_task.c:125-175 | a command is called, unless refused, with its parameters in order, null or -1 behind the arguments: exactly as many as it takes up to ten, and none if it takes more |
| Console.PrintedArrives | Demo/console/wm_demo_console_task.c:229-296 | however a printed list was split, its strings are what the parameters point to if and only if it is printable and the command takes that many |
| Console.CallPrinted | Demo/console/wm_demo_console_task.c:229-310 | with a printable list between the parentheses of the buffer, a command that takes up to ten parameters is called with exactly that many, the strings first |
| Console.CallGiven | Demo/console/wm_demo_console_task.c:229-310 | with quoted strings, bare texts and numbers in any mixture between the parentheses, a command that takes up to ten parameters is called with exactly that many: each string as it was, each bare text without the blanks around it, each number in 32 bits, then the defaults |
| RingIndex.CountAndSpace | Include/Driver/wm_uart.h:64-69 | count and space for every power of two, and count + space = size - 1 |
| RingIndex.CountToEnd | Include/Driver/wm_uart.h:74-77 | the run of items is min(count, size - tail), exactly up to what a signed int holds |
| RingIndex.SpaceToEnd | Include/Driver/wm_uart.h:80-83 | the run of free slots is min(space, size - head) |
| RingIndex.SpaceToEndFull | Include/Driver/wm_uart.h:85-88 | the variant grants one slot more exactly when tail is 0, for every size but 2^31 with head and tail both 0 |
| RingProtocol.StepInv | Include/Driver/wm_uart.h:71-83 | every step of either side keeps indices, counts and contents coupled |
| RingProtocol.ReadsArePrefix | Include/Driver/wm_uart.h:227-232 | over every interleaving the bytes read are a prefix of the bytes written |
| RingProtocol.ConsumerRunIsUnread | Include/Driver/wm_uart.h:74-77 | a run granted by CIRC_CNT_TO_END with a stale head holds unread items only |
| RingProtocol.ProducerRunIsFree | Include/Driver/wm_uart.h:80-83 | a run granted by CIRC_SPACE_TO_END with a stale tail holds free slots only |
| RingProtocol.AllCanBeRead | Include/Driver/wm_uart.h:74-77 | whatever has happened on a buffer of less than 2^31 bytes, the consumer alone can go on until it has read all that is published |
| RingProtocol.AllCanBeWritten | Include/Driver/wm_uart.h:80-83 | whatever has happened, the producer alone can write any bytes that leave one slot free behind those not given back |
| RingProtocol.NeverReads | Include/Driver/wm_uart.h:74-77 | on a buffer of 2^31 bytes no run ever reads anything |
| UartRead.BetweenSplit | Include/Driver/wm_uart.h:363-374 | the first n unread bytes lie in one or two pieces, and the rest behind the moved tail |
| UartRead.ReceiveBuffer.Read | Include/Driver/wm_uart.h:363-374 | copies out and consumes min(requested, unread) bytes, oldest first |
| Rings.Around | Include/list.h:72-78 | next and prev are inverse at every node of a ring |
| Rings.Inserted | Include/list.h:72-78 | linking a node in behind any other gives the ring with it, all other links unchanged |
| Rings.Removed | Include/list.h:104-110 | unlinking any node gives the ring without it |
| DlList.Init | Include/list.h:56-60 | the empty list |
| DlList.AddBehind | Include/list.h:72-78 | insertion behind any node of the ring, writing only the two neighbours and the node |
| DlList.Add | Include/list.h:72-78 | the sequence [item] + s |
| DlList.AddTail | Include/list.h:90-93 | the sequence s + [item] |
| DlList.Del | Include/list.h:104-110 | removes exactly the node, at any position, and unlinks it |
| DlList.Empty | Include/list.h:122-125 | true exactly for the empty list |
| DlList.Len | Include/list.h:136-143 | terminates with the length |
| DlList.ChosenMeans | Include/list.h:232-236 | a node remains exactly when the loop's body kept it |
| DlList.ForEachSafe | Include/list.h:232-236 | a body that deletes or keeps each node visits every original node once, in order, and leaves exactly the kept ones, the others unlinked |
| RtList.Init | ayla/drivers/list.h:22-25 | the empty list |
| RtList.InsertAfter | ayla/drivers/list.h:33-40 | insertion behind any node |
| RtList.InsertBefore | ayla/drivers/list.h:48-55 | insertion in front of any node |
| RtList.Remove | ayla/drivers/list.h:61-67 | leaves both the ring and the node well formed; a second call changes nothing |
| RtList.Len | ayla/drivers/list.h:82-93 | terminates with the length |
| RtList.ChainIsDistinct | ayla/drivers/list.h:185-196 | a chain that ends in null never comes back to a node |
| RtList.SlistInit | ayla/drivers/list.h:162-165 | the empty single list |
| RtList.SlistAppend | ayla/drivers/list.h:167-177 | the sequence s + [n]; no link but the last changes |
| RtList.SlistInsert | ayla/drivers/list.h:179-183 | the sequence [n] + s |
| RtList.SlistLen | ayla/drivers/list.h:185-196 | terminates with the length |
| RtList.SlistRemove | ayla/drivers/list.h:198-208 | takes out exactly n, or nothing when n is absent |
| RtList.SlistTail | ayla/drivers/list.h:215-220 | the last node, or the head of an empty list |
| RtList.SlistIsEmpty | ayla/drivers/list.h:227-230 | true exactly for the empty list |
| SocketServer.StepInv | Demo/wm_socket_server_demo.c:103-167 | every step of either task keeps the table, the place of the tasks and the reported connections coupled |
| SocketServer.ReceiveOnReady | Demo/wm_socket_server_demo.c:130-139 | in every interleaving recv is called only on a live descriptor that select reported, for the connection it reported, even if numbers are reused |
| SocketServer.StoreIsSafe | Demo/wm_socket_server_demo.c:584-588 | the accept task fills only an empty slot that is not being closed |
| SocketServer.Counting | Demo/wm_socket_server_demo.c:140-152 | occupied slots = conn_num + one just leaving + one just entering, in every interleaving |
| SocketServer.CountBounds | Demo/wm_socket_server_demo.c:582-598 | with the accept task preempting, 0 <= conn_num <= occupied <= 7, equal exactly outside the two windows |
| SocketServer.CountShortfall | Demo/wm_socket_server_demo.c:140-152 | without the priority the count is at least -1, and negative exactly in one window |
| SocketServer.AcceptedIsStored | Demo/wm_socket_server_demo.c:582-607 | what becomes of an accepted descriptor, with the exact condition under which it is stranded |
| SocketServer.NegativeCount | Demo/wm_socket_server_demo.c:146 | a run without the priority that reaches a negative count |
| SocketServer.Stranded | Demo/wm_socket_server_demo.c:582-598 | a run with the priority that strands a descriptor |
| SocketServer.SevenHeld | Demo/wm_socket_server_demo.c:582-598 | a run with seven connections in the table, all counted |
| SocketTasks.AcceptMeans | Demo/wm_socket_server_demo.c:573-607 | an answer of accept that is an error is passed over; with seven connections the new one is closed again; otherwise it gets an empty slot and is counted, but for the one case in which it is stranded |
| SocketTasks.SockServer.Enter | Demo/wm_socket_server_demo.c:584-598 | the accept task's search loop runs the machine until it waits again, and disturbs no taken slot |
| SocketTasks.SockServer.Accept | Demo/wm_socket_server_demo.c:573-607 | one answer of accept: rejected, stored or stranded as the machine says |
| SocketTasks.SockServer.Collect | Demo/wm_socket_server_demo.c:101-114 | the descriptors watched, while connections come in: none that is in a slot is left out, and every slot is kept |
| SocketTasks.SockServer.Leave | Demo/wm_socket_server_demo.c:140-152 | closes, uncounts and empties one slot and takes its descriptor out of the reported set; every other slot keeps its connection or is filled with a new one |
| SocketTasks.SockServer.ReceivePass | Demo/wm_socket_server_demo.c:103-167 | one pass, with accepts before any statement: recv is called on ready connections only; every connection reported and found closed has left, its descriptor closed and its slot empty unless a connection accepted in the meantime has them; no other leaves its slot; the count ends as the number of taken slots |
| UartEcho.ReplayInv | Demo/wm_uart_demo.c:53-132 | every run of interrupts and task steps keeps bytes conserved, wake-ups owed and messages counted |
| UartEcho.EchoIsPrefix | Demo/wm_uart_demo.c:111-126 | what was echoed is always a prefix of what was received |
| UartEcho.NeverPads | Demo/wm_uart_demo.c:114-125 | the task never asks for more than there is, so that len and ret agree |
| UartEcho.RoundReads | Demo/wm_uart_demo.c:114-120 | a round of the loop reads all that is left of what the task knows of, at most 1024 bytes, the oldest first |
| UartEcho.DataLenIs | Demo/wm_uart_demo.c:111-123 | rx_data_len is received minus echoed, less what torn decrements missed |
| UartEcho.IdleMeansEchoed | Demo/wm_uart_demo.c:60-65 | no lost wake-up: when the task waits at an empty queue, everything is echoed if and only if no byte arrived inside a decrement |
| UartEcho.MessageCount | Demo/wm_uart_demo.c:61-65 | rx_msg_num is at most 3 and counts the messages queued and in progress, unless its decrement was torn |
| UartEcho.ThreeQueued | Demo/wm_uart_demo.c:61-65 | as long as the task does not run, the first three interrupts each send a message and no other does |
| UartEcho.Settles | Demo/wm_uart_demo.c:81-138 | left alone, the task comes to rest with all bytes echoed that were not missed |
| UartEcho.TornDecrement | Demo/wm_uart_demo.c:123 | bytes that arrive between load and store of the decrement are never echoed |
| UartEcho.TornIsReached | Demo/wm_uart_demo.c:123 | the first byte received can bring this about |
| UartEcho.TurnTakes | Demo/wm_uart_demo.c:84-132 | from a message to the next wait the queue loses this one message, and gains one for each interrupt that found fewer than three |
| UartEcho.TurnEchoes | Demo/wm_uart_demo.c:109-126 | in that turn exactly as many bytes are echoed as rx_data_len counted when the task looked at it, whatever arrives in between |
| UartTask.DemoUart.Rx | Demo/wm_uart_demo.c:53-68 | the interrupt callback is the interrupt step |
| UartTask.DemoUart.Begin | Demo/wm_uart_demo.c:109-111 | takes a message and reads how much there is |
| UartTask.DemoUart.ReadChunk | Demo/wm_uart_demo.c:114-120 | clears the buffer and reads into it |
| UartTask.DemoUart.EchoChunk | Demo/wm_uart_demo.c:122-125 | accounts for the bytes and writes them |
| UartTask.DemoUart.Round | Demo/wm_uart_demo.c:111-126 | one round of the loop, ending sooner when nothing was read |
| UartTask.DemoUart.CountOff | Demo/wm_uart_demo.c:128-131 | counts the message off |
| UartTask.DemoUart.Receive | Demo/wm_uart_demo.c:109-132 | the receive branch terminates and runs the machine from wait to wait, with exactly the interrupts that come at the places it passes: it takes one message first, and echoes as many bytes as were counted when it looked, also those that came since it was woken up; the queue ends at most as many longer as interrupts came |
| UartTask.DemoUart.WorkOff | Demo/wm_uart_demo.c:81-138 | with no more interrupts, branch after branch leaves the queue empty and the state the one in which the machine comes to rest |
| Tim.LookupInMap | Include/WiFi/wm_ieee80211.h:2000-2008 | the lookup reads inside the map, whatever the control octet says |
| Tim.OctetBit | Include/WiFi/wm_ieee80211.h:1997-2008 | a bit of an octet of the bitmap is set exactly for its identifier |
| Tim.EndsAreTight | Include/WiFi/wm_ieee80211.h:2000-2001 | the encoder sends as few octets as section 7.3.2.6 of IEEE 802.11-2007 asks |
| Tim.CheckIsMembership | Include/WiFi/wm_ieee80211.h:1987-2009 | for every set of identifiers and every 16-bit argument the lookup answers membership of its low 14 bits modulo 2048 |
| Tim.NothingWraps | Include/WiFi/wm_ieee80211.h:1996-2001 | for identifiers up to 2007 no 8-bit computation wraps |
| Tim.LookupMeans | Include/WiFi/wm_ieee80211.h:1987-2009 | for any element and length: no without an element or with less than four octets; otherwise the identifier's bit if its octet is among those sent, all in eight bits |
| WebSocket.NextInv | Demo/wm_websockets_demo.c:159-261 | every round keeps the session invariant, whatever callbacks come |
| WebSocket.NotifiedKeeps | Demo/wm_websockets_demo.c:80-125 | callbacks touch only the phase and the watchdog, and never lead back to the start |
| WebSocket.SessionIsSafe | Demo/wm_websockets_demo.c:163-242 | at each loop head INIT means no context, HANDLE means both handles, the branch for an illegal context is dead, watchDog is at most 6 |
| WebSocket.ContextsAlternate | Demo/wm_websockets_demo.c:180-251 | contexts are created and destroyed by turns |
| WebSocket.ExitDestroys | Demo/wm_websockets_demo.c:244-257 | leaving a session destroys its context once and starts afresh |
| WebSocket.SessionEnds | Demo/wm_websockets_demo.c:84-240 | exactly when a served session ends: by the last steering callback, or with none by a lost network or the watchdog |
| WebSocket.SeventhTick | Demo/wm_websockets_demo.c:226-240 | the seventh tick sets EXIT exactly unless the last word of the service call is an established connection |
| WebSocket.SeventhTickSurvived | Demo/wm_websockets_demo.c:226-240 | a run from the start whose seventh tick leaves the session being served |
| WebSocket.WatchDogCounts | Demo/wm_websockets_demo.c:105-232 | without a writeable callback the watchdog counts the ticks taken: a served session has at most six |
| WebSocket.TickKept | Demo/wm_websockets_demo.c:226-235 | a tick taken while the network is up is kept in oldTick, also when it ends the session, and nothing else changes oldTick |
| WebSocket.TicksApart | Demo/wm_websockets_demo.c:226-235 | over any run in which the clock does not run backwards two ticks taken lie more than HZ apart |
| WebSocket.TicksBounded | Demo/wm_websockets_demo.c:226-235 | so the ticks taken are at most the time passed divided by HZ + 1 |
| WebSocket.TicksAsk | Demo/wm_websockets_demo.c:228-233 | over any run each tick taken asks for a writeable callback, always with a connection handle, and nothing else does |
| WebSocket.StartsWhen | Demo/wm_websockets_demo.c:164-206 | at the start of a session nothing changes while the network is down; once it is up a context is created and the session is set up |
| WebSocket.ServedOrDestroyed | Demo/wm_websockets_demo.c:208-257 | a session set up is served if and only if connecting succeeds; when it fails, the next round destroys its context and starts afresh |
| WebSocket.WoundUp | Demo/wm_websockets_demo.c:105-106 | a writeable callback sets the watchdog back to 0, and no other callback changes it |
| WebSocket.SteeredMeans | Demo/wm_websockets_demo.c:80-125 | callbacks end or keep a session by the last of them that is an error, a closed connection, a failed write, or an established connection |
| WebSocketTask.LwsClient.CallbackNotify | Demo/wm_websockets_demo.c:80-125 | the callback is the callback step |
| WebSocketTask.LwsClient.Start | Demo/wm_websockets_demo.c:164-206 | the branch that creates the context |
| WebSocketTask.LwsClient.SetUp | Demo/wm_websockets_demo.c:208-222 | the branch that connects, with the next phase `WebSocket.ServedOrDestroyed` gives |
| WebSocketTask.LwsClient.Handle | Demo/wm_websockets_demo.c:224-242 | the branch that serves, keeping the tick as `WebSocket.TickKept` says |
| WebSocketTask.LwsClient.Exit | Demo/wm_websockets_demo.c:244-257 | the branch that tears down |
| WebSocketTask.LwsClient.RecvTask | Demo/wm_websockets_demo.c:152-263 | the loop computes the run of the machine and keeps the invariant at every head |
| ImageFile.UnpackAllPackAll | Tools/makeimg.py:76-84 | packed fields read back, whatever follows |
| ImageFile.FieldsFit | Tools/makeimg.py:76-84 | packing succeeds exactly when every number is in its range |
| ImageFile.HeaderReadsBack | Tools/makeimg.py:108-123 | a header with a 16-byte version reads back, behind the magic number 0xA0FFFF9F, and its checksum and the CRC of it all add up to 0xFFFFFFFF |
| ImageFile.HeaderInPlace | Tools/makeimg.py:108-123 | in which bytes each number of a header lies, with a version of any length, and that the last four are the complement of the CRC of all before them |
| ImageFile.WrittenAt | Tools/makeimg_fls.py:101-117 | what a seek and a write leave at every position, zeros in a hole |
| FlsImage.LaidAt | Tools/makeimg_fls.py:97-117 | which byte ends up at every position of the file |
| FlsImage.LayoutHolds | Tools/makeimg_fls.py:17-32 | for every application image and with room for the second boot image, the file has the promised layout, all gaps 0xFF, if and only if the application has at least 312 bytes |
| FlsImage.SecSurvives | Tools/makeimg_fls.py:106-117 | the second boot image reads back if and only if it has at most 57144 bytes or agrees with what is written over it |
| FlsImage.FlsHeaderReadsBack | Tools/makeimg_fls.py:119-149 | byte by byte what the header of a finished file holds: magic number, address 0x2000, the file size less 56, zeros; its checksums are the complements of the CRCs of what follows it and of itself |
| FlsImage.ImagesReadBack | Tools/makeimg_fls.py:97-117 | slicing at the fixed offsets recovers both images, however short |
| FlsImage.RefusedWhen | Tools/makeimg_fls.py:64-137 | the tool stops exactly for a missing magic number or an oversize file |
| FlsImage.MadeImagesJoin | Tools/makeimg_fls.py:64-117 | two images made by the other tool are taken and come out whole |
| FlsImage.MakeFls | Tools/makeimg_fls.py:49-153 | the sequence of seeks, reads and writes leaves the file specified, or the error specified |
| MakeImg.FormatReads | Tools/makeimg.py:54-55 | a formatted number is read as itself |
| MakeImg.FormatIs | Tools/makeimg.py:54-55 | numbers up to 99 are two digits; any other is printed without zeros in front |
| MakeImg.IntMeans | Tools/makeimg.py:54-54 | digits behind a sign or none, between blanks, are a number and nothing else is |
| MakeImg.VersionField | Tools/makeimg.py:47-61 | the version field is 16 bytes and NUL-terminated exactly when the old version has a dot; without one it is `1.0.01` |
| MakeImg.BumpAddsOne | Tools/makeimg.py:47-55 | the number behind the last dot is one more, all before it unchanged |
| MakeImg.PaddedMeans | Tools/makeimg.py:126-130 | the body is padded with the fewest zeros to whole words |
| MakeImg.BodyPlace | Tools/makeimg.py:121-130 | the binary starts behind 56 bytes if and only if the version had a dot |
| MakeImg.ImageReadsBack | Tools/makeimg.py:76-130 | the header reads back field by field, the binary behind it |
| MakeImg.FieldsInPlace | Tools/makeimg.py:60-123 | in which bytes of an image each input lies: image type, compression, running address and length, storage address and length, the complements of the CRCs of both forms, the version, and the complement of the CRC of all that; with or without a dot in the version |
| MakeImg.ImageHasMagic | Tools/makeimg.py:76-122 | every image starts with the magic number |
| MakeImg.RefusedWhen | Tools/makeimg.py:47-106 | the tool stops exactly for a version without a number or a number out of range |
| MakeImg.Make | Tools/makeimg.py:26-134 | the tool leaves the file specified, with its fields where `MakeImg.FieldsInPlace` says, or the error specified |

## Left out

- HttpParser.HttpConn.BasicParse: takes the byte in front of the buffer, which is read when the first byte of a chunk is a newline and no line is saved, not to be a CR; in `Reached` a call never needs the byte behind a full buffer, since its fragment is too long whatever that byte is.
- HttpParser.Heap: allocation never fails; lengths are unbounded numbers, and the parse buffer may grow without limit over many fragments, as in the code.
- HttpPass.LeftoverSeen: is for announcing reads that fill the buffer, as all do that succeed; one that fails with bytes of a record still undelivered announces more data too, and then the model (`Announced`) parses what was left, without an exact condition.
- HttpServer.SslServer.ServeConn: takes a saved line that is a proper prefix of `MATRIX_SHUTDOWN` for no match; `strncmp` would go on reading behind the block, which has no NUL.
- HttpServer.SslServer.CloseConn: records the calls that close the TLS session and the descriptor and report the reason; what they do is outside the model.
- HttpParser.HttpConn.ParseContinued: with a byte too many taken in, `len -= l` wraps to 0xFFFFFFFF and puts `end` in front of `c`; this is so where pointers are 32 bits wide, as on the W600.
- ConnLists.Lists.Detach: `DLListGetContainer` is a map from entries to records instead of address arithmetic.
- `bytes_requested` and the `/bytes?` loop of `httpWriteResponse`, which also fills the static buffer and, since its count is never advanced, ends only with a failed write: only whether writing the response succeeds is modelled.
- Console.TakeValues: leaves out a lone quote with another argument behind it, whose bytes it would rewrite as `Console.QuotationFilter` says, and one too near the end of the buffer; the overlapping `memcpy` is read as a left shift.
- Console.ReadNumber: signed overflow wraps.
- Console.ParseArguments: is given the positions of the parentheses; finding the command and the parentheses, and a command without parentheses, are not modelled.
- RingProtocol.StepInv: covers buffers of up to 2^31 bytes; memory ordering of the two sides is that of an interleaving.
- UartRead.ReceiveBuffer.Read: is one step; the interrupt handler's dropping of old bytes when the buffer is nearly full, and its skipping of bytes with a receive error, are not modelled.
- DlList.Len: counts without the width of the counter; likewise the other list lengths.
- `rt_list_isempty`: the same test as `dl_list_empty`.
- The typed iteration macros beyond deletion-safe iteration, and the conversion from list entry to container.
- SocketServer: single accesses of shared memory, `++` and `--` among them, are single steps; `socket_ok`, the send task and the data received are left out, and the receive task starts a pass exactly when the count is positive.
- UartEcho: the interrupt is atomic and the queue never full (at most three messages without a torn decrement); reading from the driver is one step, as proved of `tls_uart_read`; initialising twice is left out.
- WebSocket.SessionIsSafe: creating a context always succeeds; the data to send, and the race on its buffer with the sending task, are reduced to whether a write is due and succeeds.
- MakeImg.Make: versions are ASCII text, integers of the command line are given as numbers, and digit separators in `int()` are not accepted; the file operations do not fail.
- CRC values: `crc32` is any function from bytes to 32-bit numbers.
- Drivers, network stack, RTOS, cryptography, firmware upgrade and all other files of the repository: their calls are parameters or nondeterministic steps.
