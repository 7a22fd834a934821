# Network programs: model and proofs

Four programs that share one shape: state changed step by step while a network,
other processes or other clients act in between.

* **KTP** (`LA4.0`): a stop-and-wait protocol over datagrams that may be lost,
  copied and reordered, its socket table, and a file copy built on it.
* **Task-queue server** (`LA5`): one process per client and a reaping parent share
  an array of tasks under a lock.
* **Mail server** (`LA6`): mails are appended to text files as framed text and read
  back by scanning lines; each client is a small state machine.
* **CLDP** (`LA7`): the Internet checksum, packets, and a server list that query
  rounds prune in place.

## How the model is built

Each program has two layers. A transition system or a set of functions says what
one step does (`KtpProtocol`, `TaskQueue`, `Mailbox` and `MailSession`,
`SocketTable`, `CldpClient`). Classes with the fields and loops of the C code
(`KtpSession.Session`, `SocketTable.SocketArray`, `TaskServer.Server`,
`MailServer.Client`, `CldpClient.Client`) are proved to take exactly those steps.
The main theorems are about all runs of the first layer. Where a step function and
a method could share a mistake, a theorem says what the program does without either:
by the history of the run, by the messages received, or by the text sent and received.

| files | what they hold |
|---|---|
| `KtpProtocol`, `KtpFifo`, `KtpSession` | the protocol and its invariant; termination over a quiet network; the two retry loops |
| `SocketTable`, `SocketHistory` | the socket array against a finite map; the answers of all calls against the calls made before |
| `FileCopy` | the two programs of the file copy, alone and over the protocol |
| `TaskQueue`, `TaskQueueRuns`, `TaskHistory`, `TaskServer` | critical sections; what every interleaving keeps; what can be said from the history of a run alone; the array and the scan loops |
| `MailText`, `Mailbox`, `MailListing`, `MailAnswers`, `MailSession`, `MailCommands`, `MailServer` | `fgets` and `sscanf`; printing and parsing a mailbox; reading a listing; what a client receives; sessions; every command word for word; the code's loops |
| `Checksum`, `CldpPacket`, `CldpClient` | RFC 1071 arithmetic; packets and queries; the server list |

What the operating system decides (arrivals, losses, timeouts, clocks, new process
numbers, scheduling) is a parameter or an event that may happen at any time. A
`schedule` argument lists those events in the order they happen; the theorems hold
for every schedule.

## Where the code does less than one would expect

* A sequence number is stored in one `char` and compared with an `int`. A send can
  still return exactly while its number is at most 127 (signed `char`) or 255
  (`KtpProtocol.ReturnsWithinLimit`); that many messages can be sent, and the next
  send hangs (`KtpProtocol.SessionLength`, `KtpProtocol.NextSendHangs`).
* The file receiver searches its whole buffer for `#`, past the end of the message
  (`LA4.0/user2.c:76`). `FileCopy.OutputExact` says exactly when the output is right
  and `FileCopy.CopyExactlyWhenClean` when it is right after reading as far as it
  should; `FileCopy.DirtyBufferSpoilsCopy` is a file it spoils.
* A MAIL FROM that is refused has already replaced the sender
  (`LA6/mysmtp_server.c:161-176`). `MailSession.StoresInOrder` says exactly when the
  stored sender has the greeted domain; `MailCommands.RefusedSenderIsStored` shows the
  failing command sequences.
* A body whose unfinished last line runs into the end marker can make a start marker
  of it, and all later mails change their number (`Mailbox.MergedStartMarker`); a mail
  that can be received and stored may be too long for the reply
  (`MailAnswers.LongMailIsCut`). `MailAnswers.MailboxRoundTrip` and
  `MailAnswers.ListingAgrees` are the exact conditions at the client's end.
* A late RESULT can finish a task now held by someone else. The exact condition is
  `TaskQueueRuns.LateResultExactly`, by the history of the run
  `TaskHistory.ResultExactly`; a reachable case is `TaskQueueRuns.LateResultFinishes`. A server with no tasks never shuts down
  (`TaskQueueRuns.ShutdownSound`).

Text that C would write beyond the end of an array is a value of its own in the mail
model (`Overrun`, and `Undefined` as a reply). Nothing is promised after it: the
session closes and the interleaved model stops.

## Model

| member | source | states |
|---|---|---|
| KtpProtocol.PrefixSafety | LA4.0/ksocket.c:113-282 | Over any network behaviour, what has been delivered lies between the payloads of the returned sends and those of all send calls, in order and without repetition; with no send in progress all three are equal; no more than 127 (255) messages are ever delivered |
| KtpProtocol.NoStaleDatagram | LA4.0/ksocket.c:189-274 | In every reachable state, a packet that gets delivered and an acknowledgement that ends a send both belong to the send in progress, and the send ends only after delivery |
| KtpProtocol.WireFaithful | LA4.0/ksocket.c:141-189 | A sequence number survives its `char` exactly when it is within the limit; the next one wraps below 1 |
| KtpProtocol.StepInv | LA4.0/ksocket.c:155-278 | Every event of sender, receiver or network keeps the relation between both counters and every datagram in flight |
| KtpProtocol.MatchIsCurrent | LA4.0/ksocket.c:189-193 | Under that relation an accepted acknowledgement is the current one and its payload has been delivered |
| KtpProtocol.ExpectedIsCurrent | LA4.0/ksocket.c:270-275 | Under that relation a delivered packet is the current one and was not delivered before |
| KtpProtocol.CallsFollowRun | LA4.0/ksocket.c:132-145 | The protocol's record of sends is the run's non-empty send calls, each cut to 512 bytes |
| KtpProtocol.LimitHangs | LA4.0/ksocket.c:141-192 | Once the numbers are used up, no further send returns and nothing more is delivered, whatever happens |
| KtpProtocol.ReturnsWithinLimit | LA4.0/ksocket.c:141-192 | In every reachable state the send in progress can still return if and only if fewer than 127 (255) have returned |
| KtpProtocol.SessionLength | LA4.0/ksocket.c:141-192 | A list of messages of 1 to 512 bytes can be sent, each send returning, if and only if there are at most 127 (255) |
| KtpProtocol.NextSendHangs | LA4.0/ksocket.c:141-192 | Whatever 127 (255) messages used the numbers up, a run reaches a next send that no continuation lets return |
| KtpProtocol.Conservation | LA4.0/ksocket.c:155-278 | Datagrams in flight are 1 for a send in progress plus timeouts plus network copies less losses, counted from the run's events; discarded acknowledgements cost nothing |
| KtpFifo.QuietRefines | LA4.0/ksocket.c:155-278 | A run over order-keeping channels is a run of the lossy protocol with no loss, drop, copy or timeout |
| KtpFifo.QuietProgress | LA4.0/ksocket.c:155-196 | One quiet move keeps the number in flight; a read brings the first current datagram one place nearer, or returns |
| KtpFifo.QuietRunCounts | LA4.0/ksocket.c:155-196 | The number of reads and the stale datagrams still ahead add up to those there were at the start |
| KtpFifo.RetransmissionTerminates | LA4.0/ksocket.c:155-196 | From any reachable state with a send in progress, k >= 1 datagrams in flight in any order and a number within the limit: the quiet network is never stuck, the send returns with its payload delivered after exactly one read more than there are stale datagrams ahead (at most k + 1), and there are at most 3k + 2 moves |
| KtpFifo.QuietReturns | LA4.0/ksocket.c:189-199 | A send that returns over the quiet network has been delivered |
| KtpSession.Session.KSendto | LA4.0/ksocket.c:113-200 | Refused without effect exactly for a NULL argument, an unknown and an unbound socket, in that order; an empty buffer returns 0; otherwise the retry loop, whatever happens meanwhile, makes a run of the protocol and returns the length sent, at most 512, exactly when that payload joins the returned sends; a system call that fails ends it there with an error |
| KtpSession.Session.KRecvfrom | LA4.0/ksocket.c:202-282 | Refused exactly in the same cases; otherwise the receive loop makes a run of the protocol and returns exactly the payload it appends to the delivered ones, or fails where a system call fails |
| KtpSession.Session.ReadAck | LA4.0/ksocket.c:178-193 | One acknowledgement read: accepted and counters moved, or the packet sent again |
| KtpSession.Session.ReadPacket | LA4.0/ksocket.c:253-275 | One packet read: acknowledged in any case, delivered only if expected |
| SocketTable.OthersUntouched | LA4.0/ksocket.c:33-309 | Over any sequence of calls a socket none of them names keeps its whole record, and the table stays within 10 entries |
| SocketTable.OwnCounters | LA4.0/ksocket.c:189-192 | While a socket stays open, its counters have moved by exactly the data sends and receives answered on it, whatever is opened, closed and shifted meanwhile |
| SocketHistory.TableIsHistory | LA4.0/ksocket.c:33-309 | After any calls on an empty table: a socket is known if and only if it was opened and not closed since, bound if and only if a bind succeeded since, its addresses are those of the latest bind past its checks, and its counters start at 1, 0, 1 and count the exchanges since it was opened |
| SocketHistory.AnsweredByHistory | LA4.0/ksocket.c:33-309 | Every call is answered by the calls before it: EINVAL for its arguments, then ENOTSOCK if and only if not open, then ENOTBOUND if and only if not bound; ENOSPACE with ten sockets open; a send answers its length up to 512 |
| SocketTable.ShiftDeletes | LA4.0/ksocket.c:303-306 | Shifting the tail left removes exactly that descriptor from the map the array stands for |
| SocketTable.AgreesAppend | LA4.0/ksocket.c:50-57 | Appending a record with a new descriptor adds exactly that entry to the map |
| SocketTable.SocketArray.FindSock | LA4.0/ksocket.c:62-76 | Finds the record of a descriptor exactly when the map has one |
| SocketTable.SocketArray.KSocket | LA4.0/ksocket.c:33-60 | Opening on the array is opening on the map, with the same error order |
| SocketTable.SocketArray.KBind | LA4.0/ksocket.c:78-110 | Binding on the array is binding on the map; addresses stay changed when `bind` fails |
| SocketTable.SocketArray.KSend | LA4.0/ksocket.c:113-200 | Effect of a call on the record found: all its errors, in the order tested, change nothing; success moves the send counters |
| SocketTable.SocketArray.KReceive | LA4.0/ksocket.c:202-282 | Effect of a call on the record found: all its errors, in the order tested, change nothing; success moves the receive counter |
| SocketTable.SocketArray.KClose | LA4.0/ksocket.c:284-309 | Closing deletes the descriptor's entry and nothing else; a failed `close` deletes nothing |
| SocketTable.SocketArray.Run | LA4.0/ksocket.c:33-309 | Any sequence of calls gives the answers and the contents the finite map gives |
| FileCopy.SendFile | LA4.0/user1.c:58-81 | The reading loop over one reused buffer sends exactly the specified messages, as many as 512-byte pieces are needed, and counts bytes and packets |
| FileCopy.MessagesSpellFile | LA4.0/user1.c:62-77 | For every file the messages spell it followed by '#'; every piece of the file but the last has 512 bytes and none is empty |
| FileCopy.ReceiveFile | LA4.0/user2.c:60-89 | The receive loop over its buffer writes and stops as specified, message by message; without a stop it has written every message whole, an empty message stops it, and its packet count leaves out an empty last piece |
| FileCopy.CopyExactlyWhenClean | LA4.0/user2.c:65-89 | The receiver writes the file up to its first '#' and reads up to the message with that '#', if and only if the first message holds a '#' or no stray one follows it in memory |
| FileCopy.OutputExact | LA4.0/user2.c:65-89 | The receiver always stops; its output is the file up to its first '#' if and only if, as before, no stray '#' interferes, or the first message and the stray text up to that '#' spell the same |
| FileCopy.DirtyBufferSpoilsCopy | LA4.0/user2.c:76-80 | For the file "a" a stray '#' two places on writes "ax" |
| FileCopy.FileCopySafety | LA4.0/user2.c:65-89 | Over any network behaviour the output is a prefix of the file up to its first '#'; on stopping it is exactly that; when all sends have returned the receiver has stopped |
| FileCopy.CanFinishWithinLimit | LA4.0/user1.c:62-77 | Some run completes the copy if and only if the first '#' lies within the first 127 (255) messages |
| TaskQueueRuns.QueueRefinement | LA5/server.c:96-346 | In every reachable state tasks split into free, held and finished, no client holding two, and the next critical section is one atomic step on that split |
| TaskQueue.GetRefines | LA5/server.c:251-307 | GET_TASK answers the held task, else hands out the lowest free one, else says there is none |
| TaskQueue.FinishRefines | LA5/server.c:319-320 | RESULT makes one task finished, whoever held it, and touches no other |
| TaskQueue.ReleaseRefines | LA5/server.c:231-238 | Leaving returns exactly the client's held tasks to the pool |
| TaskQueue.ExpireRefines | LA5/server.c:102-112 | A sweep returns exactly the overdue tasks to the pool |
| TaskQueueRuns.StepInv | LA5/server.c:96-346 | Every event of any process keeps ownership, the remembered task, the counter, the flag and the clocks consistent |
| TaskQueueRuns.NoOrphanedTask | LA5/server.c:124-141 | Every held task belongs to a child not yet reaped, even one that died without releasing; reaping frees its unfinished tasks and changes no other |
| TaskQueueRuns.ShutdownSound | LA5/server.c:498-535 | The flag is up exactly when there are tasks and all are finished; the counter is the unreaped children plus the connection not yet forked; the parent stops exactly with all tasks finished and no child left |
| TaskQueueRuns.TimeoutBound | LA5/server.c:96-115 | No task stays pending more than 30 s behind the latest clock swept, although clocks are read before locking; no sweep takes a task held 30 s or less; sending a task again changes nothing |
| TaskQueueRuns.CompletedStays | LA5/server.c:320 | A finished task stays finished for the rest of any run |
| TaskQueueRuns.CompletedNeverSent | LA5/server.c:183-190 | A finished task is never sent again |
| TaskQueueRuns.ResultsWereSent | LA5/server.c:309-320 | A RESULT, also one through the remembered index, finishes only a task sent to that client since it connected |
| TaskQueueRuns.LateResultExactly | LA5/server.c:309-320 | In every reachable state a RESULT finishes a task its sender does not hold if and only if the sender holds none and its remembered task is unfinished; that is the one task finished; another client is holding it if and only if it is assigned |
| TaskHistory.ResultExactly | LA5/server.c:195-320 | A RESULT finishes a task if and only if the latest GET_TASK of that client in that session was answered with it and it is unfinished; it changes nothing else |
| TaskHistory.ToldNone | LA5/server.c:279-319 | A client last told that there is no task changes no task by a RESULT |
| TaskHistory.ServedExactly | LA5/server.c:124-349 | A child takes requests from its fork until its client leaves, it dies or a send fails, and none after; it can be reaped exactly from then on |
| TaskHistory.SweepExactly | LA5/server.c:96-115 | A sweep takes back a pending task if and only if the time the sweeper last read is more than 30 s after the time the task was handed out while free; sending it again does not count |
| TaskHistory.TextsStay | LA5/server.c:150-180 | A task keeps its number and its text |
| TaskQueueRuns.FlagAfterAllFirsts | LA5/server.c:320-331 | The flag is up exactly when as many first completions have happened as there are tasks, and there are never more |
| TaskQueueRuns.LateResultFinishes | LA5/server.c:195-320 | A reachable state in which one client holds the task and another one's late RESULT finishes it |
| TaskServer.Server.CheckAllCompleted | LA5/server.c:86-93 | The scan says whether every task is finished |
| TaskServer.Server.GetNextTaskIndex | LA5/server.c:183-190 | The scan finds the lowest free task, or -1 |
| TaskServer.Server.CheckTaskTimeouts | LA5/server.c:96-115 | The loop over the array expires exactly the overdue tasks |
| TaskServer.Server.HandleGetTask | LA5/server.c:251-307 | GET_TASK on the shared array is the specified step, including the remembered index and a failed send |
| TaskServer.Server.HandleResult | LA5/server.c:308-333 | RESULT on the shared array is the specified step, including the remembered index and the flag |
| TaskServer.Server.HandleLeave | LA5/server.c:334-349 | `exit` and a closed connection release the client's tasks and end the child |
| TaskServer.Server.ReapChild | LA5/server.c:124-141 | Reaping lowers the counter and releases the child's tasks |
| TaskServer.Server.ForkChild | LA5/server.c:526-545 | A failed fork undoes the count, a fork adds a child with no remembered task |
| TaskServer.Server.ShouldStop | LA5/server.c:498 | The parent's test is true exactly with tasks, all finished, and no child |
| TaskServer.Server.Serve | LA5/server.c:490-546 | Among any interleaved events the loop makes a run of the model and leaves it only when all tasks are finished and no child is left |
| MailText.LinesAppend | LA6/mysmtp_server.c:330 | Text that ends a line is read by `fgets` the same way whatever follows it |
| MailText.LinesJoin | LA6/mysmtp_server.c:346-350 | The lines read, put together, are the text |
| MailText.LinesShape | LA6/mysmtp_server.c:330 | In such text a read without a newline has filled the 4096-byte buffer |
| Mailbox.LinesOfFile | LA6/mysmtp_server.c:259-263 | The lines of a mailbox file are the lines of its frames in order |
| Mailbox.FoundIffCounted | LA6/mysmtp_server.c:330-356 | A number is found exactly when the file has that many start lines |
| Mailbox.FileStarts | LA6/mysmtp_server.c:331-332 | A file has as many start lines as mails exactly when no body contributes one |
| Mailbox.GetKth | LA6/mysmtp_server.c:330-356 | With such bodies before it, the k-th request reads the k-th mail's From line, Date line and what its body parses to |
| Mailbox.BackIff | LA6/mysmtp_server.c:337-351 | What is collected for a mail is its From line, Date line and body exactly when the body is retrievable; nothing up to six characters longer that fits the array is collected instead |
| Mailbox.ReadBackIff | LA6/mysmtp_server.c:346-351 | A body is read back as stored exactly when it ends its last line and has no line starting with the end marker |
| MailAnswers.MailboxRoundTrip | LA6/mysmtp_server.c:244-369 | At the client: every stored mail is answered whole under its number less its last character, and every other number "not found", if and only if all bodies are free of start lines and end their lines without an end line, and every content is at most 4089 characters |
| MailAnswers.KthAnswer | LA6/mysmtp_server.c:330-369 | The same for one mail behind bodies free of start lines |
| MailAnswers.RespondIs | LA6/mysmtp_server.c:237-242 | When the reply buffer of 4096 bytes sends a text whole and when it cuts it, exactly |
| MailAnswers.LongMailIsCut | LA6/mysmtp_server.c:237-242 | A mail with a body of 4066 characters is stored and never answered whole |
| Mailbox.MergedStartMarker | LA6/mysmtp_server.c:262-263 | A body without any start line that nevertheless makes one with the end marker |
| MailAnswers.NumberIsStable | LA6/mysmtp_server.c:330-356 | Appending mails of any kind changes nothing about whether a mail is answered whole under its number, which it is exactly when it is retrievable and fits |
| MailAnswers.ListingAgrees | LA6/mysmtp_server.c:269-313 | At the client: the list shows numbers 1 to n with the stored senders and dates in order if and only if no body contributes a start line and the list is at most 4089 characters; the numbers that can be fetched are 1 to n if and only if no body contributes a start line |
| MailListing.CountItems | LA6/mysmtp_server.c:283-302 | A scan in which every entry has a sender shows at least one entry a mail, and exactly one only if no body contributes a start line |
| MailListing.SameCount | LA6/mysmtp_server.c:298-299 | From a printed list, even one cut by a few characters, the number of entries and their senders can be read back |
| MailSession.StoresInOrder | LA6/mysmtp_server.c:140-205 | Over any inputs, before each store and after the previous one there is an accepted HELO, then MAIL FROM, then RCPT TO, each the last of its kind; the mail goes to that recipient; its sender has the HELO domain if and only if the last MAIL FROM that parsed was accepted |
| MailSession.HandleMoves | LA6/mysmtp_server.c:150-205 | How each command moves the session: which states allow it and what it overwrites |
| MailSession.ClientStoresInOrder | LA6/mysmtp_server.c:128-205 | Under any interleaving of clients each store follows its own client's HELO, MAIL FROM and RCPT TO and goes where they say |
| MailCommands.HeloCommand | LA6/mysmtp_server.c:150-158 | HELO, spaced in any way: the first word becomes the domain, "200 OK", state 1; over 99 characters overrun the array |
| MailCommands.HeloWithout | LA6/mysmtp_server.c:157 | HELO without a domain is answered "400 Invalid syntax" and changes nothing |
| MailCommands.MailFromCommand | LA6/mysmtp_server.c:159-177 | MAIL FROM user@d after HELO: accepted if and only if d is the greeted domain, with the literal replies, and the sender in either case |
| MailCommands.MailFromNobody | LA6/mysmtp_server.c:161-174 | A sender without @ is refused in those words and replaces the sender |
| MailCommands.MailFromTooSoon | LA6/mysmtp_server.c:160 | Before HELO any MAIL FROM is answered "403 Send HELO first" and changes nothing |
| MailCommands.MailFromWithout | LA6/mysmtp_server.c:176 | MAIL FROM without a sender is answered "400 Invalid syntax" and changes nothing |
| MailCommands.RcptToCommand | LA6/mysmtp_server.c:178-188 | RCPT TO after an accepted MAIL FROM sets the recipient, "200 OK", state 3 |
| MailCommands.RcptToTooSoon | LA6/mysmtp_server.c:179-180 | Before that it is answered "403 Send MAIL FROM first" and changes nothing |
| MailCommands.RcptToWithout | LA6/mysmtp_server.c:185-187 | RCPT TO without a recipient is answered "400 Invalid syntax" and changes nothing |
| MailCommands.DataCommand | LA6/mysmtp_server.c:189-204 | DATA after RCPT TO appends exactly the framed text of the mail to the recipient's file, or reports failure, and starts the session over |
| MailCommands.DataTooSoon | LA6/mysmtp_server.c:190-191 | Before that it is answered "403 Send RCPT TO first" and changes nothing |
| MailCommands.BodyIs | LA6/mysmtp_server.c:141-194 | The body of a DATA line followed by text is that text up to the end of the buffer or its first NUL |
| MailCommands.BodyOnLine | LA6/mysmtp_server.c:144-194 | Text on the DATA line itself is the body but for the one character skipped |
| MailCommands.GetMailCommand | LA6/mysmtp_server.c:215-224 | GET_MAIL with a mailbox and a number, at any time in a session: "401 Requested email does not exist" without the mailbox; with sound mails the mail of that number whole, or "401 Email not found"; the k-th mail behind bodies free of start lines is whole if and only if it is retrievable and fits; nothing changes |
| MailCommands.ListCommand | LA6/mysmtp_server.c:206-214 | LIST with a mailbox, at any time: the same without the mailbox; otherwise the whole list if and only if no body contributes a start line and it fits; nothing changes |
| MailCommands.GetMailWithoutNumber | LA6/mysmtp_server.c:218-223 | GET_MAIL without a number is answered "400 Invalid syntax" and changes nothing |
| MailCommands.QueryWithout | LA6/mysmtp_server.c:208-223 | LIST and GET_MAIL without a mailbox are answered "400 Invalid syntax" and change nothing |
| MailCommands.QuitCommand | LA6/mysmtp_server.c:225-229 | QUIT is answered "200 Goodbye" and ends the session |
| MailCommands.UnknownCommand | LA6/mysmtp_server.c:230 | Every other line is answered "400 Unknown command" and changes nothing |
| MailCommands.RefusedSenderIsStored | LA6/mysmtp_server.c:161-176 | For every domain, every spacing of the commands and every foreign sender, a refused second MAIL FROM is the one the mail is stored under |
| MailSession.HandleAppends | LA6/mysmtp_server.c:189-204 | Only an accepted DATA changes the files, appending one frame to one of them |
| MailSession.StoredIsStorable | LA6/mysmtp_server.c:140-194 | What a session stores has a sender that is a word of at most 99 characters and a body of at most 4090, without NUL |
| MailSession.FilesSpellMails | LA6/mysmtp_server.c:244-267 | Under any interleaving of clients a mailbox file is the text of the mails stored for it, in order |
| MailSession.MailNumbersAreForever | LA6/mysmtp_server.c:315-369 | Under any interleaving of clients and any received buffers, behind bodies free of start lines: a mail is answered whole exactly when it is retrievable and fits, and then it is so answered under the same number ever after |
| MailServer.FetchContent | LA6/mysmtp_server.c:325-356 | The scan loop of `get_email` computes the specified parse, or overruns its array exactly when the content exceeds 4095 characters |
| MailServer.CollectBody | LA6/mysmtp_server.c:346-351 | Its inner loop adds the lines up to the end marker, or overruns the array |
| MailServer.CollectList | LA6/mysmtp_server.c:279-302 | The scan loop of `list_emails` computes the specified listing, or overruns one of its arrays exactly when it does not fit |
| MailServer.MailStore.StoreEmail | LA6/mysmtp_server.c:244-267 | The five prints append exactly one frame, or nothing when the file cannot be opened |
| MailServer.Client.DoMailFrom | LA6/mysmtp_server.c:159-177 | The sender is overwritten before it is judged; the state rises only when it is accepted |
| MailServer.Client.DoData | LA6/mysmtp_server.c:189-205 | Stores under the current sender and recipient and resets the state, also when storing fails |
| MailServer.Client.HandleInput | LA6/mysmtp_server.c:140-231 | One received buffer, cut at its first newline or NUL, is the specified command on the mutable variables |
| MailServer.Client.HandleClient | LA6/mysmtp_server.c:128-235 | The receive loop answers and stores as specified and reads nothing after QUIT or an overrun |
| Checksum.Compute | LA7/ChandranshSingh_22CS30017/cldp_client.c:66-74 | The two loops, on a 64-bit accumulator, compute the checksum for every word count an `int` can hold |
| Checksum.Fold | LA7/ChandranshSingh_22CS30017/cldp_server.c:57-58 | Folding terminates in 16 bits, keeps the residue modulo 65535 and is 0 only for 0 |
| Checksum.VerifiesExactly | LA7/ChandranshSingh_22CS30017/cldp_server.c:100-103 | With the field zeroed, a stored value makes the header sum to 0 if and only if it is the computed checksum, or 65535 where 0 was computed |
| Checksum.OwnChecksumVerifies | LA7/ChandranshSingh_22CS30017/cldp_server.c:100-103 | A header carrying its own checksum sums to 0 |
| Checksum.ByteOrderIndependent | LA7/ChandranshSingh_22CS30017/cldp_client.c:66-74 | The checksum of byte-swapped words is the byte-swapped checksum (section 2(B) of RFC 1071) |
| Checksum.HostOrderIsNetworkOrder | LA7/ChandranshSingh_22CS30017/cldp_client.c:143-146 | Computing and storing in host order writes the bytes of network order, and a host of either kind accepts them (section 3.1 of RFC 791) |
| CldpPacket.SendPacket | LA7/ChandranshSingh_22CS30017/cldp_client.c:127-163 | Every field of the packet sent reads back, its length is right, its header sums to 0 on hosts of either byte order, and the payload is the one given |
| CldpPacket.ProcessQuery | LA7/ChandranshSingh_22CS30017/cldp_server.c:122-153 | The answer goes to the asker under its transaction number with the hostname for bit 1 of the mask, the time for bit 2 and the load for bit 4, in that order, whatever the other bits are; a mask announced but missing from the packet is whatever the receive buffer held |
| CldpPacket.AnswerSelects | LA7/ChandranshSingh_22CS30017/cldp_server.c:132-148 | Each of the three bits selects its reading, independently of all others |
| CldpPacket.Exchange | LA7/ChandranshSingh_22CS30017/cldp_server.c:84-153 | A query for any choice of readings and its answer, over hosts of any byte order, bring exactly those readings back under the client's number |
| CldpClient.RoundPasses | LA7/ChandranshSingh_22CS30017/cldp_client.c:291-350 | During a round the list is the old servers then the newcomers, distinct and at most 64, each active exactly when heard from and then with the time it was last heard; the count is that of the responses with protocol 253, the right number and a sender listed when they arrive |
| CldpClient.TakesExactly | LA7/ChandranshSingh_22CS30017/cldp_client.c:291 | The loop goes on before a message if and only if 5 s are not over and fewer such responses have come than servers are listed |
| CldpClient.RoundExactly | LA7/ChandranshSingh_22CS30017/cldp_client.c:240-353 | Whenever a round is cleaned up, the list is the old servers, then the newcomers, in order, last heard at most 30 s before |
| CldpClient.RoundResult | LA7/ChandranshSingh_22CS30017/cldp_client.c:240-353 | After a round cleaned up within 30 s the list is the old servers heard from, in order, then the newcomers |
| CldpClient.NewcomersComplete | LA7/ChandranshSingh_22CS30017/cldp_client.c:343-347 | A greeting server is left out only if it was listed before or the list is full |
| CldpClient.KeptFacts | LA7/ChandranshSingh_22CS30017/cldp_client.c:100-124 | Cleaning keeps exactly the active, recent servers, and keeps addresses distinct |
| CldpClient.KeptJoin | LA7/ChandranshSingh_22CS30017/cldp_client.c:100-124 | Cleaning treats each part of the list on its own, so it keeps the order |
| CldpClient.Client.UpdateServerList | LA7/ChandranshSingh_22CS30017/cldp_client.c:77-97 | A listed server is refreshed where it stands, a new one is added last while there is room |
| CldpClient.Client.CleanupServerList | LA7/ChandranshSingh_22CS30017/cldp_client.c:100-124 | Deleting in place while scanning equals the filter |
| CldpClient.Client.AwaitResponses | LA7/ChandranshSingh_22CS30017/cldp_client.c:291-350 | The loop takes messages until 5 s are over or there are as many responses as servers, and changes the list as specified |
| CldpClient.Client.QueryAllServers | LA7/ChandranshSingh_22CS30017/cldp_client.c:231-357 | A round on the array queries every listed server once, takes messages, counts responses and leaves a list exactly as these theorems say, in terms of the messages alone |

## Left out

- KTP: what a program does after `sendto`, `select` or `recvfrom` failed (both end); real-time bounds (a timeout may happen at any time); the uninitialised addresses of a new socket, taken as zeros; running out of memory.
- KTP: both directions of one session at once. The receiver acknowledges before it looks at the message type, so the theorems are about one sender and one receiver.
- KTP: whether the sending program ends after the receiving one has exited; its last acknowledgement may be lost and nobody answers any more.
- KtpProtocol.NoStaleDatagram: speaks of a datagram's origin, which is not on the wire; the model keeps it beside the datagram to say which send it came from.
- SocketTable.SocketArray.KSend: models a call when it returns; its loop is `KtpSession.Session.KSendto`. The same holds for `KReceive`.
- SocketTable.SocketArray.KSocket: takes from the operating system that a descriptor it hands out is not open already.
- FileCopy.ReceiveFile: the memory after the buffer is taken as fixed during a run and cut at its first NUL; files holding a NUL are excluded from the exactness lemmas, as `strstr` stops there.
- TaskServer.Server.Serve: looks at the flag right after the parent's own sweep; `TaskQueueRuns.ShutdownSound` covers any later moment.
- Task queue: deadlock of the SIGCHLD handler, which takes a lock its own process may hold; a crash inside a critical section; messages joined or cut by TCP; the idle timeout as a duration (a child may die at any time); killing the children at shutdown; loading tasks from the file beyond the array it fills.
- MailAnswers.MailboxRoundTrip: what happens after text is written beyond an array is not modelled; such a request has no answer to speak of and is never a whole one.
- MailSession.MailNumbersAreForever: a store is one step; two threads appending to one file at the same moment are not interleaved within it, and different spellings of one file name count as different mailboxes.
- Mail server: the formatting of dates (a word given from outside), `%d` beyond the range of `int`, thread creation and its shared argument.
- CldpPacket.SendPacket: what the kernel rewrites in a raw header apart from the source address; a failed `sendto`.
- CldpPacket.ProcessQuery: how hostname, time and load are read and formatted; they are given as bytes within the sizes of the server's local buffers.
- CldpClient.Client.AwaitResponses: packets shorter than their headers, and the printed count of responses, which counts repeated answers.
- CLDP: console prompts, the start-up loop that listens for HELLO, and the server's own main loop.
- The other programs of the repository (word transfer, substitution cipher, chat and echo servers, tutorials, the client of the task queue): plain input and output beside the four above.
