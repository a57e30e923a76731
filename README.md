# Chat server core: line framing, transport helpers and the login session

This project models, in Dafny, the core of a small TCP chat server written in C.

- **Transport helpers.** `send_all` and `recv_all` repeat send(2) and recv(2) until a whole length has been transferred, the peer closes, or a call fails.
- **Line framer.** `recv_until_delimiter` turns the byte stream of one connection into messages ended by `"\r\n"`. The bytes received after a delimiter are kept as carry-over for the next call.
- **Session.** `process_request` is the per-connection login state machine. It handles `BYE`, `USER <name>` and `POST <text>`, and answers each request with exactly one coded response line. `check_username` looks a name up in the account file.

The socket calls are modelled as scripted peers:

- **recv(2)** is a sequence of events. Each event is a nonempty chunk of bytes, or a failure. When the events run out, the peer has closed and recv(2) returns 0. A receive asked for fewer bytes than the next chunk holds takes a prefix, and the rest of the chunk stays queued.
- **send(2)** is a sequence of results: a number of bytes accepted, or a failure. An exhausted script accepts everything.

Module by module:

- **`Wire`** (wire.dfy): bytes, the `"\r\n"` delimiter, `BUFF_SIZE`, the two socket primitives and array copies. `Delivered`, `EndOf` and `Remainder` describe a recv script as a byte stream, how it ends and what follows its end.
- **`TcpUtils`** (tcp_utils.dfy): `SendAll` and `RecvAll` as loops over arrays.
  - `SendAll` is proved against the specification function `Transmit`.
  - `RecvAll` is proved directly against the stream its script delivers.
- **`Framing`** (framing.dfy):
  - `FindDelimiter` is strstr on a NUL-terminated buffer: the first `"\r\n"` before the first NUL byte.
  - `Frame` is one call of `recv_until_delimiter` as a function of the carry-over and the script. `FrameOfStream` restates it over the byte stream alone.
  - `Framer` is a class that owns the carry-over array of one connection. Its method `RecvUntilDelimiter` runs the source's loop on arrays and is proved to compute `Frame`.
- **`Accounts`** (accounts.dfy): the first-match account lookup, as a loop method `CheckUsername` and a recursive function `Lookup`.
- **`Session`** (session.dfy):
  - `Tokens` models sscanf's `%s` conversions, and `Parse` the branch `process_request` takes.
  - `ProcessRequest` is the transition `(state, request, account file) -> (state', response)`. The response line it sends is `Line(reply)`.
  - `Serve` is the sequence of requests handled on one connection.

## Model

| member | source | states |
|---|---|---|
| Wire.RecvTakesPrefix | src/TCP_Server/tcp_utils.c:125-140 | A receive hands over a prefix of the stream and leaves the rest of the stream, and how it ends, queued. It returns 0 exactly when the peer has closed and -1 exactly when the next event is a failure. |
| TcpUtils.Transmit | src/TCP_Server/tcp_utils.c:21-31 | The send loop's specification: it reports success only with every byte sent, and failure only after strictly fewer. |
| TcpUtils.TransmitWithoutFault | src/TCP_Server/tcp_utils.c:21-31 | A peer that never fails a send takes every byte, however few each send accepts. |
| TcpUtils.SendAll | src/TCP_Server/tcp_utils.c:15-33 | Returns len exactly when all of data[..len] went out, in order. Returns -1 as soon as a send fails, after a strict prefix of data and never with a short success. The bytes and events used agree with Transmit. |
| TcpUtils.RecvAll | src/TCP_Server/tcp_utils.c:43-66 | When the stream holds len bytes: returns len, data[..len] is the first len bytes in arrival order, and the rest stays queued: the remaining bytes, how the stream ends, and the events after its end. Otherwise: returns 0 if the peer closed and -1 if a receive failed, keeping the bytes that did arrive. Array cells beyond them are untouched. |
| Framing.FindDelimiter | src/TCP_Server/tcp_utils.c:94 | A position found by the strstr search holds "\r\n". |
| Framing.FindDelimiterFirst | src/TCP_Server/tcp_utils.c:94 | The search finds the first delimiter, and only behind NUL-free bytes. Finding none means every delimiter lies behind a NUL. |
| Framing.FindDelimiterIs | src/TCP_Server/tcp_utils.c:94 | Conversely, the first NUL-free delimiter is what the search returns. |
| Framing.FindDelimiterExtends | src/TCP_Server/tcp_utils.c:91-95 | Searching again after the buffer has grown gives the same delimiter, and a longer buffer without one means a shorter one had none. |
| Framing.Frame | src/TCP_Server/tcp_utils.c:91-144 | Defines one call of the loop as a function of the carry-over on entry and the receive script: search first; with no delimiter, overflow once max_len - 1 bytes are held; otherwise receive at most max_len - total_len - 1 bytes and search again. Its properties are the Frame* lemmas below. |
| Framing.FrameConserves | src/TCP_Server/tcp_utils.c:98-111 | No byte is lost or duplicated: message + "\r\n" + carry-over + what is still queued == old carry-over + the whole stream. Every other outcome empties the carry-over. Close and failure consume the stream up to the event that ends it. |
| Framing.FrameReceives | src/TCP_Server/tcp_utils.c:125-143 | One loop step: with no delimiter and room left, the call continues on the buffer grown by the received chunk. A close returns 0 and a failure returns -1, each with an empty carry-over. |
| Framing.FrameStops | src/TCP_Server/tcp_utils.c:86-123 | A carry-over that already holds a delimiter is returned with no receive at all, so the script is untouched. A full buffer without a delimiter overflows, also without receiving. |
| Framing.FrameMessageIsLine | src/TCP_Server/tcp_utils.c:94-114 | A returned message holds no NUL and no delimiter. Message, delimiter and new carry-over together stay below max_len bytes. |
| Framing.FrameOverflowDiscards | src/TCP_Server/tcp_utils.c:117-126 | An overflow drops exactly the max_len - 1 bytes it buffered, and what the peer sent beyond them stays queued. |
| Framing.FrameIgnoresChunking | src/TCP_Server/tcp_utils.c:91-144 | The outcome of a call equals FrameOfStream. That reference definition looks only at the received bytes and at how the stream ends, never at how recv splits them into chunks. |
| Framing.SameStreamSameOutcome | src/TCP_Server/tcp_utils.c:91-144 | Two scripts that deliver the same bytes and end the same way give the same outcome. |
| Framing.CarryIsStream | src/TCP_Server/tcp_utils.c:86-144 | The carry-over counts only as the head of the stream: a call from a carry-over returns what a call from an empty buffer returns on the stream that starts with it. |
| Framing.StreamDeterminesOutcome | src/TCP_Server/tcp_utils.c:86-144 | Two connections whose carry-over plus queued bytes form the same stream, ending the same way, get the same outcome, however the bytes are split between carry-over and chunks. |
| Framing.MessageLeavesTail | src/TCP_Server/tcp_utils.c:98-114 | After a message, the pending input is exactly what followed its delimiter, carry-over first, and the carry-over still fits the buffer. |
| Framing.StreamDeterminesNext | src/TCP_Server/tcp_utils.c:77-145 | Two connections with the same pending input (carry-over plus queued bytes, how they end, the events after the end) get the same outcome and are left with the same pending input again. |
| Framing.StreamDeterminesCalls | src/TCP_Server/tcp_utils.c:77-145 | Over any number of consecutive calls, the sequence of outcomes (messages, overflows, close, failure) depends only on the pending input, never on how recv(2) chunks it. |
| Framing.OverflowWithoutDelimiter | src/TCP_Server/tcp_utils.c:117-123 | When the first max_len - 1 bytes of carry-over plus stream hold no delimiter, the call returns -1 and clears the carry-over. |
| Framing.NextLine | src/TCP_Server/tcp_utils.c:91-115 | A line at the head of carry-over plus stream is returned whole when it fits. Everything after its delimiter is kept, partly as carry-over and partly still queued. |
| Framing.LineInBuffer | src/TCP_Server/tcp_utils.c:93-114 | The same when the carry-over already holds the line's delimiter. |
| Framing.Framer.constructor | src/TCP_Server/tcp_utils.c:79-80 | A framer starts with an empty carry-over in a fresh BUFF_SIZE array. |
| Framing.Framer.TakeMessage | src/TCP_Server/tcp_utils.c:98-114 | The carry-over becomes exactly the total_len - msg_len - 2 bytes after the delimiter, or empty when there are none. The message stays in buffer and is NUL-terminated at msg_len. |
| Framing.Framer.RecvUntilDelimiter | src/TCP_Server/tcp_utils.c:77-145 | Returns ReturnValue of Frame(old carry-over, script): the message length, -1 on overflow or failure, 0 on close. The new carry-over and the unused events are Frame's. On a message, buffer[..r] is the message and buffer[r] is NUL. The carry-over always stays below max_len. |
| Framing.ReceiveUntilStop | src/TCP_Server/tcp_utils.c:91-144 | The search-then-receive loop stops exactly where Frame does. On a delimiter, the buffer holds the message before it and the carry-over after it. |
| Framing.AppendReceived | src/TCP_Server/tcp_utils.c:126-143 | Received bytes land right after the bytes already held, and the buffer stays NUL-terminated. |
| Accounts.Lookup | src/TCP_Server/server.c:166-176 | The scan over the records: the answer is 2, or the status of some record carrying exactly that name. |
| Accounts.Status | src/TCP_Server/server.c:161-165 | What check_username returns for an account file: 2 when the file cannot be opened, the lookup otherwise. |
| Accounts.LookupFindsFirst | src/TCP_Server/server.c:166-173 | The lookup answers with the status of the first record whose name equals the user name exactly, whatever later records say. |
| Accounts.LookupMissing | src/TCP_Server/server.c:159-176 | With no matching record, the lookup answers 2. |
| Accounts.LookupSkips | src/TCP_Server/server.c:169 | A record whose name differs in any byte, letter case included, is passed over. |
| Accounts.CheckUsername | src/TCP_Server/server.c:155-177 | Returns the first exact match's status, or 2 when nothing matches or the file cannot be opened. This agrees with Lookup. |
| Session.Tokens | src/TCP_Server/server.c:217 | Defines the words that successive %s conversions read: white space skipped, then a maximal run of non-space bytes. Its properties are the Tokens* lemmas below. |
| Session.TokensAreWords | src/TCP_Server/server.c:217 | Every token read by %s is a nonempty run of non-space bytes. |
| Session.TokensOfWord | src/TCP_Server/server.c:217 | A word followed by the end of the string or by a space is read as one token. |
| Session.TokensSkipSpace | src/TCP_Server/server.c:217 | %s skips leading white space. |
| Session.TokensOfSpaces | src/TCP_Server/server.c:217 | A string of white space yields no token. |
| Session.Parse | src/TCP_Server/server.c:195-221 | A request is BYE exactly when it equals "BYE". USER and POST need two tokens, with the keyword first and the argument second. |
| Session.ParseSelects | src/TCP_Server/server.c:217-253 | Conversely, a request other than "BYE" with two or more tokens and "USER" or "POST" as the first parses as that command with the second token as argument, whatever white space surrounds them. |
| Session.ParseRender | src/TCP_Server/server.c:195-253 | Parsing reads back the command in a request line "BYE", "USER name" or "POST text". |
| Session.ParseDropsExtraWords | src/TCP_Server/server.c:217 | Words after the second are ignored: "POST a b" posts "a". |
| Session.ShortRequestIsInvalid | src/TCP_Server/server.c:217-220 | A request other than "BYE" with fewer than two tokens is invalid. |
| Session.Text | src/TCP_Server/server.c:199-277 | The response strings of process_request without their "\r\n", one per reply, byte for byte as the source copies them. |
| Session.Line | src/TCP_Server/server.c:199-277 | The bytes given to send_all: the response text followed by "\r\n". |
| Session.LineStartsWithCode | src/TCP_Server/server.c:195-280 | Every response line opens with its three-digit code (110, 120, 130, 211, 212, 213, 221 or 300) and a '-'. |
| Session.LineIsOneLine | src/TCP_Server/server.c:191-282 | Every response is one line whose only "\r\n" is its final one. |
| Session.ClientReadsReply | src/TCP_Server/server.c:195-280 | A peer that frames the stream with recv_until_delimiter reads back exactly the response text, whatever follows it and however it is chunked. |
| Session.ProcessRequest | src/TCP_Server/server.c:191-282 | The new state is the one the response implies: logged in only after 110, logged out only after 130, otherwise unchanged. 120, 130 and 213 are sent only while logged in; 110, 211, 212 and both 221 responses only while logged out. |
| Session.SuccessExactly | src/TCP_Server/server.c:191-282 | Exactly when each response is sent: 110 iff logged out with USER of a status-1 account; 120 iff logged in with POST; 130 iff logged in with BYE; 300 iff the request parses as neither. |
| Session.ByeRequest | src/TCP_Server/server.c:195-209 | "BYE" while logged in answers 130 and logs out. While logged out it answers 221 with the state unchanged. |
| Session.UserRequest | src/TCP_Server/server.c:221-251 | Any request that parses as USER name: while logged in answers 213 whatever the account. While logged out: status 1 answers 110 and logs in; status 0 answers 211; any other status answers 212. Only 110 changes the state. |
| Session.PostRequest | src/TCP_Server/server.c:253-266 | Any request that parses as POST text answers 120 when logged in and 221 otherwise, never changing the state. |
| Session.InvalidRequestIgnored | src/TCP_Server/server.c:268-280 | Any other request answers 300 and leaves the state unchanged. |
| Session.Serve | src/TCP_Server/server.c:108-135 | A connection's request loop: at most one response per request. An empty request line reads as a close (recv_until_delimiter returns 0), which ends the loop. |
| Session.ServeUntilEmptyLine | src/TCP_Server/server.c:120-135 | The requests answered are exactly those before the first empty request line, one response each. |
| Session.EmptyLineEndsSession | src/TCP_Server/server.c:124-129 | No request from an empty line onwards is answered, although process_request itself would answer an empty request with 300. |
| Session.ServeFirst | src/TCP_Server/server.c:120-135 | A loop that answers anything answers a nonempty first request first, then goes on in the state that answer leaves. |
| Session.ServeAnswersInTurn | src/TCP_Server/server.c:120-135 | Each response is what process_request gives in the state left by the earlier responses. |
| Session.ServeEndsInReplay | src/TCP_Server/server.c:120-135 | The state after the last request is the one the responses imply. |
| Session.LoginPrecedes | src/TCP_Server/server.c:201-236 | Starting logged out, being logged in means some login succeeded and no logout succeeded since. |
| Session.PostNeedsLogin | src/TCP_Server/server.c:253-260 | On a connection, a post is accepted only after a successful login with no successful logout in between. |
| Session.LoginPostLogout | src/TCP_Server/server.c:108-135 | USER of an active account, then POST, BYE and BYE, answers 110, 120, 130 and 221, and ends logged out. |

## Left out

- `main` is not modelled: socket setup, the accept/fork loop, the "100-Connected to the server" banner and the printing of client addresses.
- `Session.Serve` models main's per-connection request loop over the messages the framer returned. A framer result of 0 (peer closed) is the end of the list, and an empty message also ends the session, as in main. A -1 from the framer (overflow or receive failure) produces no request and no response; main keeps looping after it, which the list leaves implicit.
- `sig_chld` is not modelled. It is process reaping.
- `get_timestamp` and `write_log` are not modelled. They need the wall clock and file appends.
- `perror`/`fprintf` diagnostics are not modelled.
- `Framing.Framer.RecvUntilDelimiter`: tcp_utils.c keeps the carry-over in function-static storage, shared by every caller in the process. Here each connection owns a `Framer`. The server forks one process per connection, so each process sees one connection.
- `Framing.Framer.RecvUntilDelimiter`: strstr searches the first total_len bytes of the buffer. The source searches up to the first NUL and depends on the caller's memset for a NUL right after the carry-over on entry; the model assumes that NUL is present.
- `Framing.Framer.RecvUntilDelimiter` requires max_len >= 1 and a carry-over shorter than max_len. With max_len 0, the source's `max_len - 1` wraps around as a size_t. A longer carry-over would make the source's memcpy overrun the buffer. Every caller passes BUFF_SIZE, and the carry-over stays below it.
- The return value 0 is the same for an empty line ("\r\n") and for a peer close. The model keeps the two apart in `Framed`, but `ReturnValue` maps both to 0, as the source does. `Session.Serve` and `Session.EmptyLineEndsSession` state the consequence: an empty line ends the connection without a response.
- `TcpUtils.SendAll` and `TcpUtils.RecvAll` use unbounded integers. The source's `size_t`/`int` widths and the `int` return of a length above INT_MAX are not modelled.
- `Accounts.CheckUsername` works on the records fscanf reads from the account file. Those records are the white-space-separated (name, number) pairs that successive `%1024s %d` conversions read, up to the first pair that does not scan or the end of the file; line breaks count as white space, so a record may span lines and one line may hold several. Opening the file, text parsing, and the `%1024s` overrun of the 1024-byte name buffer are not modelled.
- `Session.ProcessRequest` returns the response instead of sending it. The bytes given to send_all are `Line(reply)`, and send_all's result, which the source ignores, does not matter.
- `Session.Parse` is not bounded by sscanf's `type[10]`: a first word of ten or more bytes overruns that array in the source.
- `Session.Tokens` treats bytes the way isspace does in the C locale.
