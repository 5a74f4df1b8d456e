# TCP ping pair: a verified model

The repository is a TCP "ping" pair. The client takes `-n count`, `-t
timeout` and a list of `host:port` targets. It runs one probing flow per
target: each attempt sends a 4-byte sequence number and waits for the
same number to come back. The server echoes every 4-byte message it
receives, serving all its clients from one `select` loop.

The model covers the sequential decision logic of both programs. Each
source file becomes one module:

- `Utils` (`utils.dfy`) models `string2int` and `string2ushort` as functions that return an `Option`. `None` stands for a `false` return.
- `Client` (`client.dfy`) models three parts of the client:
  - `parseCommandLineArgs`, as a method with an index loop. It is proved equal to a recursive scan `Scan`, and host resolution is a function parameter.
  - The timeout-to-`timeval` conversion, both as written and as intended.
  - One `pingServer` flow, as a method over a trace of socket-call outcomes. It is proved equal to the function `Flow`.
- `Server` (`server.dfy`) models the server:
  - One turn of the `startServer` event loop, as the method `ServePass` with the helper methods `ScanClients` and `EraseAll`. It is proved equal to `PassSpec`.
  - The loop over a finite sequence of turns (`StartServer`, specified by `Serve`).
  - `main`'s choice of exit code.
- `Sockets` (`sockets.dfy`) holds the outcomes of the socket calls, which the model receives as inputs. `Wrappers` (`wrappers.dfy`) holds `Option`.

## Model

| member | source | states |
|---|---|---|
| `Utils.String2Int` | Project1/utils.h:7-20 | fails whenever some character is not a decimal digit, so signs and blanks are rejected; succeeds exactly for a non-empty all-digit string whose value is at most INT_MAX; the value is then the decimal value of the string, between 0 and INT_MAX |
| `Utils.String2UShort` | Project1/utils.h:22-32 | succeeds exactly for a non-empty all-digit string whose value is at most 65535, with that value; succeeds only where `string2int` succeeds, with the same value |
| `Utils.LeadingZerosIgnored` | Project1/utils.h:12-13 | leading zeros add nothing to the decimal value of a digit string |
| `Utils.DecimalRoundTrip` | Project1/utils.h:12-13 | reading the canonical decimal spelling of `n` gives back `n` |
| `Utils.CanonicalSpelling` | Project1/utils.h:12-13 | a digit string with no leading zero is the canonical spelling of its value |
| `Utils.PaddedCanonical` | Project1/utils.h:12-13 | every non-empty digit string is its leading zeros followed by the canonical spelling of its value |
| `Utils.String2IntExactly` | Project1/utils.h:7-20 | `string2int` maps any zero-padded spelling of `n` to `n` when `n <= INT_MAX` and fails above it; every string it accepts is such a spelling of the value it returns |
| `Utils.String2UShortExactly` | Project1/utils.h:22-32 | `string2ushort` maps any zero-padded spelling of `n` to `n` when `n <= 65535` and fails above it |
| `Client.Find` | Project1/client.cpp:48-50 | `find(':')` is absent exactly when there is no ':', and otherwise gives the position of the first one |
| `Client.ParseTarget` | Project1/client.cpp:47-50 | an argument without ':' is rejected |
| `Client.ParseTargetSplit` | Project1/client.cpp:48-63 | with `k` the first ':', a target is accepted exactly when the host before `k` resolves and the port after it passes `string2ushort`, and the address is then that host and port |
| `Client.ArgStep` | Project1/client.cpp:28-71 | one turn of the scan: a flag with no next argument or with a non-numeric value fails; a flag with a numeric value consumes two arguments and sets `number` (for `-n`) or `timeout` (for `-t`) to that value, changing nothing else; a target consumes one argument and is appended or fails |
| `Client.ParseCommandLineArgs` | Project1/client.cpp:15-75 | the index loop returns exactly what the recursive scan `ParseArgs` returns |
| `Client.ScanConcat` | Project1/client.cpp:27-72 | once a prefix scans successfully, the scan of a longer list continues from the end of that prefix with what the prefix built |
| `Client.ScanShift` | Project1/client.cpp:27-72 | scanning past a prefix is scanning the rest on its own |
| `Client.ParseAfterPrefix` | Project1/client.cpp:27-72 | after a successful prefix, the remaining arguments are scanned from the configuration the prefix built |
| `Client.TrailingFlagFails` | Project1/client.cpp:29-41 | a `-n` or `-t` in last position makes the parse fail |
| `Client.ScanKeeps` | Project1/client.cpp:29-46 | a scan keeps the count where no `-n` remains and the timeout where no `-t` remains |
| `Client.LastFlagWins` | Project1/client.cpp:29-46 | appending `-n v` (or `-t v`) with a numeric `v` to an accepted command line is accepted and sets that field to `v`; after it the value of `v` is the one returned unless a later flag of the same kind follows |
| `Client.FlagAppended` | Project1/client.cpp:29-46 | a flag with a numeric value, appended to an accepted command line, is accepted and changes only its own field |
| `Client.TargetAppended` | Project1/client.cpp:47-71 | a further target is appended after the targets already accepted, or fails as `ParseTarget` does; one with no ':' fails the whole parse |
| `Client.TargetsElements` | Project1/client.cpp:47-71 | reading arguments as targets succeeds exactly when each one is a valid target, and lists them in argument order |
| `Client.ScanTargets` | Project1/client.cpp:27-72 | without flags, the scan appends exactly the target list, or fails |
| `Client.NoFlagsGivesTargets` | Project1/client.cpp:21-72 | without flags the count stays 0 and the timeout 1000; the target list starts empty; the parse succeeds exactly when every argument is a valid target, with one address per argument in argument order |
| `Client.OverflowingTimeoutParses` | Project1/client.cpp:38-46 | the command line `-t 2147484` is accepted and yields timeout 2147484 |
| `Client.CDiv` | Project1/client.cpp:92 | C's `/` by a positive divisor: the quotient has the sign of the dividend |
| `Client.CRem` | Project1/client.cpp:93 | C's `%` by a positive divisor: the result is smaller than the divisor in magnitude, agrees with `%` on non-negative operands, and is never positive for a negative dividend |
| `Client.DivRemTruncated` | Project1/client.cpp:92-93 | C's division identity `a == (a / b) * b + a % b`, with the quotient truncated toward zero (the multiple of `b` nearest `a` on the side of zero), so the remainder differs from `a` by a multiple of `b`; with the bounds and sign of `CRem` this fixes both results uniquely |
| `Client.Wrap32` | Project1/client.cpp:93 | the `int` product as the hardware wraps it: in range, congruent modulo 2^32, unchanged when it fits |
| `Client.TimevalAsWrittenRange` | Project1/client.cpp:91-93 | the conversion as written (`Client.TimevalAsWritten`): `tv_usec` lies strictly between -1000000 and 1000000, and `tv_sec` is the whole seconds of a non-negative timeout |
| `Client.IntendedTimeval` | Project1/client.cpp:91-93 | the intended conversion: `tv_usec` is a whole number of milliseconds, below one second, and not negative for a non-negative timeout; seconds and milliseconds add back up to the timeout |
| `Client.TimevalAsWrittenBelowOverflow` | Project1/client.cpp:92-93 | for 0 <= timeout <= 2147483 the code computes the intended deadline |
| `Client.TimevalAsWrittenOverflows` | Project1/client.cpp:93 | at timeout 2147484 the product wraps and `tv_usec` is -483296 instead of 484000 |
| `Client.ConfiguredAsIntended` | Project1/client.cpp:91-98 | for 0 <= timeout <= 2147483 the flow's socket options are accepted exactly when the intended deadline would be |
| `Client.OverflowEndsFlow` | Project1/client.cpp:91-98 | with timeout 2147484 and a `setsockopt` that accepts only `0 <= tv_usec < 1000000`, the flow ends at once, with no attempt and no output |
| `Client.Complement` | Project1/client.cpp:134 | `~data` differs from `data`, so the receive loop starts with no match |
| `Client.Attempts` | Project1/client.cpp:121-183 | the attempt loop ends within the trace, and it ends `Completed` only when the loop condition is false |
| `Client.PingServer` | Project1/client.cpp:86-186 | the method, with its nested receive loop and the deadline computed as written, returns exactly the run `Flow` describes |
| `Client.BlockFacts` | Project1/client.cpp:121-182 | one attempt sends its own index, prints the line its outcome calls for, and is paced |
| `Client.BlockPaced` | Project1/client.cpp:122-126 | within one attempt a sleep comes only before the send, and only for attempts after the first |
| `Client.AttemptsSends` | Project1/client.cpp:121-126 | the attempt loop from `i` sends `i`, `i + 1`, … in order, one number per attempt made |
| `Client.AttemptsReports` | Project1/client.cpp:121-183 | the lines the attempt loop prints are the outcomes of the attempts it made, in order |
| `Client.AttemptsEnding` | Project1/client.cpp:121-183 | every attempt made ran while the loop condition held, and all but the last went on; the loop completes only after attempts that all went on; it ends early only at an attempt that stopped; it stalls only when the trace runs out |
| `Client.FlowCount` | Project1/client.cpp:121 | a flow completes only with a non-zero count, after exactly `number` attempts for a positive count and none for a negative one; with count 0 it never completes; with a positive count it never makes more than `number` attempts |
| `Client.FlowSends` | Project1/client.cpp:107-126 | a flow sends 0, 1, 2, … in order, one number per attempt, and nothing when setup or connect fails |
| `Client.FlowReports` | Project1/client.cpp:94-183 | a connected flow prints the outcome of each attempt it made, and one line per attempt when it completes; a failed connect makes zero attempts and prints one timeout line exactly for EWOULDBLOCK, ECONNREFUSED or EINPROGRESS; a rejected socket option ends the flow silently |
| `Client.AllContinueOutcomes` | Project1/client.cpp:160-182 | attempts that all go on print exactly one line each |
| `Client.HealthyFlow` | Project1/client.cpp:121-183 | when every attempt goes on, a positive count no larger than the trace is met exactly, with one line per attempt, and a count of 0 keeps probing until the trace is used up |
| `Client.EndsAtFirstStop` | Project1/client.cpp:126-157 | the flow ends early exactly at the first attempt that stops |
| `Client.MismatchesDiscarded` | Project1/client.cpp:135-158 | `Client.Receive` (the `do … while (recvData != data)` receive loop): replies carrying another sequence number are read past without effect |
| `Client.AttemptClassified` | Project1/client.cpp:126-182 | `Client.AttemptStep` (one attempt's send and receive classification): after any number of mismatched replies, a failed send stops the flow, printing a timeout line only for EPIPE; the echo prints `Success(rtt)` within the timeout and a timeout line beyond it; a would-block prints a timeout line and the flow goes on; a reset or a closed connection prints a timeout line and stops; any other error stops silently |
| `Client.AttemptsPaced` | Project1/client.cpp:121-124 | in the attempt loop every sleep is directly followed by the send of a non-zero number, and every such send directly follows a sleep |
| `Client.FlowPaced` | Project1/client.cpp:121-124 | a flow sleeps one second between consecutive sends and at no other time |
| `Server.Emplace` | Project1/server.cpp:70 | `emplace` adds the key, never overwrites an existing entry, and gives a new key the accepted address |
| `Server.Ascending` | Project1/server.cpp:74 | the map's keys in iteration order: each key once, strictly ascending |
| `Server.EraseAll` | Project1/server.cpp:108-109 | the erase loop removes exactly the sockets marked closed |
| `Server.ScanClients` | Project1/server.cpp:73-107 | the scan loop returns exactly what the recursive scan `PollFrom` collects |
| `Server.ServePass` | Project1/server.cpp:41-109 | one turn as written returns exactly what `PassSpec` describes |
| `Server.PollFacts` | Project1/server.cpp:74-107 | the scan fails exactly when some ready client has a fatal recv or send error; each echo goes to a ready client, at its recorded address, with the value read from it, in ascending socket order; each socket marked closed is a ready client whose read returned zero bytes; a scan that fails stops at the first fatal client, so no echo goes to a socket past it; a scan that does not fail echoes every ready client that sent a message and marks every ready client that closed |
| `Server.PollStopsAtFatal` | Project1/server.cpp:74-107 | the scan returns at the first fatal client: every echo goes to a socket at or before any ready client with a fatal error |
| `Server.AcceptAddsOne` | Project1/server.cpp:58-71 | `Server.AfterAccept` (the accept step): an accept when the listening socket is ready adds exactly one client, keyed by the new socket |
| `Server.PassEarlyExits` | Project1/server.cpp:47-69 | a failed `select`, or a failed `accept` on a ready listening socket, returns 1 with nothing echoed; a `select` returning 0 leaves the map unchanged |
| `Server.PassOutcome` | Project1/server.cpp:58-109 | a turn returns 1 exactly when some ready client has a fatal error; otherwise the remaining clients are those after the accept minus the ready ones that closed; every remaining client keeps its address; every echo answers a ready client with the value it sent, in ascending socket order; a turn that fails answers no client past the first fatal one; a turn that does not fail answers every ready client that sent a message |
| `Server.UnreadyUntouched` | Project1/server.cpp:74-77 | a client whose socket is not ready keeps its entry and address and gets no echo |
| `Server.StartServer` | Project1/server.cpp:13-115 | the loop as written returns exactly what `Serve` describes for the turns given |
| `Server.RoundsKeepAccepted` | Project1/server.cpp:40-110 | `Server.Rounds` (the `while(true)` loop over a sequence of turns): every client held was delivered by `accept` with the address held for it |
| `Server.RoundsExitOne` | Project1/server.cpp:40-110 | `Server.Rounds` (the `while(true)` loop): it only ever returns 1 |
| `Server.ServeFacts` | Project1/server.cpp:13-115 | `startServer` returns only 1 (its `return 0` is unreachable), and every client it holds came from an `accept` |
| `Server.MainExitCodes` | Project1/server.cpp:117-131 | `main` (the function `Server.ServerMain`) returns 1 when the argument count is not 2 and 2 exactly when the port fails `string2ushort`, in both cases with no client and no echo; with a valid port it is exactly the run of `startServer`; no other code is returned |

## Left out

- The socket system calls (`socket`, `setsockopt`, `connect`, `send`, `recv`, `bind`, `listen`, `accept`, `close`) and `select` with its `fd_set` are operating-system I/O. The model receives their outcomes as inputs: a trace per flow, and a `Round` per server turn.
- Whether `setsockopt` accepts a deadline is a function in the trace. The kernel's validation of `timeval` is not modelled.
- `close` and the closing of sockets are not modelled. A closed client only leaves the map.
- `std::thread` and `ping` (Project1/client.cpp:188-196) are left out: flows share no state, so one flow is modelled.
- The client's `main` is not part of this model.
- `gethostbyname` is a function parameter (`resolve`). `inet_ntoa` and `htons`/`ntohs` are not modelled: ports and addresses are kept in host order.
- `steady_clock` and `sleep_for` are clocks. The elapsed milliseconds of an attempt are an input, and the sleep is a recorded `Sleep` action.
- `MSG_WAITALL` partial reads and payload byte order are not modelled. Each 4-byte message is one integer value.
- Output text, `perror` and `cout` are not modelled. Only which report a flow prints (`TimedOut` or `Success(rtt)`) and which echo the server makes are recorded.
- The server's endless loop runs over a finite sequence of turns, and the client's flow over a finite trace. A flow whose trace runs out ends `Stalled`, and a server that is still serving when the turns run out has no exit code.
- `Server.ServerMain`: the parsed listening port is not passed on, because `bind` is an input outcome.
- `Server.PassSpec`: the `select` result is an input, so the ready set may also hold the socket `accept` returns in the same turn, which the program cannot produce. The proved properties cover these extra turns too.
- `Client.PingServer`: `packetCnt` is an unbounded counter. The signed overflow after 2^31 attempts with count 0 is not modelled.
- `Utils.String2Int`: when it fails, the source leaves the caller's variable unchanged. In the model this is the `None` result, which carries no value.

## Findings

| source | as written | input that shows it | evidently intended | confidence | as-written member | corrected member |
|---|---|---|---|---|---|---|
| Project1/client.cpp:93 | `tv_usec = timeout * 1000 % 1000000`, with the product computed in `int` | `-t 2147484`: the product 2147484000 wraps to -2147483296, so `tv_usec` becomes -483296 | `tv_sec = 2147`, `tv_usec = 484000`: the milliseconds past the whole seconds, in microseconds | high; not executed | `Client.TimevalAsWrittenOverflows` | `Client.IntendedTimeval` |

`Client.TimevalAsWritten` models the code as written. `Client.TimevalAsWrittenOverflows` exhibits the discrepancy at 2147484, and `Client.OverflowingTimeoutParses` shows the command line accepts that timeout. `Client.IntendedTimeval` computes the deadline without the product, and its postconditions state the intended property. `Client.Flow` and `Client.PingServer` follow the code as written, so a flow hands `setsockopt` the wrapped deadline. `Client.ConfiguredAsIntended` shows this is the intended deadline for every timeout up to 2147483. `Client.OverflowEndsFlow` shows the consequence at 2147484: a `setsockopt` that rejects a negative `tv_usec`, as Linux does, ends the flow before it connects. Signed overflow is undefined behaviour in C++. The model takes the usual two's-complement wrap-around, so the wrong value above is one possible outcome, not the only one.
