# Gearman admin client: connection retry, reply framing and the two reply grammars

This project models `Gearman::Server` from `lib/gearman/server.rb`. It is an administrative
client for Gearman job servers. It opens a connection to every configured "host:port", sends
the text command `status` or `workers`, reads the reply until the terminator, and gathers
the parsed replies into one hash keyed by "host:port".

The model follows the source's own shape:

- `RubyText` (`ruby_text.dfy`) models the pieces of Ruby the client depends on: `split(' ')`,
  `split(/\s+/)`, `split("\n")`, `join`, `Array#shift` and `nil`. The lemmas relate the three
  splits. `split(' ')` and `split(/\s+/)` differ only in the empty first field the regexp split
  returns for a line that starts with whitespace. `split(' ')` is characterised exactly: it
  returns the words of the text, in order, whatever whitespace (tabs, runs of spaces, or none
  at the two ends) surrounds and separates them, and every text is such a layout of its words.
- `Connector` (`connector.dfy`) models the retry count of `socket`. `n.times` does nothing for a
  negative `n`. `FirstSuccess` is the first attempt that connects.
- `Framing` (`framing.dfy`) models the polling loop of `send_command`. Each non-blocking read
  either delivers text or raises; a raised read is rescued to nil and contributes nothing. At
  the end of the stream (the server closed the connection) a read raises nothing: it returns
  "" (nil from Ruby 3.3 on), a read of `Some("")` or `None` in the model. The loop has no exit
  for that case, so a server that closes before the terminator leaves the call spinning for
  ever; there is no channel error to report it. The loop returns at the first read after which the accumulated text matches `/\n.\n$/`. In Ruby,
  `.` is any character except a newline, and `$` matches at the end of the text or just before
  any newline. The model states both exactly.
- `Replies` (`replies.dfy`) models the two reply grammars:
  - `status` rows are split with `split(/\s+/)` into the function name and three counts, each
    nil when absent. Rows are stored in a hash where the last row for a name wins.
  - `workers` rows are split with `split(' ')` and read by position. The third token decides
    the shape. "-" is a client. ":" is a worker with no name, and the remaining tokens are its
    functions. Anything else is the worker's name; the token after it is dropped unchecked and
    the rest are functions.
- `Gearman` (`server.dfy`) contains the class `Server`, holding its `servers` list, and its
  methods `Socket`, `SendCommand`, `ParseWorkerLine`, `Status` and `Workers`. Each loop of the
  source is a loop in the model. Each method is proved equal to a function (`Frame`,
  `WorkerHashOf`, `ParseStatus`, `ParseWorkers`, `Aggregate`), and lemmas prove what those
  functions promise.

The network is a parameter, not something the model performs:

- `connect: nat -> bool` answers connection attempts, numbered in the order a run makes them.
- A `Wire` holds the next attempt number and the reads still to come. The servers of a run
  consume the reads one after another, in order.

The source's polling loop never gives up. Over a finite list of reads, the model therefore ends
in `Exhausted` (for one reply) or `Hung` (for a whole call) when the reads run out before the
terminator. Both stand for "never returns".

Two consequences of the source's code, proved in the model:

- A server with no registered functions answers `status` with the single line ".". The reply
  ".\n" has no newline in front of the dot, so `/\n.\n$/` never matches and the call hangs
  (`Framing.BareDotReplyNeverFrames`).
- `send_command` only ever returns a response that matched the terminator. The "No response"
  branches of `status` and `workers` therefore cannot be taken (`Framing.FramedResponseTerminated`).

Where the code and a plain reading of the protocol differ, the model follows the code:

- The counts of a `status` row stay strings (nil when missing); they are not turned into
  integers.
- A malformed row is not an error. Missing fields are nil and extra fields are ignored.
- A `workers` session keeps no file descriptor.
- The "." line of a `workers` reply appends nil to the list.
- The result is a hash. A server listed twice gives one key, holding its last visit.

## Model

| member | source | states |
|---|---|---|
| `Gearman.Server.constructor` | lib/gearman/server.rb:18-21 | `servers` is `Array(servers)`: empty for nil, a one-element list for one "host:port", the list itself for an array |
| `Connector.FirstSuccess` | lib/gearman/server.rb:33-42 | the attempt found is within the `n` attempts and connects, and every earlier attempt failed; none is found exactly when all `n` attempts fail |
| `Gearman.Server.Socket` | lib/gearman/server.rb:31-44 | at most `Times(num_retries)` attempts are made; a socket to `hostport` is returned exactly when one attempt connects, and it is the first such attempt; nil means every attempt failed |
| `Gearman.Server.SendCommand` | lib/gearman/server.rb:50-59 | the polling loop's outcome is `Frame(chunks)`, characterised by the lemmas below |
| `Framing.FrameCharacterised` | lib/gearman/server.rb:53-58 | the loop returns exactly at the first successful read after which the buffer matches `/\n.\n$/`, returning every delivered chunk up to that read concatenated in order; if no such read exists it never returns |
| `Framing.FragmentedReplyIsFramed` | lib/gearman/server.rb:54-56 | a reply whose delivered text ends in "\n.\n" is returned, however it is split into reads and however many reads fail in between |
| `Framing.EndsWithDotLine` | lib/gearman/server.rb:56 | text ending in "\n.\n" matches the terminator |
| `Framing.FramedResponseTerminated` | lib/gearman/server.rb:73 | a returned response matches the terminator and has at least three characters, so it is never nil or empty |
| `Framing.BareDotReplyNeverFrames` | lib/gearman/server.rb:56 | a reply consisting of ".\n" alone, in any fragmentation, never satisfies the terminator, so the loop never returns |
| `Framing.TerminatedByLines` | lib/gearman/server.rb:56 | `/\n.\n$/` matches exactly when, cutting the text at its newlines, some line after the first holds a single character and the line after it is empty (which is also the case when that line ends the text) |
| `Framing.TerminatedIsSeen` | lib/gearman/server.rb:54-56 | if the delivered text as a whole matches the terminator, some successful read already saw a matching buffer |
| `Gearman.Server.FoldStatusReply` | lib/gearman/server.rb:74-79 | the per-server status hash built line by line equals `ParseStatus` of the response |
| `Replies.StatusKeyOfLine` | lib/gearman/server.rb:76-77 | the key a status row is stored under is nil for a blank line, "" for a line that starts with whitespace, and the line's first word otherwise |
| `Replies.StatusCountsOfLine` | lib/gearman/server.rb:76-77 | the counts are the second to fourth words of the line, each nil when missing; on a line that starts with whitespace they are the first to third words, so the function name is read as the queue count |
| `Replies.FoldLinesKeys` | lib/gearman/server.rb:74-79 | the hash has exactly one key per distinct first field of the non-"." lines; "." lines add nothing |
| `Replies.FoldLinesLastWins` | lib/gearman/server.rb:77 | a function name repeated in a reply keeps the counts of its last row |
| `Replies.StatusRowRoundTrip` | lib/gearman/server.rb:76-77 | reading a row of four fields gives back the name as key and the three counts, whatever non-empty whitespace (tabs, runs of spaces) separates the fields and whatever whitespace follows the last, as long as the row stays on its line |
| `Replies.TabSeparatedRow` | lib/gearman/server.rb:76-77 | the row `func\tqueued\trunning\tworkers` that a server writes is read back as its name and three counts |
| `Replies.StatusRowOneLine` | lib/gearman/server.rb:74-75 | a written status row holds no newline and is longer than one character, so `split("\n")` keeps it whole and it is never taken for the "." line |
| `Gearman.StatusReplyRoundTrip` | lib/gearman/server.rb:73-79 | reading a whole `status` reply with distinct function names, each row laid out with its own whitespace, gives exactly one entry per function, holding that function's counts |
| `Gearman.Server.ParseWorkerLine` | lib/gearman/server.rb:95-125 | shifting tokens off the `split(' ')` of the line gives `WorkerHashOf(line)` |
| `Replies.WorkerHashOf` | lib/gearman/server.rb:98-123 | the empty hash is returned exactly for the line "." |
| `Replies.SessionOfShape` | lib/gearman/server.rb:101-121 | reading a row's tokens: the host is token 2; the session is a client exactly when token 3 is "-", and then has no name and no functions; it has a name exactly when token 3 exists and is neither "-" nor ":", and the name is token 3; the functions are trailing tokens and never include the first three |
| `Replies.SessionOfTokens` | lib/gearman/server.rb:101-123 | the token-position reading recovers every describable session (client, unnamed worker, named worker) from the tokens a server writes for it |
| `Replies.SessionRowRoundTrip` | lib/gearman/server.rb:100-123 | parsing the row written for a session, with any file descriptor, gives that session back: kind, host, name and functions in order |
| `Replies.NamedWorkerSeparatorUnchecked` | lib/gearman/server.rb:115-120 | the token after a worker's name is discarded without being looked at: rows differing only there parse to the same session |
| `Gearman.Server.CollectWorkers` | lib/gearman/server.rb:145-148 | one entry per line of the response, in order: nil for the "." line, the parsed session otherwise |
| `Gearman.WorkersReplyRoundTrip` | lib/gearman/server.rb:144-148 | reading a whole `workers` reply gives back every session in server order, followed by nil for the "." line |
| `Gearman.Server.Status` | lib/gearman/server.rb:65-89 | the result of `status` is `Aggregate` of the servers in order with the status reader, or a hang |
| `Gearman.Server.Workers` | lib/gearman/server.rb:131-156 | the result of `workers` is `Aggregate` of the servers in order with the workers reader, or a hang |
| `Gearman.AggregateKeys` | lib/gearman/server.rb:67-88 | when the call returns, its hash has exactly one key per configured server, reachable or not |
| `Gearman.AggregateLastVisitWins` | lib/gearman/server.rb:134-155 | a server's value is what its last visit produced, starting from where the network stood after the servers before it |
| `Gearman.ServerStepProgress` | lib/gearman/server.rb:67-83 | one server's turn makes between one and three connection attempts and consumes reads only from the front; an unreachable server makes all three attempts and consumes no read; the turn hangs exactly when a connection is made and no read completes the reply |
| `Gearman.AggregateProgress` | lib/gearman/server.rb:67-86 | a returning call makes, in total, at least one attempt per configured server and at most three times as many attempts as there are servers, and it consumes the reads from the front, in order |
| `Gearman.AggregateStaysExhausted` | lib/gearman/server.rb:67-73 | once the polling loop hangs on one server, the whole call never returns |
| `Gearman.ServerStepOutcome` | lib/gearman/server.rb:68-73 | a server's value is "unable to connect to server" exactly when none of its attempts connects; otherwise it is the parsed framed reply |
| `Gearman.ReachableServerIsParsed` | lib/gearman/server.rb:137-148 | a server that accepts a connection and whose reads end in "\n.\n" is answered with the parsed reply |
| `RubyText.AwkSplit` | lib/gearman/server.rb:100 | every field of `split(' ')` is non-empty and free of whitespace |
| `RubyText.RegexSplit` | lib/gearman/server.rb:76 | the fields of `split(/\s+/)` hold no whitespace, and only the first can be empty, which happens only when the text starts with whitespace |
| `RubyText.Lines` | lib/gearman/server.rb:74 | no field of `split("\n")` contains a newline |
| `RubyText.At` | lib/gearman/server.rb:76 | indexing past the end of an array gives nil, and only then |
| `RubyText.Shift` | lib/gearman/server.rb:101-103 | `shift` gives nil exactly for an empty array, and the element taken followed by what is left is the array it was taken from |
| `RubyText.AwkSplitInterleave` | lib/gearman/server.rb:100 | `split(' ')` returns exactly the words of any text made of those words with whitespace in front, after and (at least one character) between them |
| `RubyText.AwkSplitLayout` | lib/gearman/server.rb:100 | every text is its `split(' ')` words laid out that way: only whitespace is dropped, and the words keep the order of the text |
| `RubyText.AwkSplitCharacterised` | lib/gearman/server.rb:100 | `split(' ')` returns a list exactly when the text is a whitespace layout of that list, in both directions |
| `RubyText.RegexSplitInterleave` | lib/gearman/server.rb:76 | `split(/\s+/)` returns the words of any such layout, behind one empty field exactly when whitespace comes before the first word |
| `RubyText.AwkSplitJoin` | lib/gearman/server.rb:100 | `split(' ')` undoes joining tokens with single spaces |
| `RubyText.RegexSplitJoin` | lib/gearman/server.rb:76 | `split(/\s+/)` undoes joining tokens with single spaces |
| `RubyText.RegexSplitVersusAwkSplit` | lib/gearman/server.rb:76 | `split(/\s+/)` equals `split(' ')` except for one extra empty first field when the line starts with whitespace and has a field |
| `RubyText.AwkSplitIsRegexSplitTrimmed` | lib/gearman/server.rb:100 | `split(' ')` is `split(/\s+/)` applied after stripping leading whitespace |
| `RubyText.JoinRawSplitOn` | lib/gearman/server.rb:74 | splitting on a character before trailing empty pieces are dropped loses nothing: joining the pieces back gives the text |
| `RubyText.RawSplitOnJoin` | lib/gearman/server.rb:74 | splitting on a character undoes joining pieces that do not contain it |
| `RubyText.LinesOfLinesText` | lib/gearman/server.rb:74 | `split("\n")` of newline-terminated lines, the last one non-empty, gives back those lines |
| `RubyText.DropTrailingEmpty` | lib/gearman/server.rb:74 | only trailing empty fields are dropped, and the result does not end in an empty field |

## Left out

- Opening the TCP connection (`TCPSocket.new` with the "host:port" split on ':'): it is foreign I/O. The `connect` parameter gives the outcome of each attempt, whether it fails on the network or on a malformed "host:port".
- Writing the command (`socket.puts`) is not modelled. The command string (`status` or `workers`) only decides which reply the server sends, and that reply is a parameter. The write itself can raise, for example when a server closes the connection right after accepting it. Nothing rescues that exception, so it ends the whole `status` or `workers` call and no hash is returned, even for the servers already visited. The model has no such outcome: a call either returns or hangs.
- `recv_nonblock` and its 65536-byte limit: the reads are a parameter, and each read is whatever text it delivers.
- Termination of the polling loop: the source never gives up, and the model cannot run for ever. A finite list of reads that ends before the terminator gives `Exhausted`/`Hung`, meaning "never returns". No timeout is added.
- The debug `puts line` in `parse_worker_line` and the `pp` driver at the end of the file: they are output only.
- Closing sockets: the source never closes them explicitly.
- `Array()` applied to values other than nil, a string or an array of strings: the constructor accepts only those three shapes.
- The "No response" branches of `status` and `workers` (the `else` arms at lines 80-81 and 149-150): `send_command` never returns nil, so they cannot be reached and are not modelled. `Framing.FramedResponseTerminated` states why.
- Gearman.Server.Status: the order of the keys of the result is not modelled. A Ruby Hash lists its keys in the order they were first inserted, and a server listed twice keeps its first position. The model's `map` has no order, so the order in which the caller (or `pp`) sees the servers is lost.
- Gearman.Server.FoldStatusReply: the order of the function names in each server's status hash is not modelled, for the same reason. A name repeated in a reply keeps its first position in Ruby and takes the last row's counts; the model keeps only the counts.
- Gearman.Server.Workers: the order of the servers in the result is not modelled, as for `status`. The list of sessions of each server does keep its order.
- Gearman.Server.Workers: the source stores each server's list under the single key `:workers` of a wrapper hash; the model stores the list itself.
- Ruby strings are sequences of characters here. Byte encodings and invalid UTF-8 are not modelled.
