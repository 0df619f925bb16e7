/** `Gearman::Server`: the admin client that asks every configured job server for `status` or
    `workers` and gathers the parsed replies into one hash keyed by "host:port".

    The servers are visited one after the other. The network is given as a `connect` answer for
    every connection attempt (see module Connector) and a `Wire`: the number of the next attempt
    and the reads still to come, shared in order by the servers of the run. A run whose reads
    run out before a reply is complete ends in `Hung`, which stands for the source's
    polling loop never returning. */
module Gearman {
  import opened RubyText
  import opened Framing
  import opened Replies
  import opened Connector

  /** The value stored for a server that could not be reached. */
  const UnableToConnect: string := "unable to connect to server"

  /** `socket`'s default `num_retries`, used by `status` and `workers`. */
  const DefaultRetries: int := 3

  /** What `Server.new` accepts: nil, one "host:port" string, or an array of them. */
  datatype ServerList = NoServers | OneServer(hostport: string) | ServerArray(hostports: seq<string>)

  /** Ruby's `Array(servers)`. */
  function ArrayOf(input: ServerList): seq<string> {
    match input
    case NoServers => []
    case OneServer(hostport) => [hostport]
    case ServerArray(hostports) => hostports
  }

  /** An open socket; the model keeps only the endpoint it was opened to. */
  datatype Connection = Connection(hostport: string)

  /** Where a run stands on the network: the number of the next connection attempt and the reads
      not yet consumed. */
  datatype Wire = Wire(attempts: nat, chunks: seq<Option<string>>)

  /** The outcome of a run: the value computed and where the network then stands, or the polling
      loop of `send_command` never returning. */
  datatype Run<T> = Done(value: T, next: Wire) | Hung

  /** The value stored for one server: the text of an error, or the parsed reply. */
  datatype ServerValue<T> = Message(text: string) | Parsed(reply: T)

  /** How `status` reads a reply. */
  function ParseStatus(response: string): map<Option<string>, Counts> {
    StatusTable(Lines(response))
  }

  /** The entry `workers` appends for one line of a reply: nil for the "." line, whose guarded
      assignment is skipped and leaves the block-local variable nil, the parsed session otherwise. */
  function WorkerEntry(line: string): Option<Session> {
    if line == "." then None else Some(WorkerHashOf(line).session)
  }

  /** How `workers` reads a reply: one entry per line, in order. */
  function ParseWorkers(response: string): seq<Option<Session>> {
    var lines := Lines(response);
    seq(|lines|, i requires 0 <= i < |lines| => WorkerEntry(lines[i]))
  }

  /** Appending the entry of line `i` to the entries of the lines before it. */
  lemma AppendEntry(entries: seq<Option<Session>>, worker: Option<Session>, lines: seq<string>, i: nat)
    requires i < |lines| && |entries| == i && worker == WorkerEntry(lines[i])
    requires forall j :: 0 <= j < i ==> entries[j] == WorkerEntry(lines[j])
    ensures forall j :: 0 <= j < i + 1 ==> (entries + [worker])[j] == WorkerEntry(lines[j])
  {
  }

  /** A list with one entry per line of a reply, each the line's entry, is how `workers` reads it. */
  lemma ParseWorkersPointwise(response: string, entries: seq<Option<Session>>)
    requires |entries| == |Lines(response)|
    requires forall i :: 0 <= i < |entries| ==> entries[i] == WorkerEntry(Lines(response)[i])
    ensures entries == ParseWorkers(response)
  {
  }

  /** One server's turn: connect with the default number of attempts; on failure store the
      message; otherwise send the command and store the reply as `parse` reads it. */
  function ServerStep<T>(connect: nat -> bool, w: Wire, parse: string -> T): Run<ServerValue<T>> {
    var n := Times(DefaultRetries);
    var attempts := AttemptsAfter(connect, w.attempts, n);
    if FirstSuccess(connect, w.attempts, n).None? then Done(Message(UnableToConnect), Wire(attempts, w.chunks))
    else match Frame(w.chunks)
      case Exhausted(_) => Hung
      case Framed(response, rest) => Done(Parsed(parse(response)), Wire(attempts, rest))
  }

  /** The hash built by visiting `servers` in order; a server listed twice keeps the value of
      its last visit. */
  function Aggregate<T>(servers: seq<string>, connect: nat -> bool, w: Wire, parse: string -> T)
    : Run<map<string, ServerValue<T>>>
    decreases |servers|
  {
    if servers == [] then Done(map[], w)
    else match Aggregate(servers[..|servers| - 1], connect, w, parse)
      case Hung => Hung
      case Done(result, next) =>
        match ServerStep(connect, next, parse)
        case Hung => Hung
        case Done(value, after) => Done(result[servers[|servers| - 1] := value], after)
  }

  class Server {
    /** `@servers`: the "host:port" strings, fixed at creation. */
    const servers: seq<string>

    constructor (input: ServerList)
      ensures servers == ArrayOf(input)
    {
      servers := ArrayOf(input);
    }

    /** Up to `numRetries` connection attempts, numbered from `made`; the first that succeeds
        gives the socket. `made'` is the number of the next attempt afterwards. */
    method Socket(hostport: string, numRetries: int, connect: nat -> bool, made: nat)
      returns (sock: Option<Connection>, made': nat)
      ensures made <= made' <= made + Times(numRetries)
      ensures forall k :: made <= k < made' - 1 ==> !connect(k)
      ensures sock.Some? ==> made' > made && connect(made' - 1) && sock.value == Connection(hostport)
      ensures sock.None? ==> made' == made + Times(numRetries) && forall k :: made <= k < made' ==> !connect(k)
      ensures sock.Some? == FirstSuccess(connect, made, Times(numRetries)).Some?
      ensures made' == AttemptsAfter(connect, made, Times(numRetries))
    {
      var i := 0;
      while i < Times(numRetries)
        invariant 0 <= i <= Times(numRetries)
        invariant forall k :: made <= k < made + i ==> !connect(k)
        invariant FirstSuccess(connect, made, Times(numRetries)) == FirstSuccess(connect, made + i, Times(numRetries) - i)
      {
        if connect(made + i) {
          return Some(Connection(hostport)), made + i + 1;
        }
        i := i + 1;
      }
      return None, made + Times(numRetries);
    }

    /** Polls the reads, appending what each successful one delivers, until the buffer matches
        /\n.\n$/. The write of the command itself is not modelled. */
    method SendCommand(chunks: seq<Option<string>>) returns (r: FrameResult)
      ensures r == Frame(chunks)
    {
      var response := "";
      var i := 0;
      while i < |chunks|
        invariant 0 <= i <= |chunks|
        invariant FrameFrom(response, chunks[i..]) == Frame(chunks)
      {
        var tail := chunks[i..];
        assert tail[0] == chunks[i] && tail[1..] == chunks[i + 1..];
        match chunks[i] {
          case Some(buf) =>
            response := response + buf;
            if Terminated(response) {
              return Framed(response, chunks[i + 1..]);
            }
          case None =>
        }
        i := i + 1;
      }
      return Exhausted(response);
    }

    /** Reads one line of a `workers` reply by shifting its tokens off one at a time. */
    method ParseWorkerLine(line: string) returns (h: WorkerHash)
      ensures h == WorkerHashOf(line)
    {
      if line == "." {
        return EmptyHash;
      }
      var parts := AwkSplit(line);
      var fd, host, name;
      fd, parts := Shift(parts);
      host, parts := Shift(parts);
      name, parts := Shift(parts);
      var kind: Kind;
      var functions: seq<string>;
      if name == Some("-") {
        kind, name, functions := Client, None, [];
      } else if name == Some(":") {
        kind, name, functions := Worker, None, parts;
      } else {
        var separator;
        separator, parts := Shift(parts);
        kind, functions := Worker, parts;
      }
      h := SessionHash(Session(kind, host, name, functions));
    }

    /** The inner loop of `status`: folds each line of a reply other than "." into the server's
        hash, under the line's first field. */
    method FoldStatusReply(response: string) returns (table: map<Option<string>, Counts>)
      ensures table == ParseStatus(response)
    {
      var lines := Lines(response);
      table := map[];
      for i := 0 to |lines|
        invariant table == FoldLines(lines[..i], StatusKey, StatusCounts)
      {
        var line := lines[i];
        FoldLinesStep(lines, i, StatusKey, StatusCounts);
        if line != "." {
          var fields := RegexSplit(line);
          table := table[At(fields, 0) := Counts(At(fields, 1), At(fields, 2), At(fields, 3))];
        }
      }
      assert lines[..|lines|] == lines;
    }

    /** The inner loop of `workers`: appends one entry per line of a reply. */
    method CollectWorkers(response: string) returns (entries: seq<Option<Session>>)
      ensures |entries| == |Lines(response)|
      ensures forall i :: 0 <= i < |entries| ==> entries[i] == WorkerEntry(Lines(response)[i])
      ensures entries == ParseWorkers(response)
    {
      var lines := Lines(response);
      entries := [];
      for i := 0 to |lines|
        invariant |entries| == i
        invariant forall j :: 0 <= j < i ==> entries[j] == WorkerEntry(lines[j])
      {
        var line := lines[i];
        var worker: Option<Session> := None;
        if line != "." {
          var h := ParseWorkerLine(line);
          worker := Some(h.session);
        }
        assert worker == WorkerEntry(line);
        AppendEntry(entries, worker, lines, i);
        entries := entries + [worker];
      }
      ParseWorkersPointwise(response, entries);
    }

    /** `status`: one entry per configured server, in the order of `servers`. */
    method Status(connect: nat -> bool, w: Wire) returns (r: Run<map<string, ServerValue<map<Option<string>, Counts>>>>)
      ensures r == Aggregate(servers, connect, w, ParseStatus)
    {
      var result := map[];
      var attempts, chunks := w.attempts, w.chunks;
      for i := 0 to |servers|
        invariant Aggregate(servers[..i], connect, w, ParseStatus) == Done(result, Wire(attempts, chunks))
      {
        var server := servers[i];
        AggregateStep(servers, connect, w, ParseStatus, i);
        var sock, made := Socket(server, DefaultRetries, connect, attempts);
        if sock.None? {
          result := result[server := Message(UnableToConnect)];
        } else {
          var framed := SendCommand(chunks);
          if framed.Exhausted? {
            AggregateStaysExhausted(servers, connect, w, ParseStatus, i + 1);
            return Hung;
          }
          var table := FoldStatusReply(framed.response);
          result := result[server := Parsed(table)];
          chunks := framed.rest;
        }
        attempts := made;
      }
      assert servers[..|servers|] == servers;
      r := Done(result, Wire(attempts, chunks));
    }

    /** `workers`: one entry per configured server, in the order of `servers`. */
    method Workers(connect: nat -> bool, w: Wire) returns (r: Run<map<string, ServerValue<seq<Option<Session>>>>>)
      ensures r == Aggregate(servers, connect, w, ParseWorkers)
    {
      var result := map[];
      var attempts, chunks := w.attempts, w.chunks;
      for i := 0 to |servers|
        invariant Aggregate(servers[..i], connect, w, ParseWorkers) == Done(result, Wire(attempts, chunks))
      {
        var server := servers[i];
        AggregateStep(servers, connect, w, ParseWorkers, i);
        var sock, made := Socket(server, DefaultRetries, connect, attempts);
        if sock.None? {
          result := result[server := Message(UnableToConnect)];
        } else {
          var framed := SendCommand(chunks);
          if framed.Exhausted? {
            AggregateStaysExhausted(servers, connect, w, ParseWorkers, i + 1);
            return Hung;
          }
          var entries := CollectWorkers(framed.response);
          result := result[server := Parsed(entries)];
          chunks := framed.rest;
        }
        attempts := made;
      }
      assert servers[..|servers|] == servers;
      r := Done(result, Wire(attempts, chunks));
    }
  }

  /** Visiting one more server: its step runs from where the network stood after the servers
      before it. */
  lemma AggregateStep<T>(servers: seq<string>, connect: nat -> bool, w: Wire, parse: string -> T, i: nat)
    requires i < |servers| && Aggregate(servers[..i], connect, w, parse).Done?
    ensures Aggregate(servers[..i + 1], connect, w, parse)
         == match ServerStep(connect, Aggregate(servers[..i], connect, w, parse).next, parse)
            case Hung => Hung
            case Done(value, after) =>
              Done(Aggregate(servers[..i], connect, w, parse).value[servers[i] := value], after)
  {
    assert servers[..i + 1][..i] == servers[..i];
  }

  /** One server's turn makes between one and `DefaultRetries` connection attempts and consumes
      reads only from the front: an unreachable server makes every attempt and reads nothing,
      and the turn hangs exactly when a connection is made but no read completes the reply. */
  lemma ServerStepProgress<T>(connect: nat -> bool, w: Wire, parse: string -> T)
    ensures ServerStep(connect, w, parse).Hung?
        <==> FirstSuccess(connect, w.attempts, Times(DefaultRetries)).Some? && Frame(w.chunks).Exhausted?
    ensures ServerStep(connect, w, parse).Done? ==>
      var next := ServerStep(connect, w, parse).next;
      && w.attempts < next.attempts <= w.attempts + DefaultRetries
      && |next.chunks| <= |w.chunks| && next.chunks == w.chunks[|w.chunks| - |next.chunks|..]
    ensures ServerStep(connect, w, parse).Done? && ServerStep(connect, w, parse).value.Message? ==>
      ServerStep(connect, w, parse).next == Wire(w.attempts + DefaultRetries, w.chunks)
  {
    FrameCharacterised(w.chunks);
  }

  /** A whole run makes between one and `DefaultRetries` attempts per server and consumes the
      reads from the front, in order. */
  lemma {:induction false} AggregateProgress<T>(servers: seq<string>, connect: nat -> bool, w: Wire, parse: string -> T)
    requires Aggregate(servers, connect, w, parse).Done?
    ensures var next := Aggregate(servers, connect, w, parse).next;
      && w.attempts + |servers| <= next.attempts <= w.attempts + DefaultRetries * |servers|
      && |next.chunks| <= |w.chunks| && next.chunks == w.chunks[|w.chunks| - |next.chunks|..]
    decreases |servers|
  {
    if servers != [] {
      var init := servers[..|servers| - 1];
      AggregateProgress(init, connect, w, parse);
      var mid := Aggregate(init, connect, w, parse).next;
      ServerStepProgress(connect, mid, parse);
    }
  }

  /** Once the polling loop hangs on some server, the whole call never returns. */
  lemma {:induction false} AggregateStaysExhausted<T>(servers: seq<string>, connect: nat -> bool, w: Wire, parse: string -> T, i: nat)
    requires i <= |servers| && Aggregate(servers[..i], connect, w, parse).Hung?
    ensures Aggregate(servers, connect, w, parse).Hung?
    decreases |servers|
  {
    if i == |servers| {
      assert servers[..i] == servers;
    } else {
      var init := servers[..|servers| - 1];
      assert init[..i] == servers[..i];
      AggregateStaysExhausted(init, connect, w, parse, i);
    }
  }

  /** The result has exactly one key per configured server, however many are unreachable. */
  lemma {:induction false} AggregateKeys<T>(servers: seq<string>, connect: nat -> bool, w: Wire, parse: string -> T)
    requires Aggregate(servers, connect, w, parse).Done?
    ensures Aggregate(servers, connect, w, parse).value.Keys == set s | s in servers
    decreases |servers|
  {
    if servers != [] {
      var init := servers[..|servers| - 1];
      AggregateKeys(init, connect, w, parse);
      assert servers == init + [servers[|servers| - 1]];
      assert (set s | s in servers) == (set s | s in init) + {servers[|servers| - 1]};
    }
  }

  /** The value stored for a server is what its last visit produced, from where the network
      stood when that visit began. */
  lemma {:induction false} AggregateLastVisitWins<T>(servers: seq<string>, connect: nat -> bool, w: Wire, parse: string -> T, i: nat)
    requires i < |servers| && servers[i] !in servers[i + 1..]
    requires Aggregate(servers, connect, w, parse).Done?
    ensures Aggregate(servers[..i], connect, w, parse).Done?
    ensures ServerStep(connect, Aggregate(servers[..i], connect, w, parse).next, parse).Done?
    ensures servers[i] in Aggregate(servers, connect, w, parse).value
    ensures Aggregate(servers, connect, w, parse).value[servers[i]]
         == ServerStep(connect, Aggregate(servers[..i], connect, w, parse).next, parse).value
    decreases |servers|
  {
    var n := |servers|;
    var init := servers[..n - 1];
    if i < n - 1 {
      assert init[..i] == servers[..i];
      assert init[i + 1..] == servers[i + 1..n - 1];
      assert servers[n - 1] in servers[i + 1..];
      AggregateLastVisitWins(init, connect, w, parse, i);
    }
  }

  /** A server's value is the "unable to connect" message exactly when none of its attempts
      connected; otherwise it is the parsed reply that the reads delivered. */
  lemma ServerStepOutcome<T>(connect: nat -> bool, w: Wire, parse: string -> T)
    requires ServerStep(connect, w, parse).Done?
    ensures ServerStep(connect, w, parse).value.Message?
        <==> FirstSuccess(connect, w.attempts, Times(DefaultRetries)).None?
    ensures ServerStep(connect, w, parse).value.Message? ==> ServerStep(connect, w, parse).value.text == UnableToConnect
    ensures ServerStep(connect, w, parse).value.Parsed? ==>
      Frame(w.chunks).Framed? && ServerStep(connect, w, parse).value.reply == parse(Frame(w.chunks).response)
  {
  }

  /** A server that accepts one of its connection attempts and whose reads together end in
      "\n.\n" is answered: its value is the parsed reply, however the reply was fragmented. */
  lemma ReachableServerIsParsed<T>(connect: nat -> bool, w: Wire, parse: string -> T)
    requires FirstSuccess(connect, w.attempts, Times(DefaultRetries)).Some?
    requires |Received(w.chunks)| >= 3 && Received(w.chunks)[|Received(w.chunks)| - 3..] == "\n.\n"
    ensures ServerStep(connect, w, parse).Done?
    ensures ServerStep(connect, w, parse).value == Parsed(parse(Frame(w.chunks).response))
  {
    FragmentedReplyIsFramed(w.chunks);
  }

  // ----- whole replies, as a job server writes them -----

  /** A reply of one-line rows followed by the "." line is split back into those lines. */
  lemma ReplyLines(texts: seq<string>)
    requires forall i :: 0 <= i < |texts| ==> '\n' !in texts[i]
    ensures Lines(LinesText(texts + ["."])) == texts + ["."]
  {
    var lines := texts + ["."];
    forall i | 0 <= i < |lines| ensures '\n' !in lines[i] {
      if i < |texts| {
        assert lines[i] == texts[i];
      }
    }
    LinesOfLinesText(lines);
  }

  /** One row of a `status` reply: a function name, its three counts, and the whitespace the
      server puts after each of them. */
  datatype StatusRow = StatusRow(func: string, queued: string, running: string, workers: string, spacing: RowSpacing)

  predicate WellFormedStatusRow(row: StatusRow) {
    IsToken(row.func) && IsToken(row.queued) && IsToken(row.running) && IsToken(row.workers)
    && RowSpacingOk(row.spacing)
  }

  function RowText(row: StatusRow): string {
    StatusRowText(row.func, row.queued, row.running, row.workers, row.spacing)
  }

  function RowCounts(row: StatusRow): Counts {
    Counts(Some(row.queued), Some(row.running), Some(row.workers))
  }

  function RowTexts(rows: seq<StatusRow>): seq<string> {
    seq(|rows|, i requires 0 <= i < |rows| => RowText(rows[i]))
  }

  /** A `status` reply: one row per function, then the "." line, each line ending in a newline. */
  function StatusReply(rows: seq<StatusRow>): string {
    LinesText(RowTexts(rows) + ["."])
  }

  lemma StatusRowLine(row: StatusRow)
    requires WellFormedStatusRow(row)
    ensures '\n' !in RowText(row) && RowText(row) != "."
    ensures StatusKey(RowText(row)) == Some(row.func) && StatusCounts(RowText(row)) == RowCounts(row)
  {
    StatusRowOneLine(row.func, row.queued, row.running, row.workers, row.spacing);
    StatusRowRoundTrip(row.func, row.queued, row.running, row.workers, row.spacing);
  }

  /** The lines of a whole `status` reply. */
  lemma StatusReplyLines(rows: seq<StatusRow>)
    requires forall i :: 0 <= i < |rows| ==> WellFormedStatusRow(rows[i])
    ensures Lines(StatusReply(rows)) == RowTexts(rows) + ["."]
    ensures forall i :: 0 <= i < |rows| ==>
      RowTexts(rows)[i] != "."
      && StatusKey(RowTexts(rows)[i]) == Some(rows[i].func)
      && StatusCounts(RowTexts(rows)[i]) == RowCounts(rows[i])
  {
    var texts := RowTexts(rows);
    forall i | 0 <= i < |rows|
      ensures '\n' !in texts[i] && texts[i] != "."
      ensures StatusKey(texts[i]) == Some(rows[i].func) && StatusCounts(texts[i]) == RowCounts(rows[i])
    {
      StatusRowLine(rows[i]);
    }
    ReplyLines(texts);
  }

  /** The rows' function names are the keys of the table built from a reply's lines. */
  lemma StatusTableKeys(rows: seq<StatusRow>, lines: seq<string>)
    requires lines == RowTexts(rows) + ["."]
    requires forall i :: 0 <= i < |rows| ==> RowTexts(rows)[i] != "." && StatusKey(RowTexts(rows)[i]) == Some(rows[i].func)
    ensures StatusTable(lines).Keys == set i | 0 <= i < |rows| :: Some(rows[i].func)
  {
    FoldLinesKeys(lines, StatusKey, StatusCounts);
    FoundKeysAreNamed(rows, lines);
    NamedKeysAreFound(rows, lines);
  }

  /** Every key a non-terminator line yields names one of the rows. */
  lemma FoundKeysAreNamed(rows: seq<StatusRow>, lines: seq<string>)
    requires lines == RowTexts(rows) + ["."]
    requires forall i :: 0 <= i < |rows| ==> StatusKey(RowTexts(rows)[i]) == Some(rows[i].func)
    ensures (set i | 0 <= i < |lines| && lines[i] != "." :: StatusKey(lines[i]))
         <= (set i | 0 <= i < |rows| :: Some(rows[i].func))
  {
    var found := set i | 0 <= i < |lines| && lines[i] != "." :: StatusKey(lines[i]);
    var named := set i | 0 <= i < |rows| :: Some(rows[i].func);
    forall k | k in found ensures k in named {
      var i :| 0 <= i < |lines| && lines[i] != "." && k == StatusKey(lines[i]);
      assert i < |rows| && lines[i] == RowTexts(rows)[i];
    }
  }

  /** Every row's function name is the key of some non-terminator line. */
  lemma NamedKeysAreFound(rows: seq<StatusRow>, lines: seq<string>)
    requires lines == RowTexts(rows) + ["."]
    requires forall i :: 0 <= i < |rows| ==> RowTexts(rows)[i] != "." && StatusKey(RowTexts(rows)[i]) == Some(rows[i].func)
    ensures (set i | 0 <= i < |rows| :: Some(rows[i].func))
         <= (set i | 0 <= i < |lines| && lines[i] != "." :: StatusKey(lines[i]))
  {
    var found := set i | 0 <= i < |lines| && lines[i] != "." :: StatusKey(lines[i]);
    var named := set i | 0 <= i < |rows| :: Some(rows[i].func);
    forall k | k in named ensures k in found {
      var i :| 0 <= i < |rows| && k == Some(rows[i].func);
      assert lines[i] == RowTexts(rows)[i];
    }
  }

  /** Each row's counts are stored under its function name when the names are distinct. */
  lemma StatusTableValue(rows: seq<StatusRow>, lines: seq<string>, i: nat)
    requires lines == RowTexts(rows) + ["."] && i < |rows|
    requires forall i :: 0 <= i < |rows| ==> RowTexts(rows)[i] != "." && StatusKey(RowTexts(rows)[i]) == Some(rows[i].func)
    requires forall i, j :: 0 <= i < j < |rows| ==> rows[i].func != rows[j].func
    ensures StatusKey(lines[i]) in StatusTable(lines)
    ensures StatusTable(lines)[StatusKey(lines[i])] == StatusCounts(lines[i])
  {
    assert lines[i] == RowTexts(rows)[i];
    forall j | i < j < |lines| && lines[j] != "." ensures StatusKey(lines[j]) != StatusKey(lines[i]) {
      assert j < |rows| && lines[j] == RowTexts(rows)[j];
    }
    FoldLinesLastWins(lines, StatusKey, StatusCounts, i);
  }

  /** Reading a whole `status` reply whose function names are distinct gives one entry per
      function, holding that function's three counts. */
  lemma StatusReplyRoundTrip(rows: seq<StatusRow>)
    requires forall i :: 0 <= i < |rows| ==> WellFormedStatusRow(rows[i])
    requires forall i, j :: 0 <= i < j < |rows| ==> rows[i].func != rows[j].func
    ensures ParseStatus(StatusReply(rows)).Keys == set i | 0 <= i < |rows| :: Some(rows[i].func)
    ensures forall i :: 0 <= i < |rows| ==>
      Some(rows[i].func) in ParseStatus(StatusReply(rows))
      && ParseStatus(StatusReply(rows))[Some(rows[i].func)] == RowCounts(rows[i])
  {
    var lines := RowTexts(rows) + ["."];
    StatusReplyLines(rows);
    assert ParseStatus(StatusReply(rows)) == StatusTable(lines);
    StatusTableKeys(rows, lines);
    forall i | 0 <= i < |rows|
      ensures Some(rows[i].func) in StatusTable(lines)
      ensures StatusTable(lines)[Some(rows[i].func)] == RowCounts(rows[i])
    {
      StatusTableValue(rows, lines, i);
      assert lines[i] == RowTexts(rows)[i];
    }
  }

  /** One row of a `workers` reply: the session's file descriptor on the server, and the session. */
  datatype WorkerRow = WorkerRow(fd: string, session: Session)

  predicate WellFormedWorkerRow(row: WorkerRow) {
    IsToken(row.fd) && Describable(row.session)
  }

  /** A `workers` reply: one row per session, then the "." line, each line ending in a newline. */
  function SessionRowTexts(rows: seq<WorkerRow>): seq<string>
    requires forall i :: 0 <= i < |rows| ==> WellFormedWorkerRow(rows[i])
  {
    seq(|rows|, i requires 0 <= i < |rows| && WellFormedWorkerRow(rows[i]) => SessionRowText(rows[i].fd, rows[i].session))
  }

  function WorkersReply(rows: seq<WorkerRow>): string
    requires forall i :: 0 <= i < |rows| ==> WellFormedWorkerRow(rows[i])
  {
    LinesText(SessionRowTexts(rows) + ["."])
  }

  /** Reading a whole `workers` reply gives back every session in order, with nil last for the
      "." line. */
  lemma WorkerRowLine(row: WorkerRow)
    requires WellFormedWorkerRow(row)
    ensures '\n' !in SessionRowText(row.fd, row.session) && SessionRowText(row.fd, row.session) != "."
    ensures WorkerEntry(SessionRowText(row.fd, row.session)) == Some(row.session)
  {
    var tokens := SessionTokens(row.fd, row.session);
    assert forall j :: 0 <= j < |tokens| ==> IsToken(tokens[j]);
    JoinedTokensLine(tokens);
    SessionRowRoundTrip(row.fd, row.session);
  }

  lemma WorkersReplyRoundTrip(rows: seq<WorkerRow>)
    requires forall i :: 0 <= i < |rows| ==> WellFormedWorkerRow(rows[i])
    ensures |ParseWorkers(WorkersReply(rows))| == |rows| + 1
    ensures forall i :: 0 <= i < |rows| ==> ParseWorkers(WorkersReply(rows))[i] == Some(rows[i].session)
    ensures ParseWorkers(WorkersReply(rows))[|rows|] == None
  {
    var texts := SessionRowTexts(rows);
    forall i | 0 <= i < |rows|
      ensures '\n' !in texts[i] && texts[i] != "."
      ensures WorkerEntry(texts[i]) == Some(rows[i].session)
    {
      WorkerRowLine(rows[i]);
    }
    ReplyLines(texts);
    var lines := texts + ["."];
    assert Lines(WorkersReply(rows)) == lines;
    var entries := ParseWorkers(WorkersReply(rows));
    forall i | 0 <= i < |rows| ensures entries[i] == Some(rows[i].session) {
      assert lines[i] == texts[i];
    }
    assert entries[|rows|] == WorkerEntry(".");
  }
}
