/** The two reply grammars of the admin protocol, read the way lib/gearman/server.rb reads them.

    `status` rows: `func queued running workers`, split on whitespace runs with `split(/\s+/)`;
    the counts stay strings and a missing field is nil.
    `workers` rows: `fd host third ...`, split with `split(' ')`; the third token decides the
    shape of the session: "-" a client, ":" a worker without a name, anything else the name of a
    worker, followed by one token that is skipped and then the worker's functions. */
module Replies {
  import opened RubyText

  // ----- status -----

  /** The hash with keys :queue, :running and :workers of one status row: raw strings, nil when absent. */
  datatype Counts = Counts(queue: Option<string>, running: Option<string>, workers: Option<string>)

  /** The key a status row is stored under: its first `split(/\s+/)` field. */
  function StatusKey(line: string): Option<string> {
    At(RegexSplit(line), 0)
  }

  /** The counts of a status row: its second to fourth `split(/\s+/)` fields; later fields are
      ignored. */
  function StatusCounts(line: string): Counts {
    var fields := RegexSplit(line);
    Counts(At(fields, 1), At(fields, 2), At(fields, 3))
  }

  /** A status row's key is nil for a blank line, "" for a line that starts with whitespace, and
      the first word otherwise. */
  lemma StatusKeyOfLine(line: string)
    ensures AwkSplit(line) == [] ==> StatusKey(line) == None
    ensures line != [] && IsSpace(line[0]) && AwkSplit(line) != [] ==> StatusKey(line) == Some([])
    ensures line != [] && !IsSpace(line[0]) ==> StatusKey(line) == At(AwkSplit(line), 0)
  {
    RegexSplitVersusAwkSplit(line);
  }

  /** A status row's counts are its second to fourth words; on a line that starts with
      whitespace they are shifted by one word, so the function name is read as the queue count. */
  lemma StatusCountsOfLine(line: string)
    ensures line == [] || !IsSpace(line[0]) ==>
      StatusCounts(line) == Counts(At(AwkSplit(line), 1), At(AwkSplit(line), 2), At(AwkSplit(line), 3))
    ensures line != [] && IsSpace(line[0]) ==>
      StatusCounts(line) == Counts(At(AwkSplit(line), 0), At(AwkSplit(line), 1), At(AwkSplit(line), 2))
  {
    RegexSplitVersusAwkSplit(line);
  }

  /** Folding `lines` in order into a hash, skipping "." lines: each line is stored under its
      key, so a later line with the same key replaces the earlier one. */
  function FoldLines<K, V>(lines: seq<string>, key: string -> K, value: string -> V): map<K, V> {
    if lines == [] then map[]
    else
      var table := FoldLines(lines[..|lines| - 1], key, value);
      var line := lines[|lines| - 1];
      if line == "." then table else table[key(line) := value(line)]
  }

  /** Folding one more line. */
  lemma FoldLinesStep<K, V>(lines: seq<string>, i: nat, key: string -> K, value: string -> V)
    requires i < |lines|
    ensures FoldLines(lines[..i + 1], key, value)
         == if lines[i] == "." then FoldLines(lines[..i], key, value)
            else FoldLines(lines[..i], key, value)[key(lines[i]) := value(lines[i])]
  {
    assert lines[..i + 1][..i] == lines[..i];
  }

  /** The per-server status hash built from the lines of a status reply. */
  function StatusTable(lines: seq<string>): map<Option<string>, Counts> {
    FoldLines(lines, StatusKey, StatusCounts)
  }

  /** Line `i` is the last line of `lines` stored under its key. */
  ghost predicate LastLineFor<K>(lines: seq<string>, key: string -> K, i: nat)
    requires i < |lines|
  {
    lines[i] != "."
    && forall j :: i < j < |lines| && lines[j] != "." ==> key(lines[j]) != key(lines[i])
  }

  /** The hash has exactly one key per distinct line key, "." lines contributing none. */
  lemma {:induction false} FoldLinesKeys<K, V>(lines: seq<string>, key: string -> K, value: string -> V)
    ensures FoldLines(lines, key, value).Keys == set i | 0 <= i < |lines| && lines[i] != "." :: key(lines[i])
    decreases |lines|
  {
    if lines != [] {
      var n := |lines|;
      var init := lines[..n - 1];
      FoldLinesKeys(init, key, value);
      var before := set i | 0 <= i < |init| && init[i] != "." :: key(init[i]);
      var after := set i | 0 <= i < n && lines[i] != "." :: key(lines[i]);
      if lines[n - 1] == "." {
        assert after == before by {
          forall k | k in after ensures k in before {
            var i :| 0 <= i < n && lines[i] != "." && k == key(lines[i]);
            assert init[i] == lines[i];
          }
        }
      } else {
        assert after == before + {key(lines[n - 1])} by {
          forall k | k in after ensures k in before || k == key(lines[n - 1]) {
            var i :| 0 <= i < n && lines[i] != "." && k == key(lines[i]);
            if i < n - 1 {
              assert init[i] == lines[i];
            }
          }
        }
      }
    }
  }

  /** Last occurrence wins: every key holds the value of the last line stored under it. */
  lemma {:induction false} FoldLinesLastWins<K, V>(lines: seq<string>, key: string -> K, value: string -> V, i: nat)
    requires i < |lines| && LastLineFor(lines, key, i)
    ensures key(lines[i]) in FoldLines(lines, key, value)
    ensures FoldLines(lines, key, value)[key(lines[i])] == value(lines[i])
    decreases |lines|
  {
    var n := |lines|;
    var init := lines[..n - 1];
    if i < n - 1 {
      assert LastLineFor(init, key, i) by {
        forall j | i < j < |init| && init[j] != "." ensures key(init[j]) != key(init[i]) {
          assert init[j] == lines[j];
        }
      }
      FoldLinesLastWins(init, key, value, i);
    }
  }

  /** The whitespace after each field of a status row: after the function name, after the
      queued count, after the running count, and after the worker count. A server following the
      admin protocol writes a tab in the first three and nothing in the last. */
  datatype RowSpacing = RowSpacing(afterFunc: string, afterQueued: string, afterRunning: string, trailing: string)

  /** Whitespace that stays on its line. */
  predicate InlineBlank(w: string) {
    IsBlank(w) && '\n' !in w
  }

  /** Spacing that keeps a row on one line and separates its four fields; the row itself starts
      with the function name. */
  predicate RowSpacingOk(sp: RowSpacing) {
    InlineBlank(sp.afterFunc) && sp.afterFunc != []
    && InlineBlank(sp.afterQueued) && sp.afterQueued != []
    && InlineBlank(sp.afterRunning) && sp.afterRunning != []
    && InlineBlank(sp.trailing)
  }

  /** The gaps of a status row's layout: none in front, then the spacing after each field. */
  function RowGaps(sp: RowSpacing): seq<string> {
    [[], sp.afterFunc, sp.afterQueued, sp.afterRunning, sp.trailing]
  }

  /** A status row as a server writes it: the four fields laid out with `sp`. */
  function StatusRowText(func: string, queued: string, running: string, workers: string, sp: RowSpacing): string {
    func + sp.afterFunc + queued + sp.afterQueued + running + sp.afterRunning + workers + sp.trailing
  }

  /** A written status row is the layout of its four fields with the row's gaps. */
  lemma StatusRowInterleave(func: string, queued: string, running: string, workers: string, sp: RowSpacing)
    ensures StatusRowText(func, queued, running, workers, sp) == Interleave([func, queued, running, workers], RowGaps(sp))
  {
    var last := Interleave([workers], [sp.afterRunning, sp.trailing]);
    InterleaveCons(sp.afterRunning, workers, [], [sp.trailing]);
    assert [workers] + [] == [workers] && [sp.afterRunning] + [sp.trailing] == [sp.afterRunning, sp.trailing];
    var third := Interleave([running, workers], [sp.afterQueued, sp.afterRunning, sp.trailing]);
    InterleaveCons(sp.afterQueued, running, [workers], [sp.afterRunning, sp.trailing]);
    assert [running] + [workers] == [running, workers];
    assert [sp.afterQueued] + [sp.afterRunning, sp.trailing] == [sp.afterQueued, sp.afterRunning, sp.trailing];
    var second := Interleave([queued, running, workers], [sp.afterFunc, sp.afterQueued, sp.afterRunning, sp.trailing]);
    InterleaveCons(sp.afterFunc, queued, [running, workers], [sp.afterQueued, sp.afterRunning, sp.trailing]);
    assert [queued] + [running, workers] == [queued, running, workers];
    assert [sp.afterFunc] + [sp.afterQueued, sp.afterRunning, sp.trailing] == [sp.afterFunc, sp.afterQueued, sp.afterRunning, sp.trailing];
    InterleaveCons([], func, [queued, running, workers], [sp.afterFunc, sp.afterQueued, sp.afterRunning, sp.trailing]);
    assert [func] + [queued, running, workers] == [func, queued, running, workers];
    assert [[]] + [sp.afterFunc, sp.afterQueued, sp.afterRunning, sp.trailing] == RowGaps(sp);
    assert last == sp.afterRunning + workers + sp.trailing;
    assert third == sp.afterQueued + running + (sp.afterRunning + workers + sp.trailing);
    assert second == sp.afterFunc + queued + (sp.afterQueued + running + (sp.afterRunning + workers + sp.trailing));
  }

  lemma RowLayout(func: string, queued: string, running: string, workers: string, sp: RowSpacing)
    requires IsToken(func) && IsToken(queued) && IsToken(running) && IsToken(workers)
    requires RowSpacingOk(sp)
    ensures Layout([func, queued, running, workers], RowGaps(sp))
    ensures forall i :: 0 <= i < |RowGaps(sp)| ==> '\n' !in RowGaps(sp)[i]
  {
  }

  /** Reading a written status row gives back its function name and its three counts, whatever
      whitespace separates the fields (tabs, runs of spaces) and follows the last one. */
  lemma StatusRowRoundTrip(func: string, queued: string, running: string, workers: string, sp: RowSpacing)
    requires IsToken(func) && IsToken(queued) && IsToken(running) && IsToken(workers)
    requires RowSpacingOk(sp)
    ensures StatusKey(StatusRowText(func, queued, running, workers, sp)) == Some(func)
    ensures StatusCounts(StatusRowText(func, queued, running, workers, sp))
         == Counts(Some(queued), Some(running), Some(workers))
  {
    RowLayout(func, queued, running, workers, sp);
    StatusRowInterleave(func, queued, running, workers, sp);
    RegexSplitInterleave([func, queued, running, workers], RowGaps(sp));
  }

  /** A written status row is one line of more than one character, so never the "." line. */
  lemma StatusRowOneLine(func: string, queued: string, running: string, workers: string, sp: RowSpacing)
    requires IsToken(func) && IsToken(queued) && IsToken(running) && IsToken(workers)
    requires RowSpacingOk(sp)
    ensures '\n' !in StatusRowText(func, queued, running, workers, sp)
    ensures |StatusRowText(func, queued, running, workers, sp)| > 1
  {
    var tokens, gaps := [func, queued, running, workers], RowGaps(sp);
    RowLayout(func, queued, running, workers, sp);
    StatusRowInterleave(func, queued, running, workers, sp);
    InterleaveLine(tokens, gaps);
  }

  /** The row a server following the admin protocol writes: the four fields separated by tabs. */
  lemma TabSeparatedRow(func: string, queued: string, running: string, workers: string)
    requires IsToken(func) && IsToken(queued) && IsToken(running) && IsToken(workers)
    ensures var row := func + "\t" + queued + "\t" + running + "\t" + workers;
      StatusKey(row) == Some(func) && StatusCounts(row) == Counts(Some(queued), Some(running), Some(workers))
  {
    StatusRowRoundTrip(func, queued, running, workers, RowSpacing("\t", "\t", "\t", ""));
    assert func + "\t" + queued + "\t" + running + "\t" + workers + "" == func + "\t" + queued + "\t" + running + "\t" + workers;
  }

  // ----- workers -----

  datatype Kind = Client | Worker

  /** The hash with keys :type, :host, :name and :functions of one workers row. There is no file
      descriptor: the client reads it and drops it. */
  datatype Session = Session(kind: Kind, host: Option<string>, name: Option<string>, functions: seq<string>)

  /** What `parse_worker_line` returns: `{}` for the "." line, a session hash otherwise. */
  datatype WorkerHash = EmptyHash | SessionHash(session: Session)

  /** What is left of `parts` after `n` calls of `shift`: nothing once `parts` is used up, since
      `shift` on an empty array leaves it empty. */
  function From(parts: seq<string>, n: nat): seq<string> {
    if n <= |parts| then parts[n..] else []
  }

  /** The reading of a workers row by token position: token 1 is the file descriptor (dropped),
      token 2 the host, token 3 decides the shape. */
  function WorkerHashOf(line: string): (h: WorkerHash)
    ensures h.EmptyHash? <==> line == "."
  {
    if line == "." then EmptyHash else SessionHash(SessionOf(AwkSplit(line)))
  }

  /** The session a workers row describes, by token position: token 1 is the host, token 2
      decides the shape, and the functions are the tokens after the shape's fixed prefix. */
  function SessionOf(tokens: seq<string>): Session {
    var third := At(tokens, 2);
    if third == Some("-") then Session(Client, At(tokens, 1), None, [])
    else if third == Some(":") then Session(Worker, At(tokens, 1), None, From(tokens, 3))
    else Session(Worker, At(tokens, 1), third, From(tokens, 4))
  }

  /** The shape of the session read from a row: the host is token 1; a client exactly when token
      2 is "-", and then without name or functions; a name exactly when token 2 is neither "-"
      nor ":", and then it is token 2; the functions are trailing tokens, never the file
      descriptor, the host or token 2. */
  lemma SessionOfShape(tokens: seq<string>)
    ensures SessionOf(tokens).host == At(tokens, 1)
    ensures SessionOf(tokens).kind == Client <==> At(tokens, 2) == Some("-")
    ensures SessionOf(tokens).kind == Client ==> SessionOf(tokens).name == None && SessionOf(tokens).functions == []
    ensures SessionOf(tokens).name.Some? <==> |tokens| > 2 && tokens[2] != "-" && tokens[2] != ":"
    ensures SessionOf(tokens).name.Some? ==> SessionOf(tokens).name.value == tokens[2]
    ensures var f := SessionOf(tokens).functions;
      |f| <= |tokens| && f == tokens[|tokens| - |f|..] && (f != [] ==> |f| + 3 <= |tokens|)
  {
  }

  /** A session the server can describe in one row: the shapes the grammar distinguishes. */
  predicate Describable(s: Session) {
    && s.host.Some? && IsToken(s.host.value)
    && (forall i :: 0 <= i < |s.functions| ==> IsToken(s.functions[i]))
    && (s.kind == Client ==> s.name == None && s.functions == [])
    && (s.name.Some? ==> IsToken(s.name.value) && s.name.value != "-" && s.name.value != ":")
  }

  /** The tokens of the row a server writes for a session with file descriptor `fd`. */
  function SessionTokens(fd: string, s: Session): seq<string>
    requires s.host.Some?
  {
    match s.kind
    case Client => [fd, s.host.value, "-"]
    case Worker =>
      if s.name == None then [fd, s.host.value, ":"] + s.functions
      else [fd, s.host.value, s.name.value, ":"] + s.functions
  }

  function SessionRowText(fd: string, s: Session): string
    requires s.host.Some?
  {
    JoinWith(SessionTokens(fd, s), ' ')
  }

  lemma SessionOfTokens(fd: string, s: Session)
    requires Describable(s)
    ensures SessionOf(SessionTokens(fd, s)) == s
  {
    var tokens := SessionTokens(fd, s);
    if s.kind == Worker {
      if s.name == None {
        assert From(tokens, 3) == s.functions;
      } else {
        assert From(tokens, 4) == s.functions;
      }
    }
  }

  /** Parsing the row written for a session gives the session back, whatever its file
      descriptor: clients, unnamed workers and named workers are told apart exactly. */
  lemma SessionRowRoundTrip(fd: string, s: Session)
    requires IsToken(fd) && Describable(s)
    ensures WorkerHashOf(SessionRowText(fd, s)) == SessionHash(s)
  {
    var tokens := SessionTokens(fd, s);
    assert forall i :: 0 <= i < |tokens| ==> IsToken(tokens[i]);
    AwkSplitJoin(tokens);
    SessionOfTokens(fd, s);
    var line := SessionRowText(fd, s);
    JoinWithCons(tokens, ' ');
    assert |line| > 1;
  }

  /** The token after a worker's name is dropped without being looked at: token lists that
      differ only there describe the same session. */
  lemma NamedWorkerSeparatorUnchecked(t1: seq<string>, t2: seq<string>)
    requires |t1| >= 4 && |t1| == |t2|
    requires t1[2] != "-" && t1[2] != ":"
    requires forall i :: 0 <= i < |t1| && i != 3 ==> t1[i] == t2[i]
    ensures SessionOf(t1) == SessionOf(t2)
  {
    assert t1[2] == t2[2];
    assert t1[4..] == t2[4..];
  }
}
