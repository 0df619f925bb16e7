/** Response framing of the admin protocol: the reply to a command is read in chunks and is
    complete once the accumulated text matches the Ruby regexp /\n.\n$/.

    The socket is replaced by what its non-blocking reads return, in order: `Some(text)` for a
    read that delivered `text`, `None` for a read that raised (no data yet) and was rescued to nil.
    At the end of the stream a read returns "" (nil from Ruby 3.3 on), `Some("")` or `None` here:
    nothing ends the loop in that case.
    The source polls forever; over a finite list of reads the model ends in `Exhausted` when the
    reads run out before the terminator was seen, which stands for "the call never returns". */
module Framing {
  import opened RubyText

  /** /\n.\n$/ matches at index `i`: a newline, one character other than a newline (`.` without
      the m flag), a newline, then `$`, which in Ruby holds at the end of the text and also just
      before any newline. */
  predicate MatchAt(s: string, i: nat) {
    i + 3 <= |s| && s[i] == '\n' && s[i + 1] != '\n' && s[i + 2] == '\n'
    && (i + 3 == |s| || s[i + 3] == '\n')
  }

  /** `s =~ /\n.\n$/` succeeds. */
  predicate Terminated(s: string) {
    exists i: nat | i + 3 <= |s| :: MatchAt(s, i)
  }

  /** Among the pieces of a text cut at its newlines, some piece other than the first is one
      character long and the piece after it is empty: a line holding a single character,
      followed by an empty line or by the end of the text. */
  ghost predicate SingleCharLineAtEnd(pieces: seq<string>) {
    exists k :: 1 <= k && k + 1 < |pieces| && |pieces[k]| == 1 && pieces[k + 1] == []
  }

  lemma PiecesStep(s: string)
    ensures RawSplitOn(s, '\n')[0] == s[..IndexOf(s, '\n')]
    ensures |RawSplitOn(s, '\n')| >= 2 <==> IndexOf(s, '\n') < |s|
    ensures IndexOf(s, '\n') < |s| ==>
      RawSplitOn(s, '\n')[1..] == RawSplitOn(s[IndexOf(s, '\n') + 1..], '\n')
  {
    if IndexOf(s, '\n') < |s| {
      RawSplitOnUnfold(s, '\n');
    }
  }

  lemma MatchShift(s: string, n: nat, j: nat)
    requires n < |s|
    ensures MatchAt(s, j + n + 1) <==> MatchAt(s[n + 1..], j)
  {
  }

  /** A match other than at the first newline lies past it and is a match of the text after it. */
  lemma MatchBeyond(s: string, i: nat)
    requires IndexOf(s, '\n') < |s| && MatchAt(s, i) && i != IndexOf(s, '\n')
    ensures i > IndexOf(s, '\n') && MatchAt(s[IndexOf(s, '\n') + 1..], i - IndexOf(s, '\n') - 1)
  {
    var n := IndexOf(s, '\n');
    MatchShift(s, n, i - n - 1);
  }

  /** Matches past the first newline are exactly the matches of the text after it. */
  lemma MatchAfterFirstNewline(s: string)
    requires IndexOf(s, '\n') < |s|
    ensures Terminated(s) <==> MatchAt(s, IndexOf(s, '\n')) || Terminated(s[IndexOf(s, '\n') + 1..])
  {
    var n := IndexOf(s, '\n');
    var rest := s[n + 1..];
    if Terminated(s) && !MatchAt(s, n) {
      var i: nat :| i + 3 <= |s| && MatchAt(s, i);
      MatchBeyond(s, i);
      assert MatchAt(rest, i - n - 1);
    }
    if Terminated(rest) {
      var j: nat :| j + 3 <= |rest| && MatchAt(rest, j);
      MatchShift(s, n, j);
    }
  }

  lemma MatchAtNewline(s: string, n: nat)
    requires n < |s| && s[n] == '\n'
    ensures MatchAt(s, n) <==> MatchAt(['\n'] + s[n + 1..], 0)
  {
    MatchShift(s, n, 0);
    MatchShift(['\n'] + s[n + 1..], 0, 0);
    assert (['\n'] + s[n + 1..])[1..] == s[n + 1..];
  }

  /** The text starts with a line of one character that is followed by an empty line or by the
      end of the text. */
  predicate SingleCharFirstLine(rest: string) {
    |rest| >= 2 && rest[0] != '\n' && rest[1] == '\n' && (|rest| == 2 || rest[2] == '\n')
  }

  lemma SingleCharFirstPieces(rest: string)
    ensures SingleCharFirstLine(rest)
        <==> |RawSplitOn(rest, '\n')| >= 2 && |RawSplitOn(rest, '\n')[0]| == 1 && RawSplitOn(rest, '\n')[1] == []
  {
    var r := RawSplitOn(rest, '\n');
    var m := IndexOf(rest, '\n');
    PiecesStep(rest);
    if m < |rest| {
      var after := rest[m + 1..];
      PiecesStep(after);
      assert r[1] == after[..IndexOf(after, '\n')];
      if m == 1 {
        assert |r[0]| == 1;
      }
    }
    if SingleCharFirstLine(rest) {
      assert m == 1;
    }
  }

  /** A match at the first character, which is a newline, is a one-character line followed by
      an empty piece. */
  lemma MatchAtStart(rest: string)
    ensures MatchAt(['\n'] + rest, 0)
        <==> |RawSplitOn(rest, '\n')| >= 2 && |RawSplitOn(rest, '\n')[0]| == 1 && RawSplitOn(rest, '\n')[1] == []
  {
    assert MatchAt(['\n'] + rest, 0) <==> SingleCharFirstLine(rest);
    SingleCharFirstPieces(rest);
  }

  /** A piece put in front shifts every candidate line by one and adds the new second piece as a
      candidate. */
  lemma SingleCharLineCons(a: string, r: seq<string>)
    ensures SingleCharLineAtEnd([a] + r) <==> (|r| >= 2 && |r[0]| == 1 && r[1] == []) || SingleCharLineAtEnd(r)
  {
    var pieces := [a] + r;
    if SingleCharLineAtEnd(pieces) {
      var k :| 1 <= k && k + 1 < |pieces| && |pieces[k]| == 1 && pieces[k + 1] == [];
      assert pieces[k] == r[k - 1] && pieces[k + 1] == r[k];
    }
    if SingleCharLineAtEnd(r) {
      var k :| 1 <= k && k + 1 < |r| && |r[k]| == 1 && r[k + 1] == [];
      assert pieces[k + 1] == r[k] && pieces[k + 2] == r[k + 1];
    }
    if |r| >= 2 && |r[0]| == 1 && r[1] == [] {
      assert pieces[1] == r[0] && pieces[2] == r[1];
    }
  }

  /** Text without a newline never matches. */
  lemma NoNewlineNoMatch(s: string)
    requires IndexOf(s, '\n') == |s|
    ensures !Terminated(s)
  {
  }

  /** /\n.\n$/ matches exactly when some line after the first is a single character and is
      followed by an empty line or ends the text. */
  lemma {:induction false} TerminatedByLines(s: string)
    ensures Terminated(s) <==> SingleCharLineAtEnd(RawSplitOn(s, '\n'))
    decreases |s|
  {
    var pieces := RawSplitOn(s, '\n');
    var n := IndexOf(s, '\n');
    PiecesStep(s);
    if n == |s| {
      NoNewlineNoMatch(s);
    } else {
      var rest := s[n + 1..];
      var r := RawSplitOn(rest, '\n');
      assert pieces == [pieces[0]] + r;
      SingleCharLineCons(pieces[0], r);
      TerminatedByLines(rest);
      MatchAfterFirstNewline(s);
      MatchAtNewline(s, n);
      MatchAtStart(rest);
    }
  }

  /** Everything the successful reads delivered, in order. */
  function Received(chunks: seq<Option<string>>): string {
    if chunks == [] then []
    else Received(chunks[..|chunks| - 1]) + Delivered(chunks[|chunks| - 1])
  }

  function Delivered(read: Option<string>): string {
    match read
    case Some(text) => text
    case None => []
  }

  datatype FrameResult =
    | Framed(response: string, rest: seq<Option<string>>)
    | Exhausted(partial: string)

  /** Reading on from `buffer`: the loop of `send_command`, read by read. */
  function FrameFrom(buffer: string, chunks: seq<Option<string>>): FrameResult
    decreases |chunks|
  {
    if chunks == [] then Exhausted(buffer)
    else match chunks[0]
      case None => FrameFrom(buffer, chunks[1..])
      case Some(text) =>
        if Terminated(buffer + text) then Framed(buffer + text, chunks[1..])
        else FrameFrom(buffer + text, chunks[1..])
  }

  /** The outcome of `send_command` on a fresh, empty response buffer. */
  function Frame(chunks: seq<Option<string>>): FrameResult {
    FrameFrom([], chunks)
  }

  /** None of the first `k` reads left a buffer that matches the terminator. */
  ghost predicate NoMatchBefore(chunks: seq<Option<string>>, k: nat)
    requires k <= |chunks|
  {
    forall j :: 0 <= j < k && chunks[j].Some? ==> !Terminated(Received(chunks[..j + 1]))
  }

  /** Read `k` is the first one after which the buffer matches the terminator. */
  ghost predicate FirstMatchAt(chunks: seq<Option<string>>, k: nat) {
    k < |chunks| && chunks[k].Some? && Terminated(Received(chunks[..k + 1])) && NoMatchBefore(chunks, k)
  }

  lemma ReceivedStep(chunks: seq<Option<string>>, j: nat)
    requires j < |chunks|
    ensures Received(chunks[..j + 1]) == Received(chunks[..j]) + Delivered(chunks[j])
  {
    assert chunks[..j + 1][..j] == chunks[..j];
  }

  /** While no read has completed the reply, the loop has consumed the first `i` reads and holds
      everything they delivered. */
  lemma {:induction false} FrameReachesPrefix(chunks: seq<Option<string>>, i: nat)
    requires i <= |chunks| && NoMatchBefore(chunks, i)
    ensures Frame(chunks) == FrameFrom(Received(chunks[..i]), chunks[i..])
    decreases i
  {
    if i > 0 {
      FrameReachesPrefix(chunks, i - 1);
      ReceivedStep(chunks, i - 1);
      var tail := chunks[i - 1..];
      assert tail[0] == chunks[i - 1] && tail[1..] == chunks[i..];
      var before := Received(chunks[..i - 1]);
      match chunks[i - 1]
      case None =>
        assert before + [] == before;
        assert FrameFrom(before, tail) == FrameFrom(before, tail[1..]);
      case Some(text) =>
        assert !Terminated(Received(chunks[..i - 1 + 1]));
    } else {
      assert chunks[..0] == [];
    }
  }

  lemma FrameExhaustedCase(chunks: seq<Option<string>>)
    requires NoMatchBefore(chunks, |chunks|)
    ensures Frame(chunks) == Exhausted(Received(chunks))
  {
    FrameReachesPrefix(chunks, |chunks|);
    assert chunks[..|chunks|] == chunks;
  }

  lemma FrameFramedCase(chunks: seq<Option<string>>, k: nat)
    requires FirstMatchAt(chunks, k)
    ensures Frame(chunks) == Framed(Received(chunks[..k + 1]), chunks[k + 1..])
  {
    FrameReachesPrefix(chunks, k);
    ReceivedStep(chunks, k);
    var tail := chunks[k..];
    assert tail[0] == chunks[k] && tail[1..] == chunks[k + 1..];
  }

  /** `send_command` returns exactly at the first read after which the buffer matches
      /\n.\n$/, and returns the concatenation of every delivered chunk up to that read (failed
      reads contribute nothing); if no read ever completes the reply it never returns. */
  lemma FrameCharacterised(chunks: seq<Option<string>>)
    ensures Frame(chunks).Exhausted? <==> NoMatchBefore(chunks, |chunks|)
    ensures Frame(chunks).Exhausted? ==> Frame(chunks).partial == Received(chunks)
    ensures Frame(chunks).Framed? ==>
      exists k :: FirstMatchAt(chunks, k)
        && Frame(chunks) == Framed(Received(chunks[..k + 1]), chunks[k + 1..])
  {
    FirstMatchExists(chunks, 0);
    if NoMatchBefore(chunks, |chunks|) {
      FrameExhaustedCase(chunks);
    } else {
      var k :| FirstMatchAt(chunks, k);
      FrameFramedCase(chunks, k);
    }
  }

  /** Either no read completes the reply or a first one does. */
  lemma {:induction false} FirstMatchExists(chunks: seq<Option<string>>, i: nat)
    requires i <= |chunks| && NoMatchBefore(chunks, i)
    ensures NoMatchBefore(chunks, |chunks|) || exists k :: FirstMatchAt(chunks, k)
    decreases |chunks| - i
  {
    if i < |chunks| {
      if chunks[i].Some? && Terminated(Received(chunks[..i + 1])) {
        assert FirstMatchAt(chunks, i);
      } else {
        FirstMatchExists(chunks, i + 1);
      }
    }
  }

  /** A returned response always satisfies the terminator test, so it is never empty (and never
      nil: the "No response" branches of the callers cannot be taken). */
  lemma FramedResponseTerminated(chunks: seq<Option<string>>)
    requires Frame(chunks).Framed?
    ensures Terminated(Frame(chunks).response) && |Frame(chunks).response| >= 3
  {
    FrameCharacterised(chunks);
  }

  /** Text ending in "\n.\n" matches the terminator. */
  lemma EndsWithDotLine(s: string)
    requires |s| >= 3 && s[|s| - 3..] == "\n.\n"
    ensures Terminated(s)
  {
    assert MatchAt(s, |s| - 3);
  }

  /** Once the reads together have delivered a text that matches the terminator, some read
      completed the reply. */
  lemma {:induction false} TerminatedIsSeen(chunks: seq<Option<string>>)
    requires Terminated(Received(chunks))
    ensures !NoMatchBefore(chunks, |chunks|)
    decreases |chunks|
  {
    var n := |chunks|;
    assert n > 0;
    var init := chunks[..n - 1];
    assert chunks[..n] == chunks;
    assert Received(chunks) == Received(init) + Delivered(chunks[n - 1]);
    if chunks[n - 1].Some? {
      assert Terminated(Received(chunks[..n - 1 + 1]));
    } else {
      assert Received(init) + [] == Received(init);
      TerminatedIsSeen(init);
      var j :| 0 <= j < n - 1 && init[j].Some? && Terminated(Received(init[..j + 1]));
      assert init[..j + 1] == chunks[..j + 1];
    }
  }

  /** A reply delivered in any number of fragments, with any failed reads in between, is
      assembled into one response once the fragments together end in "\n.\n". */
  lemma FragmentedReplyIsFramed(chunks: seq<Option<string>>)
    requires |Received(chunks)| >= 3 && Received(chunks)[|Received(chunks)| - 3..] == "\n.\n"
    ensures Frame(chunks).Framed?
  {
    EndsWithDotLine(Received(chunks));
    TerminatedIsSeen(chunks);
    FrameCharacterised(chunks);
  }

  lemma {:induction false} ReceivedPrefixLength(chunks: seq<Option<string>>, j: nat)
    requires j <= |chunks|
    ensures |Received(chunks[..j])| <= |Received(chunks)|
    decreases |chunks|
  {
    if j < |chunks| {
      var n := |chunks|;
      assert chunks[..n - 1][..j] == chunks[..j];
      ReceivedPrefixLength(chunks[..n - 1], j);
    } else {
      assert chunks[..j] == chunks;
    }
  }

  /** A server with no registered functions answers `status` with the single line ".": its
      reply ".\n" has no newline in front of the dot, so the terminator never matches and the
      polling loop never ends, however the reply is fragmented. */
  lemma BareDotReplyNeverFrames(chunks: seq<Option<string>>)
    requires Received(chunks) == ".\n"
    ensures Frame(chunks) == Exhausted(".\n")
  {
    forall j | 0 <= j < |chunks| && chunks[j].Some?
      ensures !Terminated(Received(chunks[..j + 1]))
    {
      ReceivedPrefixLength(chunks, j + 1);
    }
    FrameCharacterised(chunks);
  }
}
