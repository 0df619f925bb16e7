/** Ruby's string splitting and array shifting, as the admin client relies on them.

    Three different splits appear in the client and they disagree on leading whitespace:
    - `str.split(' ')`   ("awk" mode): whitespace runs separate fields, leading whitespace is ignored;
    - `str.split(/\s+/)` (regexp mode): the same runs separate fields, but leading whitespace
                         yields an empty first field;
    - `str.split("\n")`  (string mode): every single newline separates two fields.
    All three drop trailing empty fields (the `limit` argument is absent, i.e. zero).
    Ruby's `nil` is `None`. */
module RubyText {

  datatype Option<+T> = None | Some(value: T)

  /** Whitespace as `split(' ')` and `\s` see it: space, tab, newline, vertical tab,
      form feed, carriage return. */
  predicate IsSpace(c: char) {
    c == ' ' || c == '\t' || c == '\n' || c == '\U{0B}' || c == '\U{0C}' || c == '\r'
  }

  predicate NoSpace(s: string) {
    forall i :: 0 <= i < |s| ==> !IsSpace(s[i])
  }

  /** A field that `split(' ')` can return: non-empty and free of whitespace. */
  predicate IsToken(s: string) {
    s != [] && NoSpace(s)
  }

  /** Length of the longest prefix of `s` that holds no whitespace. */
  function TokenLength(s: string): (n: nat)
    ensures n <= |s|
    ensures NoSpace(s[..n])
    ensures n < |s| ==> IsSpace(s[n])
  {
    if s == [] || IsSpace(s[0]) then 0
    else
      var m := TokenLength(s[1..]);
      assert s[..m + 1] == [s[0]] + s[1..][..m];
      m + 1
  }

  /** `s` without its leading whitespace. */
  function TrimLeft(s: string): (t: string)
    ensures |t| <= |s| && t == s[|s| - |t|..]
    ensures t != [] ==> !IsSpace(t[0])
    ensures forall i :: 0 <= i < |s| - |t| ==> IsSpace(s[i])
  {
    if s != [] && IsSpace(s[0]) then TrimLeft(s[1..]) else s
  }

  /** Ruby's `str.split(' ')`. */
  function AwkSplit(s: string): (fields: seq<string>)
    ensures forall i :: 0 <= i < |fields| ==> IsToken(fields[i])
    decreases |s|
  {
    var t := TrimLeft(s);
    if t == [] then []
    else
      var n := TokenLength(t);
      var rest := AwkSplit(t[n..]);
      TokensCons(t[..n], rest);
      [t[..n]] + rest
  }

  /** A token in front of a list of tokens gives a list of tokens. */
  lemma TokensCons(x: string, rest: seq<string>)
    requires IsToken(x)
    requires forall i :: 0 <= i < |rest| ==> IsToken(rest[i])
    ensures forall i :: 0 <= i < |[x] + rest| ==> IsToken(([x] + rest)[i])
  {
  }

  /** The fields of `s` around its maximal whitespace runs, before trailing empty fields are
      dropped: whitespace at the start gives an empty first field, at the end an empty last one. */
  function RawRuns(s: string): (fields: seq<string>)
    ensures |fields| >= 1
    ensures forall i :: 0 <= i < |fields| ==> NoSpace(fields[i])
    ensures forall i :: 0 < i < |fields| - 1 ==> fields[i] != []
    ensures s != [] && !IsSpace(s[0]) ==> fields[0] != []
    decreases |s|
  {
    var n := TokenLength(s);
    if n == |s| then [s]
    else [s[..n]] + RawRuns(TrimLeft(s[n..]))
  }

  /** What Ruby's `split` does to its raw fields when no limit is given. */
  function DropTrailingEmpty(fields: seq<string>): (r: seq<string>)
    ensures |r| <= |fields| && r == fields[..|r|]
    ensures r != [] ==> r[|r| - 1] != []
    ensures forall i :: |r| <= i < |fields| ==> fields[i] == []
  {
    if fields != [] && fields[|fields| - 1] == [] then DropTrailingEmpty(fields[..|fields| - 1])
    else fields
  }

  /** Ruby's `str.split(/\s+/)`: fields free of whitespace, of which only the first can be
      empty, and that only when `s` starts with whitespace. */
  function RegexSplit(s: string): (fields: seq<string>)
    ensures forall i :: 0 <= i < |fields| ==> NoSpace(fields[i])
    ensures forall i :: 0 < i < |fields| ==> fields[i] != []
    ensures fields != [] && fields[0] == [] ==> s != [] && IsSpace(s[0])
  {
    var raw := RawRuns(s);
    var fields := DropTrailingEmpty(raw);
    assert forall i :: 0 <= i < |fields| ==> fields[i] == raw[i];
    fields
  }

  /** Index of the first `sep` in `s`, or `|s|` when there is none. */
  function IndexOf(s: string, sep: char): (n: nat)
    ensures n <= |s|
    ensures forall i :: 0 <= i < n ==> s[i] != sep
    ensures n < |s| ==> s[n] == sep
  {
    if s == [] || s[0] == sep then 0
    else
      var m := IndexOf(s[1..], sep);
      assert s[..m + 1] == [s[0]] + s[1..][..m];
      m + 1
  }

  /** The pieces of `s` between occurrences of `sep`, before trailing empty pieces are dropped. */
  function RawSplitOn(s: string, sep: char): (pieces: seq<string>)
    ensures |pieces| >= 1
    ensures forall i :: 0 <= i < |pieces| ==> sep !in pieces[i]
    decreases |s|
  {
    var n := IndexOf(s, sep);
    if n == |s| then [s]
    else [s[..n]] + RawSplitOn(s[n + 1..], sep)
  }

  /** Ruby's `str.split("\n")`. */
  function Lines(s: string): (lines: seq<string>)
    ensures forall i :: 0 <= i < |lines| ==> '\n' !in lines[i]
  {
    DropTrailingEmpty(RawSplitOn(s, '\n'))
  }

  /** Ruby's `pieces.join(sep)` for a one-character separator. */
  function JoinWith(pieces: seq<string>, sep: char): string {
    if pieces == [] then []
    else if |pieces| == 1 then pieces[0]
    else pieces[0] + [sep] + JoinWith(pieces[1..], sep)
  }

  /** Text made of `lines`, each followed by a newline: how a server writes a multi-line reply. */
  function LinesText(lines: seq<string>): string {
    JoinWith(lines + [[]], '\n')
  }

  /** Ruby's `fields[i]`: `nil` past the end. */
  function At(fields: seq<string>, i: nat): (r: Option<string>)
    ensures r.Some? <==> i < |fields|
  {
    if i < |fields| then Some(fields[i]) else None
  }

  /** Ruby's `parts.shift`: takes the first element off (`nil` when there is none). */
  method Shift(parts: seq<string>) returns (first: Option<string>, rest: seq<string>)
    ensures first.None? <==> parts == []
    ensures parts == (if first.Some? then [first.value] else []) + rest
  {
    if parts == [] {
      first, rest := None, [];
    } else {
      first, rest := Some(parts[0]), parts[1..];
    }
  }

  // ----- Lemmas relating the three splits and their inverses -----

  /** Raw splitting loses nothing: joining the pieces back with the separator gives `s`. */
  lemma {:induction false} JoinRawSplitOn(s: string, sep: char)
    ensures JoinWith(RawSplitOn(s, sep), sep) == s
    decreases |s|
  {
    var n := IndexOf(s, sep);
    if n < |s| {
      var rest := RawSplitOn(s[n + 1..], sep);
      JoinRawSplitOn(s[n + 1..], sep);
      assert RawSplitOn(s, sep) == [s[..n]] + rest;
      assert s == s[..n] + [sep] + s[n + 1..];
    }
  }

  /** Splitting a join gives the pieces back when no piece holds the separator. */
  lemma {:induction false} RawSplitOnJoin(pieces: seq<string>, sep: char)
    requires pieces != []
    requires forall i :: 0 <= i < |pieces| ==> sep !in pieces[i]
    ensures RawSplitOn(JoinWith(pieces, sep), sep) == pieces
    decreases |pieces|
  {
    var s := JoinWith(pieces, sep);
    var p := pieces[0];
    if |pieces| == 1 {
      IndexOfAbsent(p, sep);
      assert pieces == [p];
    } else {
      var rest := JoinWith(pieces[1..], sep);
      JoinWithCons(pieces, sep);
      IndexOfAt(p, [sep] + rest, sep);
      RawSplitOnUnfold(s, sep);
      assert s[|p| + 1..] == rest && s[..|p|] == p;
      RawSplitOnJoin(pieces[1..], sep);
      assert pieces == [p] + pieces[1..];
    }
  }

  /** One step of raw splitting: the piece before the first separator, then the rest split. */
  lemma RawSplitOnUnfold(s: string, sep: char)
    requires IndexOf(s, sep) < |s|
    ensures RawSplitOn(s, sep) == [s[..IndexOf(s, sep)]] + RawSplitOn(s[IndexOf(s, sep) + 1..], sep)
  {
  }

  lemma {:induction false} IndexOfAbsent(s: string, sep: char)
    requires sep !in s
    ensures IndexOf(s, sep) == |s|
    decreases |s|
  {
    if s != [] {
      assert s[0] in s;
      assert forall c :: c in s[1..] ==> c in s;
      IndexOfAbsent(s[1..], sep);
    }
  }

  lemma {:induction false} IndexOfAt(a: string, b: string, sep: char)
    requires sep !in a && b != [] && b[0] == sep
    ensures IndexOf(a + b, sep) == |a|
    decreases |a|
  {
    if a == [] {
      assert a + b == b;
    } else {
      assert a[0] in a;
      assert forall c :: c in a[1..] ==> c in a;
      assert (a + b)[1..] == a[1..] + b;
      IndexOfAt(a[1..], b, sep);
    }
  }

  /** `split("\n")` inverts writing lines out one per newline, provided the lines hold no
      newline and the last one is not empty (Ruby drops trailing empty lines). */
  lemma LinesOfLinesText(lines: seq<string>)
    requires forall i :: 0 <= i < |lines| ==> '\n' !in lines[i]
    requires lines != [] ==> lines[|lines| - 1] != []
    ensures Lines(LinesText(lines)) == lines
  {
    var padded := lines + [[]];
    assert forall i :: 0 <= i < |padded| ==> '\n' !in padded[i];
    RawSplitOnJoin(padded, '\n');
    assert padded[..|padded| - 1] == lines;
  }

  /** Dropping trailing empties commutes with a field put in front. */
  lemma {:induction false} DropTrailingEmptyCons(a: string, fields: seq<string>)
    ensures DropTrailingEmpty([a] + fields)
         == if a == [] && DropTrailingEmpty(fields) == [] then [] else [a] + DropTrailingEmpty(fields)
    decreases |fields|
  {
    var all := [a] + fields;
    if fields != [] && fields[|fields| - 1] == [] {
      assert all[..|all| - 1] == [a] + fields[..|fields| - 1];
      DropTrailingEmptyCons(a, fields[..|fields| - 1]);
    }
  }

  lemma AwkSplitTrim(s: string)
    ensures AwkSplit(TrimLeft(s)) == AwkSplit(s)
  {
    var t := TrimLeft(s);
    assert TrimLeft(t) == t;
  }

  /** On text that does not begin with whitespace, the regexp split and the awk split agree. */
  lemma {:induction false} RegexSplitUntrimmed(t: string)
    requires t == [] || !IsSpace(t[0])
    ensures RegexSplit(t) == AwkSplit(t)
    decreases |t|
  {
    if t != [] {
      var n := TokenLength(t);
      assert TrimLeft(t) == t;
      if n == |t| {
        assert t[..n] == t && t[n..] == [];
      } else {
        var u := TrimLeft(t[n..]);
        RegexSplitUntrimmed(u);
        DropTrailingEmptyCons(t[..n], RawRuns(u));
        AwkSplitTrim(t[n..]);
      }
    }
  }

  /** `split(' ')` is `split(/\s+/)` applied after stripping leading whitespace. */
  lemma AwkSplitIsRegexSplitTrimmed(s: string)
    ensures AwkSplit(s) == RegexSplit(TrimLeft(s))
  {
    RegexSplitUntrimmed(TrimLeft(s));
    AwkSplitTrim(s);
  }

  /** The only difference between the two whitespace splits: leading whitespace in front of a
      field makes `split(/\s+/)` return an extra empty first field. */
  lemma RegexSplitVersusAwkSplit(s: string)
    ensures RegexSplit(s)
         == if s != [] && IsSpace(s[0]) && AwkSplit(s) != [] then [[]] + AwkSplit(s) else AwkSplit(s)
  {
    if s != [] && IsSpace(s[0]) {
      var u := TrimLeft(s);
      assert TokenLength(s) == 0;
      assert s[..0] == [];
      assert RawRuns(s) == [[]] + RawRuns(u);
      DropTrailingEmptyCons([], RawRuns(u));
      RegexSplitUntrimmed(u);
      AwkSplitTrim(s);
    } else {
      RegexSplitUntrimmed(s);
    }
  }

  lemma {:induction false} TokenLengthOfJoin(a: string, b: string)
    requires NoSpace(a)
    requires b == [] || IsSpace(b[0])
    ensures TokenLength(a + b) == |a|
    decreases |a|
  {
    if a == [] {
      assert a + b == b;
    } else {
      assert (a + b)[1..] == a[1..] + b;
      TokenLengthOfJoin(a[1..], b);
    }
  }

  lemma AwkSplitToken(p: string)
    requires IsToken(p)
    ensures AwkSplit(p) == [p]
  {
    TokenLengthOfJoin(p, []);
    assert p + [] == p;
    assert TrimLeft(p) == p;
    assert p[..|p|] == p && p[|p|..] == [];
  }

  lemma AwkSplitSpaceFirst(rest: string)
    ensures AwkSplit([' '] + rest) == AwkSplit(rest)
  {
    assert ([' '] + rest)[1..] == rest;
    assert TrimLeft([' '] + rest) == TrimLeft(rest);
    AwkSplitTrim([' '] + rest);
    AwkSplitTrim(rest);
  }

  /** A token followed by nothing or by whitespace is the first field of `split(' ')`. */
  lemma AwkSplitTokenThen(p: string, rest: string)
    requires IsToken(p)
    requires rest == [] || IsSpace(rest[0])
    ensures AwkSplit(p + rest) == [p] + AwkSplit(rest)
  {
    var s := p + rest;
    TokenLengthOfJoin(p, rest);
    assert s[0] == p[0];
    assert TrimLeft(s) == s;
    assert s[..|p|] == p && s[|p|..] == rest;
  }

  lemma JoinWithCons(tokens: seq<string>, sep: char)
    requires |tokens| > 1
    ensures JoinWith(tokens, sep) == tokens[0] + ([sep] + JoinWith(tokens[1..], sep))
  {
  }

  /** `split(' ')` inverts joining tokens with single spaces. */
  lemma {:induction false} AwkSplitJoin(tokens: seq<string>)
    requires forall i :: 0 <= i < |tokens| ==> IsToken(tokens[i])
    ensures AwkSplit(JoinWith(tokens, ' ')) == tokens
    decreases |tokens|
  {
    if |tokens| == 1 {
      AwkSplitToken(tokens[0]);
    } else if |tokens| > 1 {
      var rest := JoinWith(tokens[1..], ' ');
      AwkSplitJoin(tokens[1..]);
      JoinWithCons(tokens, ' ');
      AwkSplitTokenThen(tokens[0], [' '] + rest);
      AwkSplitSpaceFirst(rest);
      assert tokens[0] + ([' '] + rest) == JoinWith(tokens, ' ');
      assert tokens == [tokens[0]] + tokens[1..];
    }
  }

  /** `split(/\s+/)` also inverts joining tokens with single spaces. */
  lemma RegexSplitJoin(tokens: seq<string>)
    requires forall i :: 0 <= i < |tokens| ==> IsToken(tokens[i])
    ensures RegexSplit(JoinWith(tokens, ' ')) == tokens
  {
    var s := JoinWith(tokens, ' ');
    if |tokens| > 1 {
      JoinWithCons(tokens, ' ');
      assert s[0] == tokens[0][0];
    }
    RegexSplitUntrimmed(s);
    AwkSplitJoin(tokens);
  }

  /** Tokens joined with single spaces make one line: no newline in it, and with two or more
      tokens at least one character per token and one per space. */
  lemma {:induction false} JoinedTokensLine(tokens: seq<string>)
    requires forall i :: 0 <= i < |tokens| ==> IsToken(tokens[i])
    ensures '\n' !in JoinWith(tokens, ' ')
    ensures |JoinWith(tokens, ' ')| >= 2 * |tokens| - 1
    decreases |tokens|
  {
    if |tokens| == 1 {
      assert tokens[0][0] != '\n';
      assert forall i :: 0 <= i < |tokens[0]| ==> !IsSpace(tokens[0][i]);
    } else if |tokens| > 1 {
      JoinedTokensLine(tokens[1..]);
      JoinWithCons(tokens, ' ');
      assert forall i :: 0 <= i < |tokens[0]| ==> !IsSpace(tokens[0][i]);
    }
  }

  // ----- The words of a text -----

  /** Text made of whitespace only, possibly none. */
  predicate IsBlank(w: string) {
    forall i :: 0 <= i < |w| ==> IsSpace(w[i])
  }

  /** `tokens` laid out with `gaps[0]` in front of the first, `gaps[i]` between tokens `i - 1`
      and `i`, and the last gap after the last token. */
  function Interleave(tokens: seq<string>, gaps: seq<string>): string
    requires |gaps| == |tokens| + 1
  {
    if tokens == [] then gaps[0]
    else gaps[0] + tokens[0] + Interleave(tokens[1..], gaps[1..])
  }

  /** One more word, with the gap in front of it. */
  lemma InterleaveCons(gap: string, token: string, tokens: seq<string>, gaps: seq<string>)
    requires |gaps| == |tokens| + 1
    ensures Interleave([token] + tokens, [gap] + gaps) == gap + token + Interleave(tokens, gaps)
  {
    assert ([token] + tokens)[1..] == tokens && ([gap] + gaps)[1..] == gaps;
  }

  /** `gaps` lays `tokens` out as the words of a text: the words hold no whitespace, every gap is
      whitespace, and the gaps between two words are not empty. The gap in front and the gap
      after may be empty. */
  predicate Layout(tokens: seq<string>, gaps: seq<string>) {
    |gaps| == |tokens| + 1
    && (forall i :: 0 <= i < |tokens| ==> IsToken(tokens[i]))
    && (forall i :: 0 <= i < |gaps| ==> IsBlank(gaps[i]))
    && (forall i :: 0 < i < |tokens| ==> gaps[i] != [])
  }

  /** How a layout begins: with its first gap, or with its first word when that gap is empty. */
  lemma InterleaveFirst(tokens: seq<string>, gaps: seq<string>)
    requires Layout(tokens, gaps)
    ensures tokens == [] ==> Interleave(tokens, gaps) == gaps[0]
    ensures gaps[0] != [] ==> Interleave(tokens, gaps) != [] && Interleave(tokens, gaps)[0] == gaps[0][0]
    ensures gaps[0] == [] && tokens != [] ==> Interleave(tokens, gaps) != [] && !IsSpace(Interleave(tokens, gaps)[0])
  {
    if tokens != [] {
      assert Interleave(tokens, gaps) == gaps[0] + tokens[0] + Interleave(tokens[1..], gaps[1..]);
      assert IsToken(tokens[0]);
    }
  }

  /** The rest of a layout after its first word is a layout of the other words. */
  lemma LayoutTail(tokens: seq<string>, gaps: seq<string>)
    requires Layout(tokens, gaps) && tokens != []
    ensures Layout(tokens[1..], gaps[1..])
    ensures Interleave(tokens, gaps) == gaps[0] + (tokens[0] + Interleave(tokens[1..], gaps[1..]))
    ensures var rest := Interleave(tokens[1..], gaps[1..]); rest == [] || IsSpace(rest[0])
  {
    var ts, gs := tokens[1..], gaps[1..];
    forall i | 0 <= i < |ts| ensures IsToken(ts[i]) {
      assert ts[i] == tokens[i + 1];
    }
    forall i | 0 <= i < |gs| ensures IsBlank(gs[i]) {
      assert gs[i] == gaps[i + 1];
    }
    forall i | 0 < i < |ts| ensures gs[i] != [] {
      assert gs[i] == gaps[i + 1];
    }
    InterleaveFirst(ts, gs);
  }

  /** A word put in front of a layout, with whitespace before it, gives a layout. */
  lemma LayoutCons(w: string, token: string, tokens: seq<string>, gaps: seq<string>)
    requires IsBlank(w) && IsToken(token) && Layout(tokens, gaps)
    requires tokens != [] ==> gaps[0] != []
    ensures Layout([token] + tokens, [w] + gaps)
    ensures Interleave([token] + tokens, [w] + gaps) == w + (token + Interleave(tokens, gaps))
  {
    var ts, gs := [token] + tokens, [w] + gaps;
    assert ts[1..] == tokens && gs[1..] == gaps;
    forall i | 0 <= i < |ts| ensures IsToken(ts[i]) {
      if i > 0 { assert ts[i] == tokens[i - 1]; }
    }
    forall i | 0 <= i < |gs| ensures IsBlank(gs[i]) {
      if i > 0 { assert gs[i] == gaps[i - 1]; }
    }
    forall i | 0 < i < |ts| ensures gs[i] != [] {
      assert gs[i] == gaps[i - 1];
    }
  }

  /** Whitespace in front of a text does not change `split(' ')`. */
  lemma {:induction false} TrimBlank(w: string, t: string)
    requires IsBlank(w)
    ensures TrimLeft(w + t) == TrimLeft(t)
    decreases |w|
  {
    if w == [] {
      assert w + t == t;
    } else {
      assert (w + t)[0] == w[0] && (w + t)[1..] == w[1..] + t;
      assert IsBlank(w[1..]);
      TrimBlank(w[1..], t);
    }
  }

  lemma AwkSplitBlankFirst(w: string, t: string)
    requires IsBlank(w)
    ensures AwkSplit(w + t) == AwkSplit(t)
  {
    TrimBlank(w, t);
    AwkSplitTrim(w + t);
    AwkSplitTrim(t);
  }

  /** `split(' ')` recovers the words of any layout, whatever whitespace surrounds and
      separates them. */
  lemma {:induction false} AwkSplitInterleave(tokens: seq<string>, gaps: seq<string>)
    requires Layout(tokens, gaps)
    ensures AwkSplit(Interleave(tokens, gaps)) == tokens
    decreases |tokens|
  {
    if tokens == [] {
      AwkSplitBlankFirst(gaps[0], []);
      assert gaps[0] + [] == gaps[0];
    } else {
      var rest := Interleave(tokens[1..], gaps[1..]);
      LayoutTail(tokens, gaps);
      calc {
        AwkSplit(Interleave(tokens, gaps));
        AwkSplit(gaps[0] + (tokens[0] + rest));
        { AwkSplitBlankFirst(gaps[0], tokens[0] + rest); }
        AwkSplit(tokens[0] + rest);
        { AwkSplitTokenThen(tokens[0], rest); }
        [tokens[0]] + AwkSplit(rest);
        { AwkSplitInterleave(tokens[1..], gaps[1..]); }
        [tokens[0]] + tokens[1..];
        tokens;
      }
    }
  }

  /** Every text is a layout of the words `split(' ')` finds in it: nothing but whitespace is
      lost, and the words come in the order of the text. */
  lemma {:induction false} AwkSplitLayout(s: string)
    ensures exists gaps :: Layout(AwkSplit(s), gaps) && Interleave(AwkSplit(s), gaps) == s
    decreases |s|
  {
    var t := TrimLeft(s);
    if t == [] {
      BlankHasNoWords(s);
      assert Layout([], [s]) && Interleave([], [s]) == s;
    } else {
      var tail := t[TokenLength(t)..];
      AwkSplitLayout(tail);
      var gs :| Layout(AwkSplit(tail), gs) && Interleave(AwkSplit(tail), gs) == tail;
      LayoutFirstWord(s, gs);
    }
  }

  /** A text that is all whitespace has no words. */
  lemma BlankHasNoWords(s: string)
    requires TrimLeft(s) == []
    ensures IsBlank(s) && AwkSplit(s) == []
  {
  }

  /** A text with a word in it: the whitespace in front, the first word, and the rest, which
      is empty or starts with whitespace. */
  lemma FirstWord(s: string)
    requires TrimLeft(s) != []
    ensures var t := TrimLeft(s); IsBlank(s[..|s| - |t|])
    ensures var t := TrimLeft(s); IsToken(t[..TokenLength(t)])
    ensures var t := TrimLeft(s); var n := TokenLength(t); t[n..] == [] || IsSpace(t[n..][0])
    ensures var t := TrimLeft(s); s == s[..|s| - |t|] + t
    ensures var t := TrimLeft(s); var n := TokenLength(t); t == t[..n] + t[n..]
  {
    var t := TrimLeft(s);
    var k := |s| - |t|;
    var n := TokenLength(t);
    assert t == s[k..];
    forall i | 0 <= i < k ensures IsSpace(s[..k][i]) {
      assert s[..k][i] == s[i];
    }
    assert !IsSpace(t[0]) && n > 0;
    SplitAt(s, k);
    SplitAt(t, n);
  }

  lemma SplitAt(x: string, k: nat)
    requires k <= |x|
    ensures x == x[..k] + x[k..]
  {
  }

  /** `split(' ')` on a text with a word in it: that word, then the words of the rest. */
  lemma AwkSplitFirstWord(s: string)
    requires TrimLeft(s) != []
    ensures var t := TrimLeft(s); var n := TokenLength(t); AwkSplit(s) == [t[..n]] + AwkSplit(t[n..])
  {
  }

  /** The layout of a text: the whitespace in front, the first word, then the layout of the rest. */
  lemma LayoutFirstWord(s: string, gs: seq<string>)
    requires TrimLeft(s) != []
    requires var t := TrimLeft(s); var tail := t[TokenLength(t)..];
      Layout(AwkSplit(tail), gs) && Interleave(AwkSplit(tail), gs) == tail
    ensures var w := s[..|s| - |TrimLeft(s)|];
      Layout(AwkSplit(s), [w] + gs) && Interleave(AwkSplit(s), [w] + gs) == s
  {
    var t := TrimLeft(s);
    var w := s[..|s| - |t|];
    var n := TokenLength(t);
    var words := AwkSplit(t[n..]);
    FirstWord(s);
    AwkSplitFirstWord(s);
    if words != [] {
      InterleaveFirst(words, gs);
      assert gs[0] != [];
    }
    LayoutCons(w, t[..n], words, gs);
  }

  /** `split(' ')` is exactly the list of words: it returns `tokens` precisely when `s` is a
      layout of `tokens`. */
  lemma AwkSplitCharacterised(s: string, tokens: seq<string>)
    ensures AwkSplit(s) == tokens <==> exists gaps :: Layout(tokens, gaps) && Interleave(tokens, gaps) == s
  {
    AwkSplitLayout(s);
    if exists gaps :: Layout(tokens, gaps) && Interleave(tokens, gaps) == s {
      var gaps :| Layout(tokens, gaps) && Interleave(tokens, gaps) == s;
      AwkSplitInterleave(tokens, gaps);
    }
  }

  /** `split(/\s+/)` recovers the words of any layout too, behind one empty field when whitespace
      comes before the first word. With `AwkSplitLayout` this determines it on every text. */
  lemma RegexSplitInterleave(tokens: seq<string>, gaps: seq<string>)
    requires Layout(tokens, gaps)
    ensures RegexSplit(Interleave(tokens, gaps)) == if gaps[0] != [] && tokens != [] then [[]] + tokens else tokens
  {
    AwkSplitInterleave(tokens, gaps);
    InterleaveFirst(tokens, gaps);
    RegexSplitVersusAwkSplit(Interleave(tokens, gaps));
  }

  /** A layout whose gaps hold no newline is a single line. */
  lemma {:induction false} InterleaveLine(tokens: seq<string>, gaps: seq<string>)
    requires Layout(tokens, gaps)
    requires forall i :: 0 <= i < |gaps| ==> '\n' !in gaps[i]
    ensures '\n' !in Interleave(tokens, gaps)
    decreases |tokens|
  {
    if tokens != [] {
      LayoutTail(tokens, gaps);
      InterleaveLine(tokens[1..], gaps[1..]);
      assert IsToken(tokens[0]);
      assert '\n' !in tokens[0];
    }
  }
}
