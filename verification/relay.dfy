/**
 The console-message relay: the handler registered on the page receives each
 console line, suppresses the bare sentinel, and otherwise writes the line with
 every token replaced by a newline, followed by one line terminator.
 */
module ConsoleRelay {

  import opened Wrappers
  import opened Codec

  /** A token-free text stays token-free when a newline is appended. */
  lemma NoTokenWithNewline(t: string)
    requires NoToken(t)
    ensures NoToken(t + [NL])
  {
    TokenShape();
    var u := t + [NL];
    forall i | 0 <= i <= |u|
      ensures !StartsWithToken(u[i..])
    {
      if i + |Token| <= |t| {
        assert u[i..][..|Token|] == t[i..][..|Token|];
      } else if i + |Token| == |u| {
        assert u[i..][..|Token|][|Token| - 1] == NL;
      }
    }
  }

  /**
   One handler invocation: `None` when nothing is written, otherwise the text
   written to standard output, terminator included.
   */
  function Decode(line: string): (r: Option<string>)
    ensures r.None? <==> line == Token
    ensures r.Some? ==> 0 < |r.value| && r.value[|r.value| - 1] == NL
    ensures r.Some? ==> NoToken(r.value)
    ensures r.Some? && NoToken(line) ==> r.value == line + [NL]
  {
    if line == Token then None
    else
      NoTokenSurvives(line);
      NoTokenWithNewline(ReplaceAll(line));
      assert NoToken(line) ==> ReplaceAll(line) == line by {
        if NoToken(line) {
          NoTokenUnchanged(line);
        }
      }
      Some(ReplaceAll(line) + [NL])
  }

  /**
   What one handler invocation adds to standard output: nothing for the
   sentinel, otherwise one token-free line ending in its terminator.
   */
  function Written(line: string): (w: string)
    ensures w == [] <==> line == Token
    ensures w != [] ==> w[|w| - 1] == NL && NoToken(w)
  {
    match Decode(line)
    case None => []
    case Some(t) => t
  }

  /**
   A written line is eight characters shorter than its input for each token
   occurrence, plus its terminator, and holds one more newline per occurrence.
   */
  lemma WrittenCounts(line: string)
    requires line != Token
    ensures |Written(line)| == |line| - (|Token| - 1) * Hits(line) + 1
    ensures Newlines(Written(line)) == Newlines(line) + Hits(line) + 1
  {
    ReplaceAllLength(line);
    ReplaceAllNewlines(line);
    NewlinesConcat(ReplaceAll(line), [NL]);
  }

  /**
   Standard output after the handler has been invoked on each line in turn:
   empty when every line is the sentinel, and otherwise ending in a terminator.
   */
  function Relay(lines: seq<string>): (r: string)
    ensures r == [] <==> forall i :: 0 <= i < |lines| ==> lines[i] == Token
    ensures r != [] ==> r[|r| - 1] == NL
    decreases |lines|
  {
    if |lines| == 0 then []
    else Relay(lines[..|lines| - 1]) + Written(lines[|lines| - 1])
  }

  /** Unfolds the relay at its last line. */
  lemma RelayLast(lines: seq<string>)
    requires |lines| > 0
    ensures Relay(lines) == Relay(lines[..|lines| - 1]) + Written(lines[|lines| - 1])
  {
  }

  /** The relay of a single line is what the handler writes for it. */
  lemma RelaySingle(line: string)
    ensures Relay([line]) == Written(line)
  {
    RelayLast([line]);
    assert [line][..0] == [];
  }

  /** The last element of a concatenation comes from its second part. */
  lemma SplitLast<T>(xs: seq<T>, ys: seq<T>)
    requires |ys| > 0
    ensures (xs + ys)[..|xs + ys| - 1] == xs + ys[..|ys| - 1]
    ensures (xs + ys)[|xs + ys| - 1] == ys[|ys| - 1]
  {
  }

  /** The handler keeps no state: relaying two batches is relaying each in turn. */
  lemma {:induction false} RelayAppend(xs: seq<string>, ys: seq<string>)
    ensures Relay(xs + ys) == Relay(xs) + Relay(ys)
    decreases |ys|
  {
    if |ys| == 0 {
      assert xs + ys == xs;
    } else {
      var n := |ys| - 1;
      var zs := xs + ys;
      SplitLast(xs, ys);
      RelayAppend(xs, ys[..n]);
      RelayLast(zs);
      RelayLast(ys);
      ConcatAssoc(Relay(xs), Relay(ys[..n]), Written(ys[n]));
    }
  }

  /** The lines that are not the bare sentinel, in their original order. */
  function Kept(lines: seq<string>): (k: seq<string>)
    ensures |k| <= |lines|
    ensures forall i :: 0 <= i < |k| ==> k[i] != Token
    decreases |lines|
  {
    if |lines| == 0 then []
    else if lines[0] == Token then Kept(lines[1..])
    else [lines[0]] + Kept(lines[1..])
  }

  /**
   Reference for the relayed output: each kept line with its tokens replaced
   and one terminator, concatenated in order.
   */
  function Terminated(lines: seq<string>): string
    decreases |lines|
  {
    if |lines| == 0 then []
    else ReplaceAll(lines[0]) + [NL] + Terminated(lines[1..])
  }

  /**
   Relaying writes the kept lines, decoded, in their original order, with no
   reordering or merging; sentinel lines leave no trace.
   */
  lemma {:induction false} RelayIsKeptInOrder(lines: seq<string>)
    ensures Relay(lines) == Terminated(Kept(lines))
    decreases |lines|
  {
    if |lines| > 0 {
      var head := [lines[0]];
      var tail := lines[1..];
      assert lines == head + tail;
      RelayAppend(head, tail);
      RelayIsKeptInOrder(tail);
      RelaySingle(lines[0]);
      if lines[0] != Token {
        assert Kept(lines)[1..] == Kept(tail);
      }
    }
  }

  /** A token-free line is written unchanged, with one terminator. */
  lemma RelayPlainLine(line: string)
    requires NoToken(line)
    ensures Relay([line]) == line + [NL]
  {
    RelaySingle(line);
    assert line != Token by {
      assert Token[0..] == Token[..|Token|] == Token;
      assert !StartsWithToken(line[0..]);
    }
  }

  /** Unfolds a newline join of lines followed by an empty last piece. */
  lemma JoinPadded(lines: seq<string>)
    requires |lines| > 0
    ensures Join(lines + [[]], [NL]) == lines[0] + [NL] + Join(lines[1..] + [[]], [NL])
  {
    var padded := lines + [[]];
    assert padded[1..] == lines[1..] + [[]];
  }

  /** Token-free lines are written unchanged, one terminator each, in order. */
  lemma {:induction false} RelayPlain(lines: seq<string>)
    requires forall i :: 0 <= i < |lines| ==> NoToken(lines[i])
    ensures Relay(lines) == Join(lines + [[]], [NL])
    decreases |lines|
  {
    if |lines| > 0 {
      var head := lines[0];
      var tail := lines[1..];
      assert lines == [head] + tail;
      RelayAppend([head], tail);
      RelayPlainLine(head);
      RelayPlain(tail);
      JoinPadded(lines);
    }
  }

  /**
   Decoding is not idempotent, in a precise way: decoding an already written
   text writes it again with one more terminator. A corollary of the contract
   of `Decode`: written text is token-free and is not the sentinel.
   */
  lemma DecodeTwice(line: string)
    requires Decode(line).Some?
    ensures Decode(Decode(line).value) == Some(Decode(line).value + [NL])
  {
  }

  /**
   The injected script's wire convention: pieces joined with the token arrive
   as the pieces joined with newlines, plus one terminator. The one encoding
   excluded is that of two empty pieces, which is the sentinel itself
   (`JoinIsSentinel`) and is suppressed.
   */
  lemma DecodeJoined(pieces: seq<string>)
    requires forall i :: 0 <= i < |pieces| ==> NoToken(pieces[i])
    requires pieces != ["", ""]
    ensures Decode(Join(pieces, Token)) == Some(Join(pieces, [NL]) + [NL])
  {
    JoinIsSentinel(pieces);
    JoinRoundTrip(pieces);
  }

  /**
   The handler invoked on each delivered line in turn, appending what it writes
   to the output collected so far.
   */
  method RelayEach(lines: seq<string>) returns (out: string)
    ensures out == Terminated(Kept(lines))
  {
    out := [];
    var i := 0;
    while i < |lines|
      invariant i <= |lines|
      invariant out == Relay(lines[..i])
    {
      out := out + Written(lines[i]);
      assert lines[..i + 1][..i] == lines[..i];
      i := i + 1;
    }
    assert lines[..i] == lines;
    RelayIsKeptInOrder(lines);
  }

  /** Scenario: a plain line is written with one terminator. */
  lemma ScenarioPlain()
    ensures Relay(["hello"]) == "hello\n"
  {
    RelayPlainLine("hello");
  }

  /** Scenario: the bare sentinel writes nothing. */
  lemma ScenarioSentinel()
    ensures Relay([Token]) == []
  {
  }

  /** Scenario: two embedded tokens become two newlines between the three parts. */
  lemma ScenarioEmbedded()
    ensures Relay(["a[NEWLINE]b[NEWLINE]c"]) == "a\nb\nc\n"
  {
    var pieces := ["a", "b", "c"];
    assert Join(pieces, Token) == "a[NEWLINE]b[NEWLINE]c";
    assert Join(pieces, [NL]) == "a\nb\nc";
    DecodeJoined(pieces);
    RelaySingle("a[NEWLINE]b[NEWLINE]c");
  }

  /** Suppression is a whole-line match: a longer line is decoded. */
  lemma ScenarioSentinelPrefix()
    ensures Decode("[NEWLINE]x") == Some("\nx\n")
  {
    var s := "[NEWLINE]x";
    assert s == [] + Token + "x";
    TokenAfterClean([], "x");
    NoTokenUnchanged("x");
    assert ReplaceAll(s) == "\nx";
    assert s != Token;
    assert Decode(s) == Some(ReplaceAll(s) + [NL]);
    assert "\nx" + [NL] == "\nx\n";
  }

  /** Suppression is case-sensitive: a lower-case sentinel is written as is. */
  lemma ScenarioLowerCase()
    ensures Decode("[newline]") == Some("[newline]\n")
  {
    var s := "[newline]";
    assert s != Token by {
      assert s[1] != Token[1];
    }
    forall i | 0 <= i <= |s|
      ensures !StartsWithToken(s[i..])
    {
      if i == 0 {
        assert s[0..][..|Token|][1] != Token[1];
      }
    }
    assert NoToken(s);
    assert Decode(s) == Some(s + [NL]);
    assert s + [NL] == "[newline]\n";
  }
}
