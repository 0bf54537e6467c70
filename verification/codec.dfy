/**
 The message codec of the console relay: the sentinel token `[NEWLINE]` and the
 global, leftmost, non-overlapping replacement of every occurrence of it by a
 real newline character, as `line.replace(/\[NEWLINE\]/g, "\n")` does it.
 */
module Codec {

  import opened Wrappers

  /** The 9-character sentinel token. */
  const Token: string := "[NEWLINE]"

  /** The newline character that replaces each token occurrence. */
  const NL: char := '\n'

  /** True iff `s` begins with the token. */
  predicate StartsWithToken(s: string) {
    |Token| <= |s| && s[..|Token|] == Token
  }

  /** True iff an occurrence of the token starts at position `i` of `s`. */
  predicate TokenAt(s: string, i: int) {
    0 <= i <= |s| && StartsWithToken(s[i..])
  }

  /** True iff no occurrence of the token starts anywhere in `s`. */
  predicate NoToken(s: string) {
    forall i :: 0 <= i <= |s| ==> !StartsWithToken(s[i..])
  }

  /**
   The number of positions of `s` at which an occurrence of the token starts,
   overlapping ones included; it is independent of how a scan would match.
   */
  function Hits(s: string): nat
    decreases |s|
  {
    if |s| == 0 then 0
    else (if StartsWithToken(s) then 1 else 0) + Hits(s[1..])
  }

  /**
   Left-to-right scan: at each position, an occurrence of the token is replaced
   by a newline and the scan resumes after it; any other character is copied.
   */
  function ReplaceAll(s: string): (r: string)
    ensures |r| <= |s|
    decreases |s|
  {
    if |s| == 0 then []
    else if StartsWithToken(s) then [NL] + ReplaceAll(s[|Token|..])
    else [s[0]] + ReplaceAll(s[1..])
  }

  /** Only the first character of the token is `[`. */
  lemma TokenShape()
    ensures |Token| == 9
    ensures Token[0] == '['
    ensures forall j :: 0 < j < |Token| ==> Token[j] != '['
    ensures forall j :: 0 <= j < |Token| ==> Token[j] != NL
    ensures Token[|Token| - 1] != NL
  {
  }

  /**
   The token has no proper border, so two occurrences can never overlap: an
   occurrence at position 0 excludes one at any of the next eight positions.
   */
  lemma NoOverlap(s: string, j: int)
    requires StartsWithToken(s)
    requires 0 < j < |Token|
    ensures !StartsWithToken(s[j..])
  {
    TokenShape();
    assert s[j..][0] == s[j] == s[..|Token|][j] == Token[j];
  }

  /** A string without a token occurrence is left unchanged. */
  lemma {:induction false} NoTokenUnchanged(s: string)
    requires NoToken(s)
    ensures ReplaceAll(s) == s
    decreases |s|
  {
    if |s| > 0 {
      assert s[0..] == s;
      assert !StartsWithToken(s);
      forall i | 0 <= i <= |s[1..]|
        ensures !StartsWithToken(s[1..][i..])
      {
        assert s[1..][i..] == s[i + 1..];
      }
      NoTokenUnchanged(s[1..]);
    }
  }

  /**
   If the output of the scan begins with a newline-free text `w`, then so does
   its input: every newline-free prefix of the output was copied verbatim.
   */
  lemma {:induction false} NewlineFreePrefix(t: string, w: string)
    requires |w| <= |ReplaceAll(t)| && ReplaceAll(t)[..|w|] == w
    requires forall k :: 0 <= k < |w| ==> w[k] != NL
    ensures |w| <= |t| && t[..|w|] == w
    decreases |t|
  {
    if |w| > 0 {
      assert ReplaceAll(t)[0] == ReplaceAll(t)[..|w|][0] == w[0] != NL;
      assert !StartsWithToken(t);
      var r := ReplaceAll(t[1..]);
      assert ReplaceAll(t) == [t[0]] + r;
      assert r[..|w| - 1] == w[1..];
      NewlineFreePrefix(t[1..], w[1..]);
      assert t[..|w|] == [t[0]] + t[1..][..|w| - 1];
    }
  }

  /** Replacement is global: no occurrence of the token survives the scan. */
  lemma {:induction false} NoTokenSurvives(s: string)
    ensures NoToken(ReplaceAll(s))
    decreases |s|
  {
    TokenShape();
    var r := ReplaceAll(s);
    if |s| > 0 {
      var rest := if StartsWithToken(s) then s[|Token|..] else s[1..];
      NoTokenSurvives(rest);
      var tail := ReplaceAll(rest);
      assert r == [r[0]] + tail;
      forall i | 0 <= i <= |r|
        ensures !StartsWithToken(r[i..])
      {
        if i > 0 {
          assert r[i..] == tail[i - 1..];
        } else if StartsWithToken(s) {
          assert r[0] == NL;
        } else if |Token| <= |r| && r[1..|Token|] == Token[1..] {
          // the only way the output could begin with the token is for its
          // first character to be `[`, which the input's first one is not
          var w := Token[1..];
          assert tail[..|w|] == w;
          NewlineFreePrefix(s[1..], w);
          assert s[..|Token|] == [s[0]] + s[1..][..|w|];
          assert r[0] == s[0] != Token[0];
        } else if |Token| <= |r| {
          assert r[..|Token|][1..] == r[1..|Token|];
        }
      }
    }
  }

  /** Applying the replacement twice is the same as applying it once. */
  lemma ReplaceAllIdempotent(s: string)
    ensures ReplaceAll(ReplaceAll(s)) == ReplaceAll(s)
  {
    NoTokenSurvives(s);
    NoTokenUnchanged(ReplaceAll(s));
  }

  /** The positions covered by one occurrence contribute a single hit. */
  lemma {:induction false} HitsSkipToken(s: string, k: nat)
    requires StartsWithToken(s)
    requires 1 <= k <= |Token|
    ensures Hits(s[k..]) == Hits(s[|Token|..])
    decreases |Token| - k
  {
    if k < |Token| {
      NoOverlap(s, k);
      assert s[k..][1..] == s[k + 1..];
      HitsSkipToken(s, k + 1);
    }
  }

  /** `Hits` is zero exactly when the string contains no token occurrence. */
  lemma {:induction false} HitsZeroIffNoToken(s: string)
    ensures Hits(s) == 0 <==> NoToken(s)
    decreases |s|
  {
    if |s| > 0 {
      HitsZeroIffNoToken(s[1..]);
      assert s[0..] == s;
      forall i | 0 <= i <= |s[1..]|
        ensures s[1..][i..] == s[i + 1..]
      {
      }
      if NoToken(s[1..]) && !StartsWithToken(s) {
        forall i | 0 <= i <= |s|
          ensures !StartsWithToken(s[i..])
        {
          if i > 0 {
            assert s[i..] == s[1..][i - 1..];
          }
        }
      }
    } else {
      assert forall i :: 0 <= i <= |s| ==> s[i..] == [];
    }
  }

  /** An occurrence at the front accounts for exactly one hit. */
  lemma HitsFront(s: string)
    requires StartsWithToken(s)
    ensures Hits(s) == 1 + Hits(s[|Token|..])
  {
    HitsSkipToken(s, 1);
  }

  /** Each of the `Hits(s)` occurrences shrinks the text by eight characters. */
  lemma {:induction false} ReplaceAllLength(s: string)
    ensures |ReplaceAll(s)| == |s| - (|Token| - 1) * Hits(s)
    decreases |s|
  {
    if |s| > 0 {
      if StartsWithToken(s) {
        ReplaceAllLength(s[|Token|..]);
        HitsFront(s);
      } else {
        ReplaceAllLength(s[1..]);
      }
    }
  }

  /** The number of newline characters in `s`. */
  function Newlines(s: string): nat {
    multiset(s)[NL]
  }

  /** Newlines are counted separately in the two parts of a concatenation. */
  lemma NewlinesConcat(a: string, b: string)
    ensures Newlines(a + b) == Newlines(a) + Newlines(b)
  {
    assert multiset(a + b) == multiset(a) + multiset(b);
  }

  /** An occurrence at the front: one newline more in the output than in the input. */
  lemma NewlinesFrontToken(s: string)
    requires StartsWithToken(s)
    ensures Newlines(s) == Newlines(s[|Token|..])
    ensures Newlines(ReplaceAll(s)) == 1 + Newlines(ReplaceAll(s[|Token|..]))
  {
    var rest := s[|Token|..];
    TokenShape();
    assert s == Token + rest by {
      assert s == s[..|Token|] + rest;
    }
    assert Newlines(Token) == 0 by {
      assert NL !in multiset(Token);
    }
    NewlinesConcat(Token, rest);
    NewlinesConcat([NL], ReplaceAll(rest));
  }

  /** The newlines of a non-empty text: those of its first character and of the rest. */
  lemma NewlinesFront(s: string)
    requires 0 < |s|
    ensures Newlines(s) == Newlines([s[0]]) + Newlines(s[1..])
  {
    assert s == [s[0]] + s[1..];
    NewlinesConcat([s[0]], s[1..]);
  }

  /** Each of the `Hits(s)` occurrences adds one newline; existing ones are kept. */
  lemma {:induction false} ReplaceAllNewlines(s: string)
    ensures Newlines(ReplaceAll(s)) == Newlines(s) + Hits(s)
    decreases |s|
  {
    if |s| > 0 {
      if StartsWithToken(s) {
        ReplaceAllNewlines(s[|Token|..]);
        HitsFront(s);
        NewlinesFrontToken(s);
      } else {
        ReplaceAllNewlines(s[1..]);
        NewlinesFront(s);
        NewlinesConcat([s[0]], ReplaceAll(s[1..]));
      }
    }
  }

  /** Concatenation is associative; stated once to keep proofs about it cheap. */
  lemma ConcatAssoc<T>(a: seq<T>, b: seq<T>, c: seq<T>)
    ensures (a + b) + c == a + (b + c)
  {
  }

  /**
   Where no occurrence starts in `[p, q)`, the scan copies `s[p..q]` verbatim
   and carries on from `q`.
   */
  lemma {:induction false} CopyRun(s: string, p: nat, q: nat)
    requires p <= q <= |s|
    requires forall j :: p <= j < q ==> !TokenAt(s, j)
    ensures ReplaceAll(s[p..]) == s[p..q] + ReplaceAll(s[q..])
    decreases q - p
  {
    if p < q {
      assert !TokenAt(s, p);
      assert s[p..][0] == s[p];
      assert s[p..][1..] == s[p + 1..];
      assert ReplaceAll(s[p..]) == [s[p]] + ReplaceAll(s[p + 1..]);
      CopyRun(s, p + 1, q);
      assert s[p..q] == [s[p]] + s[p + 1..q];
      ConcatAssoc([s[p]], s[p + 1..q], ReplaceAll(s[q..]));
    }
  }

  /**
   The first occurrence of the token starting at or after `from`, as the
   global regular expression's next match from its last index.
   */
  function NextToken(s: string, from: nat): (r: Option<nat>)
    requires from <= |s|
    ensures r.Some? ==> from <= r.value && TokenAt(s, r.value)
    ensures r.Some? ==> forall j :: from <= j < r.value ==> !TokenAt(s, j)
    ensures r.None? ==> forall j :: from <= j ==> !TokenAt(s, j)
    decreases |s| - from
  {
    if StartsWithToken(s[from..]) then Some(from)
    else if from == |s| then None
    else NextToken(s, from + 1)
  }

  /**
   A match at `j` with none before it from `p`: the text in between is copied
   and the match becomes a newline.
   */
  lemma MatchStep(s: string, p: nat, j: nat)
    requires p <= j <= |s|
    requires forall k :: p <= k < j ==> !TokenAt(s, k)
    requires TokenAt(s, j)
    ensures j + |Token| <= |s|
    ensures ReplaceAll(s[p..]) == (s[p..j] + [NL]) + ReplaceAll(s[j + |Token|..])
  {
    CopyRun(s, p, j);
    assert s[j..][|Token|..] == s[j + |Token|..];
    assert ReplaceAll(s[j..]) == [NL] + ReplaceAll(s[j + |Token|..]);
    ConcatAssoc(s[p..j], [NL], ReplaceAll(s[j + |Token|..]));
  }

  /**
   The replacement as the regular-expression engine performs it: find the next
   match, copy the text before it, append the replacement, resume after the
   match; copy whatever follows the last match.
   */
  method ReplaceByMatches(s: string) returns (r: string)
    ensures r == ReplaceAll(s)
  {
    r := [];
    var pos: nat := 0;
    var next := NextToken(s, 0);
    assert s[0..] == s;
    while next.Some?
      invariant pos <= |s|
      invariant next == NextToken(s, pos)
      invariant r + ReplaceAll(s[pos..]) == ReplaceAll(s)
      decreases |s| - pos
    {
      var j := next.value;
      var piece := s[pos..j] + [NL];
      MatchStep(s, pos, j);
      ConcatAssoc(r, piece, ReplaceAll(s[j + |Token|..]));
      r := r + piece;
      pos := j + |Token|;
      next := NextToken(s, pos);
    }
    CopyRun(s, pos, |s|);
    assert s[|s|..] == [];
    r := r + s[pos..];
  }

  /** The pieces joined with `sep` between consecutive ones. */
  function Join(pieces: seq<string>, sep: string): string
    decreases |pieces|
  {
    if |pieces| == 0 then []
    else if |pieces| == 1 then pieces[0]
    else pieces[0] + sep + Join(pieces[1..], sep)
  }

  /**
   A token placed right after a token-free text is the first occurrence: the
   text is copied verbatim and the token becomes a newline.
   */
  lemma TokenAfterClean(a: string, rest: string)
    requires NoToken(a)
    ensures ReplaceAll(a + Token + rest) == a + [NL] + ReplaceAll(rest)
  {
    TokenShape();
    var s := a + Token + rest;
    forall j | 0 <= j < |a|
      ensures !TokenAt(s, j)
    {
      if j + |Token| <= |a| {
        assert s[j..][..|Token|] == a[j..][..|Token|];
      } else if j + |Token| <= |s| {
        var k := |a| - j;
        assert s[j..][..|Token|][k] == s[|a|] == Token[0];
      }
    }
    assert s[0..] == s;
    CopyRun(s, 0, |a|);
    assert s[..|a|] == a;
    var t := s[|a|..];
    assert t == Token + rest;
    assert t[..|Token|] == Token;
    assert t[|Token|..] == rest;
  }

  /**
   The text between replaced tokens is preserved verbatim and in order: joining
   token-free pieces with the token and replacing gives the pieces joined with
   newlines.
   */
  lemma {:induction false} JoinRoundTrip(pieces: seq<string>)
    requires forall i :: 0 <= i < |pieces| ==> NoToken(pieces[i])
    ensures ReplaceAll(Join(pieces, Token)) == Join(pieces, [NL])
    decreases |pieces|
  {
    if |pieces| == 1 {
      NoTokenUnchanged(pieces[0]);
    } else if |pieces| > 1 {
      JoinRoundTrip(pieces[1..]);
      TokenAfterClean(pieces[0], Join(pieces[1..], Token));
    }
  }

  /** Two or more pieces joined with `sep` contain at least one separator. */
  lemma JoinLengthAtLeastSep(pieces: seq<string>, sep: string)
    requires |pieces| >= 2
    ensures |Join(pieces, sep)| >= |sep|
  {
  }

  /** The sentinel itself is not token-free. */
  lemma TokenNotTokenFree(s: string)
    requires NoToken(s)
    ensures s != Token
  {
    assert !StartsWithToken(s[0..]);
    assert Token[0..] == Token[..|Token|] == Token;
  }

  /** Two pieces encode to the sentinel exactly when both are empty. */
  lemma JoinTwoIsSentinel(pieces: seq<string>)
    requires |pieces| == 2
    ensures Join(pieces, Token) == Token <==> pieces == ["", ""]
  {
    var a, b := pieces[0], pieces[1];
    assert pieces[1..] == [b];
    assert Join([b], Token) == b;
    assert Join(pieces, Token) == a + Token + b;
    if a == [] && b == [] {
      assert pieces == ["", ""];
      assert Join(pieces, Token) == Token;
    }
  }

  /** More than two pieces encode to something longer than the sentinel. */
  lemma JoinManyNotSentinel(pieces: seq<string>)
    requires |pieces| > 2
    ensures |Join(pieces, Token)| > |Token|
  {
    JoinLengthAtLeastSep(pieces[1..], Token);
    assert Join(pieces, Token) == pieces[0] + Token + Join(pieces[1..], Token);
  }

  /**
   Among token-free pieces, the only ones whose encoding is the bare sentinel
   are two empty pieces: a single newline payload collides with suppression.
   */
  lemma JoinIsSentinel(pieces: seq<string>)
    requires forall i :: 0 <= i < |pieces| ==> NoToken(pieces[i])
    ensures Join(pieces, Token) == Token <==> pieces == ["", ""]
  {
    if |pieces| == 1 {
      TokenNotTokenFree(pieces[0]);
    } else if |pieces| == 2 {
      JoinTwoIsSentinel(pieces);
    } else if |pieces| > 2 {
      JoinManyNotSentinel(pieces);
    }
  }
}
