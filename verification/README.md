# Console relay of the PhantomJS script runner

`runner.js` creates a headless page, injects the script named on the command
line, and exits. The only logic it holds is the page's console-message handler
(`runner.js:3-8`). That handler relays each console line the injected script
logs to standard output, using the sentinel token `[NEWLINE]`:

- a line that is exactly `[NEWLINE]` is suppressed and nothing is written;
- in any other line, every occurrence of `[NEWLINE]` becomes a real newline
  (`line.replace(/\[NEWLINE\]/g, "\n")`), and `console.log` writes the result
  followed by one line terminator.

This project models that handler as pure functions over `string` (`seq<char>`):

- `wrappers.dfy`: the `Option` type for "nothing written" versus "this text written".
- `codec.dfy` (module `Codec`): the token and the global, leftmost,
  non-overlapping replacement. `ReplaceAll` is the recursive scan. `Hits`
  counts every position where the token starts. `ReplaceByMatches` does the
  replacement the way a global regular expression does it, match after match.
  `Join` is the injected script's side of the convention: pieces joined with
  the token.
- `relay.dfy` (module `ConsoleRelay`): one handler call (`Decode`), what it
  adds to standard output (`Written`), and the standard output after a run of
  calls (`Relay`, and the loop `RelayEach`).

The token starts with `[` and has no other `[` in it, so it has no proper
border. Two occurrences therefore cannot overlap (`Codec.NoOverlap`). Because
of this, the count of all occurrences (`Hits`) equals the number of
replacements the scan makes.

## Model

| member | source | states |
|---|---|---|
| Codec.ReplaceAll | runner.js:6 | The replaced text is never longer than the line it came from. |
| Codec.NoOverlap | runner.js:6 | After an occurrence of `[NEWLINE]`, no other occurrence starts within its next eight characters, so matches never overlap. |
| Codec.NoTokenUnchanged | runner.js:6 | A line with no `[NEWLINE]` in it comes out of the replacement unchanged. |
| Codec.NoTokenSurvives | runner.js:6 | The replacement is global: no `[NEWLINE]` is left in its output, including one that could form from the text around a replaced token. |
| Codec.ReplaceAllIdempotent | runner.js:6 | Replacing a second time changes nothing. |
| Codec.HitsZeroIffNoToken | runner.js:6 | The occurrence count is zero exactly when the line has no token, in both directions. |
| Codec.ReplaceAllLength | runner.js:6 | A line with k occurrences gives a body 8k characters shorter than the line. |
| Codec.ReplaceAllNewlines | runner.js:6 | A line with k occurrences gives a body with the line's own newlines plus k more. |
| Codec.CopyRun | runner.js:6 | Text in which no occurrence starts is copied verbatim, in order. |
| Codec.NextToken | runner.js:6 | Finds the leftmost occurrence at or after a position, or reports that there is none after it. |
| Codec.MatchStep | runner.js:6 | At the leftmost match, the text before it is kept and the match becomes one newline. |
| Codec.ReplaceByMatches | runner.js:6 | Replacing match by match, as the global regular expression does, gives exactly the scan's result. |
| Codec.TokenAfterClean | runner.js:6 | A token placed right after token-free text is replaced, and that text is kept unchanged. |
| Codec.JoinRoundTrip | runner.js:6 | Token-free pieces joined with the token come back as the same pieces, in the same order, joined with newlines. |
| Codec.JoinIsSentinel | runner.js:5-6 | Among token-free pieces, the encoding is exactly the sentinel if and only if the pieces are two empty strings. A payload that is a single newline therefore collides with suppression. |
| ConsoleRelay.Decode | runner.js:3-8 | Writes nothing exactly when the line is the sentinel, in both directions. Otherwise it writes token-free text ending in one terminator, and a token-free line is written as itself plus the terminator. |
| ConsoleRelay.Written | runner.js:5-6 | What one handler call adds to standard output, as `console.log` writes it: nothing exactly when the line is the sentinel, in both directions; otherwise token-free text ending in the terminator. |
| ConsoleRelay.WrittenCounts | runner.js:5-6 | For a non-sentinel line with k occurrences, the written text is 8k characters shorter than the line plus one for the terminator, and contains the line's own newlines plus k + 1. |
| ConsoleRelay.Relay | runner.js:3-8 | Standard output after the handler has been called on each line in turn. It is empty exactly when every line is the sentinel, in both directions, and when it is not empty it ends in a terminator. |
| ConsoleRelay.RelayAppend | runner.js:3-8 | The handler keeps no state: relaying `xs + ys` is relaying `xs` and then `ys`. |
| ConsoleRelay.RelayIsKeptInOrder | runner.js:3-8 | The output is the non-sentinel lines, each decoded and terminated, in their original order, with nothing reordered or merged. |
| ConsoleRelay.RelayPlain | runner.js:3-8 | Token-free lines are written unchanged, each followed by one terminator, in order. |
| ConsoleRelay.RelayPlainLine | runner.js:5-6 | A single token-free line is written as itself plus one terminator. |
| ConsoleRelay.DecodeTwice | runner.js:3-8 | Decoding is not idempotent: decoding text the handler already wrote writes it again with one extra terminator. |
| ConsoleRelay.DecodeJoined | runner.js:5-6 | A line encoded under the token convention arrives as its pieces joined by newlines, plus one terminator. The one exception is two empty pieces: their encoding is the sentinel itself and is suppressed (see `Codec.JoinIsSentinel`). |
| ConsoleRelay.RelayEach | runner.js:3-8 | Appending the handler's output (`Written`) once per delivered line leaves the kept lines on standard output, decoded and in order. |
| ConsoleRelay.ScenarioPlain | runner.js:3-8 | Logging `hello` writes exactly `hello\n`. |
| ConsoleRelay.ScenarioSentinel | runner.js:5 | Logging `[NEWLINE]` writes nothing. |
| ConsoleRelay.ScenarioEmbedded | runner.js:3-8 | Logging `a[NEWLINE]b[NEWLINE]c` writes exactly `a\nb\nc\n`. |
| ConsoleRelay.ScenarioSentinelPrefix | runner.js:5-6 | Suppression needs the whole line to match: `[NEWLINE]x` is written as `\nx\n`. |
| ConsoleRelay.ScenarioLowerCase | runner.js:5-6 | Suppression is case-sensitive: `[newline]` is written unchanged. |

## Left out

- Page creation and script injection (`runner.js:1`, `runner.js:9`): these are calls into the PhantomJS page engine, whose behaviour is not visible here.
- Command-line access (`runner.js:2`, `runner.js:9`): `sys.args[1]` is only passed through to the injection.
- `phantom.exit(0)` (`runner.js:10`): the process always exits with status 0. The race between the un-awaited injection and the exit depends on the event loop, and a sequential model cannot express it. The model assumes every line the engine delivers reaches the handler.
- `console.log` as real output: it is modelled as appending the text and one `\n` to a string, not as a write to a stream.
- The handler's extra arguments (line number and source id) are ignored by the source and are not modelled.
- JavaScript strings are sequences of UTF-16 code units, while Dafny's `char` is a Unicode scalar value. The token and `\n` are ASCII, so for well-formed text the replacement does not depend on the difference. A JavaScript string can also hold a lone surrogate, which a Dafny `char` cannot represent, so lines containing one are outside the model.
- General regular-expression semantics: only the literal, global replacement of this one fixed token is modelled.
