# node-bird-router-api in Dafny

This project models the core of node-bird-router-api, a client for the BIRD
routing daemon's control socket:

- **The status-text parsers** (`src/protocolParser.ts`). They turn the prose of
  `show protocols all` into typed records:
  - route counts;
  - route-change statistics;
  - one channel block;
  - a BGP capability block;
  - a BGP timer;
  - the bodies of active and passive BGP sessions.
- **The `Bird` client object** (`src/index.ts`). It remembers the socket path,
  checks the daemon's greeting, refuses commands until `connect` has run, and
  cleans each reply.
- **The record shapes** of `src/types.ts`.

The regular expressions of the parsers are written out as explicit scans in
module `JsRegex`. The greeting test and the two reply-cleaning replacements
of the client are scanned in module `BirdClient`. Two scans come with a
declarative description of the match they find, and a lemma says that
description has exactly one solution:

- the first capture of `key(class+)`, e.g. "the maximal non-space run after
  the first occurrence of `State: ` that is followed by one";
- the lazy slice `start(.|\n)+?(?=stop)`, e.g. "the text from
  `Local capabilities\n` up to the first later `Neighbor capabilities`".

The parsers' contracts are stated against those descriptions. The other scans
are pinned down by equations:

- `matchAll` over one class, by the maximal runs left to right;
- `split`, by its round trips with `join`;
- the greeting test, by an independent description of the matched text, in
  both directions;
- the cleaning replacements, by step lemmas at each kind of position and by
  the lemmas that fix `Collapse` on every text.

JavaScript semantics are spelled out where they matter:

- `\s` is the full ECMAScript white-space and line-terminator set.
- `.` refuses `\n`, `\r`, U+2028 and U+2029.
- The character class `[0-9(?:\-\-\-)]` is the set 0-9 `(` `?` `:` `-` `)`.
- `^` in multiline mode matches after any line terminator.
- `parseInt` yields an integer or NaN (`JsNumber.JsInt`).

Modules:

| module | file | models |
|---|---|---|
| `Wrappers` | wrappers.dfy | `undefined` as `Option`, a thrown error as `Result` |
| `JsRegex` | js_regex.dfy | character classes, `matchAll` over one class, first capture, lazy slice, `includes`, `split`/`join` |
| `JsNumber` | js_number.dfy | `parseInt`, decimal numerals |
| `BirdTypes` | bird_types.dfy | the records of `src/types.ts` |
| `ProtocolParser` | protocol_parser.dfy | `src/protocolParser.ts` |
| `BirdClient` | bird.dfy | class `Bird` of `src/index.ts` |

The model reproduces the source as written in three places where its
behaviour may surprise a caller. Each has a lemma:

- The greeting test `BIRD [0-9]+\.[0-9]+ ready.` admits only two-number
  versions. A three-number greeting such as `BIRD 2.0.8 ready.` is not accepted,
  whatever text without a `B` surrounds it
  (`BirdClient.ThreePartVersionRejected`). That includes the daemon's real first
  chunk `0001 BIRD 2.0.8 ready.\n` (`BirdClient.DaemonGreetingRejected`).
- `connect` sets the connected flag even after it rejects, because the
  rejection is not followed by a return. A command sent after a refused
  greeting is still written and answered (`BirdClient.SendAfterConnect`).
- Reply cleaning deletes every four-digit run, not only the reply codes at line
  starts. `2024-01-31` becomes `01-31` (`BirdClient.StripDate`). A five-digit
  AS number loses all but its last digit anywhere in a line
  (`BirdClient.StripFiveDigitsInLine`), so `Neighbor AS: 65001` becomes
  `Neighbor AS: 1` (`BirdClient.AsNumberExample`).

## Model

| member | source | states |
|---|---|---|
| `JsRegex.Tokens` | src/protocolParser.ts:15 | each match of `matchAll(/([0-9]+)/g)`-style scanning is a nonempty run of the class |
| `JsRegex.TokensCoverClass` | src/protocolParser.ts:15 | the matches, concatenated, are exactly the class characters of the text in order: no class character is skipped |
| `JsRegex.TokensHead` | src/protocolParser.ts:15 | a maximal run at the head of the text is the first match, and scanning resumes after it |
| `JsRegex.TokensSplit` | src/protocolParser.ts:28 | a separator with no class character splits the match list into the matches before and after it |
| `JsRegex.TokensOfJoin` | src/protocolParser.ts:28 | class runs joined by such a separator are matched back one by one |
| `JsRegex.TokensEmpty` | src/protocolParser.ts:14-16 | a text without class characters has no matches |
| `JsRegex.Split` | src/protocolParser.ts:58 | `split` gives at least one piece and no piece holds the separator |
| `JsRegex.JoinSplit` | src/protocolParser.ts:58 | joining the pieces of `split` with the separator gives back the text |
| `JsRegex.SplitJoin` | src/protocolParser.ts:110 | splitting pieces free of the separator, joined by it, gives back the pieces |
| `JsRegex.FirstLine` | src/protocolParser.ts:42 | `text.split("\n")[0]` is the prefix before the first newline, or the whole text |
| `JsRegex.Includes` | src/protocolParser.ts:92 | `includes` holds iff the needle occurs at some position |
| `JsRegex.CaptureAfter` | src/protocolParser.ts:43-49 | `match(/key(cls+)/)?.at(1)` is absent iff no occurrence of the key is followed by a class character, else the maximal run after the first such occurrence |
| `JsRegex.CaptureAfterIsTheCapture` | src/protocolParser.ts:50-56 | that description fixes the capture: any value meeting it is the one computed |
| `JsRegex.FirstSlice` | src/protocolParser.ts:125 | `start(.\|\n)+?(?=stop)` yields the text from the first position that starts a match to the first `stop` after at least one character, and is absent iff no position starts a match |
| `JsRegex.FirstSliceIsTheSlice` | src/protocolParser.ts:128 | that description fixes the slice |
| `JsNumber.ParseInt` | src/protocolParser.ts:29 | `parseInt` of a token without digits is NaN |
| `JsNumber.ParseIntDigits` | src/protocolParser.ts:15 | `parseInt` reads a digit run up to the first non-digit |
| `JsNumber.ParseIntNegative` | src/protocolParser.ts:29 | a leading `-` negates the digits that follow |
| `JsNumber.ParseIntDecimalText` | src/protocolParser.ts:15 | `parseInt` reads back the decimal numeral of any count |
| `ProtocolParser.RoutesParser` | src/protocolParser.ts:11-22 | an absent text gives no counts; the counts are filled in order (preferred only with exported, exported only with imported) |
| `ProtocolParser.RoutesAbsentWithoutDigits` | src/protocolParser.ts:14-16 | a text without digits, the empty text included, leaves all three counts absent |
| `ProtocolParser.RoutesImportedIsFirstRun` | src/protocolParser.ts:14-18 | `imported` is the value of the first maximal digit run wherever it stands |
| `ProtocolParser.RoutesIgnoreLaterRuns` | src/protocolParser.ts:17-21 | digit runs after the third do not change the result |
| `ProtocolParser.RoutesRoundTrip` | src/protocolParser.ts:14-21 | the line `I imported, E exported, P preferred` is read back as the counts I, E, P |
| `ProtocolParser.RouteChangeStatsParser` | src/protocolParser.ts:24-39 | an absent text gives five absent fields; with fewer than five tokens the trailing fields are absent |
| `ProtocolParser.StatValueOfText` | src/protocolParser.ts:29 | `---` is read as absent and a printed count as that integer |
| `ProtocolParser.StatsRoundTrip` | src/protocolParser.ts:27-38 | up to five space-separated statistics are read back positionally, the fields after them absent |
| `ProtocolParser.StatsExample` | src/protocolParser.ts:27-38 | `10 2 --- 0 8` gives 10, 2, absent, 0, 8 |
| `ProtocolParser.ChannelParser` | src/protocolParser.ts:41-81 | `channel` is the text before the first newline; each token field is the first capture of its label; routes, the four statistics lines and the next-hop list are parsed from the first capture of the rest of their labelled lines |
| `ProtocolParser.ChannelMissingLabels` | src/protocolParser.ts:51-66 | a missing statistics label leaves its record with all five fields absent, and a missing `BGP Next hop: ` leaves the list absent |
| `ProtocolParser.ChannelNextHopIsLine` | src/protocolParser.ts:55-58 | the next-hop list joined by spaces is the rest of its line |
| `ProtocolParser.CapabilitiesParser` | src/protocolParser.ts:83-106 | each flag holds iff its exact label occurs; `afAnnounced` is the capture split on spaces, empty iff the label has no capture; `ipv6NextHop` holds at most the one captured token |
| `ProtocolParser.TimerParser` | src/protocolParser.ts:108-112 | `current` is the text before the first `/`, or the whole text when it has none; `max` is absent iff the text has no `/`, else the text from the first `/` to the next one or the end |
| `ProtocolParser.TimerRoundTrip` | src/protocolParser.ts:110 | `current/max` gives back both pieces, whatever follows a second `/` |
| `ProtocolParser.TimerExample` | src/protocolParser.ts:110 | `4/20` gives `4` and `20` |
| `ProtocolParser.Find` | src/protocolParser.ts:120-140 | each required regex picks what its description says, and has a result iff it matches |
| `ProtocolParser.FindIsThePick` | src/protocolParser.ts:120-140 | the description of a required regex's result fixes that result |
| `ProtocolParser.FirstUnmatched` | src/protocolParser.ts:120-140 | gives the first pattern, in evaluation order, that does not match, or nothing when all match |
| `ProtocolParser.ReadBgp` | src/protocolParser.ts:119-155 | when all patterns match, each field of the session record is its regex's result, converted as the source does |
| `ProtocolParser.BgpParser` | src/protocolParser.ts:114-156 | an absent body gives nothing; otherwise it succeeds iff all eleven patterns match, the error names the first that does not, and a success holds the fields `ReadBgp` describes |
| `ProtocolParser.PassiveBgpParser` | src/protocolParser.ts:158-174 | the same for the three patterns of a passive session |
| `ProtocolParser.UnmatchedWithoutKey` | src/protocolParser.ts:120-140 | a regex whose label text does not occur cannot match |
| `ProtocolParser.BgpNeedsEveryKey` | src/protocolParser.ts:120-140 | an active body without any one required label fails |
| `ProtocolParser.PassiveBgpNeedsEveryKey` | src/protocolParser.ts:164-166 | a passive body without any one required label fails |
| `BirdClient.SocketPathOf` | src/index.ts:16-20 | a given path is kept, even an empty one; a missing one falls back to `/run/bird/bird.ctl` |
| `BirdClient.Bird.constructor` | src/index.ts:15-22 | the client starts with that path, not connected, having written nothing |
| `BirdClient.Greets` | src/index.ts:29 | the greeting test holds iff the regex matches at some position |
| `BirdClient.GreetingAccepted` | src/index.ts:29 | `BIRD `, digits, `.`, digits, ` ready` and one non-terminator character, anywhere in the data, is accepted |
| `BirdClient.GreetingAtShape` | src/index.ts:29 | every accepted data chunk contains such a text |
| `BirdClient.GreetsIsGreeting` | src/index.ts:29 | the test accepts exactly the data that contains a greeting |
| `BirdClient.ThreePartVersionRejected` | src/index.ts:29 | the greeting of a three-number version, such as `BIRD 2.0.8 ready.`, is not accepted, for every choice of the three numerals and any surrounding text without a `B` |
| `BirdClient.DaemonGreetingRejected` | src/index.ts:28-29 | the chunk `0001 BIRD 2.0.8 ready.\n` that a BIRD 2 daemon sends first is not accepted |
| `BirdClient.Bird.Connect` | src/index.ts:24-36 | resolves with true iff the data holds a greeting, else rejects with `Failed to connect to bird socket`; in both cases the client is then connected |
| `BirdClient.Bird.SendCommand` | src/index.ts:38-56 | not connected: rejects with `Socket is not connected` and writes nothing; connected: writes the command and resolves with the cleaned reply |
| `BirdClient.SendBeforeConnect` | src/index.ts:39-41 | a fresh client refuses a command and writes nothing |
| `BirdClient.SendAfterConnect` | src/index.ts:29-33 | after `connect`, a command is written and answered whether or not the greeting was accepted |
| `BirdClient.Strip` | src/index.ts:48 | the first replacement never lengthens the text |
| `BirdClient.StripKeepsText` | src/index.ts:48 | the first replacement deletes only digits, `-` and white space; every other character survives in order |
| `BirdClient.StripReplyCode` | src/index.ts:48 | a four-digit code with its `-` or white-space separator is deleted |
| `BirdClient.StripFourDigits` | src/index.ts:48 | four digits are deleted wherever they stand, even without a separator |
| `BirdClient.StripFiveDigitNumber` | src/index.ts:48 | a five-digit number keeps only its last digit |
| `BirdClient.StripKeep` | src/index.ts:48 | a character that starts no reply code and is not line-start indentation is kept, and the scan goes on after it |
| `BirdClient.StripKeepsWords` | src/index.ts:48 | text of one line without digits is kept as it is, whatever follows it |
| `BirdClient.StripNumberInLine` | src/index.ts:48 | four digits are deleted after any such text, anywhere in a line |
| `BirdClient.StripFiveDigitsInLine` | src/index.ts:48 | a five-digit number after such text keeps only its last digit |
| `BirdClient.AsNumberExample` | src/index.ts:48 | `Neighbor AS: 65001` becomes `Neighbor AS: 1` |
| `BirdClient.StripLineIndent` | src/index.ts:48 | white space at a line start is deleted up to the first other character |
| `BirdClient.StripPlain` | src/index.ts:48 | text without four digits in a row and without indented lines is unchanged |
| `BirdClient.StripDate` | src/index.ts:48 | a `YYYY-MM-DD` date loses its year |
| `BirdClient.Collapse` | src/index.ts:49 | the second replacement leaves no two spaces in a row, never lengthens the text, and keeps a leading space (`CollapseRun` says which space stays) |
| `BirdClient.CollapseIdentity` | src/index.ts:49 | text without a double space is unchanged |
| `BirdClient.CollapseIdempotent` | src/index.ts:49 | collapsing twice is collapsing once |
| `BirdClient.CollapseRun` | src/index.ts:49 | two spaces collapse exactly as one does, so a run of spaces leaves exactly one space; with `CollapseIdentity` this fixes the result on every text |
| `BirdClient.CollapseKeepsText` | src/index.ts:49 | only spaces are deleted |
| `BirdClient.CleanResponse` | src/index.ts:46-49 | the cleaned reply is no longer than the chunk, has no double space, and keeps every character other than digits, `-` and white space, in order |
| `BirdClient.CleanPlain` | src/index.ts:46-49 | a reply without four digits in a row, indented lines or double spaces comes back unchanged |
| `BirdClient.CleanTwoLines` | src/index.ts:46-49 | a two-line reply `CCCC-text\nCCCC text` loses both reply codes and keeps both texts, e.g. `1002-a\n1000 b` gives `a\nb` |

## Left out

- Socket I/O and promises (src/index.ts:21, 25, 28, 43-44, 54) are not modelled. The daemon's first chunk is the `greeting` parameter of `Connect`, and the next chunk is the `reply` parameter of `SendCommand`. The write is recorded in the `written` field. A settled promise is the `Settled` value a method returns.
- Reading a reply that spans several chunks is not modelled, because `sendCommand` resolves on the next single chunk.
- `Bird.Connect`: after the rejection the source also calls `resolve(true)`, which has no effect on a settled promise. The model returns only the rejection.
- `parseFloat` in `protocolBgpTimerParser` (src/protocolParser.ts:110) is not modelled. `BgpTimer` keeps the two numeral texts, because floating point is not modelled.
- The `text === undefined` branch of `protocolBgpTimerParser` (src/protocolParser.ts:109) is not modelled, because every caller passes a matched string.
- `parseInt` is modelled on decimal tokens only:
  - the `0x` prefix is not modelled, because the tokens of these parsers hold no `x`;
  - the result `-0` is not modelled;
  - the limits of JavaScript number precision are not modelled.
- A failed match dereferenced with `!` throws a `TypeError` in the source. The model returns `ParseError` naming the pattern instead, without the message text.
- JavaScript strings are UTF-16. The model takes one character per code point. No character class here contains an astral character, so every match covers the same characters; only counts of UTF-16 units would differ.
- The record declarations of src/types.ts are followed for shape only:
  - route counts are `Option`, because the parser leaves a missing run `undefined`;
  - the session fields that the types mark optional (src/types.ts:99-106) are plain values, because the parser throws rather than leave them out.
- The parsing of `show protocols` summary lines into `Protocol` records, and the choice between an active and a passive session, are not modelled. Neither is in these source files, so `Protocol`, `ProtocolAll` and `BgpSession` are data only.
