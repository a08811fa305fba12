# Team generator — verified model

The application is a single page on which a user types player names (one
per line) and a number of teams, then clicks "Generate Teams". The click
handler `generateTeams` parses the two fields, runs three ordered checks,
shuffles the players and deals them round-robin into the requested number
of teams. It then either shows an error and keeps the old teams, or clears
the error and shows the new teams. This project models that handler in
Dafny and proves what it guarantees.

Modules, following the handler's steps:

- `Wrappers`: `Option` (for `NaN` / `null`) and `Result`.
- `JsText`: the JavaScript white-space set, `trim`, and `split` on `"\n"`.
  `Join` is its inverse.
- `JsParseInt`: `parseInt(numTeams)` with no radix argument. It skips
  leading white space, reads an optional sign, switches to radix 16 after
  `0x`/`0X`, and reads the longest digit run. An empty run gives `NaN`
  (`None`). So `"2.5"` reads as 2, `"1e3"` as 1 and `""` as `NaN`.
- `Players`: the player list. The text is split on `"\n"` and lines that
  trim to `""` are dropped. Kept lines are not trimmed, so a trailing `"\r"`
  or surrounding spaces stay part of the name.
- `Validation`: the three checks in source order (invalid team count, no
  players, fewer players than teams), plus the message for each.
- `RoundRobin`: `teamCount` empty teams, then shuffled player `i` is pushed
  onto team `i % teamCount`. This is modelled as a left fold, `Distribute`.
  `DistributeShape` proves the teams satisfy `IsRoundRobin` (every team's
  size and every player's position), and `RoundRobinUnique` shows that
  `IsRoundRobin` determines the teams completely.
- `TeamGenerator`: the page state (`teams`, `error`) and `Generate`, one
  click of the button.

The random shuffle is an input. `Generate` takes the shuffled order as a
parameter, and its only requirement is that this order is a rearrangement
of the parsed players (equal multisets). Every property below therefore
holds for whatever order the random sort produces.

Two consequences of the code are worth stating directly:

- Names are not trimmed. `trim()` (src/app/page.tsx:22) only decides whether
  a line is kept; the kept line is the raw text between two `"\n"`s.
- The team count is whatever `parseInt` reads (src/app/page.tsx:19). The
  count field is a number input (src/app/page.tsx:75), so the handler sees
  either `""` or a floating-point numeral: `""` gives `NaN`, `"2.5"` gives
  2, `"1e3"` gives 1 and `"-3"` gives -3. `JsParseInt.ParseInt` models
  `parseInt` in full and so also covers text the page cannot deliver, such
  as `"3abc"`, `" 2"` or `"0x3"`.

## Model

| member | source | states |
|---|---|---|
| JsText.IsWhiteSpace | src/app/page.tsx:22 | the white-space and line-terminator characters `trim()` and `parseInt` skip; each is a single UTF-16 code unit |
| JsText.TrimStart | src/app/page.tsx:22 | the result is the suffix of the line that starts at its first non-white-space character; everything dropped is white space |
| JsText.TrimEnd | src/app/page.tsx:22 | the result is the prefix of the line that ends at its last non-white-space character; everything dropped is white space |
| JsText.Trim | src/app/page.tsx:22 | `trim()` returns a slice of the line whose first and last characters are not white space, with only white space cut off on either side |
| JsText.TrimEmptyIffAllWhiteSpace | src/app/page.tsx:22 | `trim()` gives `""` exactly when the line is all white space |
| JsText.Split | src/app/page.tsx:21 | splitting on `"\n"` gives at least one piece, and no piece contains a `"\n"` |
| JsText.SplitCount | src/app/page.tsx:21 | there is exactly one more piece than there are `"\n"`s in the text |
| JsText.JoinSplit | src/app/page.tsx:21 | joining the pieces back with `"\n"` restores the text exactly, so split loses nothing |
| JsText.SplitJoin | src/app/page.tsx:21 | splitting a `"\n"`-join of `"\n"`-free lines gives those lines back |
| JsText.SplitAllWhiteSpace | src/app/page.tsx:20-22 | text is all white space exactly when every one of its lines is |
| JsParseInt.DigitPrefix | src/app/page.tsx:19 | the digit run `parseInt` reads is the longest prefix made of radix digits |
| JsParseInt.ParseSigned | src/app/page.tsx:19 | once leading white space is gone, the number read is negative only when the text starts with a minus sign |
| JsParseInt.ParseInt | src/app/page.tsx:19 | `parseInt(numTeams)` is negative only after a leading minus sign, and is a number whenever the text starts with a digit 1-9 |
| JsParseInt.ParseIntDecimal | src/app/page.tsx:19 | the decimal form of any natural number parses back to that number, even with non-digit text after it (such as `"3abc"` or `"2.5"`) |
| JsParseInt.ParseIntMinus | src/app/page.tsx:19 | a minus sign negates whatever magnitude follows it, and leaves `NaN` as `NaN` |
| JsParseInt.ParseIntNegative | src/app/page.tsx:19 | a minus sign before a decimal number negates it, whatever non-digit text follows, so `"-3"`, `"-2.5"` and `"-1e3"` read as -3, -2 and -1 and fail the count check |
| JsParseInt.ParseIntAfterMinus | src/app/page.tsx:19-27 | after a leading minus sign the result is `NaN` or at most 0, so every such count is reported as invalid |
| JsParseInt.ParseIntLeadingZeros | src/app/page.tsx:19 | leading zeros change neither the value nor the radix: `"02"` and `"002.5"` read as 2 |
| JsParseInt.ParseIntNonDigitStart | src/app/page.tsx:19 | text starting with a character that is not white space, a sign or a digit, such as `".5"` or `"e3"`, is `NaN` |
| JsParseInt.ParseIntSkipsWhiteSpace | src/app/page.tsx:19 | leading white space never changes what `parseInt` reads |
| JsParseInt.ParseIntWithoutDigits | src/app/page.tsx:19 | text with no decimal digit at all (`""`, `"abc"`) is `NaN` |
| JsParseInt.ParseIntHex | src/app/page.tsx:19 | `"0x1A"` reads as 26: the `0x` prefix switches to radix 16 |
| JsParseInt.ParseIntNegativeHex | src/app/page.tsx:19 | the sign comes before the `0X` prefix: `"-0X10"` reads as -16 |
| JsParseInt.ParseIntBarePrefix | src/app/page.tsx:19 | `"0x"` with no digits after it is `NaN` |
| Players.IsNameIffTrimNonEmpty | src/app/page.tsx:22 | a line is kept (it has a visible character) exactly when `line.trim() !== ""` |
| Players.KeepNames | src/app/page.tsx:22 | the filter keeps only names, never returns more lines than it got, and returns the input unchanged when every line is a name |
| Players.KeepNamesSubMultiset | src/app/page.tsx:22 | the filter never adds or repeats a line: its result is a sub-multiset of its input |
| Players.KeepNamesConcat | src/app/page.tsx:22 | filtering works line by line: it distributes over concatenation |
| Players.KeepNamesSingle | src/app/page.tsx:22 | a single line survives exactly when it is a name |
| Players.KeepNamesEmpty | src/app/page.tsx:22 | the filter returns nothing exactly when every line is blank |
| Players.ParsePlayersOfLines | src/app/page.tsx:20-22 | the players of text typed as lines are exactly the non-blank lines, in order |
| Players.ParsePlayersKeepsLineAsIs | src/app/page.tsx:20-22 | a non-blank line appears among the players untrimmed and in place, between the players before it and the players after it |
| Players.ParsePlayers | src/app/page.tsx:20-22 | every player is a line with a visible character, and there are at most as many players as lines; `ParsePlayersOfLines` and `ParsePlayersKeepsLineAsIs` give the exact list |
| Players.NoPlayersIffBlankText | src/app/page.tsx:20-32 | there are no players exactly when the text area is all white space (including empty) |
| Validation.Validate | src/app/page.tsx:24-39 | the invalid-count error is returned exactly when the count is `NaN` or at most 0; no-players exactly when the count is valid and the list is empty; insufficient-players exactly when both pass and there are fewer players than teams; success exactly when 1 <= count <= number of players |
| Validation.Message | src/app/page.tsx:25-37 | each error kind maps to the text the handler shows for it, always a full sentence ending in a full stop |
| Validation.MessagesDistinct | src/app/page.tsx:25-37 | the three error messages are pairwise different |
| RoundRobin.Distribute | src/app/page.tsx:44-48 | dealing always yields exactly `k` teams, one per empty array created at the start |
| RoundRobin.DistributeSize | src/app/page.tsx:44-48 | team `j` of `n` shuffled players has `n / k` players, plus one if `j < n % k` |
| RoundRobin.DistributeAt | src/app/page.tsx:46-48 | shuffled player `i` ends up at position `i / k` of team `i % k` |
| RoundRobin.PushKeepsPlacement | src/app/page.tsx:47 | pushing the next player onto team `index % k` keeps every earlier player in place and puts the new one at position `index / k` |
| RoundRobin.DistributeSizes | src/app/page.tsx:44-48 | every one of the `k` teams has its round-robin size, `n / k` plus one for the first `n % k` teams |
| RoundRobin.DistributePlacement | src/app/page.tsx:46-48 | every shuffled player sits at position `i / k` of team `i % k` |
| RoundRobin.DistributeShape | src/app/page.tsx:44-48 | the teams satisfy the round-robin sizes and placements together |
| RoundRobin.DistributeKeepsEveryPlayer | src/app/page.tsx:43-48 | all teams together hold the same multiset of names as the shuffled list: none lost, none duplicated, duplicates kept |
| RoundRobin.DistributeTeamContents | src/app/page.tsx:46-48 | position `m` of team `j` holds shuffled player `j + m * k`, so each team keeps the shuffled order |
| RoundRobin.DistributeBalanced | src/app/page.tsx:44-48 | team sizes differ by at most one, earlier teams are never smaller, and no team is empty when there are at least as many players as teams |
| RoundRobin.TeamSlot | src/app/page.tsx:46-48 | in any teams with the round-robin sizes and placements, each position is filled by the shuffled index congruent to its team |
| RoundRobin.RoundRobinUnique | src/app/page.tsx:44-48 | the sizes and placements stated for `Distribute` determine the teams: any teams satisfying them equal `Distribute`'s |
| TeamGenerator.Check | src/app/page.tsx:19-39 | the checks pass exactly when `parseInt` reads a count between 1 and the number of players, and then yield that count; the invalid-count error comes exactly when the count is `NaN` or at most 0 |
| TeamGenerator.Generate | src/app/page.tsx:18-51 | on a validation error, teams are unchanged and the error is set to the first failing check; on success, the error is cleared and there are exactly `count` non-empty teams, sized as for `Distribute`, together holding exactly the parsed players |
| TeamGenerator.InvalidCountReportedFirst | src/app/page.tsx:24-27 | a `NaN` or non-positive count is reported whatever the player text, even empty |
| TeamGenerator.BlankTextReportsNoPlayers | src/app/page.tsx:29-32 | with a valid count, white-space-only player text reports no players |
| TeamGenerator.GenerateSucceedsIff | src/app/page.tsx:24-41 | the error is cleared exactly when 1 <= count <= number of players; otherwise the previous teams stay |
| TeamGenerator.FirstClickWithoutCount | src/app/page.tsx:13-27 | clicking on a fresh page while the count field holds no digit (it starts as `""`) shows the invalid-count error and still no teams |
| TeamGenerator.FiveIntoTwo | src/app/page.tsx:43-50 | names `A` to `E` in shuffled order into 2 teams give `[A, C, E]` and `[B, D]` |
| TeamGenerator.OneNameTwoTeams | src/app/page.tsx:34-39 | one name and two teams reports insufficient players and keeps the previous teams |
| TeamGenerator.ScenarioInputs | src/app/page.tsx:19-22 | `"2"` reads as 2, and the names typed one per line parse back to those names |

## Left out

- React state hooks, JSX and the UI components (src/app/page.tsx:1-16, 53-112) are presentation only. The page state is the `Session` record (`teams`, `error`) and the two input fields are parameters.
- `Math.random` and the comparator-based `sort` (src/app/page.tsx:43) cannot be modelled. The shuffled order is a parameter that must be a rearrangement of the parsed players. Whether the shuffle is biased is out of scope.
- JsParseInt.ParseInt: keeps the exact integer instead of rounding to the nearest double (or `Infinity`). Rounding is monotone and every player count is exactly representable, so each comparison in the checks comes out the same. `-0` is read as 0, which fails the same `<= 0` check.
- `Array.from` with a length of 2^32 or more throws (src/app/page.tsx:44). That cannot happen here, because the count never exceeds the number of players.
- JavaScript strings are UTF-16 code units; the model uses Unicode scalar values. All white-space characters and `"\n"` are single code units in the Basic Multilingual Plane, so splitting, trimming and digit reading agree.
- The error is stored as an error kind rather than as its message string. `Validation.Message` gives the exact text for each kind.
