# Queue-Bot command-argument parsing, modelled in Dafny

This project models the argument-parsing helpers that Queue-Bot's chat
commands share (`src/utilities/ParsingUtils.ts`):

- reading the amount at the end of a command (`!n #general 2` pulls 2);
- resolving which queue channel a command names, either by a channel
  mention or by the longest leading run of words that is a channel's name;
- choosing among the guild's stored queue channels, filtered by kind;
- composing the reply sent when no channel matches.

Files:

- `wrappers.dfy` holds `Option`, which stands in for JavaScript's `null`/`undefined` results.
- `text.dfy` holds the JavaScript string primitives the helpers rely on, with their algebra: `split(" ")` and `join`, the last token, ASCII case folding and substring search.
- `numerals.dfy` holds the unary `+` on a token, restricted to decimal integer literals, and the decimal numeral of a natural number.
- `parsing.dfy` holds the four helpers.
  - `GetTailingNumberFromString` is a function.
  - `ExtractChannel` is a method with the source's count-down loop and early `break`. It is proved equal to the function `ResolveChannel`.
  - `ReportChannelNotFound` is a method that builds the reply piece by piece. It is proved equal to the function `NotFoundMessage`.
  - `FetchChannel` is a method that calls those two.

Inputs the source takes from Discord or the database become parameters:

- the id of the first channel mentioned in the message (`Option<string>`);
- the stored queue channels (`seq<Channel>`);
- the configured queue command name `queueCmd`.

A channel is the datatype `Channel(id, name, channelType)`. `ParsedArguments` and `QueueGuild` (only its `prefix`) copy the shapes in `src/utilities/Interfaces.ts`. The optional `type` argument is a string, with `""` standing for "not given": the source only ever tests it for truthiness. The optional `includeMention` is a `bool`, with `undefined` read as `false`.

`getTailingNumberFromString` returns a number or `null`, and it can also schedule an error reply. Its result is the datatype `TailingNumber`:

- `Absent` is `null`;
- `NotPositive` is `null` with the "`amount` must be a postive number!" reply requested;
- `Amount(n)` is the number `n`.

`fetchChannel` returns a channel or `null`, and it may send a reply. Its model returns both: the channel (`Option<Channel>`) and the text of the reply it would send (`Option<string>`).

One observation that is not a defect: `fetchChannel` returns the only available channel itself. So it never calls `reportChannelNotFound` with exactly one candidate. The one-candidate wording of that reply can only be reached by other callers.

## Model

| member | source | states |
|---|---|---|
| Text.Split | src/utilities/ParsingUtils.ts:16 | `split(" ")` always yields at least one piece, so the last piece always exists |
| Text.SplitCount | src/utilities/ParsingUtils.ts:43 | `split(" ")` yields exactly one more piece than the text has spaces, so the loop tries at most that many candidates |
| Text.JoinLength | src/utilities/ParsingUtils.ts:48 | the joined text is as long as all its elements plus one separator between each two |
| Text.JoinEndsWithLast | src/utilities/ParsingUtils.ts:48 | the joined text ends with the last element |
| Text.LastToken | src/utilities/ParsingUtils.ts:16 | the last piece of `split(" ")` holds no space |
| Text.JoinSplit | src/utilities/ParsingUtils.ts:43-48 | joining the pieces of `split(" ")` with a space gives back the argument text, so the longest candidate is the whole argument |
| Text.SplitJoin | src/utilities/ParsingUtils.ts:43-48 | splitting words that hold no space, after joining them with spaces, gives back the same words |
| Text.SplitAtSpace | src/utilities/ParsingUtils.ts:16 | splitting `a + " " + b` gives the pieces of `a` followed by the pieces of `b` |
| Text.SplitPiecesHaveNoSpace | src/utilities/ParsingUtils.ts:43 | no piece of `split(" ")` contains a space |
| Text.LastTokenAfterSpace | src/utilities/ParsingUtils.ts:16 | the last token of `a + " " + b` is the last token of `b`, whatever `a` is |
| Text.LastTokenShape | src/utilities/ParsingUtils.ts:16 | the last token is an end of the text and holds no space, and a text without spaces is its own last token |
| Text.SameIgnoringCase | src/utilities/ParsingUtils.ts:53-55 | two names are equal up to case exactly when they have the same length and agree letter by letter once folded; equal names are equal up to case |
| Text.JoinContainsEach | src/utilities/ParsingUtils.ts:98 | every element of an array occurs in the text of the joined array |
| Numerals.Decimal | src/utilities/ParsingUtils.ts:19 | the decimal numeral of n is a non-empty run of digits, and it starts with '0' only for n = 0 |
| Numerals.DecimalRoundTrip | src/utilities/ParsingUtils.ts:19 | reading the digits of n's numeral gives back n |
| Numerals.ToNumberShape | src/utilities/ParsingUtils.ts:19-20 | a non-empty token that `+` reads as a number starts with a digit or a sign, has only digits after that, and ends in a digit; a negative number needs a leading '-' |
| Numerals.ToNumberSigned | src/utilities/ParsingUtils.ts:19 | `+` reads any run of digits, leading zeros included, after no sign, '+' or '-' as its value, negated after '-' |
| Numerals.ToNumberDecimal | src/utilities/ParsingUtils.ts:19 | unary `+` reads n's numeral as n, with a '+' sign as n, and with a '-' sign as -n |
| Numerals.NonNumeralIsNaN | src/utilities/ParsingUtils.ts:19-21 | a token holding a character that is neither a digit nor a leading sign is NaN |
| Numerals.LoneSignIsNaN | src/utilities/ParsingUtils.ts:19-21 | a lone '+' or '-' is NaN |
| ParsingUtils.GetTailingNumberFromString | src/utilities/ParsingUtils.ts:14-28 | an amount it returns is at least 1 and is the value of the last token; an empty last token gives null |
| ParsingUtils.TailingNumberUsesLastToken | src/utilities/ParsingUtils.ts:16 | text before the final space never changes the result |
| ParsingUtils.TailingNumberEmptyToken | src/utilities/ParsingUtils.ts:16-17 | an empty argument, or one ending in a space, gives null and no reply |
| ParsingUtils.TailingNumberRoundTrip | src/utilities/ParsingUtils.ts:19-27 | a positive numeral at the end, after any text, is returned as its value |
| ParsingUtils.TailingNumberNotPositive | src/utilities/ParsingUtils.ts:22-24 | a final "0" or "-n", alone or after other text, gives null and requests the "must be a positive number" reply |
| ParsingUtils.TailingNumberOfNumeral | src/utilities/ParsingUtils.ts:14-28 | for every final token made of no sign, '+' or '-' and a run of digits: without '-' and with value at least 1 it returns that value and asks for no reply; otherwise (a '-', or value 0 such as "00" or "+0") it returns null and asks for the reply; text before it changes nothing |
| ParsingUtils.TailingNumberNonNumeric | src/utilities/ParsingUtils.ts:19-21 | a final token that is not a numeral gives null without a reply |
| ParsingUtils.FindIndex | src/utilities/ParsingUtils.ts:41-55 | `find` picks the first element in list order, and none when no element satisfies the predicate |
| ParsingUtils.Find | src/utilities/ParsingUtils.ts:50-51 | an element `find` returns is in the array and satisfies the predicate |
| ParsingUtils.FindById | src/utilities/ParsingUtils.ts:41 | a channel found by mention is available and has the mentioned id; with no such channel, no available channel has that id |
| ParsingUtils.MatchName | src/utilities/ParsingUtils.ts:49-56 | a channel a candidate name selects is available and its name equals the candidate up to case |
| ParsingUtils.MatchNamePreference | src/utilities/ParsingUtils.ts:50-55 | the first exact name match wins; with no exact match, the first match up to case wins; there is no result exactly when no name matches up to case |
| ParsingUtils.LongestPrefixMatch | src/utilities/ParsingUtils.ts:44-57 | a channel the longest-first search returns is available |
| ParsingUtils.LongestPrefixMatchIsLongest | src/utilities/ParsingUtils.ts:44-57 | the longest-first search returns the match of some candidate of k words such that no longer candidate matches, and none exactly when no candidate matches |
| ParsingUtils.LongestMatchExtend | src/utilities/ParsingUtils.ts:44-57 | a longer candidate that matches nothing leaves the longest match of the shorter candidates unchanged |
| ParsingUtils.LongestMatchUnique | src/utilities/ParsingUtils.ts:44-57 | the longest-match description determines a single result |
| ParsingUtils.ResolveChannel | src/utilities/ParsingUtils.ts:41-59 | an available mentioned channel wins whatever the text; with no mention match and empty arguments the result is none; any result is an available channel |
| ParsingUtils.ResolveChannelIsLongestMatch | src/utilities/ParsingUtils.ts:41-59 | with no mention match and non-empty arguments, the result is the longest match over the candidates built from the argument words |
| ParsingUtils.WholeArgumentNameWins | src/utilities/ParsingUtils.ts:43-50 | with no mention match, the first channel named exactly as the whole argument text is chosen |
| ParsingUtils.ExtractChannel | src/utilities/ParsingUtils.ts:36-60 | the count-down loop with its early break returns exactly `ResolveChannel` |
| ParsingUtils.NotFoundWithoutCandidates | src/utilities/ParsingUtils.ts:83-87 | with zero candidates the reply starts "No " and quotes the prefix and queue command that set a queue |
| ParsingUtils.NotFoundWithCandidates | src/utilities/ParsingUtils.ts:88-95 | with candidates the reply starts "Invalid "; with one candidate it suggests that channel's name; with several it suggests the "{channel name}" placeholder |
| ParsingUtils.NotFoundListsEveryQueue | src/utilities/ParsingUtils.ts:94-99 | with several candidates that are queues, the reply lists every candidate's name |
| ParsingUtils.NotFoundListsNoChannel | src/utilities/ParsingUtils.ts:93-100 | with several candidates that are not queues, the reply is the same whichever channels they are, so it lists none |
| ParsingUtils.ReportChannelNotFound | src/utilities/ParsingUtils.ts:71-101 | the reply built by successive appends is `NotFoundMessage` |
| ParsingUtils.OfType | src/utilities/ParsingUtils.ts:131 | the filter keeps exactly the stored channels of the given type, each as often as it is stored, and no others |
| ParsingUtils.OfTypeConcat | src/utilities/ParsingUtils.ts:131 | filtering a concatenation filters each part and keeps them in order, so the filter keeps the stored order |
| ParsingUtils.OfTypeSingle | src/utilities/ParsingUtils.ts:131 | a single channel is kept exactly when it has the requested type |
| ParsingUtils.AvailableChannels | src/utilities/ParsingUtils.ts:131 | without a type every stored channel is available; with one, exactly the stored channels of that type are |
| ParsingUtils.NoStoredChannelsQuotesCommand | src/utilities/ParsingUtils.ts:143-147 | with nothing stored the reply starts "No " and quotes the prefix and queue command with the "{channel name}" placeholder |
| ParsingUtils.FetchChannel | src/utilities/ParsingUtils.ts:119-150 | with nothing stored: no channel and the "No queue channels set" reply; with one available channel: that channel, without looking at the arguments; otherwise: `ResolveChannel` over the available channels; a channel returned is stored, has the requested type and comes with no reply; no channel from a non-empty store comes with the not-found reply |

## Left out

- Discord I/O is not modelled:
  - sending the reply (`message.channel.send`);
  - deleting it after 10 seconds (`setTimeout`);
  - `MessageUtils.scheduleResponseToMessage`, which `MessageUtils.ts` implements and which is not part of this model.
  A requested reply appears only as the `NotPositive` tag or as the reply text that `FetchChannel` returns.
- `fetchChannel` does not await `reportChannelNotFound`. Its model returns the reply text, so the ordering of the send against the caller's later work is not captured.
- `QueueChannelTable.fetchStoredQueueChannels` is a database read, and `QueueChannelTable.ts` is not part of this model. The stored channels are a parameter.
- `this.config.queueCmd` comes from the bot's configuration (`Base.ts`, not part of this model). It is a parameter.
- `Numerals.ToNumber` models unary `+` only on the empty token (0) and on an optional sign followed by decimal digits. The model reads everything else as NaN, where JavaScript does not:
  - fractions (`2.5`) and exponents (`1e2`);
  - hexadecimal, binary and octal literals (`0x10`, `0b11`, `0o7`);
  - `Infinity`;
  - white space other than the space character around the digits: tabs, line breaks, U+00A0, U+FEFF and the other Unicode spaces.
  A token made only of such white space (a lone tab, say) is 0 in JavaScript. So `getTailingNumberFromString` returns null and asks for the "must be a positive number" reply there, where the model gives `Absent` without the reply.
  Because JavaScript numbers are double precision, it also rounds numerals beyond 2^53 and reads very long numerals as Infinity; the model keeps exact integers instead.
- `ParsingUtils.MatchName` compares names up to case with ASCII case folding. The source uses `localeCompare` with accent sensitivity, which relies on ICU locale data. That comparison also ignores the case of non-ASCII letters (É against é), treats canonically equivalent spellings as equal (é against e followed by a combining acute accent), and treats full-width and half-width forms as equal (Ａ against A). It also skips characters that collation ignores entirely, such as U+00AD SOFT HYPHEN, so "a\u00ADb" matches "ab" there. This model does none of these.
- `Text.SameIgnoringCase` stands for `localeCompare(..., undefined, { sensitivity: "accent" }) === 0`. With the locale `undefined` the comparison follows the host's default locale and its tailored rules, and this model does not depend on any locale.
- `message.mentions` keeps only the first mentioned channel's id. It is an input, so how Discord parses mentions is not modelled.
- The queue engine is not part of this model: admission, pull, shuffle, grace-period timers and display syncing.
