/**
 * The argument-parsing helpers of the bot's commands: the trailing amount of
 * a command, the channel a command names, the selection among the guild's
 * stored queue channels, and the text sent when no channel is found.
 */
module ParsingUtils {
  import opened Wrappers
  import opened Text
  import opened Numerals

  /** A stored queue channel: its Discord id, its display name and its kind ("voice", "text", ...). */
  datatype Channel = Channel(id: string, name: string, channelType: string)

  /** A command split into its name and the rest of its text. */
  datatype ParsedArguments = ParsedArguments(command: string, arguments: string)

  /** The guild settings the responses use. */
  datatype QueueGuild = QueueGuild(prefix: string)

  // ---------------------------------------------------------------------
  // getTailingNumberFromString

  /**
   * The outcome of reading the trailing amount: null, null after asking for
   * the "`amount` must be a positive number" response, or the amount.
   */
  datatype TailingNumber = Absent | NotPositive | Amount(value: nat)
  {
    /** The number it returns (null as None). */
    function ToOption(): Option<nat>
    {
      if Amount? then Some(value) else None
    }

    /** Whether it asks for the error response. */
    predicate RequestsResponse()
    {
      NotPositive?
    }
  }

  /** The amount at the end of a command's arguments, e.g. 2 in "#general 2". */
  function GetTailingNumberFromString(argument: string): (r: TailingNumber)
    ensures r.Amount? ==> r.value >= 1 && ToNumber(LastToken(argument)) == Some(r.value as int)
    ensures LastToken(argument) == "" ==> r == Absent
  {
    var arg := LastToken(argument);
    if arg == "" then Absent
    else
      match ToNumber(arg)
      case None => Absent
      case Some(num) => if num < 1 then NotPositive else Amount(num)
  }

  /** Only the last space-separated token matters: the text before the final space is ignored. */
  lemma TailingNumberUsesLastToken(before: string, token: string)
    ensures GetTailingNumberFromString(before + " " + token) == GetTailingNumberFromString(token)
  {
    LastTokenAfterSpace(before, token);
  }

  /** An empty argument, or one that ends in a space, has no amount. */
  lemma TailingNumberEmptyToken(before: string)
    ensures GetTailingNumberFromString("") == Absent
    ensures GetTailingNumberFromString(before + " ") == Absent
  {
    LastTokenAfterSpace(before, "");
    assert before + " " == before + " " + "";
  }

  /** A positive numeral at the end is read back as its value. */
  lemma TailingNumberRoundTrip(before: string, n: nat)
    requires n >= 1
    ensures GetTailingNumberFromString(Decimal(n)) == Amount(n)
    ensures GetTailingNumberFromString(before + " " + Decimal(n)) == Amount(n)
  {
    NoSpaceInNumeral(Decimal(n));
    SplitWithoutSpace(Decimal(n));
    ToNumberDecimal(n);
    TailingNumberUsesLastToken(before, Decimal(n));
  }

  /** Zero and negative numerals ask for the error response and yield no amount, alone or after other text. */
  lemma TailingNumberNotPositive(before: string, n: nat)
    ensures GetTailingNumberFromString("-" + Decimal(n)) == NotPositive
    ensures GetTailingNumberFromString(before + " -" + Decimal(n)) == NotPositive
    ensures GetTailingNumberFromString("0") == NotPositive
    ensures GetTailingNumberFromString(before + " 0") == NotPositive
  {
    var negative := "-" + Decimal(n);
    NoSpaceInNumeral(Decimal(n));
    assert ' ' !in negative by {
      assert forall k :: 1 <= k < |negative| ==> negative[k] == Decimal(n)[k - 1];
    }
    SplitWithoutSpace(negative);
    ToNumberDecimal(n);
    assert before + " -" + Decimal(n) == before + " " + negative;
    TailingNumberUsesLastToken(before, negative);
    assert Decimal(0) == "0";
    assert before + " 0" == before + " " + "0";
    SplitWithoutSpace("0");
    ToNumberDecimal(0);
    TailingNumberUsesLastToken(before, "0");
  }

  /**
   * A final token made of an optional sign and a run of digits: without a
   * '-' and with a value of at least 1 it is returned as that value and no
   * response is asked for; otherwise (a '-' sign, or the value 0, such as
   * "0", "+00" or "-7") nothing is returned and the response is asked for.
   * Text before a space in front of the token makes no difference.
   */
  lemma TailingNumberOfNumeral(before: string, sign: string, ds: string)
    requires sign == "" || sign == "+" || sign == "-"
    requires ds != [] && AllDigits(ds)
    ensures GetTailingNumberFromString(before + " " + sign + ds) == GetTailingNumberFromString(sign + ds)
    ensures var r := GetTailingNumberFromString(sign + ds);
            && r.ToOption() == (if sign != "-" && DigitsValue(ds) >= 1 then Some(DigitsValue(ds)) else None)
            && (r.RequestsResponse() <==> sign == "-" || DigitsValue(ds) == 0)
  {
    var token := sign + ds;
    assert ' ' !in token by {
      NoSpaceInNumeral(ds);
      assert forall k :: |sign| <= k < |token| ==> token[k] == ds[k - |sign|];
    }
    ToNumberSigned(sign, ds);
    TailingNumberOfToken(token);
    assert before + " " + sign + ds == before + " " + token;
    TailingNumberUsesLastToken(before, token);
  }

  /** A non-empty token without spaces is read whole. */
  lemma TailingNumberOfToken(token: string)
    requires token != [] && ' ' !in token
    ensures GetTailingNumberFromString(token) ==
            match ToNumber(token)
            case None => Absent
            case Some(num) => if num < 1 then NotPositive else Amount(num)
  {
    SplitWithoutSpace(token);
  }

  /** A last token that is not a numeral (a stray character, or a lone sign) yields no amount and no response. */
  lemma TailingNumberNonNumeric(before: string, token: string, k: nat)
    requires token != [] && ' ' !in token
    requires || token == "+" || token == "-"
             || (k < |token| && !IsDigit(token[k]) && (k > 0 || (token[0] != '+' && token[0] != '-')))
    ensures GetTailingNumberFromString(before + " " + token) == Absent
    ensures GetTailingNumberFromString(token) == Absent
  {
    SplitWithoutSpace(token);
    if token == "+" || token == "-" {
      LoneSignIsNaN();
    } else {
      NonNumeralIsNaN(token, k);
    }
    TailingNumberUsesLastToken(before, token);
  }

  // ---------------------------------------------------------------------
  // extractChannel

  /** The index of the first channel satisfying p (`findIndex`). */
  function FindIndex(chs: seq<Channel>, p: Channel -> bool): (r: Option<nat>)
    ensures r.Some? ==> r.value < |chs| && p(chs[r.value])
    ensures r.Some? ==> forall k :: 0 <= k < r.value ==> !p(chs[k])
    ensures r.None? ==> forall k :: 0 <= k < |chs| ==> !p(chs[k])
  {
    if chs == [] then None
    else if p(chs[0]) then Some(0)
    else
      match FindIndex(chs[1..], p)
      case None => None
      case Some(k) => Some(k + 1)
  }

  /** The first channel satisfying p (`find`). */
  function Find(chs: seq<Channel>, p: Channel -> bool): (r: Option<Channel>)
    ensures r.Some? ==> r.value in chs && p(r.value)
  {
    match FindIndex(chs, p)
    case None => None
    case Some(k) => Some(chs[k])
  }

  /**
   * The available channel with the id of the first channel mentioned in the
   * message; with no mention nothing matches.
   */
  function FindById(chs: seq<Channel>, mention: Option<string>): (r: Option<Channel>)
    ensures r.Some? ==> r.value in chs && mention == Some(r.value.id)
    ensures r.None? ==> forall k :: 0 <= k < |chs| ==> mention != Some(chs[k].id)
  {
    match mention
    case None => None
    case Some(id) => Find(chs, (ch: Channel) => ch.id == id)
  }

  /**
   * The channel one candidate name selects: the first channel named exactly
   * so, otherwise the first whose name equals it up to letter case.
   */
  function MatchName(chs: seq<Channel>, name: string): (r: Option<Channel>)
    ensures r.Some? ==> r.value in chs && SameIgnoringCase(r.value.name, name)
  {
    var exact := Find(chs, (ch: Channel) => ch.name == name);
    if exact.Some? then exact else Find(chs, (ch: Channel) => SameIgnoringCase(ch.name, name))
  }

  /**
   * Which channel a name selects: none exactly when no channel's name equals
   * it up to case; the first exact match when there is one; otherwise the
   * first match up to case.
   */
  lemma MatchNamePreference(chs: seq<Channel>, name: string)
    ensures MatchName(chs, name).None? <==> forall k :: 0 <= k < |chs| ==> !SameIgnoringCase(chs[k].name, name)
    ensures forall k ::
              (0 <= k < |chs| && chs[k].name == name && forall j :: 0 <= j < k ==> chs[j].name != name)
              ==> MatchName(chs, name) == Some(chs[k])
    ensures (forall j :: 0 <= j < |chs| ==> chs[j].name != name) ==>
              forall k ::
                (0 <= k < |chs| && SameIgnoringCase(chs[k].name, name) &&
                 forall j :: 0 <= j < k ==> !SameIgnoringCase(chs[j].name, name))
                ==> MatchName(chs, name) == Some(chs[k])
  {
  }

  /** `splitArgs.slice(0, i).join(" ")`: the first i words of the arguments. */
  function Candidate(words: seq<string>, i: nat): string
    requires i <= |words|
  {
    Join(words[..i], " ")
  }

  /** What the candidate of the first i words selects. */
  function MatchAt(chs: seq<Channel>, words: seq<string>, i: nat): Option<Channel>
    requires i <= |words|
  {
    MatchName(chs, Candidate(words, i))
  }

  /**
   * r is what matching the candidates of at most i words, longest first,
   * yields: nothing when no candidate matches, otherwise the match of a
   * candidate of k words such that no longer candidate matches.
   */
  ghost predicate IsLongestMatch(chs: seq<Channel>, words: seq<string>, i: nat, r: Option<Channel>)
    requires i <= |words|
  {
    && (r.None? <==> forall j :: 1 <= j <= i ==> MatchAt(chs, words, j).None?)
    && (r.Some? ==>
          exists k ::
            && 1 <= k <= i
            && r == MatchAt(chs, words, k)
            && forall j :: k < j <= i ==> MatchAt(chs, words, j).None?)
  }

  /** The match of the longest candidate of at most i words that matches any channel. */
  function LongestPrefixMatch(chs: seq<Channel>, words: seq<string>, i: nat): (r: Option<Channel>)
    requires i <= |words|
    ensures r.Some? ==> r.value in chs
    decreases i
  {
    if i == 0 then None
    else
      var m := MatchAt(chs, words, i);
      if m.Some? then m else LongestPrefixMatch(chs, words, i - 1)
  }

  /** The longest-first search yields the longest match. */
  lemma {:induction false} LongestPrefixMatchIsLongest(chs: seq<Channel>, words: seq<string>, i: nat)
    requires i <= |words|
    ensures IsLongestMatch(chs, words, i, LongestPrefixMatch(chs, words, i))
    decreases i
  {
    if i > 0 && MatchAt(chs, words, i).None? {
      LongestPrefixMatchIsLongest(chs, words, i - 1);
      LongestMatchExtend(chs, words, i, LongestPrefixMatch(chs, words, i - 1));
    } else if i > 0 {
      assert LongestPrefixMatch(chs, words, i) == MatchAt(chs, words, i);
    }
  }

  /** A candidate that matches nothing leaves the longest match of the shorter candidates in place. */
  lemma LongestMatchExtend(chs: seq<Channel>, words: seq<string>, i: nat, r: Option<Channel>)
    requires 1 <= i <= |words|
    requires MatchAt(chs, words, i).None?
    requires IsLongestMatch(chs, words, i - 1, r)
    ensures IsLongestMatch(chs, words, i, r)
  {
    if r.Some? {
      var k :| 1 <= k <= i - 1 && r == MatchAt(chs, words, k) &&
        forall j :: k < j <= i - 1 ==> MatchAt(chs, words, j).None?;
      forall j | k < j <= i ensures MatchAt(chs, words, j).None? {
        if j == i {
          assert MatchAt(chs, words, i).None?;
        } else {
          assert k < j <= i - 1;
        }
      }
    } else {
      forall j | 1 <= j <= i ensures MatchAt(chs, words, j).None? {
        if j == i {
          assert MatchAt(chs, words, i).None?;
        } else {
          assert 1 <= j <= i - 1;
        }
      }
    }
  }

  /** The longest-match description admits one result only. */
  lemma LongestMatchUnique(chs: seq<Channel>, words: seq<string>, i: nat, r1: Option<Channel>, r2: Option<Channel>)
    requires i <= |words|
    requires IsLongestMatch(chs, words, i, r1) && IsLongestMatch(chs, words, i, r2)
    ensures r1 == r2
  {
  }

  /**
   * The channel extractChannel resolves: the mentioned channel if it is
   * available, otherwise the longest-first name match over the argument words.
   */
  function ResolveChannel(chs: seq<Channel>, parsed: ParsedArguments, mention: Option<string>): (r: Option<Channel>)
    ensures r.Some? ==> r.value in chs
    ensures FindById(chs, mention).Some? ==> r == FindById(chs, mention)
    ensures FindById(chs, mention).None? && parsed.arguments == "" ==> r.None?
  {
    var byMention := FindById(chs, mention);
    if byMention.Some? || parsed.arguments == "" then byMention
    else
      var words := Split(parsed.arguments);
      LongestPrefixMatch(chs, words, |words|)
  }

  /** Without a mention match, the resolved channel is the longest match over the words of the arguments. */
  lemma ResolveChannelIsLongestMatch(chs: seq<Channel>, parsed: ParsedArguments, mention: Option<string>)
    requires FindById(chs, mention).None? && parsed.arguments != ""
    ensures IsLongestMatch(chs, Split(parsed.arguments), |Split(parsed.arguments)|, ResolveChannel(chs, parsed, mention))
  {
    var words := Split(parsed.arguments);
    LongestPrefixMatchIsLongest(chs, words, |words|);
  }

  /** A channel named exactly as the whole argument text is chosen when no mention matches. */
  lemma WholeArgumentNameWins(chs: seq<Channel>, parsed: ParsedArguments, mention: Option<string>, k: nat)
    requires FindById(chs, mention).None? && parsed.arguments != ""
    requires k < |chs| && chs[k].name == parsed.arguments
    requires forall j :: 0 <= j < k ==> chs[j].name != parsed.arguments
    ensures ResolveChannel(chs, parsed, mention) == Some(chs[k])
  {
    var words := Split(parsed.arguments);
    JoinSplit(parsed.arguments);
    assert words[..|words|] == words;
    assert Candidate(words, |words|) == parsed.arguments;
    MatchNamePreference(chs, parsed.arguments);
    assert MatchAt(chs, words, |words|) == Some(chs[k]);
  }

  /** extractChannel: the loop over the argument prefixes, longest first, stopping at the first hit. */
  method ExtractChannel(availableChannels: seq<Channel>, parsed: ParsedArguments, mention: Option<string>)
    returns (channel: Option<Channel>)
    ensures channel == ResolveChannel(availableChannels, parsed, mention)
  {
    channel := FindById(availableChannels, mention);
    if channel.None? && parsed.arguments != "" {
      var splitArgs := Split(parsed.arguments);
      var i := |splitArgs|;
      while i > 0
        invariant 0 <= i <= |splitArgs|
        invariant (if channel.Some? then channel else LongestPrefixMatch(availableChannels, splitArgs, i))
                  == LongestPrefixMatch(availableChannels, splitArgs, |splitArgs|)
      {
        if channel.Some? {
          break;
        }
        var channelNameToCheck := Candidate(splitArgs, i);
        channel := MatchName(availableChannels, channelNameToCheck);
        assert channel == MatchAt(availableChannels, splitArgs, i);
        i := i - 1;
      }
    }
  }

  // ---------------------------------------------------------------------
  // reportChannelNotFound

  /** `(type ? `**${type}** ` : "")`. */
  function Emphasised(kind: string): string
  {
    if kind == "" then "" else "**" + kind + "** "
  }

  function TargetWord(isAQueue: bool): string
  {
    if isAQueue then "queue" else "channel"
  }

  function MentionHint(includeMention: bool): string
  {
    if includeMention then " @{user}" else ""
  }

  /** One entry of the list of available queues. */
  function ListedName(c: Channel): string
  {
    " `" + c.name + "`"
  }

  /** `${channels.map((channel) => " `" + channel.name + "`")}`: the entries joined by commas. */
  function ListedNames(chs: seq<Channel>): string
  {
    Join(seq(|chs|, k requires 0 <= k < |chs| => ListedName(chs[k])), ",")
  }

  function NoChannelsMessage(guild: QueueGuild, isAQueue: bool, kind: string, queueCmd: string): string
  {
    var target := TargetWord(isAQueue);
    "No " + Emphasised(kind) + "queue " + target + "s set.\n" +
    "Set a " + (if kind == "" then "" else kind + " ") + "queue first using " +
    SetQueueHint(guild, isAQueue, queueCmd)
  }

  /** The command that sets a queue, as the zero-candidate text quotes it. */
  function SetQueueHint(guild: QueueGuild, isAQueue: bool, queueCmd: string): string
  {
    "`" + guild.prefix + queueCmd + " {" + TargetWord(isAQueue) + " name}`."
  }

  function InvalidNameIntro(isAQueue: bool, kind: string): string
  {
    "Invalid " + Emphasised(kind) + TargetWord(isAQueue) + " name. Try "
  }

  /** The command the invalid-name text suggests, with `what` in the place of the channel name. */
  function Suggestion(guild: QueueGuild, parsed: ParsedArguments, what: string, includeMention: bool): string
  {
    "`" + guild.prefix + parsed.command + " " + what + MentionHint(includeMention) + "`."
  }

  /** The list of available queues appended when there are several candidates. */
  function QueueList(kind: string, channels: seq<Channel>): string
  {
    "\nAvailable " + Emphasised(kind) + "queues: " + ListedNames(channels) + "."
  }

  /** The response reportChannelNotFound sends, chosen by the number of candidate channels. */
  function NotFoundMessage(guild: QueueGuild, parsed: ParsedArguments, channels: seq<Channel>,
                           includeMention: bool, isAQueue: bool, kind: string, queueCmd: string): string
  {
    if |channels| == 0 then NoChannelsMessage(guild, isAQueue, kind, queueCmd)
    else if |channels| == 1 then
      InvalidNameIntro(isAQueue, kind) + Suggestion(guild, parsed, channels[0].name, includeMention)
    else
      InvalidNameIntro(isAQueue, kind) + Suggestion(guild, parsed, "{channel name}", includeMention) +
      (if isAQueue then QueueList(kind, channels) else "")
  }

  /** With no candidates the text says none is set and names the command that sets one. */
  lemma NotFoundWithoutCandidates(guild: QueueGuild, parsed: ParsedArguments, includeMention: bool,
                                  isAQueue: bool, kind: string, queueCmd: string)
    ensures var r := NotFoundMessage(guild, parsed, [], includeMention, isAQueue, kind, queueCmd);
            StartsWith(r, "No ") && Contains(r, SetQueueHint(guild, isAQueue, queueCmd))
  {
    var r := NotFoundMessage(guild, parsed, [], includeMention, isAQueue, kind, queueCmd);
    var target := TargetWord(isAQueue);
    var front := "No " + Emphasised(kind) + "queue " + target + "s set.\n" +
                 "Set a " + (if kind == "" then "" else kind + " ") + "queue first using ";
    assert r == front + SetQueueHint(guild, isAQueue, queueCmd) + [];
    ContainsMiddle(front, SetQueueHint(guild, isAQueue, queueCmd), []);
  }

  /** With candidates the text starts "Invalid " and suggests the command: with the only candidate's name, or with a placeholder. */
  lemma NotFoundWithCandidates(guild: QueueGuild, parsed: ParsedArguments, channels: seq<Channel>,
                               includeMention: bool, isAQueue: bool, kind: string, queueCmd: string)
    requires |channels| >= 1
    ensures var r := NotFoundMessage(guild, parsed, channels, includeMention, isAQueue, kind, queueCmd);
            && StartsWith(r, "Invalid ")
            && (|channels| == 1 ==> Contains(r, Suggestion(guild, parsed, channels[0].name, includeMention)))
            && (|channels| >= 2 ==> Contains(r, Suggestion(guild, parsed, "{channel name}", includeMention)))
  {
    var r := NotFoundMessage(guild, parsed, channels, includeMention, isAQueue, kind, queueCmd);
    var intro := InvalidNameIntro(isAQueue, kind);
    if |channels| == 1 {
      ContainsMiddle(intro, Suggestion(guild, parsed, channels[0].name, includeMention), []);
      assert r == intro + Suggestion(guild, parsed, channels[0].name, includeMention) + [];
    } else {
      var tail := if isAQueue then QueueList(kind, channels) else "";
      ContainsMiddle(intro, Suggestion(guild, parsed, "{channel name}", includeMention), tail);
    }
  }

  /** With several candidate queues the text lists every one of them. */
  lemma NotFoundListsEveryQueue(guild: QueueGuild, parsed: ParsedArguments, channels: seq<Channel>,
                                includeMention: bool, kind: string, queueCmd: string, k: nat)
    requires |channels| >= 2 && k < |channels|
    ensures Contains(NotFoundMessage(guild, parsed, channels, includeMention, true, kind, queueCmd),
                     ListedName(channels[k]))
  {
    var entries := seq(|channels|, j requires 0 <= j < |channels| => ListedName(channels[j]));
    JoinContainsEach(entries, ",", k);
    ContainsWithin("\nAvailable " + Emphasised(kind) + "queues: ", ListedNames(channels), ".", entries[k]);
    var front := InvalidNameIntro(true, kind) + Suggestion(guild, parsed, "{channel name}", includeMention);
    ContainsWithin(front, QueueList(kind, channels), [], entries[k]);
    assert front + QueueList(kind, channels) + [] ==
           NotFoundMessage(guild, parsed, channels, includeMention, true, kind, queueCmd);
  }

  /** With several candidate channels that are not queues the text lists none of them. */
  lemma NotFoundListsNoChannel(guild: QueueGuild, parsed: ParsedArguments, channels: seq<Channel>, others: seq<Channel>,
                               includeMention: bool, kind: string, queueCmd: string)
    requires |channels| >= 2 && |others| >= 2
    ensures NotFoundMessage(guild, parsed, channels, includeMention, false, kind, queueCmd)
         == NotFoundMessage(guild, parsed, others, includeMention, false, kind, queueCmd)
  {
  }

  /** reportChannelNotFound: builds the response piece by piece (sending it is not modelled). */
  method ReportChannelNotFound(guild: QueueGuild, parsed: ParsedArguments, channels: seq<Channel>,
                               includeMention: bool, isAQueue: bool, kind: string, queueCmd: string)
    returns (response: string)
    ensures response == NotFoundMessage(guild, parsed, channels, includeMention, isAQueue, kind, queueCmd)
  {
    if |channels| == 0 {
      response := NoChannelsMessage(guild, isAQueue, kind, queueCmd);
    } else {
      response := InvalidNameIntro(isAQueue, kind);
      if |channels| == 1 {
        response := response + Suggestion(guild, parsed, channels[0].name, includeMention);
      } else {
        response := response + Suggestion(guild, parsed, "{channel name}", includeMention);
        if isAQueue {
          response := response + QueueList(kind, channels);
        }
      }
    }
  }

  // ---------------------------------------------------------------------
  // fetchChannel

  /** `storedChannels.filter((channel) => channel.type === type)`. */
  function OfType(stored: seq<Channel>, kind: string): (r: seq<Channel>)
    ensures |r| <= |stored|
    ensures forall c :: multiset(r)[c] == if c.channelType == kind then multiset(stored)[c] else 0
    ensures forall c :: c in r <==> c in stored && c.channelType == kind
  {
    if stored == [] then []
    else
      var rest := OfType(stored[1..], kind);
      assert stored == [stored[0]] + stored[1..];
      if stored[0].channelType == kind then [stored[0]] + rest else rest
  }

  /**
   * The filter keeps the stored order: filtering a concatenation filters
   * each part in place. With OfTypeSingle this determines the filtered list.
   */
  lemma {:induction false} OfTypeConcat(a: seq<Channel>, b: seq<Channel>, kind: string)
    ensures OfType(a + b, kind) == OfType(a, kind) + OfType(b, kind)
    decreases |a|
  {
    if a == [] {
      assert a + b == b;
    } else {
      var ab := a + b;
      assert ab[0] == a[0] && ab[1..] == a[1..] + b;
      OfTypeConcat(a[1..], b, kind);
      var head := if a[0].channelType == kind then [a[0]] else [];
      ConcatAssoc(head, OfType(a[1..], kind), OfType(b, kind));
    }
  }

  lemma ConcatAssoc<T>(h: seq<T>, x: seq<T>, y: seq<T>)
    ensures h + (x + y) == (h + x) + y
  {
  }

  /** A single channel is kept exactly when it has the type. */
  lemma OfTypeSingle(c: Channel, kind: string)
    ensures OfType([c], kind) == if c.channelType == kind then [c] else []
  {
  }

  /** The channels fetchChannel chooses among: those of the requested kind, or all of them when no kind is given. */
  function AvailableChannels(stored: seq<Channel>, kind: string): (r: seq<Channel>)
    ensures kind == "" ==> r == stored
    ensures forall c :: c in r <==> c in stored && (kind == "" || c.channelType == kind)
  {
    if kind == "" then stored else OfType(stored, kind)
  }

  /** The response when the guild has no stored queue channel at all. */
  function NoStoredChannelsMessage(guild: QueueGuild, queueCmd: string): string
  {
    "No queue channels set." + "\nSet a queue first using `" + guild.prefix + queueCmd + " {channel name}`."
  }

  /** The response for an empty store says no queue channel is set and quotes the command that sets one. */
  lemma NoStoredChannelsQuotesCommand(guild: QueueGuild, queueCmd: string)
    ensures var r := NoStoredChannelsMessage(guild, queueCmd);
            StartsWith(r, "No ") && Contains(r, guild.prefix + queueCmd + " {channel name}")
  {
    var r := NoStoredChannelsMessage(guild, queueCmd);
    var front := "No queue channels set." + "\nSet a queue first using `";
    assert r == front + (guild.prefix + queueCmd + " {channel name}") + "`.";
    ContainsMiddle(front, guild.prefix + queueCmd + " {channel name}", "`.");
  }

  /**
   * fetchChannel over the guild's stored channels: the only available
   * channel, else the one the arguments name, else nothing together with
   * the response that reports it.
   */
  method FetchChannel(guild: QueueGuild, parsed: ParsedArguments, mention: Option<string>,
                      storedChannels: seq<Channel>, includeMention: bool, kind: string, queueCmd: string)
    returns (channel: Option<Channel>, report: Option<string>)
    ensures storedChannels == [] ==> channel == None && report == Some(NoStoredChannelsMessage(guild, queueCmd))
    ensures storedChannels != [] && |AvailableChannels(storedChannels, kind)| == 1 ==>
              channel == Some(AvailableChannels(storedChannels, kind)[0])
    ensures storedChannels != [] && |AvailableChannels(storedChannels, kind)| != 1 ==>
              channel == ResolveChannel(AvailableChannels(storedChannels, kind), parsed, mention)
    ensures channel.Some? ==> channel.value in storedChannels && report == None
    ensures channel.Some? && kind != "" ==> channel.value.channelType == kind
    ensures storedChannels != [] && channel.None? ==>
              report == Some(NotFoundMessage(guild, parsed, AvailableChannels(storedChannels, kind),
                                             includeMention, true, kind, queueCmd))
  {
    report := None;
    if |storedChannels| > 0 {
      var availableChannels := if kind != "" then OfType(storedChannels, kind) else storedChannels;
      if |availableChannels| == 1 {
        channel := Some(availableChannels[0]);
      } else {
        channel := ExtractChannel(availableChannels, parsed, mention);
        if channel.None? {
          var response := ReportChannelNotFound(guild, parsed, availableChannels, includeMention, true, kind, queueCmd);
          report := Some(response);
        }
      }
    } else {
      channel := None;
      report := Some(NoStoredChannelsMessage(guild, queueCmd));
    }
  }
}
