# A Dafny model of the VPN shell, the web store and the key codec

The project models three parts of the repository and proves what they promise for all inputs, all vectors of
commands and all sequences of steps.

**The vtysh shell** (`wgshell/vtysh`). A typed line is cut into words (`tokenizer.dfy`); the words narrow a copy of the
node's command vector, slot by slot, until exactly one command is left (`matching.dfy` says which, `executor.dfy` holds
the loops over arrays). The handler of that command validates its arguments and then deletes and adds lines in
`config_top` (`commands.dfy`), a `strcmp`-sorted doubly linked list (`linklist.dfy`, `config.dfy`). The list is dumped to
a file and replayed through the strict executor (`configfile.dfy`, `replay.dfy`). On top of that:

- the greedy narrowing, word by word, finds the lexicographically best commands and nothing else, with the exact reason
  for every refusal (`bestmatch.dfy`);
- order of the vector and of alternatives never matters (`order.dfy`), abbreviations are transparent and the strict and
  the completing executor agree on unabbreviated lines (`shortcuts.dfy`); when an abbreviated line has the effect of the full one
  is settled in `abbreviatedeffects.dfy` (over `selection.dfy`);
- a line typed in full runs its command in both executors (`fulllines.dfy`), and what it puts into `config_top`, replaces and
  takes away is said line by line (`recordings.dfy`, `removals.dfy`), with the numbers, times and networks its handler
  accepts (`validation.dfy`);
- every reachable `config_top`, typed or loaded from a file, is strictly sorted with one line per key (`keys.dfy`,
  `runs.dfy`, `shellruns.dfy`, `replay.dfy`, `consequences.dfy`), as long as no control character is typed
  (`controlcharacters.dfy`);
- save and load is the identity exactly when every line is a full line of a recording command, which is said without
  running the executor (`fulllines.dfy`, `recordedlines.dfy`, over `replay.dfy` and `reloadexact.dfy`), and always
  after commands typed in full (`reload.dfy`); a line with an unfinished address is lost (`addressreload.dfy`);
- completion hands out the longest common prefix (`completion.dfy`), the template parser inverts the printer
  (`template.dfy`), also on the string of every installed command (`templatestrings.dfy`), and the vector refines a
  sequence of slots (`vector.dfy`).

**The web store** (`webui/wireguard-ui`). IP addresses are byte strings with their big-endian value (`bytes.dfy`,
`addresses.dfy`), networks are intervals (`networks.dfy`), and allocation, suggestion and validation are proved on them
(`allocation.dfy`). Clients, the Telegram index, users and sessions are state machines whose steps are the HTTP handlers
(`tgindex.dfy`, `clients.dfy`, `users.dfy`, `sessions.dfy`) with classes that change in place and refine the steps
(`clientstore.dfy`, `userstore.dfy`).

**The key codec** (`wgshell/vtysh/encoding.c`). The branch-free expressions are bit-vector terms proved equal to the
tables of RFC 4648 (`keycodec.dfy`), the encodings are proved mutual inverses (`keyencoding.dfy`), and the loops over
buffers refine them (`keyloops.dfy`).

`sequences.dfy`, `text.dfy` and `handlers.dfy` hold the vocabulary the others share.

## What the proofs show about the code

- Handlers get choice words as typed and compare them with the full word only. `wg link-u` records `wg link-down`: a word
  that reaches the link handler records what it names exactly when it is `link-up` in full or a beginning of `link-down`
  (`AbbreviatedEffects.LinkRecordsNamedIff`). Over all commands and lines the condition is
  `AbbreviatedEffects.AbbreviationKeepsEffectIff`.
- Replacing or deleting the address of an interface can delete the line of another interface whose name is longer:
  exactly when the named one is not configured and a longer one is (`Consequences.AddressDeleteSparesOthersIff`).
- The prefix delete takes away an interface's own line exactly when every line with that prefix goes on with a character
  not below the space (`ControlCharacters.PrefixDeleteHitsIff`). Three typed lines with a control character in an
  interface name therefore leave two lines for one interface (`ControlCharacters.ControlCharacterBreaksUniqueness`).
- The completing shell records addresses that are not finished; saved and loaded, such a line is gone
  (`AddressReload.UnfinishedAddressIsLost`). Which configurations load back is
  `RecordedLines.ReloadsExactlyWhenWritten`.
- A typed line can fit a template word for word and still not run its command, because another command's keyword stands at one of
  its variables: `bridge disable x y`, `no bridge disable`, or `apply` behind `sfirewall filter` and `sfirewall nat portmap`.
  There is no other such case among the commands that change the configuration (`FullLines.StrictRunsIff`).
- A server address list whose first text parses and a later one does not switches the duplicate-address check off: the
  error of `GetAllocatedIPs` is overwritten. No-sharing holds over all runs exactly when that is not the case
  (`Clients.NoSharingExactlyWhen`).
- `SaveClient` leaves a stale index entry exactly in one case, which no handler reaches (`Clients.SaveIndexExact`).
- With a colliding record checksum the last administrator can be removed (`Users.CollisionLosesAdmins`); an administrator
  is kept over all runs exactly when no two records of a well-formed name collide across the admin flag
  (`Users.AdminKeptExactlyWhen`).
- `no ip route A B` takes the first line that begins so, which is a route to that network whenever one is recorded
  (`Removals.NoRouteTakesItsOwn`), but otherwise may be one whose mask begins with the typed digits
  (`Removals.NoRoute`).
- A group of any length is taken for an unfinished address as long as a dot ends the text (`Ipv4.PartlyIffUnfinished`).
- A complete address may have an empty first group, such as `.1.2.3` (`Ipv4.ExactIffFourGroups`).

## Modelling decisions

- C strings are `seq<char>` ordered by character code; `config_add_line` uses its argument as a format string, so lines
  hold no percent sign. `listnode_delete` compares pointers; the model deletes the first node with the value, which is
  the node the caller found.
- The range, IPv6 and A.B.C.D/M matchers are parameters of the engine; no installed command uses them.
- The configuration node is modelled; `system()` calls, terminal output and probes of the outside world are answers in
  `Env`.
- Text in CIDR notation is what `net.ParseCIDR` makes of it, or `None`. A nil network that `ValidateIPAllocation`
  dereferences aborts the request, so nothing is saved.
- Handlers are atomic and store operations succeed. Generated IDs and keys, password checks, key syntax checks, the
  clock, the record checksum and the pattern for user names are parameters. Session values are signed, so a request
  carries values that were handed out at some time, not only the latest.
- Client IDs that are not well-formed name no stored client.

## Model

| member | source | states |
|---|---|---|
| ListSpec.InsertSortedKeepsOrder | wgshell/vtysh/linklist.c:85-121 | sorted insertion keeps the list sorted, keeps the multiset plus one, and puts the new element behind its equals |
| ListSpec.InsertIncreasing | wgshell/vtysh/linklist.c:85-121 | inserting a new element keeps a strictly increasing list so |
| LinkList.List.AddOld | wgshell/vtysh/linklist.c:65-83 | appends; head, tail, prev, next and count stay consistent |
| LinkList.List.AddPrev | wgshell/vtysh/linklist.c:254-273 | links a node before the given one: the contents gain one element at that place |
| LinkList.List.AddSort | wgshell/vtysh/linklist.c:85-121 | refines sorted insertion, or appends without a comparison function |
| LinkList.List.DeleteNode | wgshell/vtysh/linklist.c:238-252 | unlinks one node: the contents lose exactly that element |
| LinkList.List.Delete | wgshell/vtysh/linklist.c:155-178 | unlinks the first node with the value, if there is one |
| ConfigStore.ConfigAddLine | wgshell/vtysh/vtysh_config.c:104-115 | the line enters config_top at its strcmp place |
| ConfigStore.ConfigDelLine | wgshell/vtysh/vtysh_config.c:117-129 | removes the first equal line |
| ConfigStore.ConfigDelLineByLeft | wgshell/vtysh/vtysh_config.c:131-143 | removes the first line that begins with the text |
| ConfigStore.ConfigGetLineByLeft | wgshell/vtysh/vtysh_config.c:145-157 | finds the first line that begins with the text |
| ConfigStore.RemoveFirstKeeps | wgshell/vtysh/vtysh_config.c:117-143 | deletion keeps strict order and takes away just the line found |
| ConfigStore.AddLineKeeps | wgshell/vtysh/vtysh_config.c:104-115 | adding a new line keeps strict order and adds just that line |
| ConfigStore.SameLinesSameList | wgshell/vtysh/vtysh_config.c:104-115 | two strictly sorted lists with the same lines are the same list |
| Ipv4.CmdIpv4Match | wgshell/vtysh/command.c:459-517 | the cursor loop gives the verdict of the recursive definition |
| Ipv4.ExactIffFourGroups | wgshell/vtysh/command.c:459-517 | exact exactly for four dotted groups of at most three digits and at most 255, of which only the first may be empty |
| Ipv4.PartlyIffUnfinished | wgshell/vtysh/command.c:459-517 | partial exactly for one to three good groups, or for at most two closed ones followed by digits and a dot |
| Matching.FilterTypeUpper | wgshell/vtysh/command.c:862-949 | the returned match type is an upper bound of every command's |
| Matching.FilterTypeAttained | wgshell/vtysh/command.c:862-949 | and some command attains it |
| Matching.CmdSizeIff | wgshell/vtysh/command.c:382-405 | the size is n exactly when the first n positions must be typed and an option follows, if anything does |
| Executor.MatchPosition | wgshell/vtysh/command.c:878-940 | the running match type and counter over the alternatives of a position |
| Executor.FilterVector | wgshell/vtysh/command.c:862-1032 | both filters: the slots set to NULL are exactly the commands without a match, the result is the best match type |
| Executor.IsCmdAmbiguous | wgshell/vtysh/command.c:1035-1121 | 1 exactly when two different alternatives are hit, 2 exactly for an unfinished prefix, otherwise the vector keeps exactly the hit commands |
| Executor.CountMatches | wgshell/vtysh/command.c:1563-1580 | counts complete and incomplete survivors |
| Executor.CollectArgs | wgshell/vtysh/command.c:1596-1623 | argv of variables, options and choices; more than the maximum is an error |
| Executor.ChosenInRange | wgshell/vtysh/command.c:1602-1623 | the argv loop never reads past the template of the chosen command |
| Executor.NarrowVector | wgshell/vtysh/command.c:1538-1560 | the word loop over the private copy refines the recursive narrowing |
| Executor.SelectCommand | wgshell/vtysh/command.c:1562-1634 | exactly one complete command must remain, with the right error otherwise |
| Executor.ExecuteCommand | wgshell/vtysh/command.c:1524-1746 | completing and strict executor refine one definition of status, command and argv |
| BestMatch.SurvivorsAreBest | wgshell/vtysh/command.c:1538-1560 | the word loop stops exactly at a word that begins two keywords of the best commands and is none, and otherwise leaves exactly the commands whose match types are lexicographically greatest |
| BestMatch.RunsExactlyTheBest | wgshell/vtysh/command.c:1524-1634 | for every vector of ordinary templates: a command runs exactly when no word is ambiguous and it is the only best one the line is long enough for |
| BestMatch.RefusedExactlyWhen | wgshell/vtysh/command.c:1562-1594 | no match, incomplete and ambiguous are each answered exactly when no command is best, none of the best is complete, or a word is ambiguous or two best ones are complete |
| CommandOrder.PermutedVectorSameOutcome | wgshell/vtysh/command.c:101-120 | permuting the vector never changes status, command or argv |
| CommandOrder.AlikeVectorsSameOutcome | wgshell/vtysh/command.c:101-120 | neither does permuting alternatives inside positions |
| CommandOrder.OutcomeIndependentOfOrder | wgshell/vtysh/command.c:101-120 | so cmd_sort_node never changes execution |
| Shortcuts.StrictAgreesWithCompleting | wgshell/vtysh/command.c:952-1032 | the two executors agree on every line without abbreviated words and partial addresses among the survivors |
| Shortcuts.AbbreviationIsTransparent | wgshell/vtysh/command.c:862-1121 | any number of unique abbreviations leaves status and command unchanged and argv differs only at abbreviated choice words |
| Shortcuts.RoundAbbreviated | wgshell/vtysh/command.c:862-1121 | a unique abbreviation narrows the vector as the full keyword does |
| Tokenizer.UnquoteInPlace | wgshell/vtysh/command.c:171-205 | with the first two quotes at a and b: spaces at a and b, a hyphen for every space between them, every other character as it was; with fewer quotes nothing changes |
| Tokenizer.UnquoteByPosition | wgshell/vtysh/command.c:171-205 | the same of the specification |
| Tokenizer.QuotedIsOneWord | wgshell/vtysh/command.c:171-247 | words, a quoted stretch of words, and more words: the stretch comes out as one word joined by hyphens |
| Tokenizer.SpreadWords | wgshell/vtysh/command.c:206-247 | words with any white space between and behind them are found again |
| Tokenizer.NoWordsIff | wgshell/vtysh/command.c:192-204 | no words exactly when behind the white space there is nothing, an exclamation mark or a number sign |
| Tokenizer.MakeStrvec | wgshell/vtysh/command.c:171-247 | words of the unquoted line; none for blank lines and comments |
| Tokenizer.WordsFromAreWords | wgshell/vtysh/command.c:206-247 | tokens are nonempty, free of white space and made of the line's characters |
| Tokenizer.TokensOfLine | wgshell/vtysh/command.c:171-247 | a line written with single spaces gives its words back, with or without its newline |
| Commands.Handle | wgshell/vtysh/cmd/cmd_ip.c:62-379 | a handler at work on the linked list has the effect of its plan, or none when it refuses; what the effect is on typed lines, see Removals and Recordings |
| Commands.Perform | wgshell/vtysh/cmd/cmd_vpn.c:35-491 | deletions and additions in order |
| Shell.RunFacts | wgshell/vtysh/command.c:1524-1746 | the command that runs is installed, the line has the length of its template, every word fits its position, strictly or as a beginning |
| Shell.RunArgs | wgshell/vtysh/command.c:1602-1623 | each handler gets the arguments it expects: the words behind its keywords or at its variables |
| ShellRuns.ExecuteLine | wgshell/vtysh/vtysh.c:47-84 | tokeniser, executor and handler together refine one step of config_top, in any order of the vector |
| ShellRuns.QuotedLikeHyphenated | wgshell/vtysh/command.c:171-247 | a line with a quoted stretch has the effect of the line with the stretch joined by hyphens |
| Removals.NoPeer | wgshell/vtysh/cmd/cmd_vpn.c:430-449 | no wg peer KEY, in either executor: exactly the line of that 44-character key goes; for any text, the first line that begins so |
| Removals.NoNameserver | wgshell/vtysh/cmd/cmd_ip.c:360-379 | exactly the name server line goes |
| Removals.NoHostnameLine | wgshell/vtysh/cmd/cmd_common.c:337-357 | exactly the hostname line goes, with or without a name typed |
| Removals.NoBridgeLine | wgshell/vtysh/cmd/cmd_bridge.c:96-119 | for a number from 1 to 9 exactly the line of that bridge goes, otherwise nothing |
| Removals.NoBridgeDisableLine | wgshell/vtysh/cmd/cmd_bridge.c:28-40 | exactly the line bridge disable goes |
| Removals.NoAddress | wgshell/vtysh/cmd/cmd_ip.c:139-213 | for a supported name and after the confirmation the first line that begins so goes, which is exactly the interface's own when it is configured; otherwise nothing |
| Removals.NoRoute | wgshell/vtysh/cmd/cmd_ip.c:306-331 | exactly the first line that begins with the route goes |
| Removals.NoRouteTakesItsOwn | wgshell/vtysh/cmd/cmd_ip.c:306-331 | and that is a route to the network and mask whenever one is recorded |
| Removals.NoPortmapLine | wgshell/vtysh/cmd/cmd_fw.c:152-192 | exactly the line of that port map goes, if the arguments are accepted |
| Removals.NoFilterLine | wgshell/vtysh/cmd/cmd_fw.c:497-706 | exactly the line of that rule goes, if the arguments are accepted |
| Recordings.RecordsExactly | wgshell/vtysh/cmd/cmd_vpn.c:35-491 | every recording line typed in full, in either executor: under the handler's own condition the line is in, every other line of its key is out, all others stay; otherwise nothing changes |
| Recordings.AddressRecordsExactly | wgshell/vtysh/cmd/cmd_ip.c:62-255 | the same for ip address, where the first line whose name begins so is out |
| Recordings.RefusedBridge | wgshell/vtysh/cmd/cmd_bridge.c:42-94 | a bridge that brctl refuses is not recorded and its old line is gone |
| Recordings.QuotedHostname | wgshell/vtysh/cmd/cmd_common.c:306-335 | a quoted host name of several words is recorded joined by hyphens |
| Validation.PortNumbers | wgshell/vtysh/cmd/cmd_fw.c:332-359 | of all printed numbers exactly 1 to 65535 are ports |
| Validation.Times | wgshell/vtysh/cmd/cmd_fw.c:412-474 | of all two-digit times exactly 00:00 to 23:59 are accepted |
| Validation.DayLists | wgshell/vtysh/cmd/cmd_fw.c:394-411 | a list of days is accepted exactly with at most seven of three letters |
| Validation.CidrTexts | wgshell/vtysh/cmd/cmd_fw.c:360-392 | a network is accepted exactly when it begins with a digit, has a slash, and at most two characters behind it |
| Validation.AtoiStops | wgshell/vtysh/cmd/cmd_vpn.c:35-91 | atoi reads one sign and the digits and nothing behind them |
| Validation.AtoiWraps | wgshell/vtysh/cmd/cmd_vpn.c:35-91 | and gives every printed number modulo 2^32, or -1 or 0 beyond 64 bits |
| Keys.LongerNameSortsLater | wgshell/vtysh/vtysh_config.c:131-143 | a line for a longer interface name never sorts before the line of the name it extends |
| Keys.DelLeftClears | wgshell/vtysh/vtysh_config.c:131-143 | the prefix delete clears the key when the key's line comes first |
| Runs.PlanKeepsInv | wgshell/vtysh/cmd/cmd_ip.c:62-379 | every plan of every handler keeps order and one line per key |
| Runs.AddressKeeps | wgshell/vtysh/cmd/cmd_ip.c:62-137 | re-adding an interface replaces its own line |
| Runs.PeerPlansKeep | wgshell/vtysh/cmd/cmd_vpn.c:198-428 | one line per peer key for all four peer commands |
| Runs.LinkKeeps | wgshell/vtysh/cmd/cmd_vpn.c:451-491 | one of link-up and link-down |
| Runs.FilterKeeps | wgshell/vtysh/cmd/cmd_fw.c:273-495 | one of insert and append per filter rule |
| Runs.PortmapKeeps | wgshell/vtysh/cmd/cmd_fw.c:110-150 | a port map is recorded once |
| Runs.HostnameKeeps | wgshell/vtysh/cmd/cmd_common.c:306-335 | one hostname line |
| Runs.BridgeKeeps | wgshell/vtysh/cmd/cmd_bridge.c:42-94 | one line per bridge number |
| ShellRuns.EveryRunKeepsInv | wgshell/vtysh/vtysh_config.c:104-143 | over every run of lines of printable characters and white space, config_top stays strictly increasing with at most one line per key |
| Replay.LoadKeepsInv | wgshell/vtysh/vtysh.c:114-172 | so does loading any file of such characters, whatever its lines, with the second attempts |
| Replay.EverySessionKeepsInv | wgshell/vtysh/vtysh.c:114-172 | hence every state after a file loaded at boot and any lines typed behind it |
| Consequences.OneOfEach | wgshell/vtysh/vtysh_config.c:104-143 | at most one hostname, nameserver and listenport line |
| Consequences.OneLink | wgshell/vtysh/cmd/cmd_vpn.c:451-491 | never both link lines |
| Consequences.OnePerPeer | wgshell/vtysh/cmd/cmd_vpn.c:198-428 | two lines that begin with the same 44-character peer key are one |
| Consequences.OnePerInterface | wgshell/vtysh/cmd/cmd_ip.c:62-137 | two address lines for one interface are one |
| Consequences.OnePerRule | wgshell/vtysh/cmd/cmd_fw.c:273-495 | a filter rule is not recorded both as insert and as append |
| Consequences.AddressDeleteSparesOthersIff | wgshell/vtysh/cmd/cmd_ip.c:139-213 | the address delete spares other interfaces exactly when the interface is configured or no configured name extends it |
| ControlCharacters.PrefixDeleteHitsIff | wgshell/vtysh/vtysh_config.c:131-143 | on a sorted list with one line for the name, the prefix delete takes that line exactly when every line with the prefix goes on with a character not below the space |
| ControlCharacters.ControlCharacterBreaksUniqueness | wgshell/vtysh/cmd/cmd_ip.c:62-137 | in either executor, from the empty list, three typed lines with any control character behind any supported name leave two lines for that name |
| Selection.ListenportRuns | wgshell/vtysh/cmd/cmd_vpn.c:35-91 | wg listenport reaches its handler with any number, in both executors |
| Selection.IpAddressRuns | wgshell/vtysh/cmd/cmd_ip.c:62-137 | ip address reaches its handler with any name and two words that are addresses to the executor, finished or (completing) unfinished |
| AbbreviatedEffects.LinkRunsIff | wgshell/vtysh/cmd/cmd_vpn.c:451-491 | behind wg, exactly the beginnings of one of link-up and link-down, not of both, reach the link handler |
| AbbreviatedEffects.LinkRecordsNamedIff | wgshell/vtysh/cmd/cmd_vpn.c:451-491 | for every such word: the line recorded is the one it names if and only if it is link-up in full or begins link-down |
| AbbreviatedEffects.AbbreviationKeepsEffectIff | wgshell/vtysh/command.c:1602-1623 | for every unique abbreviation of every line that runs: the effect on every list is that of the full line if and only if the arguments are unchanged, the command never touches the list, link-down was meant, or the handler refuses both |
| ConfigFile.ConfigDump | wgshell/vtysh/vtysh_config.c:160-187 | the file is the time comment, the lines in list order and the exclamation mark |
| ConfigFile.DumpLines | wgshell/vtysh/vtysh_config.c:160-187 | cut at its newlines the file is the time comment, the list, and the exclamation mark |
| ConfigFile.ChunkOfLine | wgshell/vtysh/vtysh.c:126 | fgets cuts a short line off with its newline |
| ConfigFile.ReadsOneLine | wgshell/vtysh/vtysh.c:126 | one read takes at most 511 characters, never goes past a newline, and stops short only there or at the end |
| Replay.LoadFile | wgshell/vtysh/vtysh.c:114-172 | the loop over the file refines the recursive load, with its second attempt |
| Replay.LoadLineIsStep | wgshell/vtysh/vtysh.c:138-147 | the second attempt never changes the outcome |
| Replay.PlanSpares | wgshell/vtysh/vtysh_config.c:160-207 | among smaller lines a recording plan deletes only lines with the key of the line it adds |
| Replay.LoadAppends | wgshell/vtysh/vtysh_config.c:160-207 | because the dump is sorted, reading the next line back appends it |
| Replay.SaveLoad | wgshell/vtysh/vtysh_config.c:160-207 | dump and replay into an empty store is the identity on lists whose lines record themselves |
| ReloadExact.ReadsUnderItsKey | wgshell/vtysh/vtysh.c:135-147 | a recorded line read strictly records under its own key |
| ReloadExact.ReloadsExactlyWhen | wgshell/vtysh/vtysh_config.c:160-207 | dump and replay gives the list back if and only if every line, read strictly, records itself |
| FullLines.StrictRunsIff | wgshell/vtysh/command.c:1638-1746 | for every command that records or removes lines: it runs strictly if and only if the line fits its template word for word (full keywords and choices, complete addresses) and no other command's keyword stands at a variable |
| FullLines.TypedRuns | wgshell/vtysh/command.c:1524-1746 | and a line typed in full runs it in the completing executor too |
| RecordedLines.ReRecordsIff | wgshell/vtysh/vtysh.c:135-147 | a recorded line records itself when read if and only if it is such a line, with numbers as %d prints them and arguments the handler takes |
| RecordedLines.ReloadsExactlyWhenWritten | wgshell/vtysh/vtysh_config.c:160-207 | dump and replay gives the list back if and only if every line is such a line |
| AddressReload.AddressReRecordsIff | wgshell/vtysh/cmd/cmd_ip.c:62-137 | an ip address line records itself if and only if the interface is supported and both addresses are complete |
| AddressReload.UnfinishedAddressIsLost | wgshell/vtysh/command.c:459-517 | the completing shell records it with unfinished addresses too; saved and loaded it is there if and only if both are complete |
| Reload.RecordedAsTyped | wgshell/vtysh/command.c:1638-1746 | a strictly accepted line is recorded word for word |
| Reload.AtoiOfShow | wgshell/vtysh/cmd/cmd_vpn.c:35-91 | a printed port number is read back |
| Reload.EveryRunReloads | wgshell/vtysh/vtysh_config.c:160-207 | every configuration that fully typed commands can reach survives save and load |
| Completion.CmdLcd | wgshell/vtysh/command.c:1354-1381 | the minimum over adjacent pairs is the longest common prefix of all candidates |
| Completion.AdjacentPairsSuffice | wgshell/vtysh/command.c:1354-1381 | why neighbours are enough |
| Completion.Collect | wgshell/vtysh/command.c:1429-1455 | the candidates are the distinct keywords the survivors offer that begin with the typed word |
| Completion.CompleteCommand | wgshell/vtysh/command.c:1384-1521 | a full match if and only if there is one distinct candidate; with several, the partial match strictly extends the typed word and is the longest text every candidate begins with, or else the full list; otherwise the right error |
| Completion.FullMatchIsTransparent | wgshell/vtysh/command.c:1384-1521 | accepting a full match never changes which commands survive |
| TemplateParser.MakeDescvec | wgshell/vtysh/command.c:300-378 | the cursor loop refines the recursive parser, with its error for a bar outside parentheses |
| TemplateParser.RoundAdvances | wgshell/vtysh/command.c:319-357 | every round on every input consumes a character |
| TemplateParser.ParsePrint | wgshell/vtysh/command.c:300-378 | printing and then parsing gives back every list of positions with words free of white space, parentheses and bars |
| TemplateParser.PlainStringParses | wgshell/vtysh/command.c:319-336 | a string without parentheses is a parse error exactly if it holds a bar; otherwise its words are its positions |
| TemplateStrings.InstalledParse | wgshell/vtysh/command.c:300-378 | the string of every installed command is parsed into the template its executor works on |
| Vectors.TrimIs | wgshell/vtysh/vector.c:162-175 | trimming ends one past the last used slot |
| Vectors.Vector.constructor | wgshell/vtysh/vector.c:28-42 | an empty vector with at least one slot |
| Vectors.Vector.Copy | wgshell/vtysh/vector.c:63-77 | a copy with the same slots in memory of its own |
| Vectors.Vector.Ensure | wgshell/vtysh/vector.c:80-93 | doubling ends with more than num slots and at most twice num, the contents kept |
| Vectors.Vector.EmptySlot | wgshell/vtysh/vector.c:98-111 | the least hole |
| Vectors.Vector.Set | wgshell/vtysh/vector.c:114-128 | fills the least hole |
| Vectors.Vector.SetIndex | wgshell/vtysh/vector.c:131-142 | sets one slot and fills with empty ones up to it |
| Vectors.Vector.Unset | wgshell/vtysh/vector.c:162-175 | clears one slot; clearing the last one trims |
| Vectors.Vector.Count | wgshell/vtysh/vector.c:178-189 | the number of used slots |
| KeyCodec.EncodeCharIsTable | wgshell/vtysh/encoding.c:21-25 | the branch-free letter is that of section 4 of RFC 4648 |
| KeyCodec.LetterOfAlphabet | wgshell/vtysh/encoding.c:21-25 | the table is the alphabet of section 4 of RFC 4648 |
| KeyCodec.DecodeCharIsTable | wgshell/vtysh/encoding.c:49-55 | the branch-free value is the table's, or -1, for signed and unsigned char |
| KeyCodec.AssembledIsTable | wgshell/vtysh/encoding.c:39-57 | the sign of the shifted int tells whether all four letters are valid, its low bytes are the triple |
| KeyCodec.GroupInverse | wgshell/vtysh/encoding.c:11-57 | four letters decode to a triple exactly when the triple encodes to them |
| KeyCodec.HexCharIsTable | wgshell/vtysh/encoding.c:108-124 | the branch-free nibble of section 8 of RFC 4648, either case, with its error flag |
| KeyEncoding.Base64Inverse | wgshell/vtysh/encoding.c:28-81 | key_from_base64 succeeds exactly on the strings of key_to_base64 and the two are mutual inverses |
| KeyEncoding.Base64Accepts | wgshell/vtysh/encoding.c:59-81 | key_from_base64 accepts exactly the encodings of keys |
| KeyEncoding.HexInverse | wgshell/vtysh/encoding.c:83-128 | key_from_hex reads a key exactly from its hex digits in either case |
| KeyEncoding.HexAccepts | wgshell/vtysh/encoding.c:94-128 | it accepts exactly 64 hex digits |
| KeyLoops.EncodeBase64 | wgshell/vtysh/encoding.c:11-26 | four letters into the buffer, the rest unchanged |
| KeyLoops.KeyToBase64 | wgshell/vtysh/encoding.c:28-37 | 43 letters, the pad and the NUL |
| KeyLoops.DecodeBase64 | wgshell/vtysh/encoding.c:39-57 | sign and low bytes of the int as the table has them |
| KeyLoops.KeyFromBase64 | wgshell/vtysh/encoding.c:59-81 | the collected error bits decide; on success the buffer is the key |
| KeyLoops.KeyToHex | wgshell/vtysh/encoding.c:83-92 | 64 lower-case digits and the NUL |
| KeyLoops.KeyFromHex | wgshell/vtysh/encoding.c:94-128 | success exactly on hex digits; then the buffer is the key |
| KeyLoops.KeyIsZero | wgshell/vtysh/encoding.c:130-144 | true exactly for the zero key |
| Addresses.IncValue | webui/wireguard-ui/util/util.go:316-323 | inc is +1 modulo 2^width |
| Addresses.IncInPlace | webui/wireguard-ui/util/util.go:316-323 | the loop with carry over the bytes |
| Addresses.MaskedValue | webui/wireguard-ui/util/util.go:326-337 | masking rounds down to the block, the broadcast bytes are its last address |
| Networks.GetBroadcastIP | webui/wireguard-ui/util/util.go:326-337 | byte-wise or with the complement of the mask |
| Networks.NetworkIsInterval | webui/wireguard-ui/util/util.go:326-381 | Contains is the interval from the network address to the broadcast address |
| Networks.ContainsCidrIsSubnet | webui/wireguard-ui/util/util.go:111-115 | ContainsCIDR holds exactly when every address of the second network is one of the first |
| Networks.GetBroadcastAndNetworkAddrsLookup | webui/wireguard-ui/util/util.go:340-354 | exactly the network and broadcast addresses of the texts that parse |
| Allocation.ReservedIsEnd | webui/wireguard-ui/util/util.go:340-354 | which are exactly the least and the greatest address of each server network |
| Allocation.GetAvailableIP | webui/wireguard-ui/util/util.go:358-381 | the numerically least free address, none exactly when there is none, and the loop ends |
| Allocation.ValidateIPAllocation | webui/wireguard-ui/util/util.go:385-421 | accepted exactly when every address parses, is not in use and lies in a server network |
| Allocation.ValidateAndFixSubnetRanges | webui/wireguard-ui/util/util.go:463-513 | every listed range keeps exactly the networks inside the server's, in their order and number; the others stay; a server text that does not parse is an error |
| Allocation.SuggestFrom | webui/wireguard-ui/handler/routes.go:1226-1250 | one least free address per searched network that has one |
| Allocation.ProposedAccepted | webui/wireguard-ui/handler/routes.go:1192-1255 | a proposed address from networks inside the server's is acceptable on the same addresses |
| Allocation.OwnNetworksCovered | webui/wireguard-ui/handler/routes.go:1212-1222 | the server's own networks are such networks |
| Allocation.FixedRangeCovered | webui/wireguard-ui/util/util.go:463-513 | and so is every range as ValidateAndFixSubnetRanges leaves it |
| TgIndex.FilterStringSlice | webui/wireguard-ui/util/util.go:833-841 | compaction in place keeps the other strings in order |
| TgIndex.RemoveTgToClientID | webui/wireguard-ui/util/util.go:816-831 | the client leaves every list and empty lists go, whatever the order of the map |
| TgIndex.UpdateTgToClientID | webui/wireguard-ui/util/util.go:792-814 | the client is listed under the new user only |
| Clients.EveryRunSound | webui/wireguard-ui/handler/routes.go:417-977 | over every sequence of steps two different clients never hold the same host address |
| Clients.NoSharingExactlyWhen | webui/wireguard-ui/util/util.go:263-313 | from an empty store that holds for all runs if and only if all server texts parse or the first does not |
| Clients.SaveIndexExact | webui/wireguard-ui/store/jsondb/jsondb.go:337-356 | saving keeps the index exact if and only if it is not the stale case |
| Clients.EveryRunIndexExact | webui/wireguard-ui/util/util.go:792-841 | after any run the index lists under u exactly the enabled clients with Telegram ID u, each once, and no empty lists |
| Clients.EveryRunKeysUnique | webui/wireguard-ui/handler/routes.go:417-792 | over every run two clients never share a public key, keys updated to the empty string aside |
| Clients.EveryRunPlaced | webui/wireguard-ui/handler/routes.go:417-826 | as long as the server's addresses stay, every run keeps all client addresses inside the server's networks and off its own addresses |
| Clients.LastWrite | webui/wireguard-ui/handler/routes.go:417-918 | after any run the record under every ID, in all its fields, is what the last accepted new, update, status or remove step for it wrote, or as it was at the start |
| Clients.StoredWasCreated | webui/wireguard-ui/handler/routes.go:417-548 | a client that was not there at the start was created by an accepted new step |
| Clients.ServerAfter | webui/wireguard-ui/handler/routes.go:937-977 | the server's addresses are those of the last step that set texts that all parse |
| Validation.ParseIntOfShow | webui/wireguard-ui/util/util.go:792-831 | a Telegram ID is read exactly when it fits 64 bits |
| ClientStore.Store.GetAllocatedIPs | webui/wireguard-ui/util/util.go:263-313 | addresses of the server and the other clients, or nothing when a text does not parse |
| ClientStore.Store.SuggestIPAllocation | webui/wireguard-ui/handler/routes.go:1192-1255 | the handler on a store: nothing exactly when the addresses in use do not parse or no searched network has a free address; otherwise exactly the least free ones; each passes ValidateIPAllocation on the same store when the search is over the server's networks or a range inside them |
| ClientStore.FixedRangeSearched | webui/wireguard-ui/util/util.go:463-513 | which a range fixed by ValidateAndFixSubnetRanges is |
| ClientStore.Store.SaveClient | webui/wireguard-ui/store/jsondb/jsondb.go:337-356 | the record and the index after a save |
| ClientStore.Store.DeleteClient | webui/wireguard-ui/store/jsondb/jsondb.go:358-361 | the record and the index after a delete |
| ClientStore.Store.NewClient | webui/wireguard-ui/handler/routes.go:417-548 | refines the new-client step: under the handler's checks the client is stored with its own or the generated key, otherwise nothing changes |
| ClientStore.Store.UpdateClient | webui/wireguard-ui/handler/routes.go:656-792 | refines the update step: under the handler's checks the record is the one sent, otherwise nothing changes |
| ClientStore.Store.SetClientStatus | webui/wireguard-ui/handler/routes.go:795-826 | a stored client gets the requested flag and keeps all else, and is in the index exactly if the flag is set and its Telegram ID parses; an unknown ID changes nothing |
| ClientStore.Store.RemoveClient | webui/wireguard-ui/handler/routes.go:867-918 | refines the remove step: the record and its index entries are gone |
| ClientStore.Store.WireGuardServerInterfaces | webui/wireguard-ui/handler/routes.go:937-977 | refines the server-interface step: the addresses are taken exactly when all parse |
| ClientStore.Store.InitIndex | webui/wireguard-ui/store/jsondb/jsondb.go:173-186 | Init builds an exact index in any order of the records |
| Sessions.LifeOfSession | webui/wireguard-ui/handler/session.go:46-128 | what any chain of refreshes, self-updates and clears keeps of a session |
| Sessions.SessionsEnd | webui/wireguard-ui/handler/session.go:46-128 | after any chain of visits, self-updates and log-outs the times of a session hold exactly if it was never cleared, the maximal duration is not over, and it is within 86400 seconds of the login if not remembered, within 604800 of the last refresh if remembered; at most maxDuration / 86400 refreshes |
| Sessions.RefreshExactlyWhen | webui/wireguard-ui/handler/session.go:84-128 | a visit in time refreshes exactly a remembered session of a day or more |
| Sessions.DailyRefreshes | webui/wireguard-ui/handler/session.go:84-128 | daily visits attain that number of refreshes |
| Sessions.Session.DoRefreshSession | webui/wireguard-ui/handler/session.go:84-128 | moves updated_at exactly when a refresh is due |
| Sessions.Session.SetUser | webui/wireguard-ui/handler/session.go:217-223 | stamps name, checksum and flag, nothing else |
| Sessions.Session.ClearSession | webui/wireguard-ui/handler/session.go:226-249 | blanks the session and makes it expired |
| Users.ValidMeansStored | webui/wireguard-ui/handler/session.go:46-79 | a valid session belongs to a stored user and its admin flag is the record's |
| Users.ValidExactlyWhen | webui/wireguard-ui/handler/session.go:46-79 | a session is valid exactly when it comes with its cookie, its record has the stamped checksum, it was not logged out and its times hold |
| Users.LoginThenValid | webui/wireguard-ui/handler/routes.go:61-140 | the session of a login, with all its values, and exactly when it is valid later |
| Users.EverySessionLoggedIn | webui/wireguard-ui/handler/routes.go:61-140 | over every run each session goes back to a login with the right password for a stored user |
| Users.NobodyAdminUnasked | webui/wireguard-ui/handler/routes.go:205-320 | over every run an administrator was one before, renamed itself from one, or was made one by a create or update with the flag by a stored administrator's valid session |
| Users.NobodyDemotedUnasked | webui/wireguard-ui/handler/routes.go:205-352 | and stops being one only by a removal, renaming or update of an administrator |
| Users.LastWrite | webui/wireguard-ui/handler/routes.go:205-352 | after any run the record under every name, in all its fields, is what the last accepted create, update or remove wrote, or as it was at the start |
| Users.UpdateKeeps | webui/wireguard-ui/handler/routes.go:205-275 | an update keeps an administrator, the cache and the stamps |
| Users.RemoveKeeps | webui/wireguard-ui/handler/routes.go:323-352 | a removal keeps an administrator |
| Users.EveryRunKeepsAnAdmin | webui/wireguard-ui/handler/routes.go:205-352 | every run keeps at least one administrator, an exact checksum cache and stamped sessions |
| Users.AdminKeptExactlyWhen | webui/wireguard-ui/util/util.go:843-850 | every genuine run from every sound state keeps an administrator if and only if the checksum separates an administrator's record from another under the same well-formed name |
| Users.CollisionLosesAdmins | webui/wireguard-ui/util/util.go:843-850 | with a colliding checksum two steps leave no administrator |
| UserStore.Store.constructor | webui/wireguard-ui/store/jsondb/jsondb.go:134-171 | Init makes a first administrator if there is no user, and a checksum for every record |
| UserStore.Store.SaveUser | webui/wireguard-ui/store/jsondb/jsondb.go:219-228 | record and cache after a save |
| UserStore.Store.DeleteUser | webui/wireguard-ui/store/jsondb/jsondb.go:231-234 | record and cache after a delete |
| UserStore.Store.IsValidSession | webui/wireguard-ui/handler/session.go:46-79 | true exactly with the token, between updated_at and updated_at plus the age (86400 if it is 0), within the maximal duration, and with the cached checksum |
| UserStore.Store.Login | webui/wireguard-ui/handler/routes.go:61-140 | a session exactly for a stored user with the right password, with the stamped values; from then on it is valid exactly with its cookie and within its times |
| UserStore.Store.UpdateUser | webui/wireguard-ui/handler/routes.go:205-275 | under the handler's checks the record moves to the new name with the new or old hash and the flag nobody gives itself, and the session is restamped; otherwise nothing changes |
| UserStore.Store.CreateUser | webui/wireguard-ui/handler/routes.go:278-320 | with a valid administrator session and a well-formed free name the record has exactly the given name, hash and flag; otherwise nothing changes |
| UserStore.Store.RemoveUser | webui/wireguard-ui/handler/routes.go:323-352 | with a valid administrator session another user's record is gone; otherwise nothing changes |
| UserStore.Store.Visit | webui/wireguard-ui/handler/session.go:30-35 | a valid session is refreshed exactly when due, users stay |
| UserStore.Store.Logout | webui/wireguard-ui/handler/routes.go:179-184 | a valid session is blanked and expired, users stay |

## Left out

- ShellRuns.EveryRunKeepsInv: lines hold no control characters other than white space, because with them it is false (ControlCharacters.ControlCharacterBreaksUniqueness), and no percent sign, because `config_add_line` formats its argument.
- LinkList.List.Delete: compares values where the source compares pointers, so among equal strings it takes the first; config_top never holds equal ones.
- Allocation.GetAvailableIP: for a prefix of length zero the loop over the whole address space ends only if some address is free, so that is required there, and for the searched networks of Allocation.SuggestFrom and ClientStore.Store.SuggestIPAllocation.
- Reload.EveryRunReloads: numbered bridge lines are excluded, because replaying them asks the machine whether its interfaces exist; RecordedLines.ReloadsExactlyWhenWritten covers them.
- Completion.CompleteCommand: assumes templates of keywords, variables, options and A.B.C.D, as all installed ones are, because the loop ignores unfinished prefixes and does not stop at a vararg.
- Users.EveryRunKeepsAnAdmin: takes the checksum as telling an administrator's record from another under the same name; CRC32 itself is not modelled.
- IPv4-mapped IPv6 addresses, which Go prints and compares as IPv4.
- `listnode_add_after`, `list_add_node_next` and `list_add_list`: nothing calls them.
- `config_get`, nested configuration nodes, the enable and password nodes, and code under `#if 0`.
- The range, IPv6 and A.B.C.D/M matchers themselves: no installed command uses them.
- `system()` calls, uci, iptables and wg, and the files the firewall handlers write.
- `findSubnetRangeForIP` and its cache: they only label clients for display.
- Memory management, integer overflow of sizes, and interleavings of HTTP handlers.
- Sockets, agents, templates, QR codes, mail and Telegram delivery.
