# netdev-ssh-mcp in Dafny

netdev-ssh-mcp is an MCP server that runs read-only commands on network devices over
SSH. This project models the four parts of it that compute something, and proves what
each promises:

- **Obfuscation** (`Spans`, `Redaction`, `Obfuscation`, `RedactionLaws`): the spans that
  any patterns capture in a line are sorted by start alone, merged in the array that is
  still being read, and replaced by keyed tokens. The merged spans are shown to be the
  connected components of "overlaps", whatever order the captures came in; the output is
  described byte by byte, line by line and text by text.
- **Regular-expression fragments** (`Regex`, `Fragments`, `FragmentLaws`, `PasswordLine`): a
  backtracking matcher with Go's leftmost-first preference, run on the shared fragments
  `typeTokens`, `quoted` and `value` as they are written, equals one-pass scanners.
  `PasswordLine` carries one entry of the pattern table through to the output line.
- **Commands** (`CommandSafety`, `ArgumentPattern`, `CommandGrammar`, `DeviceCommands`,
  `DeviceReading`, `FortiSession`, `CommandBuilders`): the checker accepts exactly a
  generative grammar with its own table of filters, and arguments exactly as the expression
  in the source does; printed pings and traceroutes are read back as the request by a device
  with keywords of its own; FortiOS batches, trimmed, joined and read by a device that keeps
  options between commands, run exactly what was asked.
- **known_hosts** (`KnownHosts`, `KnownHostsLaws`, `KnownHostsClient`): scanning, filtering
  and rewriting the file, the whole outcome of one trust operation, and what any run of them
  leaves in the file.

`Text` holds the Go string functions the others use. Every imperative function of the
source is a method (`SortByStart`, `MergeInPlace`, the `Obfuscator` and `Client` classes,
the command builders, `RunCommands`) proved equal to a function on values; the laws are
proved about those functions.

Modelling choices:

- Commands are sequences of code points. Lower-casing and folding are written out for the
  code points whose image is an ASCII letter, which is all the code ever compares with.
- In `Redaction` a character stands for one byte of the line; `PasswordLine` and
  `KnownHosts` are about ASCII text, where bytes and code points agree.
- The regular-expression engine, case folding of skip words and HMAC-SHA256 are parameters
  with the shapes their documentation gives: index pairs that are (-1, -1) or lie in
  order inside the line, and a 32-byte result.
- `knownhosts` and `ssh` parsing, address normalisation, hashing a host name under a salt and
  the key check are parameters of `KnownHosts`; the salts drawn during an update and the
  file-system failures are part of each request.
- Go's `int` is modelled as an integer: no modelled function does arithmetic that could wrap.
- Error values are reduced to "failed"; their wording is not modelled.

Where the code does not do what a description of it says, or what one might expect of it,
the code is modelled and the difference is stated as a lemma:

- `README.md:24-25` says identical tokens mean identical secrets. Tokens keep 48 bits of the
  MAC, so under every key some two passwords of fourteen hexadecimal digits share one
  (`SomeSecretsShareAToken`); `TokenShowsDigest` says exactly when two do.
- `obfuscate.go:19-20` says an all-digit secret is not mistaken for a type code. A number of
  one or two digits is, whenever another word follows it on the line: after
  `crypto isakmp key`, the key `12` of `12 address ...` is passed over and `address` is
  captured (`ShortKeyIsPassedOver`). `NumberIsTaken` says exactly which numbers are captured.
- The words of an IOS traceroute do not determine the request when the destination is
  called `vrf`, no vrf is given and some option follows (`VrfHostIsAmbiguous` is an
  instance, `AmbiguousHasTwin` the whole family); `TraceRoundTrip` says the request is
  read back in exactly the other cases.
- An update of known_hosts that drops no line appends one line and leaves the rest byte for
  byte as it was if and only if the text is empty or ends in a newline, and no line of it
  ends in a carriage return (`UpdateKeepsText`, `AddOnlyAppends`); `CarriageReturnIsLost` is
  an input whose bytes change.
- Storing a key twice is storing it once exactly when the second time drops the stored line
  and no other, and no other line ends in a carriage return after the first scan
  (`ReplaceTwice`). A replacing update drops every plain entry of the host
  (`ReplacedHostIsGone`), but a hashed one only if a fresh hash, under a fresh salt, equals
  it (`DroppedIff`).

## Model

| member | source | states |
|---|---|---|
| Spans.MergeIsHulls | internal/netdev/obfuscate.go:219-228 | on spans sorted by start, merging yields non-empty, ordered, non-overlapping spans that cover the same bytes and glue the same neighbours as the input |
| Spans.HullsUnique | internal/netdev/obfuscate.go:219-228 | only one list of disjoint spans has a given union, so the merge result is canonical |
| Spans.MergeOrderIndependent | internal/netdev/obfuscate.go:219-228 | sorted lists with the same spans merge alike, however ties were broken and however often a span occurs |
| Spans.InExactlyOneHull | internal/netdev/obfuscate.go:199-201 | every collected span lies inside exactly one merged span |
| Spans.HullIsTight | internal/netdev/obfuscate.go:221-228 | a merged span starts where one of its spans starts and ends where one of them ends |
| Spans.SameHullIffLinked | internal/netdev/obfuscate.go:221-228 | two spans are merged together if and only if a chain of overlapping spans joins them |
| Obfuscation.SortByStart | internal/netdev/obfuscate.go:219 | the in-place sort: ordered by start and a permutation, nothing more |
| Obfuscation.MergeInPlace | internal/netdev/obfuscate.go:220-228 | merging into a prefix of the array still being read gives the fold of its old contents, and leaves the rest of the array alone |
| Obfuscation.Obfuscator.SetObfuscationKey | internal/netdev/obfuscate.go:154-157 | stores the MAC of the fixed label under the raw key, and its source, and nothing else |
| Obfuscation.Obfuscator.CollectGroups | internal/netdev/obfuscate.go:206-212 | the group loop adds the spans of the kept groups, in order |
| Obfuscation.Obfuscator.Collect | internal/netdev/obfuscate.go:203-214 | the three nested loops collect the spans of all patterns |
| Obfuscation.Obfuscator.WriteLine | internal/netdev/obfuscate.go:230-238 | the builder loop writes gaps and tokens |
| Obfuscation.Obfuscator.ObfuscateLine | internal/netdev/obfuscate.go:202-239 | collecting, sorting, merging in place and rewriting compute the line described by the laws, whatever the sort did with ties |
| Obfuscation.Obfuscator.ObfuscateLines | internal/netdev/obfuscate.go:173-177 | overwrites each line with its obfuscation and reports whether any was hashed |
| Obfuscation.Obfuscator.Obfuscate | internal/netdev/obfuscate.go:165-179 | splits, obfuscates and joins; fails exactly when obfuscation is on without a key; returns the text unchanged when it is off |
| Obfuscation.Obfuscator.ObfuscatedResult | internal/netdev/obfuscate.go:185-195 | the notice is a second block exactly when obfuscation is on, the key is the ephemeral one and some line has a capture |
| Redaction.CollectedIffCaptured | internal/netdev/obfuscate.go:203-217 | a span is collected if and only if some pattern captures it, it is not empty, and no skip word of that pattern equals it under folding |
| Redaction.AnySortGivesLineHulls | internal/netdev/obfuscate.go:219-228 | every sort by start of the collected spans leads to the same merged spans |
| Redaction.LineHullsAreHulls | internal/netdev/obfuscate.go:219-239 | the merged spans of a line are the hulls of its captures, lie in the line, and are absent exactly when nothing was captured |
| RedactionLaws.LineIsWoven | internal/netdev/obfuscate.go:230-238 | the output is the gaps woven with tokens; the same gaps woven with the secrets are the input |
| RedactionLaws.UncapturedByteSurvives | internal/netdev/obfuscate.go:230-238 | a byte no capture covers is in the output, shifted by the tokens before it |
| RedactionLaws.CaptureIsReplaced | internal/netdev/obfuscate.go:199-249 | each capture lies in one merged span, and in its place the output shows the first six bytes of the MAC of that whole span under the caller's key |
| RedactionLaws.LineLength | internal/netdev/obfuscate.go:230-249 | output length: input length minus covered bytes plus 16 per merged span |
| RedactionLaws.PatternOrderDoesNotMatter | internal/netdev/obfuscate.go:46-49 | reordering or repeating patterns changes no line |
| RedactionLaws.HexRoundTrip | internal/netdev/obfuscate.go:247-249 | the hexadecimal digits of a token read back as the MAC bytes |
| RedactionLaws.TokenShowsMac | internal/netdev/obfuscate.go:245-249 | the token is the one string that is "[h:", twelve lower-case hexadecimal digits that read back as the first six bytes of the secret's MAC under the key, and "]" |
| RedactionLaws.TokenShowsDigest | internal/netdev/obfuscate.go:245-249 | two tokens are equal exactly when the first six MAC bytes under the key are |
| RedactionLaws.Comparability | internal/netdev/obfuscate.go:159-163 | lines that agree outside their secrets have equal outputs exactly when their secrets agree, one by one, in the truncated MAC |
| RedactionLaws.SomeSecretsShareAToken | README.md:23-25 | under any key some two different passwords of fourteen hexadecimal digits have the same token |
| RedactionLaws.LinesCorrespond | internal/netdev/obfuscate.go:172-178 | line k of the output is the obfuscation of line k, and the number of lines is unchanged |
| RedactionLaws.NewlineHomomorphism | internal/netdev/obfuscate.go:172-178 | obfuscating two texts joined by a newline joins their obfuscations and combines the flags by or |
| RedactionLaws.HashedIffCaptured | internal/netdev/obfuscate.go:165-217 | the flag is set exactly when some line has a capture; otherwise the text is unchanged |
| Regex.StarUnrolls | internal/netdev/obfuscate.go:21 | greedy repetition before anything else: one more iteration is preferred to none |
| Fragments.TypeTokenMatches | internal/netdev/obfuscate.go:17-21 | the alternatives match exactly one- and two-digit codes, md5, sha with digits and sha- with digits |
| Fragments.QuotedIsScanner | internal/netdev/obfuscate.go:22-24 | a quoted value matches in at most one way, the one a one-flag scanner finds |
| FragmentLaws.SecretIsScanner | internal/netdev/obfuscate.go:17-27 | the first match of type words, blanks and a value is exactly what a one-pass scanner takes |
| FragmentLaws.ValueWord | internal/netdev/obfuscate.go:17-27 | the value starts at the first word that is not a type word, or at the last word if all are |
| FragmentLaws.FirstWordIsTaken | internal/netdev/obfuscate.go:17-27 | the first word, unless it opens a quote, is the value iff it is no type word or no other word follows |
| FragmentLaws.NumberIsTaken | internal/netdev/obfuscate.go:19-20 | an all-digit first word is the value iff it has three or more digits or no other word follows |
| FragmentLaws.ShortKeyIsPassedOver | internal/netdev/obfuscate.go:19-20 | of ` 12 address` the number is skipped and the next word captured |
| FragmentLaws.TypeWordSamples | internal/netdev/obfuscate.go:17-21 | 7, md5, sha512 and sha-256 are type words; 100, md4 and sha- are not |
| FragmentLaws.QuotedEndsAtUnescapedQuote | internal/netdev/obfuscate.go:22-24 | a quoted value ends at q iff q is the first quote an even run of backslashes precedes; no such quote, no match |
| FragmentLaws.EscapedIsCaptured | internal/netdev/obfuscate.go:22-24 | any string, escaped and quoted, is captured whole whatever surrounds it |
| FragmentLaws.QuotedSecretIsCaptured | internal/netdev/obfuscate.go:17-27 | after any type words a quoted secret is captured whole and alone |
| PasswordLine.GroupsInLine | internal/netdev/obfuscate.go:205-209 | captured groups lie in order inside the line, as the span loop relies on |
| PasswordLine.FindPasswordIsValid | internal/netdev/obfuscate.go:99-100 | the password pattern is an expression the span engine accepts |
| PasswordLine.PasswordFirst | internal/netdev/obfuscate.go:99-100 | after leading blanks and the keyword, its match is that of the fragments |
| PasswordLine.PasswordIsReplaced | internal/netdev/obfuscate.go:99-100 | whatever the other patterns are, a quoted secret after password lies in one merged span, replaced by one token |
| PasswordLine.PasswordWordIsReplaced | internal/netdev/obfuscate.go:99-100 | the same for a bare value: the first word that is no type word, or the last word |
| ArgumentPattern.ArgIffMatches | internal/netdev/command_safety.go:17-33 | an argument is accepted iff it is empty, or at most 255 long and matched from end to end by the expression as written |
| ArgumentPattern.ArgSamples | internal/netdev/command_safety.go:17-20 | addresses and interface names are accepted; quotes, blanks, pipes and redirection are refused |
| CommandSafety.ArgIsOneWord | internal/netdev/command_safety.go:17-33 | an accepted argument is one word free of separators, pipes and redirection |
| CommandGrammar.AcceptsIffDerives | internal/netdev/command_safety.go:72-109 | the checker accepts a command if and only if the grammar generates it |
| CommandGrammar.DerivedIsAccepted | internal/netdev/command_safety.go:75-109 | generated commands are accepted and split into exactly their stages |
| CommandGrammar.SegmentIsFilter | internal/netdev/command_safety.go:93-107 | a clean segment passes iff its first word is an allowed filter, with one listed format after display on JunOS |
| CommandGrammar.CleanIsOneLine | internal/netdev/command_safety.go:76-87 | text passes the character checks iff it holds no command separator and no redirection |
| CommandGrammar.OneCommand | internal/netdev/command_safety.go:11-14 | however a device separates commands, an accepted command is one command |
| CommandGrammar.NoWritingFilter | internal/netdev/command_safety.go:49-59 | no stage of an accepted show or get command, the first included, is save, redirect, tee, append or request, in any letter case |
| CommandGrammar.PipesAreAllowed | internal/netdev/command_safety.go:53-70 | the lists by platform are the table by filter that the grammar uses |
| CommandGrammar.PipeTable | internal/netdev/command_safety.go:53-70 | NX-OS allows the IOS filters and eight more; an unspecified platform allows those of EOS and those of IOS |
| CommandGrammar.AppendFilter | internal/netdev/command_safety.go:89-108 | appending a filter is allowed iff the command is and the filter is |
| CommandGrammar.NxosAcceptsMore | internal/netdev/device_type.go:82-101 | a command normalised for EOS, IOS or an unspecified platform is accepted unchanged for NX-OS |
| CommandGrammar.NormalizeAccepts | internal/netdev/device_type.go:82-122 | on every platform a command is accepted iff the grammar generates its trimmed form and that form has none of the prefixes kept for get_config, JunOS configuration included |
| CommandGrammar.NormalizeIdempotent | internal/netdev/device_type.go:82-122 | normalising only trims, is a fixed point, and yields a generated command without the blocked prefixes |
| CommandGrammar.FortiOSAcceptsExactlyGet | internal/netdev/device_type.go:103-122 | the FortiOS prefix tests refuse nothing beyond "is a clean get pipeline" |
| CommandBuilders.BuildPingCommands | internal/netdev/device_type.go:124-193 | succeeds on exactly the requests whose arguments match the expression and whose options the platform has; then the one command reads back as the request, and a FortiOS batch runs exactly one such ping from any device state |
| DeviceCommands.FortiPing | internal/netdev/device_type.go:133-153 | the batch grown option by option |
| DeviceCommands.GrowPing | internal/netdev/device_type.go:163-192 | the word list grown clause by clause |
| CommandBuilders.BuildTracerouteCommands | internal/netdev/device_type.go:195-268 | as for ping; off FortiOS it reads back iff it is not a vrf-named IOS host with an option |
| DeviceCommands.FortiTrace | internal/netdev/device_type.go:209-223 | as for ping |
| DeviceCommands.GrowTraceroute | internal/netdev/device_type.go:230-267 | as for ping, with the vrf first on IOS |
| DeviceReading.PingRoundTrip | internal/netdev/device_type.go:155-192 | one command, which splits into the printed words and which a device with the platform's own keywords reads as the request, numbers included |
| DeviceReading.PingCommandDeterminesRequest | internal/netdev/device_type.go:163-192 | pings that print alike ask for the same thing |
| DeviceReading.TraceRoundTrip | internal/netdev/device_type.go:226-267 | as for ping, if and only if the request is not a vrf-named IOS host with an option |
| DeviceReading.TraceCommandDeterminesRequest | internal/netdev/device_type.go:230-267 | unambiguous traceroutes that print alike ask for the same thing |
| DeviceReading.AmbiguousHasTwin | internal/netdev/device_type.go:233-237 | every ambiguous request prints the same command as a different supported one, so no reader could tell them apart |
| DeviceReading.VrfHostIsAmbiguous | internal/netdev/device_type.go:233-237 | two different IOS requests that print the same line |
| FortiSession.RunCommands | internal/sshclient/client.go:112-127 | fails exactly on no commands or a blank one; single-line commands reach the device trimmed, one line each |
| FortiSession.SentIsSplitBack | internal/sshclient/client.go:117-126 | splitting the sent text at newlines gives the commands back |
| FortiSession.FortiPingSession | internal/netdev/device_type.go:128-153 | from any option state: every line understood, one probe with the requested options over those set, defaults afterwards |
| FortiSession.FortiTraceSession | internal/netdev/device_type.go:199-223 | the same for traceroute |
| FortiSession.JobsDoNotLeak | README.md:110-112 | over any run of batches, each probe has exactly its own options |
| KnownHostsClient.Client.LineMatchesHost | internal/sshclient/client.go:432-460 | true iff the line is no comment, parses, and lists the host's address (the bare host on port 0 or 22, host and port otherwise) as it is or as its fresh hash |
| KnownHostsClient.Client.ScanKept | internal/sshclient/client.go:409-422 | the scanner loop keeps the lines not replaced, or fails as the scanner does |
| KnownHostsClient.Client.UpsertKnownHost | internal/sshclient/client.go:397-430 | the new file, or an unchanged one after any error before the write; after a replacing update the host is named plainly by no line but the last |
| KnownHostsClient.Client.TrustHostKey | internal/sshclient/client.go:217-255 | the whole outcome: unknown hosts are added, mismatches replaced only on request, trusted keys left alone; every refusal or early failure leaves the file as it was |
| KnownHostsLaws.ScanIsSplit | internal/sshclient/client.go:409-422 | for any text the scanner fails iff some line is 64 KiB long or longer, and otherwise yields every line, the unfinished last one too, less one carriage return |
| KnownHostsLaws.ScanWritten | internal/sshclient/client.go:409-426 | scanning what was written gives the lines back iff none is too long or ends in a carriage return |
| KnownHostsLaws.UpdateKeepsText | internal/sshclient/client.go:409-429 | an update that drops nothing appends one line to the text iff the text is plain; otherwise it changes existing bytes |
| KnownHostsLaws.CarriageReturnIsLost | internal/sshclient/client.go:409-429 | a one-line file with a CRLF line end whose bytes an update changes |
| KnownHostsLaws.UpsertLines | internal/sshclient/client.go:409-429 | any file that scans still scans after an update, which does to its lines what it says |
| KnownHostsLaws.AddOnlyAppends | internal/sshclient/client.go:409-429 | without replacing, any text that scans is extended by one line iff it is plain |
| KnownHostsLaws.ReplaceTwice | internal/sshclient/client.go:414-425 | for any file that scans and any salts, storing a key again changes nothing iff it drops the stored line and no other, and no other scanned line ends in a carriage return |
| KnownHostsLaws.DroppedIff | internal/sshclient/client.go:414-457 | exactly which lines an update drops: replacing, no comment, parsed, and naming the address plainly or by a fresh hash |
| KnownHostsLaws.ReplacedHostIsGone | internal/sshclient/client.go:412-426 | after a replacing update the last line is the key and no other names the host plainly |
| KnownHostsLaws.TrustHasOutcome | internal/sshclient/client.go:217-255 | every trust operation has the outcome its state, request and failures call for |
| KnownHostsLaws.ApplyIsSurvivors | internal/sshclient/client.go:412-424 | any sequence of stores leaves the undropped old lines, less a carriage return per scan, then the undropped stored ones |
| KnownHostsLaws.RunKeepsLines | internal/sshclient/client.go:217-255 | over any run of trust operations on any file, failures included, the lines are the undropped ones of the file last left by a failing write, then those stored since |
| KnownHostsLaws.BaseIsOriginal | internal/sshclient/client.go:217-255 | when no write fails half-way that file is the original one |
| KnownHostsLaws.InertLinesSurviveRun | internal/sshclient/client.go:432-441 | comments, blanks, unparseable lines and lines that no stored host or fresh hash matches survive any run, in order and less a carriage return per scan |
| KnownHostsLaws.WithoutReplaceOnlyGrows | internal/sshclient/client.go:409-424 | if nothing asks to replace, the lines of that same file are still the first ones, in place, less a carriage return per scan |
| KnownHostsLaws.LastStoredIsLastLine | internal/sshclient/client.go:424-426 | the key stored last in a run, failures included, is the last line |
| Text.FieldsJoin | internal/netdev/device_type.go:192 | words joined by spaces split back into themselves |
| Text.ParseDecimalPrinted | internal/netdev/device_type.go:169 | a printed number reads back |

## Left out

- SSH dialing, sessions, authentication, agent sockets and fetching host keys: network I/O.
- The pattern table: the span engine is proved for any patterns, and one entry is followed end to end; that every real secret is matched is not a property of the code, which calls itself best-effort.
- Byte strings that are not valid UTF-8 as commands: commands are sequences of code points.
- Non-ASCII known_hosts text: the scanner limit counts bytes, which the model identifies with characters.
- Two equal lines in one file draw salts of their own in the code; the model gives one update one salt for each distinct trimmed line.
- The prefixes `show ru`, `show sta` and `show configuration` as statements about words: they are modelled as the single-space prefix tests the code makes.
- `LoadObfuscationKey`, `normalizeDeviceType`, `normalizeConfigType`, `buildConfigCommand`, `Configure` and the path checks: each is settled by reading one branch.
- MCP handlers, schemas, logging, flags and environment variables; the handlers' check that a destination is given appears as a hypothesis of the command laws.
- Reallocation when `append` outgrows a slice: collected spans are a sequence until they are sorted, and an array from then on.
- KnownHostsLaws.RunKeepsLines: assumes that the key line of each request is a single line within the scanner's limit, as `knownhosts.Line` makes it; so do UpsertLines, ReplaceTwice, the other laws about runs, and what the outcome of one operation says about scanned lines (that the text ends with the key line needs no assumption).
