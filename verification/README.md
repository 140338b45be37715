# Log rotation and address texts of the network library

This project models two parts of the library and proves what they do for every input.

**Log rotation** (`Net_Server_Common_Tools::getNextLogFileName`). A log directory is an object with a map from
file names to contents. One call lists the names that start with the prefix in `strcmp` order, walks through
them from the last to the first, deletes or renames the numbered logs, and moves the current log to slot 1.
`rename` replaces its target, as POSIX says, so a wrong target loses a log. The questions are which logs
survive, in which slots, in which order of age, and what is left after any number of restarts.

- `LogSlots`: the renaming loop with the names taken away (which slot numbers move where; the pigeonhole
  arguments).
- `LogNames`: file names, `strcmp` order, the listing, and the `sscanf` conversion that reads a number from a name.
- `LogDirectory`: the directory as a class whose methods follow the source statement by statement, each tied to a
  function of the old state (`Visit`, `VisitDown`, `Rotated`).
- `LogRotation`, `LogSafety`: what one rotation does to every file, and when it overwrites one.
- `LogOrder`: exactly when a rotation overwrites nothing and keeps the order of age, for any numbers in any order.
- `LogRuns`, `LogLimit`: what any sequence of writes and restarts leaves, and for how many files this holds.
- `LogWritten`: the same for the code as written, which looks for the number in the wrong place.

**Texts** (`Net_Common_Tools`). Regular expressions recognise IPv6 and IPv4 addresses, URLs and the lines of the
routing table; printers and small string edits go the other way.

- `Regex`: regular expressions with a language (`Matches`) and with the prioritised backtracking search of
  `std::regex` (`Run`, `Match`), which decides the captures. `MatchIff` connects the two.
- `Ipv6`, `Ipv6Meaning`, `Ipv4`, `Url`, `Route`: the literal patterns, each proved equal to a grammar or to a
  scanner that reads from left to right and never goes back.
- `AddressText`: the brackets and ports that are added before the socket library parses an address, and removed
  after it printed one.
- `Words`, `Subnet`: 32-bit words, byte order, and the two platform branches of the search for an interface.
- `Hexadecimal`, `Uuid`, `LinkLayer`: the packing and printing of UUIDs, and Ethernet addresses as text.
- `Decimal`, `Separated`, `Options`: decimal numerals, fields with separators, a value that may be missing.

## What the proofs say about the code as written

- The number in a log's name is looked for `programName_in.size ()` characters into the name. When the program
  name is the prefix, that is the underscore, and no number is ever read (`LogNames.ReadsBackIff`,
  `LogNames.LiteralSkipsSlots`). The numbered logs then stay where they are and the current log replaces the one
  in slot 1: a log is lost exactly when both are there (`LogRotation.LiteralKeepsIff`). After any writes and
  restarts slot 1 holds the newest old log and all others of the run are gone (`LogWritten.RunKeepsOne`), so this
  code keeps its promise only for a maximum of 2 files (`LogWritten.WrittenRetentionIff`). `NextLogFileName` is the
  code as written. The other rotation theorems are about `RotateLogs` with the start given by the documented
  schema `<PREFIX>[_<NUMBER>]<SUFFIX>`, one character further on (`LogNames.Schema`).
- The loop relies on descending numbers but gets names in `strcmp` order. The two orders agree exactly when no
  number exceeds the leading digits of a larger one (`LogRotation.NumericOrderIff`), and a rotation overwrites
  nothing and keeps the order of age exactly then, if there is room (`LogOrder.OrderKeptIff`,
  `LogOrder.InRangeOrderKeptIff`). With the numbers 9 and 10 a log can be lost (`LogRotation.TenAfterNine`). With 2,
  10, 11 and 12 the unsigned index wraps and a log ends up in slot 0 (`LogOrder.IndexWraps`).
- Runs keep the newest logs in order if and only if the maximum is at most 10 files (`LogLimit.RetentionIff`; the
  shipped maximum is 5). With any larger maximum the eleventh restart loses a log that should be kept
  (`LogLimit.EleventhRestartLoses`).
- A program name that does not start with the prefix makes the current log invisible to the listing; it is then
  deleted by the probe at the end (`LogSafety.UnlistedCurrentLost`).
- With numbers above `maximum - 1`, or out of order, a rename can replace a log. It does exactly when a log is aimed
  at a number that is met later, or at the number another log was aimed at, or at 1 although there is a current log
  (`LogOrder.NothingOverwrittenAnyOrderIff`). For numbers met in descending order this is a matter of free slots
  (`LogSafety.NothingOverwrittenIff`).
- The pattern for IPv6 addresses does not accept six groups in front of a dotted quad
  (`Ipv6Meaning.SixGroupsAndQuadRejected`), which section 2.2 of RFC 4291 allows.
- An IPv6 address shown together with its port can be read as another IPv6 address
  (`AddressText.PortTakenForGroupIff`), and never gives back what the socket library had printed
  (`AddressText.PortNeverReturns`).
- In `makeUUID` the time's high part and the version are two members of one union, and so are the high part of
  the clock sequence and the variant. The second assignment goes over the low bits of the first, and the bits
  where RFC 4122 looks for version and variant are never written (`Uuid.VersionAndVariantIff`). The packing is
  lossless exactly for the inputs that have the version and the variant in the bits overwritten
  (`Uuid.TimeRecoveredIff`, `Uuid.ClockRecoveredIff`).
- The node of a UUID is printed without padding. Exactly which nodes share their text with another one of the same
  length is said by `Uuid.SharedTextIff`.
- Letters and `://` without a host give a "URL" whose host is the letters (`Url.SchemeTakenForHostIff`).
- The Windows search looks at the first IPv4 address of an adapter only, the Linux search at all of them
  (`Subnet.SearchesAgreeIff`).

## Model

Functions without a promise of their own (`Rotate`, `Visit`, `Rotated`, `Run`, `Scan`, `Pack` and others) are
the specifications that the members below speak about.

| member | source | states |
|---|---|---|
| LogDirectory.LogDirectory.Rename | src/client_server/net_server_common_tools.cpp:260-263 | POSIX rename: fails only without a source, replaces the target, changes nothing else |
| LogDirectory.LogDirectory.Delete | src/client_server/net_server_common_tools.cpp:234-237 | the named file is gone, all others are as before |
| LogDirectory.LogDirectory.Create | src/client_server/net_server_common_tools.cpp:310 | an existing file keeps its content, a missing one appears |
| LogDirectory.LogDirectory.VisitEntry | src/client_server/net_server_common_tools.cpp:182-276 | the loop body with its early exits changes directory, index and flag as the function Visit says; the rename never fails |
| LogDirectory.LogDirectory.RenameNumbered | src/client_server/net_server_common_tools.cpp:168-277 | the loop from the last entry to the first computes VisitDown on the old directory, and its source files are always there |
| LogDirectory.LogDirectory.RotateLogs | src/client_server/net_server_common_tools.cpp:140-329 | the whole call turns the directory into Rotated of the old one and returns the name of the current log, for any place where numbers are looked for |
| LogDirectory.LogDirectory.NextLogFileName | src/client_server/net_server_common_tools.cpp:76-329 | the same for the place the source uses |
| LogDirectory.VisitDown | src/client_server/net_server_common_tools.cpp:178-277 | the flag is set exactly when the current log is listed, and the loop never loses the current log |
| LogDirectory.ListingVisitable | src/client_server/net_server_common_tools.cpp:146-148 | a sorted listing names every file once, so each is still there when the loop reaches it |
| LogNames.ListingExists | src/client_server/net_server_common_tools.cpp:46-73 | every directory has such a listing |
| LogNames.StrLessTotal | src/client_server/net_server_common_tools.cpp:65-73 | the comparator orders any two different names |
| LogNames.StrLessTransitive | src/client_server/net_server_common_tools.cpp:65-73 | the comparator is transitive |
| LogNames.StrLessIrreflexive | src/client_server/net_server_common_tools.cpp:65-73 | no name comes before itself |
| LogNames.NumeralOrder | src/client_server/net_server_common_tools.cpp:65-73 | numerals of the same length are listed in numeric order |
| LogNames.SlotOrder | src/client_server/net_server_common_tools.cpp:65-73 | which of two numbered logs is listed first, exactly |
| LogNames.NamesSpelled | src/client_server/net_server_common_tools.cpp:247-257 | the names of numbered logs and of the current one, character by character |
| LogNames.SlotInjective | src/client_server/net_server_common_tools.cpp:247-257 | different numbers give different file names |
| LogNames.ScanIff | src/client_server/net_server_common_tools.cpp:197-208 | for every text: the scanner reads a number if and only if there are digits behind white space and at most one sign, and which number that is |
| LogNames.SchemaReadsBack | src/client_server/net_server_common_tools.cpp:197-208 | started behind the underscore, the scanner reads back the number that was printed |
| LogNames.ReadsBackIff | src/client_server/net_server_common_tools.cpp:197-208 | it reads all numbers back if and only if it starts behind the underscore |
| LogNames.LiteralSkipsSlots | src/client_server/net_server_common_tools.cpp:197-208 | started at the underscore it reads no number |
| LogSlots.RotateLifts | src/client_server/net_server_common_tools.cpp:218-276 | with all numbers in range and met in descending order, the logs below the highest free slot move up by one and the others stay |
| LogSlots.RotateFull | src/client_server/net_server_common_tools.cpp:218-276 | with too many files and numbers met in descending order, the numbers from maximum - 1 on are deleted and all others move up by one, without overwriting |
| LogSlots.SafeIff | src/client_server/net_server_common_tools.cpp:218-276 | a pass over descending numbers overwrites nothing if and only if the slots that the k logs above the index need are free |
| LogSlots.TargetsDescend | src/client_server/net_server_common_tools.cpp:175-276 | if the numbers are met in descending order, the unsigned index does not wrap: the targets strictly decrease and stay within 1..maximum - 1 |
| LogSlots.FullTargetsDescend | src/client_server/net_server_common_tools.cpp:218-240 | the same with too many files, whatever the order of the numbers that are deleted |
| LogSlots.SafeDelivers | src/client_server/net_server_common_tools.cpp:218-276 | a pass that overwrites nothing, in any order, delivers each log that is not deleted to its target |
| LogSlots.FirstAscent | src/client_server/net_server_common_tools.cpp:218-276 | two logs met one after the other in ascending order get descending targets |
| LogSlots.SafeFullIff | src/client_server/net_server_common_tools.cpp:218-276 | with too many files, a pass over numbers that descend apart from the deleted ones overwrites a file if and only if maximum - 2 is met before maximum - 1 |
| LogSlots.RotateOccupies | src/client_server/net_server_common_tools.cpp:218-276 | after the pass, each numbered log sits in one of the targets |
| LogSlots.AllTaken | src/client_server/net_server_common_tools.cpp:224-227 | pigeonhole: numbers that take all slots 1..top are at least top many |
| LogRotation.VisitDownSimulates | src/client_server/net_server_common_tools.cpp:178-277 | for numbers met in any order, the loop on file names does to the numbered logs and to the index what Rotate does to slots, and nothing to any other file |
| LogRotation.LoopOnSlots | src/client_server/net_server_common_tools.cpp:175-307 | the same for the whole directory |
| LogRotation.RotationAges | src/client_server/net_server_common_tools.cpp:175-307 | numbers met in descending order and in range, fewer than maximum files: every log is kept, the ones up to the highest free slot move up by one, the current log becomes number 1, other files are untouched |
| LogRotation.RotationDrops | src/client_server/net_server_common_tools.cpp:175-307 | numbers met in descending order, maximum or more files: the logs from maximum - 1 on are dropped, all others move up by one, other files are untouched |
| LogRotation.AgingKeepsOrder | src/client_server/net_server_common_tools.cpp:218-277 | surviving logs move by at most one slot and keep their order of age |
| LogRotation.DescendingIff | src/client_server/net_server_common_tools.cpp:161-163 | the loop meets descending numbers exactly when their names are listed in numeric order |
| LogRotation.NumericOrderIff | src/client_server/net_server_common_tools.cpp:161-163 | the same as a condition on the numbers alone: none exceeds the leading digits of a larger one |
| LogRotation.PrecedesIff | src/client_server/net_server_common_tools.cpp:161-163 | of two numbers, the one with the name listed last is met first |
| LogRotation.TenAfterNine | src/client_server/net_server_common_tools.cpp:161-163 | with 9 and 10 in the directory the order fails and a log is lost |
| LogRotation.LiteralRotation | src/client_server/net_server_common_tools.cpp:197-208 | the code as written, with the program name as prefix, only moves the current log over slot 1 |
| LogRotation.LiteralKeepsIff | src/client_server/net_server_common_tools.cpp:197-208 | it keeps all logs if and only if it does not find both a current log and a log in slot 1 |
| LogRotation.LiteralLosesLog | src/client_server/net_server_common_tools.cpp:197-208 | a concrete directory of two logs in which one is lost |
| LogSafety.SlotOneFree | src/client_server/net_server_common_tools.cpp:282-301 | numbers met in descending order: slot 1 is free when the current log is moved there |
| LogSafety.NothingOverwrittenIff | src/client_server/net_server_common_tools.cpp:175-307 | numbers met in descending order: exactly when no rename of a rotation replaces another file |
| LogSafety.InRangeNothingOverwritten | src/client_server/net_server_common_tools.cpp:175-307 | numbers met in descending order and in 1..maximum - 1: no rename replaces another file |
| LogSafety.NumbersBounded | src/client_server/net_server_common_tools.cpp:175-277 | numbers met in descending order: however large they were, afterwards all lie within 1..maximum - 1 |
| LogSafety.UnlistedCurrentLost | src/client_server/net_server_common_tools.cpp:56-60 | a current log that does not start with the prefix is lost |
| LogSafety.ListedCurrentMoves | src/client_server/net_server_common_tools.cpp:282-301 | one that does ends up in slot 1 with its content, wherever numbers are looked for |
| LogOrder.OrderKeptIff | src/client_server/net_server_common_tools.cpp:175-307 | for any numbers in any order and logs of different contents (so that contents tell where a log went): nothing is overwritten and the order of age is kept if and only if no number exceeds the leading digits of a larger one (deleted ones aside) and there is room above or at maximum - 1 |
| LogOrder.NothingOverwrittenAnyOrderIff | src/client_server/net_server_common_tools.cpp:175-307 | for any numbers in any order: no rename replaces a file if and only if no log is aimed at a number met later, no two at the same number, and none at 1 when there is a current log |
| LogOrder.InRangeOrderKeptIff | src/client_server/net_server_common_tools.cpp:175-307 | with fewer than maximum files and numbers in 1..maximum - 1, the leading digits alone decide |
| LogOrder.NothingLost | src/client_server/net_server_common_tools.cpp:175-307 | when nothing is overwritten, in whatever order, every log that is not deleted is in some slot afterwards |
| LogOrder.Delivered | src/client_server/net_server_common_tools.cpp:218-276 | namely in the slot its rename aimed at |
| LogOrder.DisorderShows | src/client_server/net_server_common_tools.cpp:161-163 | when nothing is overwritten but the numbers are met out of order, two logs change their order of age |
| LogOrder.CurrentHasRoom | src/client_server/net_server_common_tools.cpp:282-301 | in order, slot 1 is free for the current log, with any number of files |
| LogOrder.IndexWraps | src/client_server/net_server_common_tools.cpp:175-276 | with the logs 2, 10, 11 and 12 and a current log, the index wraps to 2^32 - 1, a log lands in slot 0, and a log is overwritten |
| LogRuns.FullMeansAllTaken | src/client_server/net_server_common_tools.cpp:224-227 | in a tidy directory with one-digit numbers the count test is true only if the current log and all slots are there |
| LogRuns.TidyRotation | src/client_server/net_server_common_tools.cpp:175-326 | one rotation of a tidy directory with one-digit numbers: at most the last slot is dropped, and only when everything is full; the directory stays tidy |
| LogRuns.RunKeepsNewest | src/client_server/net_server_common_tools.cpp:175-326 | with at most 10 files, from any directory whose logs are in range: after any sequence of writes and restarts the numbered logs are the newest maximum - 1 old logs in order of age, the current log is intact, other files are untouched |
| LogRuns.RunKeepsInPlace | src/client_server/net_server_common_tools.cpp:175-326 | with at most 10 files, from a directory without gaps, when every restart finds a current log: slot j holds the j-th newest old log, and no other slot is used |
| LogLimit.RetentionIff | src/client_server/net_server_common_tools.cpp:175-326 | for every maximum from 2 on: all runs from a directory without old logs keep the newest logs, and in place, if and only if the maximum is at most 10 |
| LogLimit.EleventhRestartLoses | src/client_server/net_server_common_tools.cpp:175-326 | with any maximum above 10, eleven times writing and restarting is such a run that fails |
| LogLimit.TenthLost | src/client_server/net_server_common_tools.cpp:218-276 | whenever exactly the slots 1 to 10 are in use, there is a current log and more than 10 files are allowed, slot 10 is empty after the rotation |
| LogWritten.RunKeepsOne | src/client_server/net_server_common_tools.cpp:197-208 | with the number looked for where the source does and the program name as prefix: after any writes and restarts slot 1 holds the newest old log, the current log is intact, and no other file has changed |
| LogWritten.WrittenKeepsIff | src/client_server/net_server_common_tools.cpp:197-208 | every such run from a directory without old logs: the newest maximum - 1 old logs are kept if and only if there is at most one old log, or the maximum is 2 |
| LogWritten.WrittenRetentionIff | src/client_server/net_server_common_tools.cpp:197-208 | for every maximum from 2 on: all such runs keep them if and only if the maximum is 2 |
| Regex.RunAccepts | src/net_common_tools.cpp:478-481 | the backtracking search finds a match if and only if one exists, from any position and with any continuation |
| Regex.RunAlternatives | src/net_common_tools.cpp:478-481 | of two alternatives the left one is taken exactly when the rest can be matched after it |
| Regex.MatchIff | src/net_common_tools.cpp:478-481 | regex_match succeeds exactly on the strings of the language |
| Regex.RunGroupDecided | src/net_common_tools.cpp:2837 | a captured run of a class ends at its maximal end when no earlier end can be continued |
| Regex.ClassesAre | src/net_common_tools.cpp:472 | the characters of the classes that the patterns use, and of "." |
| Regex.OneLineIff | src/net_common_tools.cpp:4727 | "." repeated covers exactly the texts without line feed and carriage return |
| Ipv6.HexFormsMatch | src/net_common_tools.cpp:472 | the nine hexadecimal alternatives accept exactly eight groups, or groups around one "::" with at most seven in all (forms 1 and 2 of section 2.2 of RFC 4291) |
| Ipv6.OctetMatches | src/net_common_tools.cpp:472 | the octet pattern accepts exactly one to three digits up to 255, three digits from 100 on |
| Ipv6.QuadFormsMatch | src/net_common_tools.cpp:472 | the two alternatives with a dotted quad accept exactly the listed mixed forms |
| Ipv6.ZonedMatches | src/net_common_tools.cpp:472 | the zone alternative accepts exactly "fe80:", at most four groups of at most four hexadecimal characters each behind a colon, "%", and one or more letters and digits |
| Ipv6.PatternMatches | src/net_common_tools.cpp:466-506 | matchIPv6Address accepts the hexadecimal forms, the mixed forms and the texts with a zone, and nothing else |
| Ipv6.AcceptsIff | src/net_common_tools.cpp:466-506 | without "%", it accepts exactly the texts of well-formed addresses |
| Ipv6.ZoneAcceptsIff | src/net_common_tools.cpp:466-506 | with "%", it accepts exactly the texts of that form |
| Ipv6.NoPercent | src/net_common_tools.cpp:472 | no well-formed address has a zone |
| Ipv6.ZonedHasPercent | src/net_common_tools.cpp:472 | every text of that form has a "%" |
| Ipv6Meaning.SplitGivesFields | src/net_common_tools.cpp:466-506 | splitting an accepted text at its colons gives its fields back |
| Ipv6Meaning.TextInjective | src/net_common_tools.cpp:466-506 | a text is the text of one address only: its split around "::" is unique |
| Ipv6Meaning.GroupsBound | src/net_common_tools.cpp:466-506 | every address has eight 16-bit groups, a dotted quad counting as two |
| Ipv6Meaning.GroupAt | src/net_common_tools.cpp:466-506 | which number stands in each of the eight groups, in the order of the text |
| Ipv6Meaning.NumberInjective | src/net_common_tools.cpp:466-506 | different groups make different numbers |
| Ipv6Meaning.NumberAt | src/net_common_tools.cpp:466-506 | each group is found at its 16 bits of the number, the first group at the highest |
| Ipv6Meaning.AcceptedDenotes | src/net_common_tools.cpp:466-506 | every accepted text without a zone denotes exactly one 128-bit address |
| Ipv6Meaning.SixGroupsAndQuadRejected | src/net_common_tools.cpp:472 | six groups and a dotted quad are never accepted |
| Ipv4.MatchIsScan | src/net_common_tools.cpp:424-432 | the captures of the pattern are what a scanner finds, for every string |
| Ipv4.CapturesAre | src/net_common_tools.cpp:424 | the captured groups of a matching text are its fields between the dots |
| Ipv4.CheckGroups | src/net_common_tools.cpp:440-460 | the loop accepts exactly four fields that are empty, or at most 255 without a leading zero |
| Ipv4.MatchIpv4 | src/net_common_tools.cpp:418-463 | matchIPv4Address accepts exactly the texts that split into four such fields |
| Ipv4.PrintedIsRead | src/net_common_tools.cpp:418-463 | every printed 32-bit address is accepted and read back |
| Ipv4.PrintedFields | src/net_common_tools.cpp:418-463 | the four fields of a printed address are its bytes, most significant first |
| Ipv4.ReadIsPrinted | src/net_common_tools.cpp:418-463 | every accepted text without empty fields is the printed form of what it is read as |
| Url.MatchIsScan | src/net_common_tools.cpp:4727 | greedy backtracking captures scheme, host and port exactly as a scanner that never goes back, for every string |
| Url.CallsFollowScan | src/net_common_tools.cpp:4718-4796 | the results of both calls in terms of the scanner, error paths included |
| Url.ReadsOutcome | src/net_common_tools.cpp:4718-4796 | what both calls return for every text that reads like that, in all four forms, and when the assertion fails |
| Url.UrlRoundTrip | src/net_common_tools.cpp:4718-4796 | scheme and host come back from every assembled URL, with any rest of the same line that begins with '/' |
| Url.HostNameIdempotent | src/net_common_tools.cpp:4718-4762 | extracting scheme and host a second time changes nothing |
| Url.OutcomeIff | src/net_common_tools.cpp:4730-4757 | a host is returned if and only if the text reads like that; otherwise all calls return the empty text; the assertion fails if and only if it reads so without a scheme |
| Url.ScanIff | src/net_common_tools.cpp:4727 | for every text: scheme, host and port are captured if and only if the text reads as scheme, host and what may follow; the scheme is letters, the host has no '/' and ':', the port is the one to five digits behind a colon, and no line ends behind the host |
| Url.SchemeTakenForHostIff | src/net_common_tools.cpp:4727 | letters in front of "://" are returned as the host if and only if what follows is empty or begins with '/' or ':', and has no line end |
| Route.MatchIsScan | src/net_common_tools.cpp:2837 | the captures of the route pattern are address and name as a scanner finds them, for every line |
| Route.ScanIff | src/net_common_tools.cpp:2837 | a line is a route through a name if and only if it is "default via ", digits and dots, " dev ", letters and digits that end there, and a rest of the same line |
| Route.DefaultInterface | src/net_common_tools.cpp:3560-3595 | the loop terminates with the interface of the first matching line, or nothing |
| Route.Gateway | src/net_common_tools.cpp:2834-2864 | the loop terminates with the address of the first matching line of the named interface, or nothing |
| Route.FirstIsFirst | src/net_common_tools.cpp:2843-2864 | what is meant by the first line, and that no line is found only if none qualifies |
| Route.FoundIff | src/net_common_tools.cpp:2843-2864 | for every text: both loops find a route if and only if it stands on the first line that is one (through the named interface), seen up to a NUL character, and all lines before it fit the buffer |
| Route.CStringIff | src/net_common_tools.cpp:2845-2855 | a C string is the text up to its first NUL character |
| Route.GatewayOfDefault | src/net_common_tools.cpp:2834-2864 | the first line of the default interface is the first default route |
| Route.RouteConsistency | src/net_common_tools.cpp:3560-3595 | the gateway of the default interface is the address on the line its name was taken from; without a default interface no interface has a gateway |
| Route.BuffersAreLines | src/net_common_tools.cpp:2843-2864 | for every text the loops see its lines; a line of more than 8191 characters is cut off and is the last one |
| AddressText.ToLibraryText | src/net_common_tools.cpp:800-839 | brackets for an accepted IPv6 address, an appended port for a text without a colon, any other text unchanged |
| AddressText.LibraryTextIs | src/net_common_tools.cpp:800-839 | for every text: an accepted IPv6 address gets brackets, a text without a colon gets a colon and the decimal port, any other stays |
| AddressText.ToText | src/net_common_tools.cpp:3374-3397 | brackets and port are removed in place as the function Shown says |
| AddressText.ShownIff | src/net_common_tools.cpp:3374-3397 | for every printed text with a colon: an opening bracket at the beginning and the last closing one go, and for the address alone the last colon with what follows it |
| AddressText.Ipv4AddressToString | src/net_common_tools.cpp:371-414 | with port 0 the canonical address alone, which reads back; otherwise address and port |
| AddressText.AcceptedHasColon | src/net_common_tools.cpp:814-830 | every accepted IPv6 text has a colon, so no port is appended to it |
| AddressText.AcceptedNoBracket | src/net_common_tools.cpp:3376-3386 | no accepted IPv6 text has a bracket, zone or not |
| AddressText.BracketRoundTrip | src/net_common_tools.cpp:3376-3395 | for every accepted IPv6 text and port, the library's text gives the accepted text, with or without the port, and the last colon separates the two |
| AddressText.PortUndoneIff | src/net_common_tools.cpp:814-839 | address-only output undoes the appended port if and only if the text had no colon |
| AddressText.QuadRoundTrip | src/net_common_tools.cpp:814-839 | for every accepted IPv4 text, both directions between text, text with port and library |
| AddressText.PortNeverReturns | src/net_common_tools.cpp:814-839 | an IPv6 address shown with its port is never turned back into what the library had printed |
| AddressText.PortTakenForGroupIff | src/net_common_tools.cpp:804-812 | exactly when an IPv6 address shown with its port is itself accepted as an address |
| Words.SwapTwice | src/net_common_tools.cpp:3230-3233 | swapping the bytes twice changes nothing |
| Words.SwapIs | src/net_common_tools.cpp:3230-3233 | the four bytes of a word in the opposite order, as numbers |
| Words.SwapAnd | src/net_common_tools.cpp:3230-3233 | masking and swapping bytes commute |
| Words.AndAt | src/net_common_tools.cpp:3213-3214 | a bit of the bitwise and is set exactly when both bits are |
| Words.SameLeading | src/net_common_tools.cpp:3213-3214 | masking with leading ones compares the leading bits |
| Words.ShrIs | src/net_common_tools.cpp:3213-3214 | shifting right is the quotient by a power of two |
| Subnet.SwapTestIff | src/net_common_tools.cpp:3213-3233 | the Windows test is true exactly when the leading bits in host order agree |
| Subnet.TestsAgree | src/net_common_tools.cpp:3322-3335 | for all addresses and prefixes 1 to 32, the Linux test is the same test |
| Subnet.LinuxFirstIs | src/net_common_tools.cpp:3312-3339 | the name is that of the first entry whose IPv4 address, masked, equals the masked address looked for; entries without an address or of another family are passed over; without such an entry it is empty |
| Subnet.LinuxSearch | src/net_common_tools.cpp:3312-3339 | the loop with its three ways to continue computes that name |
| Subnet.FirstInetIs | src/net_common_tools.cpp:3191-3204 | the first IPv4 address of an adapter has none before it, and is missing only if there is none |
| Subnet.WindowsFirstIs | src/net_common_tools.cpp:3189-3248 | the name is that of the first adapter whose first IPv4 address has the same leading bits; adapters without an IPv4 address are passed over; without such an adapter it is empty |
| Subnet.WindowsSearch | src/net_common_tools.cpp:3189-3248 | the two nested loops take the first adapter whose first IPv4 address is on the network |
| Subnet.SearchesAgree | src/net_common_tools.cpp:3189-3339 | in particular when no adapter has a second IPv4 address, whatever the names |
| Subnet.SearchesAgreeIff | src/net_common_tools.cpp:3189-3339 | for every list of adapters with names of their own: both searches find the same interface if and only if the first adapter reached at all is reached at its first IPv4 address |
| LinkLayer.TextReads | src/net_common_tools.cpp:1026-1043 | the text of six octets has 17 characters, fits the buffer of 18, and its six fields read back as the octets |
| LinkLayer.TextSpelled | src/net_common_tools.cpp:1026-1043 | the text, character by character: two lower-case digits for each octet, with colons in between |
| LinkLayer.PairsRead | src/net_common_tools.cpp:1029 | the same for any number of octets |
| Hexadecimal.PaddedReads | src/net_common_tools.cpp:4870-4875 | a padded numeral has exactly its width if and only if the number fits, and reads back |
| Hexadecimal.PaddedDigits | src/net_common_tools.cpp:4870-4875 | a padded numeral digit by digit, in lower case, the most significant digit first |
| Uuid.VersionAndVariantIff | src/net_common_tools.cpp:4831-4866 | version and variant are in the bits that section 4.1 of RFC 4122 names if and only if the uninitialised memory held them there; the code stores them in the lowest bits |
| Uuid.TimeRead | src/net_common_tools.cpp:4860-4864 | the time a reader gets: bits 0 to 47 and 52 to 59 as given, bits 48 to 51 replaced by the version |
| Uuid.TimeRecoveredIff | src/net_common_tools.cpp:4860-4864 | the time comes back if and only if it is below 2^60 and its bits 48 to 51 are the version |
| Uuid.SmallTimeShifted | src/net_common_tools.cpp:4860-4864 | every time below 2^48 comes back 2^48 too large |
| Uuid.ClockRecoveredIff | src/net_common_tools.cpp:4865-4867 | the low 14 bits of the clock sequence come back if and only if its bits 8 and 9 are the variant |
| Uuid.PackedAlikeIff | src/net_common_tools.cpp:4860-4868 | exactly which times and clock sequences give the same fields |
| Uuid.PackedInRange | src/net_common_tools.cpp:4827-4868 | every field fits the width it is printed with |
| Uuid.FieldsAre | src/net_common_tools.cpp:4860-4868 | each field in terms of time, clock sequence and uninitialised bits |
| Uuid.TextReads | src/net_common_tools.cpp:4870-4875 | the first 21 characters and the digits up to the next dash are the fields |
| Uuid.TextSpelled | src/net_common_tools.cpp:4870-4881 | the whole text, character by character: four padded fields and the dashes between them, the digits of the low clock byte, a dash, and for each octet of the node one digit if it is below 16 and two otherwise |
| Uuid.TextDetermines | src/net_common_tools.cpp:4860-4875 | equal texts come from times and clock sequences that agree in all bits that are stored |
| Uuid.NodeLengthIff | src/net_common_tools.cpp:4876-4881 | the unpadded node has two digits for each octet if and only if all octets are at least 16 |
| Uuid.NodeInjective | src/net_common_tools.cpp:4876-4881 | the digits of a node without two movable octets are those of no other node of its length |
| Uuid.SharedTextIff | src/net_common_tools.cpp:4870-4881 | for every UUID: another node of the same length gives the same text if and only if two octets of the node are movable, a condition on single octets |

## Left out

- Connections, streams, connectors, listeners, sessions: they rest on `.inl` files and on the socket library.
- Socket options, adapter enumeration, OpenSSL, D-Bus, child processes: foreign calls. The directory listing, the
  routing text, the adapter list, the interface names and the text the socket library prints are inputs.
- LogDirectory.LogDirectory.NextLogFileName: one log directory that exists and can be written to; the chain of
  fallback directories and the failures of `create` and `deleteFile` are not modelled, because the functions that
  choose the directory (`Common_Log_Tools`) are not part of this model. The returned name is without the directory.
- LogRuns.RunKeepsNewest: for 2 to 10 files. From 11 files on it is false (`LogLimit.RetentionIff`); with one file
  there is no numbered slot.
- LogNames.ScanIff: numbers of 2^32 and more are taken modulo 2^32; the C standard leaves them undefined.
- LogNames.ReadsBackIff: for numbers below 2^32, the range of the source's `unsigned int`. A name that ends before
  the scanner's start is taken to have no number; the source reads past its end.
- LogRotation.RotationAges: for directories in which every number found belongs to a name of the schema; names
  such as "prefix_01.log" or "prefix_1.log.gz" are not considered, as the source's own remark says that such files
  confuse the algorithm.
- A maximum of 0 files, which the source's header excludes.
- The log suffix comes from a library that is not part of this model and is taken to be ".log".
- Regex.MatchIff: groups, classes, concatenation, alternation and repetition only, the operators the modelled
  patterns use; characters are those of the "C" locale, and "." stands for all but line feed and carriage return.
- Ipv6.PatternMatches: capture groups are left out of this pattern, whose captures the source does not read.
- Ipv6Meaning.AcceptedDenotes: not for texts with a zone, which may contain empty groups.
- Route.BuffersAreLines: the buffer size is that of the GNU C library (8192); longer lines end the loops
  (`Route.FoundIff`). The conversion of the address found into a socket address is a foreign call.
- URLToHostName with the port: the digits follow the host without a colon, so there is no round trip to state.
- stringToIPAddress: the port number parsed from the text is not used by the source and not modelled.
- Subnet.TestsAgree: not for prefix 0, for which the source shifts by the width of the word; prefix 1 is computed
  with wrap-around. The big-endian branch compares without swapping and is not modelled.
- Uuid.VersionAndVariantIff: little-endian machines, where bit fields start at the lowest bit. Random clock sequence,
  clock, network interface and the previous content of the uninitialised units are inputs; times before 1970 are not
  considered.
- networkManagerManageInterface, isIfUpDownManagingInterface: they read repeated capture groups, of which only the
  last repetition remains.
- Enumeration-to-string switches, statistics, configuration defaults, subscriber lists, the generated parsers:
  they would only add easy members.
