# Verified models of the keepalived test programs

This project models the algorithms among keepalived's test programs and proves
what they promise, for every input and every run. `dafny verify dfyconfig.toml`
checks all of it.

| files | program | main results |
|---|---|---|
| `NumberTheory`, `Counting`, `Statistics`, `HashStudy`, `HashKeys`, `HashRows`, `HashLimits` | `code_test/hash.c` | The pairing hash fills every full power-of-two table perfectly evenly; exact conditions, for every step, for both hashes to be collision free; which runs stay within `int`; when the reported variance is the true one. |
| `WordAutomaton`, `WordSplitter`, `WordSpelling`, `WordPrinter` | `code_test/string_parser.c` | The chunk-copying splitter equals a character-at-a-time automaton on every line, and reads back every spelling of a grammar of raw bytes, quotes, escapes and comments. |
| `CheckerFilter`, `CheckerTheorems`, `LineBuffers`, `ConfigTree`, `CheckerLimits`, `CheckerBalance`, `CheckerMarkers`, `CheckerExamples` | `remove_checkers.c` | On nested configurations with lines of any length, the line filter prunes exactly the checker blocks under an exact condition on the buffers; its fixed points; exactly when a second pass is idle. |
| `SequenceMonitor`, `MonitorRecv`, `LossAccounting`, `LossyChannel` | `code_test/process_monitor.c` | In every run the reported counts sum to the messages lost, exactly when no 2^32 are lost in a row. |
| `DecimalText`, `AdderServer`, `AdderProtocol`, `AdderArguments`, `AdderCommands`, `AbandonedSession` | `code_test/uds_server.c`, `code_test/uds_client.c` | In every interleaving each client prints its own sum; the server stops after the first DOWN session; the session of a client that dies can end exactly when a command is still on its way. |
| `DnsQuery`, `DnsDecode` | `code_test/dns_test.c` | The query decodes back to the name exactly when its labels are proper; which names encode alike. |
| `DottedQuad` | `code_test/inet_aton_pton.c` | The one-pass parser accepts exactly four dot-separated octets. |
| `OrderedTree` | `code_test/rbtree_test.c` | After any run of inserts under any rotations the tree holds exactly the keys offered, in order; the sets of keys for which that holds are exactly those whose differences are `int`s. |
| `PathSearch`, `PathOutcomes` | `code_test/execvpe.c` | The candidates tried are the documented ones exactly when every PATH entry fits the buffer; which errors let the search go on, and what it reports. |
| `Common` | | C integers and strings. |

## How the programs are modelled

- Loops that update variables are methods with loops. Objects whose fields are
  updated in place (the monitor's table, the server) are classes. Buffers the
  programs write into are arrays.
- C `int` arithmetic is exact in the hash study, since a signed overflow has no
  defined result; `HashLimits` says exactly which runs have none. `unsigned int`
  and `uint32_t` values are reduced modulo 2^32. The adder's total and the
  tree's key differences are `int`s that wrap, and `TotalExact` and
  `AlwaysOrderedIff` say when that does not matter.
- Memory the programs never initialise is an arbitrary parameter.
- What a character class, a marker, a command or an error list means is stated
  a second time in the programs' own literals (`WordSpelling`, `CheckerMarkers`,
  `AdderCommands`, `PathOutcomes`, `HashKeys`, `MonitorRecv`), and the two are
  proved to agree.
- The outcomes of recv, exec and the client/server schedule are parameters or
  free choices of a step relation.

## Properties that fail, and exactly when they hold

- The variance in `hash.c` squares an unsigned count before widening it. It is
  the true variance if and only if every count is below 2^16
  (`ReportedVarianceExact`). The run with `-h 1 -f 256 -v 256` overflows nothing
  and reports a negative one (`NegativeVarianceReachable`). Full power-of-two
  runs within `int` report zero from any non-negative descriptor
  (`DefinedFullRunIsExact`), not from every negative one
  (`DefinedFullRunIsWrong`).
- The primes hash of a negative descriptor is an index if and only if its code
  is not negative or is a multiple of the size (`PrimesInTableIff`). With
  `-q -b -1` the first one is not (`NegativeDescriptorLeavesTable`).
- The products of the pairing hash overflow `int` unless the sum vrid + fd is
  between -46341 and 46340 (`ProductFitsIff`). A full power-of-two run has a
  defined result if and only if begin_fd is at least -46342 and num_vrid +
  begin_fd + 2 * size at most 46342 (`PowerOfTwoDefinedIff`). With the other
  options at their defaults that is up to 16384 buckets; `-h 32768` overflows
  (`TableOptionDefinedIff`).
- The stripper looks at fgets buffers of 255 characters, not at lines. It
  prunes a nested configuration if no buffer outside checkers holds a marker
  (`Clean`), inside them each brace of a line is in one buffer, `{` in none
  after `}` (`Neat`), and of every checker the first buffer holds a marker, the
  last buffer of the closing line holds the brace, and the nesting is at most
  2^32 (`Caught`): `StripperPrunes`.
- For neat checkers whose bodies name no checkers, it prunes if and only if the
  configuration is `Clean` and `Caught` (`StripperExact`). Whatever it prunes
  correctly is `Clean` (`PrunesOnlyClean`). With lines of at most 255 characters
  only stray markers and the nesting remain (`StripperExactOnShortLines`).
- For every configuration at all, it drops exactly the buffers of checkers and
  ends outside if and only if the braces add up, counted buffer by buffer modulo
  2^32 (`StripperDropsExactlyIff`). That is more than printing the pruned text:
  one checker can print its end and a later one swallow a block with the same
  text (`AccidentHappens`).
- Each part of the condition has its input. A comment naming a checker swallows
  the next block (`CommentSwallowsBlock`). A title whose marker straddles two
  buffers leaves the checker in (`LongTitleMissed`). Text after the closing
  brace that reaches another buffer is printed (`LongCloseLeaks`). `}` in a
  buffer before `{` ends the checker early (`UntidyLineEndsChecker`). `{` in two
  buffers of a title swallows what follows (`DoubleOpeningSwallows`). A checker
  around n nested blocks is pruned if and only if n is below 2^32
  (`DeepChecker`).
- A second pass of the stripper reads back the pieces the first one printed if
  and only if no printed buffer but the last was cut at a NUL
  (`RereadsSameIff`), and is then idle (`SecondPassIdle`). On any input it is
  idle if and only if no marker arises where such a cut joined two pieces
  (`SecondPassIdleIff`); it is not on "TCP_", NUL, newline, "CHECK", newline
  (`NulDefeatsSecondPass`).
- The splitter reports a missing closing quote if and only if the quote is open
  and the line's last byte is ordinary text, neither a mark, a backslash nor
  part of an escape (`UnterminatedQuote`). A lone quote mark is accepted
  (`LoneQuoteAccepted`).
- The monitor's counts are exact if and only if fewer than 2^32 consecutive
  messages are lost (`ReportsSumToLosses`). With 2^32 lost between two
  deliveries it reports nothing (`WrapHidesLosses`).
- The session of a client that dies can end if and only if a command is among
  its unread packets, or none is left and the buffer still spells one
  (`SessionCanEndIff`). Otherwise the server adds the stale packet again and
  again in every continuation (`StuckForever`), which a run reaches
  (`StuckReachable`).
- The tree compares keys by the sign of a wrapped difference. Two keys come out
  in order if and only if their difference is an `int` (`TwoKeysInOrderIff`),
  and a set of keys always does if and only if all its differences are
  (`AlwaysOrderedIff`).
- An argument reaches the adding server whole if and only if it has at most
  eleven characters (`ReachesWholeIff`). Eleven zeros and a one count as 0
  (`LongArgumentIsCut`).
- A DNS query asks for the name if and only if every label has 1 to 63 bytes
  (`QueryDenotesNameIff`). The query for "a..b" does not decode at all
  (`EmptyLabelBreaksQuery`).
- A PATH entry longer than the buffer allows is not skipped, as the comment in
  `execvpe.c` says. The current directory is tried in its place, or nothing if
  it is the last entry; the search is the documented one if and only if every
  entry fits (`TriedAsDocumentedIff`). A 4096-byte entry before /bin shows it
  (`OverlongPathTriesCurrentDirectory`).

## Model

| member | source | states |
|---|---|---|
| HashStudy.TriangleExact | code_test/hash.c:15 | The division by two in the pairing code loses nothing and the code is never negative. |
| HashStudy.PairingInjective | code_test/hash.c:13-16 | Before the modulo, distinct pairs of non-negative vrid and fd have distinct codes. |
| HashStudy.SharedBucket | code_test/hash.c:13-16 | Two keys share a bucket exactly when their codes, which differ, are congruent modulo the table size. |
| HashKeys.PrimesHash | code_test/hash.c:18-21 | The primes hash of any pair is the C remainder of 31 vrid + 37 fd. |
| HashKeys.RemainderUnique | code_test/hash.c:13-21 | That C remainder is the only number congruent, smaller than the size and of the same sign. |
| HashKeys.PairingHash | code_test/hash.c:13-16 | The pairing hash of any pair is the C remainder of half of (vrid + fd)(vrid + fd + 1), plus vrid. |
| HashKeys.PrimesSharedBucket | code_test/hash.c:18-21 | Two keys share a bucket of the primes hash if and only if the size divides 31 (v' - v) + 37 (f' - f). |
| HashKeys.ColumnInjectiveIff | code_test/hash.c:82-85 | The vrids of one descriptor never collide if and only if there are at most as many as buckets, or as a thirty-first of them when 31 divides the size. |
| HashKeys.FullColumnIff | code_test/hash.c:82-85 | With as many vrids as buckets, they never collide if and only if the size is coprime to 31. |
| HashKeys.OneDescriptorIff | code_test/hash.c:79-85 | A run over one descriptor puts at most one entry in every bucket exactly under that condition. |
| HashStudy.PairingInTable | code_test/hash.c:13-16 | The pairing hash is a valid index for every descriptor, negative ones included. |
| HashStudy.PrimesInTableIff | code_test/hash.c:18-21 | Every primes hash of a run is an index if and only if the size divides every negative code. |
| HashStudy.PrimesInTable | code_test/hash.c:18-21 | The primes hash is a valid index when the first descriptor is not negative. |
| HashStudy.NegativeDescriptorLeavesTable | code_test/hash.c:18-21 | Run with `-q -b -1` the first hash is not an index. |
| HashStudy.PairingRowGap | code_test/hash.c:13-16 | With an even step, codes of one vrid differ by half the step times the turn gap times an odd number. |
| HashStudy.PairingRowInjective | code_test/hash.c:82-85 | Over a power-of-two table, with a step twice an odd number, no two descriptors of one vrid collide. |
| HashRows.OddStepCollision | code_test/hash.c:82-85 | With an odd step two turns t and t' of a vrid collide if and only if 2 * (vrid + begin_fd) + 1 + step * (t + t') is a multiple of twice the table size. |
| HashRows.PairingRowInjectiveIff | code_test/hash.c:82-85 | For every step over a full power-of-two table, a vrid is collision free if and only if the step is twice an odd number, or odd and congruent to 2 * (vrid + begin_fd) + 1 modulo twice the size, or the table has one bucket. |
| HashStudy.PrimesRowInjective | code_test/hash.c:82-85 | If the size is coprime to 37 times the step and there are no more descriptors than buckets, no two descriptors of one vrid collide. |
| HashStudy.PrimesRowInjectiveIff | code_test/hash.c:82-85 | Over a full table, a vrid is collision free under the primes hash if and only if the size and 37 times the step are coprime. |
| HashStudy.PairingEvenSpread | code_test/hash.c:79-85 | For every k, every first descriptor and every num_vrid, each bucket of a full table of 2^k receives exactly num_vrid entries. |
| HashStudy.PrimesEvenSpread | code_test/hash.c:79-85 | Under coprimality no bucket exceeds num_vrid, and a full table holds exactly num_vrid in each. |
| HashStudy.FillRow | code_test/hash.c:83-84 | The inner loop counts exactly the pairs of one descriptor. |
| HashStudy.Fill | code_test/hash.c:79-85 | Each counter ends as the number of (fd, vrid) pairs hashed to its bucket, modulo 2^32. |
| HashStudy.PairsConserved | code_test/hash.c:79-85 | The bucket counts add up to the number of pairs hashed. |
| HashStudy.Reduce | code_test/hash.c:87-97 | The loop computes the sum, the sum of wrapped squares, and the extremes of the counters, kept in `int`s and compared as unsigned. |
| HashStudy.Summarise | code_test/hash.c:87-103 | The mean, variance, minimum and maximum reported for any table; a maximum above INT_MAX becomes negative. |
| HashStudy.Study | code_test/hash.c:74-103 | A whole run: the report describes the table of true pair counts. |
| HashStudy.EvenTableReport | code_test/hash.c:99-101 | Equal counts give their value as mean, and a zero variance exactly below 2^16. |
| HashStudy.StudyPowerOfTwo | code_test/hash.c:74-103 | Every full power-of-two run with step 2 reports mean, minimum and maximum num_vrid. |
| HashStudy.StudyDefaults | code_test/hash.c:28-103 | The run without options reports mean, minimum and maximum 255 and no deviation. |
| HashStudy.PrimesDefaultsSpread | code_test/hash.c:54-85 | With `-q` alone no bucket exceeds 255 entries. |
| HashLimits.ProductFitsIff | code_test/hash.c:15 | The product s * (s + 1) is an `int` if and only if s is between -46341 and 46340. |
| HashLimits.PairingDefinedIff | code_test/hash.c:13-16 | For every vrid, all intermediate values of the pairing hash are `int`s if and only if vrid + fd is in that range and vrid is at most INT_MAX less the triangle. |
| HashLimits.PairingRunDefinedIff | code_test/hash.c:82-85 | The nested loop under the pairing hash stays within `int` if and only if its bound and its smallest and largest sums do. |
| HashLimits.PrimesRunDefinedIff | code_test/hash.c:82-85 | The nested loop under the primes hash stays within `int` if and only if its bound, its extreme products and its largest sum do. |
| HashLimits.PowerOfTwoDefinedIff | code_test/hash.c:82-85 | Which k, begin_fd and num_vrid give a full power-of-two run, step 2, that stays within `int`. |
| HashLimits.TableOptionDefinedIff | code_test/hash.c:37-41 | Run with `-h` and 2^k alone, the program stays within `int` if and only if k is at most 14. |
| HashLimits.DefaultsDefined | code_test/hash.c:28-85 | Neither default run leaves `int`. |
| HashLimits.DefinedFullRunIsExact | code_test/hash.c:79-101 | From a non-negative descriptor every full power-of-two run within `int` reports no variance. |
| HashLimits.DefinedFullRunIsWrong | code_test/hash.c:79-101 | A full power-of-two run from a negative descriptor, within `int`, whose reported variance is not zero. |
| HashLimits.NegativeVarianceReachable | code_test/hash.c:79-101 | The run with `-h 1 -f 256 -v 256` stays within `int` and reports a negative variance. |
| Statistics.CauchySchwarz | code_test/hash.c:99-101 | n times the sum of squares is at least the squared sum, with equality exactly for equal counts. |
| Statistics.VarianceNonNegative | code_test/hash.c:99-101 | In exact arithmetic the variance is never negative and is zero exactly for equal counts. |
| Statistics.MeanBetween | code_test/hash.c:99-100 | The mean lies between the extremes. |
| Statistics.VarianceIsMeanDeviation | code_test/hash.c:99-101 | The variance formula is the mean squared deviation from the mean. |
| Statistics.ReportedVarianceExact | code_test/hash.c:92-101 | The reported variance never exceeds the true one and equals it if and only if every count is below 2^16. |
| Statistics.NegativeVarianceReported | code_test/hash.c:92-101 | One bucket of 2^16 entries is reported with a negative variance. |
| WordSplitter.SkipSpace | code_test/string_parser.c:26 | The offset of the first byte that is not a blank. |
| WordSplitter.FindSpecial | code_test/string_parser.c:33 | The first byte of the current quote's stop set, or the end. |
| WordSplitter.RunOverText | code_test/string_parser.c:48-51 | Copying a whole run at once equals feeding it to the automaton byte by byte. |
| WordSplitter.ReadHex | code_test/string_parser.c:62-70 | A hexadecimal escape takes every following digit and keeps the value modulo 256, as the automaton does. |
| WordSplitter.ReadOctal | code_test/string_parser.c:71-81 | An octal escape takes one to three digits modulo 256, as the automaton does. |
| WordSplitter.ReadEscape | code_test/string_parser.c:53-114 | Every escape form agrees with the automaton. |
| WordSplitter.ReadWord | code_test/string_parser.c:30-131 | One word, or the error that ends the scan, as the automaton gives it; the buffer offset never passes the input offset, input is consumed, and the quote carried to the next word is closed wherever one can follow. |
| WordSplitter.Tokenize | code_test/string_parser.c:21-133 | For every line shorter than the buffer, the words and the outcome are those of the automaton. |
| WordAutomaton.UnterminatedQuote | code_test/string_parser.c:32-40 | For every line, a missing quote is reported if and only if the quote is open and the last byte is ordinary text outside an escape; it names the open quote. |
| WordAutomaton.UnterminatedEscape | code_test/string_parser.c:53-60 | For every line, a missing escape is reported if and only if the last byte is a backslash that neither an escape nor a comment covers. |
| WordAutomaton.LoneQuoteAccepted | code_test/string_parser.c:32-40 | A lone quote mark is one empty word; a quote mark and a letter are an error. |
| WordSpelling.ReadPiece | code_test/string_parser.c:48-126 | Each way of writing one byte or quote mark, in literals, is read as what it stands for. |
| WordSpelling.SpellThenSplit | code_test/string_parser.c:24-133 | A line of words spelled in raw bytes, quotes, and letter, self, octal and hexadecimal escapes, between blanks and before a comment, is split into the bytes it stands for. |
| WordSpelling.CommentIsIgnored | code_test/string_parser.c:27-33 | After any line outside quotes and not at a backslash, `#` or `!` and what follows change neither the words nor the outcome. |
| WordPrinter.WordSpells | code_test/string_parser.c:48-126 | Every word has a spelling in each style: bare, quoted, with letters, in long or short octal, in lower or upper hexadecimal. |
| WordPrinter.PrintThenSplit | code_test/string_parser.c:24-133 | Printing any list of words, each in a style of its own, between runs of blanks, with or without a comment, then splitting, gives back the list. |
| WordPrinter.LineHasNoNul | code_test/string_parser.c:24 | Such a line is a C string. |
| CheckerFilter.Search | remove_checkers.c:13 | strstr finds a marker exactly when the line contains it. |
| CheckerFilter.HandleLine | remove_checkers.c:12-24 | One buffer's effect on the flag and the wrapping counter, and whether it is printed. |
| CheckerFilter.RemoveCheckers | remove_checkers.c:11-25 | The read loop prints the lines the filter keeps, over fgets buffers of any input. |
| CheckerTheorems.RechunkConcat | remove_checkers.c:11 | fgets reads concatenated buffers back as the same buffers. |
| CheckerTheorems.KeptIsClean | remove_checkers.c:12-24 | No printed buffer names a checker. |
| CheckerTheorems.RereadsSameIff | remove_checkers.c:11-25 | A second pass reads back the very pieces printed if and only if no printed buffer but the last was cut at a NUL. |
| CheckerTheorems.SecondPassIdle | remove_checkers.c:11-25 | A second pass changes nothing if no printed buffer but the last was cut at a NUL. |
| CheckerTheorems.SecondPassIdleOnText | remove_checkers.c:11-25 | For any input without NUL bytes a second pass changes nothing. |
| CheckerTheorems.FixedPoints | remove_checkers.c:11-25 | The filter returns its input exactly when that has no NUL and no buffer naming a checker. |
| CheckerMarkers.MarkersByName | remove_checkers.c:12-14 | A buffer starts a checker if and only if TCP_CHECK or HTTP_GET stands in it. |
| CheckerMarkers.UnchangedByNameIff | remove_checkers.c:11-25 | A file is printed unchanged if and only if it has no NUL and neither name stands in any of its buffers. |
| CheckerMarkers.NamedCheckerIsRemoved | remove_checkers.c:11-25 | A block whose title names either checker is removed, whatever its tidy body within the counter's range, and the rest is filtered from the start. |
| CheckerMarkers.HttpGetIsRemoved | remove_checkers.c:12-22 | The smallest HTTP_GET block prints nothing. |
| CheckerTheorems.SecondPassIdleIff | remove_checkers.c:11-25 | For any input at all, a second pass is idle if and only if no stretch of several printed pieces that it reads together holds a marker. |
| CheckerTheorems.JoinsFollowCuts | remove_checkers.c:11-25 | Such a stretch begins with a piece that neither a newline nor a full buffer closes. |
| CheckerExamples.NulDefeatsSecondPass | remove_checkers.c:13-24 | An input with a NUL whose output loses more on a second pass. |
| LineBuffers.ReadByLine | remove_checkers.c:11 | A text is read as the buffers of its lines, of any length, the last with or without a newline. |
| LineBuffers.TidyDrops | remove_checkers.c:15-22 | Inside a checker a tidy line moves the counter by its braces, whatever buffers they are in. |
| LineBuffers.TidyEnds | remove_checkers.c:15-22 | A tidy line that ends a checker does so at the buffer with the closing brace. |
| ConfigTree.DropInside | remove_checkers.c:15-22 | A tidy configuration nested inside a checker is dropped and the counter returns to where it was. |
| ConfigTree.DropChecker | remove_checkers.c:12-22 | A whole neat checker that is caught, its brace on its own line or not, is dropped and the filter is back at its start. |
| ConfigTree.StripperPrunes | remove_checkers.c:11-25 | Filtering the text of a nested configuration that is clean, neat and caught gives the text with every checker pruned and ends outside all checkers with depth 0. |
| ConfigTree.PrunesOnlyClean | remove_checkers.c:12-24 | A configuration of any depth and line length that is pruned correctly has no marker in a buffer outside checkers. |
| ConfigTree.StripperPrunesIff | remove_checkers.c:11-25 | With neat checkers that are caught, pruning is exact if and only if no buffer outside checkers holds a marker. |
| ConfigTree.CleanIff | remove_checkers.c:12-14 | No buffer outside checkers holds a marker if and only if no buffer of what pruning leaves does. |
| CheckerExamples.CommentSwallowsBlock | remove_checkers.c:12-22 | A comment naming a checker, then a block that is no checker: pruning keeps everything and the program prints nothing. |
| CheckerExamples.LongTitleMissed | remove_checkers.c:7-13 | 250 blanks before TCP_CHECK: the checker is printed unchanged. |
| CheckerExamples.LongCloseLeaks | remove_checkers.c:18-24 | A closing brace, 254 blanks and a newline: the newline is printed. |
| CheckerExamples.UntidyLineEndsChecker | remove_checkers.c:16-24 | Inside a checker, `}` in a buffer before the one with `{`: the rest of the checker is printed. |
| CheckerExamples.DoubleOpeningSwallows | remove_checkers.c:16-22 | A title with `{` in two buffers: the line after the checker is lost. |
| CheckerExamples.DeepChecker | remove_checkers.c:9-21 | A checker around n nested blocks prints nothing if and only if n is below 2^32. |
| CheckerExamples.PrunedByAccident | remove_checkers.c:11-25 | A family of configurations whose pruned text is printed although the wrong buffers are dropped. |
| CheckerExamples.AccidentHappens | remove_checkers.c:11-25 | One of them. |
| CheckerLimits.Escape | remove_checkers.c:15-22 | Any tidy configuration too deep for the counter makes the filter leave the checker before its end. |
| CheckerLimits.StripperExact | remove_checkers.c:9-25 | For neat checkers whose bodies name no checker, pruning is exact if and only if no buffer outside checkers holds a marker and every checker is caught. |
| CheckerLimits.StripperExactOnShortLines | remove_checkers.c:9-25 | With lines that fit the buffer, pruning within the counter's range is exact if and only if the configuration is clean; if checker bodies name no checker, if and only if it is clean and shallow. |
| CheckerBalance.DropsExactlyIff | remove_checkers.c:11-25 | Of any buffers, exactly a given choice is dropped, ending outside, if and only if its braces add up. |
| CheckerBalance.StripperDropsExactlyIff | remove_checkers.c:11-25 | For every nested configuration, exactly the buffers of checkers are dropped if and only if the braces add up; the pruned text is then printed. |
| SequenceMonitor.Monitor.constructor | code_test/process_monitor.c:115-121 | The fresh table over arbitrary memory. |
| SequenceMonitor.Monitor.OnNoBufs | code_test/process_monitor.c:131-136 | ENOBUFS marks every CPU and prints no report. |
| SequenceMonitor.Monitor.OnMessage | code_test/process_monitor.c:229-238 | A message updates its CPU's entry and prints a report exactly as specified. |
| SequenceMonitor.Monitor.OnData | code_test/process_monitor.c:140-239 | All process events of a buffer are handled in order, other messages skipped. |
| SequenceMonitor.Monitor.HandleProcEv | code_test/process_monitor.c:123-243 | The receive loop handles every result up to the first shutdown or failure and returns accordingly. |
| MonitorRecv.StopsByName | code_test/process_monitor.c:124-139 | The loop leaves at the first shutdown or failure and nowhere else. |
| MonitorRecv.InterruptsChangeNothing | code_test/process_monitor.c:128-130 | A monitor whose calls are interrupted prints and returns what it would without. |
| MonitorRecv.OverrunIsTagged | code_test/process_monitor.c:131-136 | Between two messages of a CPU, the gap is printed if there is one, and tagged exactly if an overrun came between. |
| LossAccounting.TableTracks | code_test/process_monitor.c:229-238 | An entry is initialised exactly when its CPU was heard, holds its last number, and is marked exactly when ENOBUFS came since. |
| LossAccounting.ReportMeaning | code_test/process_monitor.c:229-238 | Exactly what is printed for each delivery: the number skipped modulo 2^32 if not zero, tagged exactly when ENOBUFS came in between. |
| LossAccounting.MemoryIrrelevant | code_test/process_monitor.c:115-121 | The never-initialised fields affect nothing that is printed. |
| LossAccounting.ReportsSumToLosses | code_test/process_monitor.c:229-238 | A CPU's reports sum to at most its losses between first and last delivery, and to exactly those if and only if every gap is below 2^32. |
| LossAccounting.WrapHidesLosses | code_test/process_monitor.c:229-238 | Two deliveries with 2^32 messages lost between them are reported as no loss. |
| LossyChannel.RunKeeps | code_test/process_monitor.c:123-239 | In every run of producers, lossy queue and monitor, deliveries stay in order and each message sent is either accepted or dropped. |
| LossyChannel.RunReportsLosses | code_test/process_monitor.c:123-239 | In every run the reported sum is the number of messages the channel dropped, exactly under the gap condition. |
| LossyChannel.MonitorRun | code_test/process_monitor.c:115-243 | The lines the monitor itself prints on a run of the channel, however messages are batched, sum per CPU to the messages dropped, exactly under the gap condition. |
| DecimalText.DecimalFits | code_test/uds_server.c:103 | Any `int` prints in at most eleven characters, so it fits the buffer. |
| DecimalText.AtoiOfDecimal | code_test/uds_server.c:99-103 | atoi undoes the printing of any `int`. |
| DecimalText.ParseWithTail | code_test/uds_server.c:99 | atoi reads a number after blanks and a sign, up to the first byte that is not a digit. |
| DecimalText.ParseFitsLong | code_test/uds_server.c:99 | Eleven characters never overflow the `long` atoi parses. |
| AdderServer.StaleBytesIrrelevant | code_test/uds_server.c:78-85 | Whatever the buffer held, the text after a packet is that packet's, cut to eleven characters. |
| AdderServer.Server.Receive | code_test/uds_server.c:78-85 | read() overlays the packet on the old buffer and terminates it. |
| AdderServer.Server.PrintResult | code_test/uds_server.c:103 | sprintf overlays the decimal text on the old buffer. |
| AdderServer.Server.ReadOne | code_test/uds_server.c:78-99 | One packet is a command or is added to the result. |
| AdderServer.Server.Accumulate | code_test/uds_server.c:75-100 | The inner loop ends with the total of the packets before the first command. |
| AdderServer.Server.Session | code_test/uds_server.c:75-105 | The reply is the decimal text of the session's total. |
| AdderServer.Server.Serve | code_test/uds_server.c:67-119 | Every session served gets its own total, and the server stops exactly after the first one ended by DOWN. |
| AdderServer.ReplyReadsBack | code_test/uds_client.c:65-74 | A client sees the decimal text alone, and it reads back as the total. |
| AdderProtocol.SendKeeps | code_test/uds_client.c:47-62 | A client's write, to an open or a closed connection, keeps the invariant. |
| AdderProtocol.CollectKeeps | code_test/uds_client.c:64-74 | What a client prints from the reply is its total. |
| AdderProtocol.ReadPacketKeeps | code_test/uds_server.c:76-100 | Reading a packet keeps the running total equal to the packets read. |
| AdderProtocol.ReplyKeeps | code_test/uds_server.c:102-118 | The reply is the total, and the server stops exactly when the session ended with DOWN. |
| AdderProtocol.EveryRunAddsCorrectly | code_test/uds_server.c:66-119 | In every interleaving of any clients, whatever memory the buffer starts with, every printed result is that client's total, and the server has stopped exactly when the last session served was the first to end with DOWN. |
| AdderProtocol.TotalExact | code_test/uds_server.c:98-103 | The total is the exact sum whenever that is an `int`. |
| AdderArguments.ClientsPrintSums | code_test/uds_client.c:47-74 | In every run a client given `int`s and a command prints the decimal text of their sum. |
| AdderCommands.CommandsByName | code_test/uds_server.c:89-96 | A text is a command if and only if it reads END or DOWN. |
| AdderCommands.ServeNumbers | code_test/uds_server.c:67-119 | On sessions of numbers ended by END or DOWN, every one up to the first DOWN is answered with its sum, and the server is down exactly if the last one answered said DOWN. |
| AdderCommands.ScriptEnds | code_test/uds_client.c:47-62 | Every client's script ends its session, with DOWN if and only if that comes before END. |
| AdderCommands.EveryRunStopsOnDown | code_test/uds_server.c:66-119 | In every run the server stops exactly after the first session that said DOWN before END. |
| AdderCommands.ClientByName | code_test/uds_client.c:47-74 | A client started with numbers prints their sum and leaves the server accepting; with DOWN after them, it stops the server once answered. |
| AdderArguments.ReachesWholeIff | code_test/uds_server.c:78-85 | An argument reaches the server whole if and only if it has at most eleven characters. |
| AdderArguments.LongArgumentIsCut | code_test/uds_server.c:78-99 | Eleven zeros and a one count as 0. |
| AbandonedSession.StuckForever | code_test/uds_server.c:76-100 | Every continuation of a dead client's session without a command ahead stays in it, whatever else happens. |
| AbandonedSession.SessionCanEndIff | code_test/uds_server.c:76-100 | A dead client's session can end if and only if a command is among its unread packets, or none is left and the buffer spells one. |
| AbandonedSession.StuckReachable | code_test/uds_server.c:66-100 | From any start with a harmless buffer, a run reaches a session that can never end. |
| DnsQuery.PutLabels | code_test/dns_test.c:108-116 | The loop writes each label after its length byte. |
| DnsQuery.PutName | code_test/dns_test.c:108-119 | The whole QNAME, with the final zero byte unless the name is a single dot. |
| DnsQuery.MakeQuery | code_test/dns_test.c:88-125 | The buffer holds the whole query and the length returned is its length. |
| DnsDecode.QueryOnTheWire | code_test/dns_test.c:88-125 | The bytes of the query in literals, high bytes first. |
| DnsDecode.LabelOnTheWire | code_test/dns_test.c:108-116 | Each label is its length and then its bytes. |
| DnsDecode.QueryRoundTrip | code_test/dns_test.c:88-125 | Decoding recovers id, flags, labels, type and class for every name with labels of 1 to 63 bytes. |
| DnsDecode.QueryDenotesNameIff | code_test/dns_test.c:108-116 | Decoding gives back the name's labels if and only if each has 1 to 63 bytes. |
| DnsDecode.EmptyLabelBreaksQuery | code_test/dns_test.c:108-116 | The query for "a..b" does not decode. |
| DnsDecode.NamesEncodeAlike | code_test/dns_test.c:108-119 | Two proper names encode alike if and only if they are equal up to one trailing dot. |
| DnsDecode.QueryLength | code_test/dns_test.c:121-124 | The length is 12, the QNAME and 4; the QNAME is the name plus two bytes, or one byte for the root. |
| DottedQuad.TakeDigit | code_test/inet_aton_pton.c:22-31 | A digit extends the octet being read, or shows that the text is no address. |
| DottedQuad.TakeDot | code_test/inet_aton_pton.c:32-36 | A dot starts the next octet, or shows that the text is no address. |
| DottedQuad.Scan | code_test/inet_aton_pton.c:16-42 | The loop accepts exactly the texts that split into four octets and collects their values inside the scratch buffer. |
| DottedQuad.InetSton | code_test/inet_aton_pton.c:9-46 | Success exactly on four dot-separated octets ended by the end, a slash or a dash; the values are stored, and `dst` is untouched on failure. |
| DottedQuad.PrintThenParse | code_test/inet_aton_pton.c:9-46 | Any printed address with any such suffix parses back to itself. |
| DottedQuad.OtherSuffixFails | code_test/inet_aton_pton.c:20-38 | A printed address followed by any byte but a digit, a slash or a dash is refused. |
| DottedQuad.ParsePrinted | code_test/inet_aton_pton.c:9-46 | The parser on a printed address: its octets when alone or before a slash or dash; refused, with `dst` untouched, before any other byte that is no digit. |
| OrderedTree.SignOfDifference | code_test/rbtree_test.c:24-31 | The sign of the wrapped difference is the order of the keys if and only if the difference is an `int`. |
| OrderedTree.Search | code_test/rbtree_test.c:15-34 | The loop returns what the walk by wrapped differences finds. |
| OrderedTree.FoundIff | code_test/rbtree_test.c:15-34 | In an ordered tree whose keys differ from v by an `int`, the walk finds v exactly when the tree holds it. |
| OrderedTree.Insert | code_test/rbtree_test.c:36-60 | The loop gives the tree and the result of the insertion by wrapped differences. |
| OrderedTree.InsertKeepsOrder | code_test/rbtree_test.c:36-60 | False, and no change, exactly on a repeated key; otherwise the key is put in its place and the in-order walk stays increasing. |
| OrderedTree.TwoKeysInOrderIff | code_test/rbtree_test.c:44-53 | Two different keys come out in order if and only if their difference is an `int`. |
| OrderedTree.RotationKeepsOrder | code_test/rbtree_test.c:57 | A rotation anywhere leaves the in-order walk as it was. |
| OrderedTree.RunHoldsOffered | code_test/rbtree_test.c:36-60 | After any run of inserts and rotations over keys whose differences are `int`s, the in-order walk is strictly increasing and holds exactly the keys offered. |
| OrderedTree.RunRefusesRepeats | code_test/rbtree_test.c:36-60 | In such a run insert returns false exactly on a key offered before. |
| OrderedTree.RunSearchFinds | code_test/rbtree_test.c:15-34 | After such a run search finds exactly the keys offered. |
| OrderedTree.AlwaysOrderedIff | code_test/rbtree_test.c:36-60 | A set of keys is always kept in order, over every run, if and only if every two of its keys differ by an `int`. |
| PathSearch.Compose | code_test/execvpe.c:122-126 | The candidate built in the buffer, with its terminator. |
| PathSearch.Try | code_test/execvpe.c:122-135 | One directory's candidate is composed in the buffer and run. |
| PathSearch.Loop | code_test/execvpe.c:104-166 | The candidates are tried in order up to the first success or hard error, each within the buffer. |
| PathSearch.SearchPath | code_test/execvpe.c:104-174 | The outcome is that of the first success or hard error; otherwise EACCES if any candidate was denied, else the last error. |
| PathSearch.Execvpe | code_test/execvpe.c:67-175 | The whole call, with the empty name, the name with a slash and the overlong name. |
| PathOutcomes.EndsAtFirst | code_test/execvpe.c:137-162 | The search ends at the first candidate not failing with EACCES, ENOENT, ESTALE, ENOTDIR, ENODEV or ETIMEDOUT: launched, or with its error. |
| PathOutcomes.EndsWithout | code_test/execvpe.c:137-174 | If all candidates fail so, the outcome is EACCES if any gave it, else the last one's error, else the caller's errno. |
| PathOutcomes.SearchFinds | code_test/execvpe.c:104-174 | Exactly the candidates up to that one are tried, and it decides the outcome. |
| PathOutcomes.SearchFindsNothing | code_test/execvpe.c:104-174 | If every directory answers ENOENT, all are tried and the outcome is ENOENT. |
| PathOutcomes.EntriesJoin | code_test/execvpe.c:109 | The entries joined by colons are PATH again, and none holds a colon. |
| PathSearch.TriedAsDocumentedIff | code_test/execvpe.c:111-120 | The candidates tried are one per entry, as documented, if and only if every entry is shorter than the limit. |
| PathSearch.ShortPathAsDocumented | code_test/execvpe.c:94-120 | For a PATH below PATH_MAX the documented search is the actual one. |
| PathSearch.OverlongEntry | code_test/execvpe.c:111-120 | For an entry of PATH_MAX bytes or more before a colon, the bare file is tried where the documented search tries the entry. |
| PathSearch.OverlongPathTriesCurrentDirectory | code_test/execvpe.c:111-120 | A PATH of a 4096-byte entry and /bin tries the bare file, then /bin. |

## Left out

- Socket, netlink, ioctl, inotify, epoll, signal, ptrace, PAM, crypt and memory-limit probes: system-call plumbing without an algorithm.
- Insert: models the tree as a value rebuilt along the walk, so links updated in place are not captured; colours and the choice of rotations are left to the rebalancing, which is not in the repository; erasing is left out with it.
- `code_test/set_cmdline.c` and `code_test/check_path.c`: short string updates that would only add easier members.
- `code_test/pcre`, `code_test/regex.c`: drivers around regular-expression engines.
- Option parsing, printing to the terminal, allocation failure, configurations and shell scripts.
- Tokenize: the printf of each word with a field width is not modelled, only the bytes of the word; lines as long as the buffer or longer overrun it in C and are excluded.
- Summarise: `double` values are exact reals, and the square root of the variance is not taken.
- Fill: signed overflow is undefined in C, so `int` arithmetic is exact; the result is that of the program on the runs `PairingRunDefinedIff` and `PrimesRunDefinedIff` describe.
- StripperExact: assumes neat checkers whose bodies name no checker, since otherwise the pruned text can be printed by accident (`AccidentHappens`); `StripperDropsExactlyIff` covers every configuration by position.
- PairingEvenSpread: exact integers as for Fill; a full power-of-two run of the program overflows outside the range `PowerOfTwoDefinedIff` gives.
- StudyPowerOfTwo: exact integers as for Fill; the program has a defined result exactly in the range `PowerOfTwoDefinedIff` gives.
- Serve: takes each session's packets as a list that contains a command; sessions without one are covered by `SessionCanEndIff`.
- HandleProcEv: the decoding of netlink headers and the text of the process events are not modelled; `cpu_seq` is taken as allocated.
- MakeQuery: the random id is a parameter.
- Execvpe: running a candidate with its fallback to the shell is an oracle, and an unset PATH is the caller's choice of path.
