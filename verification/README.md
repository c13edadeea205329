# Command-line scanner, request hand-off, vector store, peer registry and framing

A Dafny model of the parts of this repository that decide something: the GNU
`getopt` scanner shipped with the Java client, the hand-off of a request from an
accepting thread to its worker, the server's vector store, the registry of peers
kept by two servers, and the framing of fields on a socket.

`dafny verify dfyconfig.toml` checks the whole project.

## How the model is organised

| file | what it holds |
|---|---|
| `LongOptions.dfy` | the table of long options and the rule that picks an entry for a possibly abbreviated name |
| `OptionSyntax.dfy` | what one option means: option strings, settings, and the result of decoding one option given the elements after it |
| `OptionParser.dfy` | `Parse`, a pure left-to-right pass over the original argv; every run ends; scanned elements and operands partition argv |
| `OptionLaws.dfy` | scanning a permuted argv again |
| `OptionMeaning.dfy` | one law for every kind of element, in terms of the option string and the table as written |
| `CommandRewrites.dfy` | rewrites of a command line that keep every reported option |
| `EndOfScan.dfy` | when calls after the end go on reporting it; loops that stop at -1 |
| `Rotation.dfy` | the in-place block exchange and the number of swaps it takes |
| `Scanner.dfy` | class `Getopt` with the fields of the original; every call reports what `Parse` reports |
| `Rescan.dfy` | a whole scan followed by a strict scan of the rearranged argv; calling a scanner again after the end |
| `Handoff.dfy` | mutex, condition variable, flag and buffer as an interleaving transition system |
| `VectorStore.dfy` | class `Storage`, the doubling array; it refines a map from names to vectors |
| `VectorLaws.dfy` | what a client may rely on across calls |
| `LinkedList.dfy` | the heap-linked list of connected peers |
| `PeerRegistry.dfy` | what the socket server and the RPC server make of one request, their agreement, their invariants, and the registry keyed by name that both refine |
| `RegistryService.dfy` | both servers over byte streams and the heap-linked list: command, fields, reply |
| `WireLaws.dfy` | from the characters of a command to the step taken and the integer sent back |
| `Framing.dfy` | the truncating encoder, the truncating line reader and the full-message writer |

The scanner is stated against one function. `Parse(cfg, rest, cluster, regs)`
reads the elements from left to right, never moves anything, and returns a
`Run`: the events that successive calls report (code, argument, `optopt` and
`longind`), the elements accounted for, and the operands left to the caller.
`Getopt.Outlook()` is the run that is still ahead of a scanner in the middle of
its work, computed from its fields and the present argv. One call takes the
first event off the outlook; `ParseCommandLine` puts the calls together. The
laws of the command line are then proved about `Parse`.

A call's result is the datatype `Code` and not an integer, because a long option
may choose any integer as its value; `AsInt` gives the integer, and
`TheUsualLoopIsRight` says exactly when -1 is unambiguous.

A server that is asked for a directory or a file depends on what surrounds it.
`PeerRegistry.Env` says, for each request, whether the Users directory and the
user's own directory can be opened, whether entries can be made and removed,
which files were unlinked before a removal that fails, how much of a description
a write stores, and whether the client's address can be found out. All theorems
hold for every choice unless they say otherwise.

Statements of the form `hide F` in a body only keep the verifier from unfolding
`F` there.

## Where the documentation and the code differ

* `Exercise1/array.h:42-45` documents 0 for a successful get. The server answers
  with the slot of the vector (`Exercise1/server.c:145`). `GetReturnsItsSlot`
  says exactly when that is 0, `GetMayReturnOne` gives a get that returns 1, and
  the refinement takes "not -1" as success, as `Exercise1/array.c:170` does.
* The class comment promises that a permuted command line reads "just as if the
  user had typed" the options first (`LAB/gnu/getopt/Getopt.java:141-149`).
  `PermutationPreservesMeaning` proves it exactly when no option lacks its
  argument or there is no operand; `PermutationCanChangeMeaning` is `x -c`.
* The example loop of the class comment stops at the integer -1
  (`LAB/gnu/getopt/Getopt.java:93-94`). It misses the rest of a command line when
  an option without a flag has the value -1; see `TheUsualLoopIsRight`.
* After -1 a further call may report an option that stands behind "--"
  (`EndIsNotSticky`); `CallAgain` says exactly when -1 is reported again.
* "-cfoo" and "-c foo" are described as the same
  (`LAB/gnu/getopt/Getopt.java:69-74`). Under POSIX the code skips a separate
  "--"; `ArgumentsMayBeDetached` has the exact condition, `DashesMayNotBeDetached`
  a failing line.
* `-Wname` is described as equivalent to `--name`
  (`LAB/gnu/getopt/Getopt.java:207-217`). The code also leaves the name in
  `optarg` when the option is given no argument; `WordIsLongOption` has the exact
  condition and `WordLeavesItsName` a failing line.
* An option string is a list of declarations
  (`LAB/gnu/getopt/Getopt.java:124-129`), but the `;` of `W;` is accepted as an
  option letter of its own; `OptionStringMeansItsDeclarations` states both.
* `LAB/src/serverc/PeerToPeer.h:139-152` documents replies 1 and 2 for deleting
  a file. `delete_file` checks neither; `RepliesAsDocumented` says exactly when
  the reply is still the documented one, `DeletionAsksForNoConnection` is an input.
* Publishing and deleting put the path of the file into a buffer sized for the
  path of the directory (`LAB/src/serverc/PeerToPeer.c:248-256` and `:307-316`,
  `LAB/src/serverrpc/storage_server.c:174-182` and `:206-214`). `RoomForPaths`
  says by exactly how much it is short: it suffices only for an empty name. The
  theorems about these requests take the buffer to be large enough.
* `LAB/lib/auxiliary.h:36-37` gives the results of `isusr_registered` the wrong
  way round; the model follows the code (1 registered, 0 not, -1 unreadable).

## Model

| member | source | states |
|---|---|---|
| Scanner.ParseCommandLine | LAB/gnu/getopt/Getopt.java:1013-1333 | For every argv, option string, table and mode: the results of repeated calls up to the first End are those of the one-pass parser on the original argv, argv ends as the scanned elements followed by the operands, and optind is where the operands start |
| Scanner.Getopt.GetOpt | LAB/gnu/getopt/Getopt.java:1013-1333 | One resumable call from any valid state reports the first event of the run still ahead, and leaves exactly the rest of that run ahead; an unfinished call never moves argv behind optind |
| Scanner.CallAtMost | LAB/gnu/getopt/Getopt.java:1021-1170 | After any number of calls of an unfinished run the elements not yet scanned are those of the original argv in place, a half-read element's remainder is a proper suffix of argv[optind], and, after at least one call, the non-option records are ordered and within optind exactly unless a POSIX "--" forced the end with elements left |
| Rescan.RecordsMayRunAhead | LAB/gnu/getopt/Getopt.java:1318-1324 | "-c -- foo bar" under POSIX: after the first call optind is 3 and last_nonopt is 4 |
| Scanner.Getopt.constructor | LAB/gnu/getopt/Getopt.java:599-646 | A new scanner has the whole run on its argv ahead of it |
| Scanner.Getopt.Exchange | LAB/gnu/getopt/Getopt.java:787-835 | The passed options move in front of the skipped operands, both in order, the records bound exactly the operands, everything from optind on stays, and the swaps number a + b - gcd(a, b) |
| Rotation.ExchangeBlocks | LAB/gnu/getopt/Getopt.java:787-829 | The loop of swaps exchanges two adjacent blocks of any lengths, each in order, touches nothing outside, and makes exactly a + b - gcd(a, b) swaps |
| Rotation.Round | LAB/gnu/getopt/Getopt.java:795-829 | Each round keeps the final arrangement reachable, keeps the gcd of the two remaining block lengths, and makes as many swaps as the remaining range shrinks |
| Rotation.SwapRuns | LAB/gnu/getopt/Getopt.java:804-825 | The inner loops exchange two runs slot by slot, one swap for each slot |
| Rotation.ShortBottom | LAB/gnu/getopt/Getopt.java:797-812 | When the bottom block is the shorter one, swapping it with the far end of the other leaves the same rotation of a smaller range to do |
| Rotation.ShortTop | LAB/gnu/getopt/Getopt.java:813-828 | When the top block is not longer, swapping it to the bottom leaves the same rotation of a smaller range to do |
| Rotation.MovesBlocks | LAB/gnu/getopt/Getopt.java:780-786 | Read as a sequence, the rotated argv is prefix, upper block, lower block, suffix |
| Rotation.GcdIsGreatest | LAB/gnu/getopt/Getopt.java:795-829 | The number that subtractive Euclid leaves divides both block lengths and no common divisor is larger |
| Scanner.Getopt.SearchTable | LAB/gnu/getopt/Getopt.java:851-893 | The pass over the table finds what the lookup rule says: first exact name, else the only candidate, else ambiguity, with longind at the entry reported |
| Scanner.Getopt.CheckLongOption | LAB/gnu/getopt/Getopt.java:848-995 | Result, optarg, optopt, longind, optind and the handled flag after trying a long option, in every branch, are those of the pure decoder |
| Scanner.Getopt.DecodeNamed | LAB/gnu/getopt/Getopt.java:1198-1242 | -W with an attached or a separate name reports and consumes what the pure decoder says |
| Scanner.Getopt.TakeArgument | LAB/gnu/getopt/Getopt.java:1261-1329 | A required argument is the rest of the element or the next element, is missing at the end, and a POSIX "--" in its place ends the scan |
| Scanner.Getopt.TakeAttached | LAB/gnu/getopt/Getopt.java:1246-1260 | An optional argument is taken only from the same element |
| Scanner.Getopt.ShortOption | LAB/gnu/getopt/Getopt.java:1158-1332 | The first character of the cluster is decoded as a short option, and the rest of the cluster is kept for the next call |
| Scanner.Getopt.DecodeElement | LAB/gnu/getopt/Getopt.java:1100-1332 | Long first, then short: one option of the element at optind, with all fields as the pure decoder says |
| Scanner.Getopt.ListedOption | LAB/gnu/getopt/Getopt.java:1198-1332 | A listed letter is decoded by what follows its first mention in the option string: W with ';', two colons, one colon, or nothing |
| Scanner.Getopt.BringForward | LAB/gnu/getopt/Getopt.java:1030-1037 | After the exchange argv is the scanned elements, then the skipped operands, then the untouched rest |
| Scanner.Getopt.SkipOperands | LAB/gnu/getopt/Getopt.java:1030-1048 | Rearranging and skipping operands changes neither what is still to be reported nor argv behind optind |
| Scanner.Getopt.CloseAtDashes | LAB/gnu/getopt/Getopt.java:1050-1066 | "--" joins the scanned elements in front of the skipped operands, and everything after it becomes an operand |
| Scanner.Getopt.ClipRecords | LAB/gnu/getopt/Getopt.java:1025-1028 | Clipping stale records leaves the run ahead as it was |
| Scanner.Getopt.Finish | LAB/gnu/getopt/Getopt.java:1068-1078 | At the end of argv optind goes back over the skipped operands, and argv is split as the run promised |
| Scanner.Getopt.FinishAtDashes | LAB/gnu/getopt/Getopt.java:1054-1078 | A call that meets "--" reports End and leaves argv split as the run promised, optind at the operands |
| Scanner.Getopt.MeetOperand | LAB/gnu/getopt/Getopt.java:1080-1090 | A strict scan ends in front of an operand; in-order scanning reports it as 1 with the element as argument |
| Scanner.Getopt.EnterElement | LAB/gnu/getopt/Getopt.java:1092-1097 | Stripping the punctuation of an option element leaves the run ahead as it was and a non-empty text to read |
| Scanner.Getopt.ForcedEnd | LAB/gnu/getopt/Getopt.java:1018-1019 | After a POSIX "--" taken as an argument, the next call reports End and argv is already split |
| Scanner.Getopt.DecodeAndReport | LAB/gnu/getopt/Getopt.java:1092-1332 | A call that finds text in nextchar reports the next event and leaves the rest ahead |
| Scanner.ScanAll | LAB/gnu/getopt/Getopt.java:93-94 | Calling until the first End collects exactly the events of the run ahead |
| LongOptions.ExactNameWins | LAB/gnu/getopt/Getopt.java:870-877 | The first entry whose name is exactly the typed one is chosen, whatever was ambiguous before |
| LongOptions.AbbreviationRule | LAB/gnu/getopt/Getopt.java:861-910 | Without an exact name: unknown if and only if no entry starts with it, ambiguous if and only if two do, chosen if and only if exactly that one does |
| LongOptions.TableOrderIsImmaterial | LAB/gnu/getopt/Getopt.java:865-910 | With distinct names, any reordering of the table chooses the same option or gives the same refusal |
| OptionSyntax.OptionStringMeansItsDeclarations | LAB/gnu/getopt/Getopt.java:1165-1199 | Classifying a letter by the option string written for any list of declarations gives its first declaration; the ';' of "W;" counts as a plain option |
| OptionSyntax.Decode | LAB/gnu/getopt/Getopt.java:1114-1332 | One option never reports End, never uses more elements than there are, stays in its element exactly when text of it is left, and forces the end only under POSIX |
| OptionSyntax.DecodeIsLocal | LAB/gnu/getopt/Getopt.java:1114-1332 | What one option yields depends on the following elements only as far as it uses them, and an argument is missing only when argv is exhausted |
| OptionSyntax.WordIsLongOption | LAB/gnu/getopt/Getopt.java:1198-1242 | -Wname consumes and reports what --name does; optarg is the same too if and only if the option chosen is given an argument, otherwise -W leaves the name there; unknown names go to the caller |
| OptionSyntax.WordLeavesItsName | LAB/gnu/getopt/Getopt.java:1201-1231 | "-Wname" for an option without argument reports "name" as its argument, "--name" reports none |
| OptionMeaning.OptionStringChoosesOrdering | LAB/gnu/getopt/Getopt.java:603-645 | A leading '-' selects in-order scanning, '+' strict scanning, both are stripped unless they stand alone, anything else permutes or, under POSIX, is strict; an empty string counts as one blank |
| OptionMeaning.ReportedIntegers | LAB/gnu/getopt/Getopt.java:1013-1332 | The integers for every result: -1, 1, the letter, the value, 0 for a stored value, 'W', '?' for the refusals, ':' for a missing argument when the option string starts with one |
| OptionMeaning.NothingLeft | LAB/gnu/getopt/Getopt.java:1068-1078 | An exhausted argv is reported as End |
| OptionMeaning.DashesClose | LAB/gnu/getopt/Getopt.java:1050-1066 | "--" is scanned, End is reported, and all behind it are operands |
| OptionMeaning.OperandIsMet | LAB/gnu/getopt/Getopt.java:1041-1090 | An element that is empty, a lone dash, or does not start with one ends a strict scan, is set aside by a permuting one, and is reported as an argument by an in-order one |
| OptionMeaning.OperandsInOrder | LAB/gnu/getopt/Getopt.java:1080-1090 | In-order scanning reports a run of operands one by one |
| OptionMeaning.UnknownLetterIsRefused | LAB/gnu/getopt/Getopt.java:1158-1196 | A letter that is not in the option string, or ':', is refused, optopt is the letter, longind stays |
| OptionMeaning.PlainLetterIsReported | LAB/gnu/getopt/Getopt.java:1158-1170 | A listed letter followed by neither ':' nor, for W, ';' is reported without argument, and optopt and longind stay |
| OptionMeaning.LetterInside | LAB/gnu/getopt/Getopt.java:1158-1196 | The same two cases inside an element, a dash among the letters included: the rest of the element is read next |
| OptionMeaning.AttachedArgument | LAB/gnu/getopt/Getopt.java:1246-1267 | "-cTEXT" reports TEXT as the argument, required or optional |
| OptionMeaning.OptionalArgumentAbsent | LAB/gnu/getopt/Getopt.java:1246-1260 | "-c" with an optional argument reports none |
| OptionMeaning.SeparateArgument | LAB/gnu/getopt/Getopt.java:1286-1289 | "-c TEXT" reports the next element as the required argument and scans both |
| OptionMeaning.MissingArgument | LAB/gnu/getopt/Getopt.java:1268-1285 | "-c" at the end is refused as ':' or '?' by the first character of the option string, optopt is the letter |
| OptionMeaning.DashesBeforeArgument | LAB/gnu/getopt/Getopt.java:1291-1325 | Under POSIX "-c -- TEXT" reports TEXT and ends the scan, "-c --" lacks the argument with the dashes left in optarg |
| OptionMeaning.LongWithoutArgument | LAB/gnu/getopt/Getopt.java:910-989 | "--name" reports the entry's value, or stores it in its buffer, with no argument and longind at the entry |
| OptionMeaning.LongSeparateArgument | LAB/gnu/getopt/Getopt.java:953-959 | "--name arg" reports arg when one is required |
| OptionMeaning.LongAttachedArgument | LAB/gnu/getopt/Getopt.java:914-922 | "--name=arg" reports arg, empty or not, when one is taken |
| OptionMeaning.LongMissingArgument | LAB/gnu/getopt/Getopt.java:960-977 | "--name" at the end is refused as ':' or '?', optopt is the entry's value |
| OptionMeaning.LongUnwantedArgument | LAB/gnu/getopt/Getopt.java:923-951 | "--name=arg" of an option without argument is refused with the entry's value in optopt |
| OptionMeaning.LongAmbiguity | LAB/gnu/getopt/Getopt.java:892-908 | An ambiguous name is refused with optopt 0 and longind at the first entry it could mean |
| OptionMeaning.LongUnknown | LAB/gnu/getopt/Getopt.java:1123-1155 | An unknown name is refused with optopt 0 and longind -1 |
| OptionMeaning.NoTable | LAB/gnu/getopt/Getopt.java:1114-1116 | Without a table "--text" is read as the cluster "-text" |
| OptionMeaning.WordMissing | LAB/gnu/getopt/Getopt.java:1205-1222 | -W at the end is refused with 'W' in optopt |
| OptionMeaning.WordUnknown | LAB/gnu/getopt/Getopt.java:1231-1241 | -W with an unknown name, attached or separate, reports 'W' with the name as argument and longind -1 |
| OptionMeaning.WordKnown | LAB/gnu/getopt/Getopt.java:1198-1234 | -W with a known name gives the events of "--name", with the name in optarg where that has no argument |
| OptionMeaning.SingleDashIsEnough | LAB/gnu/getopt/Getopt.java:1102-1121 | With long_only, "-name" gives the events of "--name" when some entry starts with the name |
| OptionMeaning.SingleDashUnknown | LAB/gnu/getopt/Getopt.java:1123-1155 | With long_only, an unknown "-text" is refused with optopt 0, or read as a cluster with longind -1 when its first letter is listed |
| OptionMeaning.ListedLetterStaysShort | LAB/gnu/getopt/Getopt.java:1104-1116 | With long_only, "-c" of a listed letter is still the short option |
| OptionParser.RunEnds | LAB/gnu/getopt/Getopt.java:1013-1333 | Every run reports End once, as its last event, after at most the sum of max(1, length) over argv other events |
| OptionParser.StablePartition | LAB/gnu/getopt/Getopt.java:1025-1078 | Scanned elements and operands are complementary subsequences of argv in its order; a permuting scan hands back only operands and what follows the closing "--" |
| OptionParser.ScannedThenOperandsIsAPermutation | LAB/gnu/getopt/Getopt.java:1025-1078 | The final argv is a permutation of the original one |
| OptionLaws.PermutationPreservesMeaning | LAB/gnu/getopt/Getopt.java:141-149 | A strict scan of the permuted argv gives the same events, the same split and the same operands if and only if no option lacked its argument or there was no operand |
| OptionLaws.PermutationCanChangeMeaning | LAB/gnu/getopt/Getopt.java:953-977 | "x -c" with c requiring an argument: the permuted argv "-c x" takes the operand as the argument |
| OptionLaws.RescanFinds | LAB/gnu/getopt/Getopt.java:1080-1090 | Scanned elements followed by any tail that starts with an operand (or follows "--") are scanned again with the same events and exactly that tail left |
| OptionLaws.RescanSwallows | LAB/gnu/getopt/Getopt.java:953-977 | If an argument was missing, any element put behind the scanned ones changes what is reported |
| OptionLaws.PlusSelectsStrict | LAB/gnu/getopt/Getopt.java:625-645 | A '+' in front of the option string gives the same settings with strict ordering |
| EndOfScan.EndComesNext | LAB/gnu/getopt/Getopt.java:1068-1090 | Reading on from any elements reports End first if and only if nothing is left to scan or "--" is next; it then consumes nothing or exactly the "--" |
| EndOfScan.EndIsNotSticky | LAB/gnu/getopt/Getopt.java:1054-1066 | "-- -a" reports -1 and, when called again, the option a |
| Rescan.CallAgain | LAB/gnu/getopt/Getopt.java:1013-1090 | A call after -1 reports -1 again if and only if the end was forced or nothing or "--" is next among the operands left, and moves nothing if and only if the end was forced or nothing is left to scan |
| Rescan.CallOften | LAB/gnu/getopt/Getopt.java:1018-1090 | With nothing left to scan, or after a forced end, any number of further calls report -1 and change neither argv nor optind |
| OptionLaws.OpenRunLeavesOperands | LAB/gnu/getopt/Getopt.java:392-394 | Without "--" a permuting scan leaves only operands, a strict one stops at an operand, and an in-order scan leaves nothing |
| EndOfScan.TheUsualLoopSeesEverything | LAB/gnu/getopt/Getopt.java:93-118 | If no name that can be typed asks for an entry that returns -1, the integer -1 is reported at the end of a run and nowhere else |
| EndOfScan.TheUsualLoopIsRight | LAB/gnu/getopt/Getopt.java:93-118 | For every table: every run ends at the first integer -1 if and only if no name without '=' makes the lookup choose an entry without a flag and with the value -1 (the empty name counts if the entry takes an argument or "W;" is listed) |
| EndOfScan.TypeableTables | LAB/gnu/getopt/Getopt.java:865-910 | For distinct non-empty names without '=' the condition says that no entry without a flag has the value -1 |
| EndOfScan.MinusOneMisleads | LAB/gnu/getopt/Getopt.java:981-989 | The command line on which such an entry ends the loop too early |
| Rescan.ScanTwice | LAB/gnu/getopt/Getopt.java:1013-1333 | Two real scans of one array, permuting then strict: same events and same final optind if and only if no argument was missing or no operand was left; the array stays a permutation |
| Rescan.ScanInOrder | LAB/gnu/getopt/Getopt.java:626-631 | A whole scan with a leading '-' in the option string is that of the rest of the string in order; argv stays as it is, and operands alone are reported one by one before the end |
| Rescan.InOrderMovesNothing | LAB/gnu/getopt/Getopt.java:1080-1090 | Without permuting, scanned elements followed by operands are argv itself |
| CommandRewrites.ReadInParts | LAB/gnu/getopt/Getopt.java:1013-1333 | In every mode a command line may be read in two parts if the first leaves the scan unfinished: events, scanned elements and operands are those of the parts, one after the other |
| CommandRewrites.RewriteInContext | LAB/gnu/getopt/Getopt.java:1013-1333 | What may be replaced at the front of a line, whatever the registers, may be replaced after any unfinished front |
| CommandRewrites.ClusterIsItsLetters | LAB/gnu/getopt/Getopt.java:1158-1170 | At the front of a line a cluster of letters without argument equals the letters one by one |
| CommandRewrites.LetterMayBeSplitOff | LAB/gnu/getopt/Getopt.java:1158-1170 | "-xTAIL" and "-x -TAIL" give the same events and operands for a letter x without argument, whatever the tail takes |
| CommandRewrites.ClustersMayBeSpelledOut | LAB/gnu/getopt/Getopt.java:68-69 | Behind any unfinished front "-xyz" and "-x -y -z" give the same events and operands, for letters without argument, listed or not |
| CommandRewrites.ArgumentsMayBeDetached | LAB/gnu/getopt/Getopt.java:69-74 | Behind any unfinished front "-cTEXT" and "-c TEXT", c requiring an argument, give the same events and operands if and only if TEXT is not a POSIX "--" or another "--" follows |
| CommandRewrites.DashesMayNotBeDetached | LAB/gnu/getopt/Getopt.java:1291-1325 | "-c--" under POSIX takes the dashes for the argument, "-c --" lacks one |
| CommandRewrites.AttachedIsSeparate | LAB/gnu/getopt/Getopt.java:1261-1329 | The same at the front of a line, in exactly the same cases |
| CommandRewrites.LongArgumentsMayBeDetached | LAB/gnu/getopt/Getopt.java:195-200 | Behind any unfinished front "--name=arg" and "--name arg" give the same events and operands when the option chosen for name, abbreviated or not, requires an argument |
| CommandRewrites.NamesMayBeDetached | LAB/gnu/getopt/Getopt.java:210-213 | Behind any unfinished front "-Wname" and "-W name" give the same events and operands, for every name, known or not |
| CommandRewrites.LongAttachedIsSeparate | LAB/gnu/getopt/Getopt.java:914-977 | At the front of a line "--name=arg" and "--name arg" give the same events and operands when the option chosen for name, abbreviated or not, requires an argument |
| CommandRewrites.OptionalMustBeAttached | LAB/gnu/getopt/Getopt.java:74-79 | "-c" of an option with an optional argument never takes the next element: one event without argument, then the rest as if it stood alone |
| CommandRewrites.NameMayBeDetached | LAB/gnu/getopt/Getopt.java:1198-1242 | At the front of a line "-Wname" and "-W name" give the same events and operands, for every name, known or not |
| Handoff.StepKeepsInv | Exercise1/server.c:173-183 | Every step of the receiver or of any worker keeps the hand-off invariant |
| Handoff.InvAfter | Exercise1/server.c:256-269 | The invariant holds after every legal interleaving of any length |
| Handoff.CopiesAreFaithful | Exercise1/server.c:256-269 | In every interleaving: a worker past its copy holds the message it was created for, at most one worker has not returned the mutex, and when the receiver may overwrite the buffer every earlier message has been copied |
| Handoff.BufferIsStable | Exercise1/server.c:173-183 | While a worker still has to copy, the buffer is its message, it is the newest worker, the flag is set and nothing can be received |
| Handoff.MutexExcludes | LAB/src/serverc/server.c:101-108 | No two parties are ever between lock and unlock |
| Handoff.SomeStepAdvances | LAB/src/serverc/server.c:194-208 | No deadlock and no lost wakeup: until the receiver is back at receiving, some step of the hand-off other than a causeless wakeup is possible |
| Handoff.StepsComeCloser | Exercise1/server.c:173-183 | Every step of a hand-off decreases the distance to its end, a causeless wakeup adds two, a worker's exit changes nothing |
| Handoff.HandoffIsBounded | Exercise1/server.c:256-269 | However steps interleave, one hand-off takes at most Distance steps and two more for each causeless wakeup |
| Handoff.ReceiverCanBeReleased | Exercise1/server.c:263-268 | From every state of the invariant the receiver is released by hand-off steps alone |
| Handoff.EveryHandoffEnds | LAB/src/serverc/server.c:194-208 | Both facts for every reachable state, with Distance at most 12 more than the message size |
| Handoff.EveryMessageCanBeServed | Exercise1/server.c:256-269 | For every sequence of messages some interleaving receives them in order and ends with each copied by its own worker |
| Handoff.WaitersMayWake | Exercise1/server.c:264-266 | A waiting receiver may wake without a signal, which is why the flag is tested again |
| Handoff.ServedWorkersMayExit | Exercise1/server.c:184-207 | A worker that has its copy may end at any time, which changes nothing but its own state |
| VectorStore.ServeHistory | Exercise1/server.c:65-170 | Every history of client calls on a new server is answered as a map from names to integer sequences answers it; capacity is a power of two, capacity - 2 records have been moved, fewer than twice the vectors created |
| VectorStore.CallRefinesMap | Exercise1/server.c:75-170 | One call on the array of entries is the same call on the map, with the reply codes that stand for its outcome, and keeps names distinct |
| VectorStore.StoreRefinesMap | Exercise1/server.c:75-170 | The same for every history, reply by reply |
| VectorStore.Storage.FunctionSelector | Exercise1/server.c:75-170 | The in-place operation answers and changes the contents as the sequence-level request does, for any operation code and any length, and keeps the shape, the distinct names and the cost bound |
| VectorStore.Storage.FindVector | Exercise1/server.c:65-72 | The index of the first record of that name, or -1 if no record has it |
| VectorStore.Storage.MakeRoom | Exercise1/server.c:98-105 | Doubling only when full keeps every record, a power-of-two capacity and the exact number of moved records |
| VectorStore.Storage.Grow | Exercise1/server.c:99-104 | The reallocation keeps every record in place, doubles the capacity and moves exactly the records in use |
| VectorStore.Storage.ShiftDown | Exercise1/server.c:157-161 | The in-place loop leaves slot i with what was in slot i before r and in slot i + 1 from r on |
| VectorStore.Storage.Remove | Exercise1/server.c:155-163 | Shifting down removes exactly one record and keeps the others in order |
| VectorStore.Storage.SetElement | Exercise1/server.c:128-131 | Writing an element changes that element of that vector and no other |
| VectorStore.Perform | Exercise1/array.c:3-7 | A call turned down by the client's guard never reaches the store; any other is served as sent |
| VectorStore.PerformAll | Exercise1/server.c:65-170 | A history of calls on the array store gives the history of the entry sequence and counts the vectors created |
| VectorStore.GetReturnsItsSlot | Exercise1/server.c:144-145 | A successful get returns a slot index; it is 0 exactly for the vector in the first slot |
| VectorStore.GetMayReturnOne | Exercise1/server.c:144-145 | A successful get of the second vector returns 1 |
| VectorLaws.InitReplies | Exercise1/server.c:80-118 | init answers 1 for an absent name, 0 for the same size and -1 for another; only the first changes anything |
| VectorLaws.NewVectorIsZeroed | Exercise1/server.c:85-110 | After a creating init every element of the vector reads 0, indices beyond it fail, and all other vectors read as before |
| VectorLaws.SetIsRead | Exercise1/server.c:120-145 | set succeeds exactly where get does; afterwards that element reads the new value and every other element of every vector reads as before |
| VectorLaws.ReadableElements | Exercise1/server.c:135-145 | An element can be read if and only if its index is below the size, and reading changes nothing |
| VectorLaws.DestroyForgets | Exercise1/server.c:146-167 | destroy answers 1 exactly for a present name, which then is absent, and all other vectors read as before |
| VectorLaws.GuardsRefuse | Exercise1/array.c:3-7 | Names of 100 characters or more and negative numbers are answered -1 and change nothing |
| VectorLaws.PowersOfTwo | Exercise1/server.c:98-104 | What is called a power of two is one |
| LinkedList.List.AddElement | LAB/lib/LinkedList.c:25-39 | Appends one fresh node and its data, keeping the chain acyclic and all older nodes in place |
| LinkedList.List.DeleteElement | LAB/lib/LinkedList.c:40-55 | Unlinks exactly the first node of that name, the head included, and no other node's data or order changes |
| LinkedList.List.GetElements | LAB/lib/LinkedList.c:58-68 | The buffer of size slots is filled exactly with the list in order |
| LinkedList.List.FindElementByName | LAB/lib/LinkedList.c:69-79 | Found if and only if some peer of the list has that name |
| LinkedList.List.GetElementByName | LAB/lib/LinkedList.c:80-90 | The first node of that name, or null if there is none |
| LinkedList.RelinkedWithout | LAB/lib/LinkedList.c:44-50 | Redirecting one pointer leaves a well-formed chain without that node |
| PeerRegistry.ServersAgree | LAB/src/serverrpc/storage_server.c:71-224 | From equal states the two servers give equal replies and equal states if and only if the surroundings are alike to both: a condition on the directories that can be opened, the entries that can be removed and the address, spelled out for each request (path buffers taken to be large enough) |
| PeerRegistry.ServersCanDisagree | LAB/src/serverc/PeerToPeer.c:274-276 | A connected user whose own directory cannot be opened: publishing is answered 4 by one server and 3 by the other |
| PeerRegistry.ServersStayEqual | LAB/src/serverrpc/storage_server.c:71-224 | Every sequence of requests that meet such surroundings gives equal replies and equal states (path buffers taken to be large enough) |
| PeerRegistry.StepIsAsked | LAB/src/serverc/PeerToPeer.c:50-331 | With readable directories and a known address, either server, from any consistent state, does to the registry keyed by name (files and at most one connection) what the request asks, and replies as the registry does (path buffers taken to be large enough) |
| PeerRegistry.ServersRefineRegistry | LAB/src/serverc/PeerToPeer.c:50-331 | The same for every sequence of requests, reply by reply (path buffers taken to be large enough) |
| PeerRegistry.StepKeepsConsistent | LAB/src/serverc/PeerToPeer.c:129-177 | A request keeps connected names distinct and registered if and only if it is not an RPC connection of a stranger under an unreadable Users directory |
| PeerRegistry.StrangerIsAdmitted | LAB/src/serverrpc/storage_server.c:121-143 | With an unreadable Users directory the RPC server connects a name that nobody registered |
| PeerRegistry.PlayKeepsConsistent | LAB/src/serverc/PeerToPeer.c:50-331 | Every sequence of requests keeps the socket server, and the RPC server with a readable directory, consistent |
| PeerRegistry.LeavingIsComplete | LAB/src/serverc/PeerToPeer.c:89-206 | After a successful disconnection or removal the name is not connected any more, although only the first match is unlinked, and every other peer still is |
| PeerRegistry.ContentOrigin | LAB/src/serverc/PeerToPeer.c:89-285 | Whatever a user has published at the end is what a write stored of the description of some visit, and the user was neither registered nor removed since |
| PeerRegistry.RegistrationStartsEmpty | LAB/src/serverc/PeerToPeer.c:64-76 | A successful registration is of an absent name and starts from an empty directory |
| PeerRegistry.RoomForPaths | LAB/src/serverc/PeerToPeer.c:248-258 | The room the handlers set aside holds the path of every directory, and the path of a file if and only if the file's name is empty |
| PeerRegistry.RepliesAsDocumented | LAB/src/serverc/PeerToPeer.h:64-152 | When nothing fails around it, a request gets the reply the interface documents, except exactly a deletion by a stranger or a disconnected user (path buffers taken to be large enough) |
| PeerRegistry.DeletionAsksForNoConnection | LAB/src/serverc/PeerToPeer.c:289-331 | A disconnected user's file is deleted with reply 0 where 2 is documented |
| PeerRegistry.FailureChangesNothing | LAB/src/serverc/PeerToPeer.c:89-331 | A request fails and changes the state if and only if it will fail half-way: a new file whose text cannot be written, or a removal that stops behind some of the user's files |
| PeerRegistry.FailureCanUnlink | LAB/lib/auxiliary.c:26-79 | A failed unregistration that took a file with it |
| PeerRegistry.FailureCanLeaveAFile | LAB/src/serverc/PeerToPeer.c:254-267 | A failed publication that left an empty file |
| PeerRegistry.SuccessIsUndone | LAB/src/serverc/PeerToPeer.c:50-331 | From a consistent state, a registration, connection or publication that succeeded in any surroundings is taken back by its counterpart in healthy ones, which succeeds and restores the very state (a stranger let in by the RPC server excepted) (path buffers taken to be large enough) |
| PeerRegistry.PublishedTextIsKept | LAB/src/serverc/PeerToPeer.c:252-270 | A publication that succeeds adds one file, holding as many characters of the description as were written (path buffers taken to be large enough) |
| PeerRegistry.OnlyTheFileIsDeleted | LAB/src/serverc/PeerToPeer.c:313-323 | A deletion that succeeds takes away that file and nothing else (path buffers taken to be large enough) |
| PeerRegistry.ConnectionIsRecorded | LAB/src/serverc/PeerToPeer.c:154-171 | A connection that succeeds is recorded last, with the port sent and the address found, for a name not connected before |
| PeerRegistry.OthersAreUntouched | LAB/src/serverc/PeerToPeer.c:50-331 | No request changes files, registration or connection of another user (path buffers taken to be large enough) |
| PeerRegistry.UnreadableReplies | LAB/src/serverc/PeerToPeer.c:59-83 | The replies of both servers when the Users directory cannot be opened |
| PeerRegistry.UnopenableReplies | LAB/src/serverc/PeerToPeer.c:252-277 | The replies of both servers when the user's own directory cannot be opened (path buffers taken to be large enough) |
| PeerRegistry.AddressIsNeeded | LAB/src/serverc/PeerToPeer.c:159-163 | Without an address nobody is connected, and which reply is given by which server |
| RegistryService.ConnectionsAreAsked | LAB/src/serverc/server.c:101-127 | End to end, with readable directories: every sequence of connections with known commands and ordinary names, whatever their bytes and wherever they break off, leaves either server as the registry keyed by name, and each reply is the registry's, a read error or none (path buffers taken to be large enough) |
| RegistryService.ConnectionIsAsked | LAB/src/serverc/server.c:38-127 | The same for one connection, from any consistent state (path buffers taken to be large enough) |
| RegistryService.ClientsAreServed | LAB/src/serverc/server.c:101-127 | Client-encoded requests whose fields have no terminator among their first 255 bytes, with ordinary names and readable directories: each is answered as the registry answers the request made of those bytes (6 of a port) (path buffers taken to be large enough) |
| RegistryService.ClientIsServed | LAB/src/serverc/server.c:38-127 | One such client-encoded request, from any consistent state (path buffers taken to be large enough) |
| RegistryService.RequestArrives | LAB/src/clientjava/client.java:75-80 | A command and its fields as a client encodes them select the operation and fill the server's buffers with the truncated fields, in order |
| RegistryService.BrokenRequestChangesNothing | LAB/src/serverc/PeerToPeer.c:54-57 | If a field cannot be read, the reply is the error of that operation and the state is unchanged; without a command there is no reply |
| RegistryService.ServersAgreeOnTheWire | LAB/src/serverc/PeerToPeerRPC.c:32-241 | The same bytes get the same answer from both servers if and only if they break off or ask for something both treat alike (path buffers taken to be large enough) |
| RegistryService.PeerServer.RegisterUser | LAB/src/serverc/PeerToPeer.c:50-85 | Reads the name from the stream and registers it; a broken line is answered 2 and changes nothing |
| RegistryService.PeerServer.UnregisterUser | LAB/src/serverc/PeerToPeer.c:89-125 | Reads the name, empties and removes the directory as far as that goes, and unlinks the node of the heap list only on success; a broken line is answered 2 |
| RegistryService.PeerServer.ConnectUser | LAB/src/serverc/PeerToPeer.c:129-177 | Reads name and port and appends one node to the heap list; a broken line is answered 3, an unknown address too |
| RegistryService.PeerServer.DisconnectUser | LAB/src/serverc/PeerToPeer.c:181-206 | Reads the name and unlinks its node from the heap list; a broken line is answered 3 |
| RegistryService.PeerServer.PublishFile | LAB/src/serverc/PeerToPeer.c:210-285 | Reads three fields; nested guards over list and directories decide; a broken line, a failed write and an unreadable directory are answered as in the source (path buffers taken to be large enough) |
| RegistryService.PeerServer.DeleteFile | LAB/src/serverc/PeerToPeer.c:289-331 | Reads two fields; a broken line is answered 4 and changes nothing (path buffers taken to be large enough) |
| RegistryService.PeerServer.Select | LAB/src/serverc/server.c:38-99 | Built for sockets, the command's own handler serves the rest of the stream |
| RegistryService.PeerServer.SelectRpc | LAB/src/serverc/server.c:38-99 | Built for the RPC service, likewise |
| RegistryService.PeerServer.ProcessRequest | LAB/src/serverc/server.c:101-127 | One connection over the heap-linked list: the command is read, its handler reads the rest, and state and reply are those of the stream |
| RegistryService.PeerServer.ServeAll | LAB/src/serverc/server.c:101-127 | Connections served whole, one after the other, give state and replies of all the streams |
| RegistryService.PeerServer.RegisterUserRpc | LAB/src/serverrpc/storage_server.c:71-93 | Reads the name from the stream and registers it; a broken line is answered 2 and changes nothing |
| RegistryService.PeerServer.UnregisterUserRpc | LAB/src/serverrpc/storage_server.c:95-119 | Reads the name, empties and removes the directory as far as that goes, and unlinks the node of the heap list only on success; a broken line is answered 2 |
| RegistryService.PeerServer.ConnectUserRpc | LAB/src/serverrpc/storage_server.c:121-143 | Reads name and port and appends one node to the heap list; a broken line is answered 3, an unknown address too, before the user is looked up |
| RegistryService.PeerServer.DisconnectUserRpc | LAB/src/serverrpc/storage_server.c:145-160 | Reads the name and unlinks its node from the heap list; a broken line is answered 3 |
| RegistryService.PeerServer.PublishFileRpc | LAB/src/serverrpc/storage_server.c:162-201 | Reads three fields; nested guards over list and directories decide; a broken line, a failed write and an unreadable directory are answered as in the source (path buffers taken to be large enough) |
| RegistryService.PeerServer.DeleteFileRpc | LAB/src/serverrpc/storage_server.c:203-224 | Reads two fields; a broken line is answered 4 and changes nothing (path buffers taken to be large enough) |
| WireLaws.RegistrationOnTheWire | LAB/src/serverc/PeerToPeer.c:50-59 | The characters "REGISTER", NUL, user, NUL make either server take the step that registers the first 255 characters of user |
| WireLaws.UnregistrationOnTheWire | LAB/src/serverc/PeerToPeer.c:89-98 | The characters "UNREGISTER", NUL, user, NUL make either server take the step that is the unregistration of user |
| WireLaws.ConnectionOnTheWire | LAB/src/serverc/PeerToPeer.c:129-148 | "CONNECT", user and port make either server take the connection step, with six characters of the port |
| WireLaws.DisconnectionOnTheWire | LAB/src/serverc/PeerToPeer.c:181-190 | The characters "DISCONNECT", NUL, user, NUL make either server take the step that is the disconnection of user |
| WireLaws.PublicationOnTheWire | LAB/src/serverc/PeerToPeer.c:210-238 | "PUBLISH", user, file and description, in this order, make either server take the publication step (path buffers taken to be large enough) |
| WireLaws.PublicationIsStored | LAB/src/serverc/PeerToPeer.c:241-270 | In healthy surroundings "PUBLISH" makes a connected user's new file hold the first 255 characters of the description, and the reply is 0 (path buffers taken to be large enough) |
| WireLaws.DeletionOnTheWire | LAB/src/serverc/PeerToPeer.c:289-311 | "DELETE", user and file, in this order, make either server take the deletion step (path buffers taken to be large enough) |
| WireLaws.ReadErrorsOnTheWire | LAB/src/serverc/PeerToPeerRPC.c:32-217 | A command whose arguments do not all arrive is answered 2 (register, unregister), 3 (connect, disconnect) or 4 (publish, delete) and changes nothing |
| Framing.RoundTrip | LAB/lib/lines.c:42-85 | Reading one line for each field sent returns the first 255 bytes of every field and consumes exactly the fields, however reads are interrupted, if and only if no field has a NUL or newline among those bytes |
| Framing.FieldsStayAligned | LAB/lib/lines.c:71-80 | The same for readers with any positive limits, such as those of ports: a longer field is cut and the next one is still read from its start |
| Framing.CleanFieldArrives | LAB/src/clientjava/client.java:55-69 | One field whose sent part has no terminator arrives as sent and the stream stands in front of the next |
| Framing.DirtyFieldIsCut | LAB/lib/lines.c:72-75 | A field with a terminator among its first 255 bytes arrives shorter |
| Framing.LineIsCutShort | LAB/lib/lines.c:58-70 | A failure before the terminator loses the line and leaves the stream behind it; the end of the stream closes the line with the bytes so far, interruptions apart |
| Framing.ReadLine | LAB/lib/lines.c:42-85 | Return value, buffer and stream position for every sequence of bytes, interruptions, failure or end, and the argument errors |
| Framing.ParseString | LAB/src/clientjava/client.java:55-69 | The encoder sends the first 255 bytes and one NUL, whichever branch it takes |
| Framing.ReadFields | LAB/src/serverc/PeerToPeer.c:210-235 | Reading field by field gives the lines of the stream, each cut to its buffer, and succeeds if and only if none of those lines is broken, whatever comes behind them |
| Framing.LinesArrive | LAB/lib/lines.c:42-85 | All lines arrive if and only if none of them is broken, whatever their limits |
| Framing.SendMsg | LAB/lib/lines.c:4-20 | Short writes are continued until the whole message is out exactly once; on failure a prefix is out, and without a failing write there is none |

## Left out

- Sockets, POSIX queues, signals, terminal output and process start: arriving requests are inputs, replies are outputs.
- Error messages of the scanner, `opterr`, locales, and the setters `setOptind`, `setArgv`, `setOptstring`.
- The caller's flag buffers of long options: a stored value is reported as the result `Stored(flag, val)` and not written anywhere.
- A null table of long options together with "W;" in the option string: the original fails there, the model excludes it.
- Strings are sequences of characters; surrogate pairs and character encodings are not modelled.
- Interleaving inside `function_selector` and inside the socket handlers: `find_vector` is outside the lock and the list mutexes are never taken, so the properties of the stores hold for whole requests one at a time.
- Failing receives and failing thread creation in the hand-off, and the workers' later life beyond their exit.
- Allocation failures and the overflow of capacities and sizes; vector lengths and values are unbounded integers.
- `FunctionSelector`: requests that skip the client's guard for negative indices are excluded; the original reads or writes outside the vector.
- `StepIsAsked`: path buffers are taken to be large enough; the original's are short by the length of the file name (`RoomForPaths`), and what it does then is not defined.
- `ServersAgree`: publishing and deleting, in either server, are taken to have room for their paths.
- `ServersStayEqual`: under the same assumption on path buffers.
- `ServersRefineRegistry`: under the same assumption on path buffers.
- `RepliesAsDocumented`: under the same assumption on path buffers.
- `SuccessIsUndone`: under the same assumption on path buffers.
- `ConnectionsAreAsked`: under the same assumption on path buffers.
- `ConnectionIsAsked`: under the same assumption on path buffers.
- `ClientsAreServed`: under the same assumption on path buffers.
- `ClientIsServed`: under the same assumption on path buffers.
- `ServersAgreeOnTheWire`: under the same assumption on path buffers.
- `PublishedTextIsKept`: under the same assumption on path buffers.
- `OnlyTheFileIsDeleted`: under the same assumption on path buffers.
- `OthersAreUntouched`: under the same assumption on path buffers.
- `UnopenableReplies`: under the same assumption on path buffers.
- `PublicationOnTheWire`: under the same assumption on path buffers.
- `PublicationIsStored`: under the same assumption on path buffers.
- `DeletionOnTheWire`: under the same assumption on path buffers.
- `PublishFile`: under the same assumption on path buffers.
- `PublishFileRpc`: under the same assumption on path buffers.
- `DeleteFile`: under the same assumption on path buffers.
- `DeleteFileRpc`: under the same assumption on path buffers.
- Names that are empty, contain a '/', or are "." or "..", which reach outside a user's directory.
- `list_users`, `list_content` and their RPC versions, and commands that are not known, which the original answers with an indeterminate integer.
- A stream that ends before the first byte of a field: the original then works on an unset buffer.
- Failures of the RPC transport between the second server and its service; the two act as one step.
- `recieve_msg` and `writeLine`, and text with characters longer than one byte.
- Generated RPC code, the upper-case service, the Java client's commands, and the second exercise, which repeats the hand-off and the line reader.
