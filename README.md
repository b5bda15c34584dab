# nand-writer, modelled in Dafny

`nandwriter.py` provisions the NAND flash of an Allwinner A20 board:
1. It checks that `ls /dev/nand` names the NAND device and that the `mkfs.msdos` and `fdisk` tools answer.
2. It reads the device's sector count from `fdisk -l`.
3. It asks the operator for a y/n confirmation.
4. It writes the bootloader, partitions the device with `nand-part`, formats the two partitions and copies a distribution onto them.

The program judges every tool stage by searching the text it received from the tool for a fixed phrase. The sector query is decided by `int()`, the prompt by the operator's answer, and the last three stages always report success. For most tools that text comes from `commands.getoutput`: standard output and standard error merged, with one trailing newline removed. For `nand-part` it is standard output only. This model takes each tool's received text as an input string and verifies the decisions made on that text. `NandWriter.GetOutput` relates the received text to what the tool printed.

The project has four modules:

- `PyStr` (`pystr.dfy`) covers the Python 2 string built-ins the program relies on:
  - `str.find` and `in`;
  - slicing with negative and out-of-range bounds;
  - `int()` on a byte string, `str()` on an integer, and `lower()`.
- `Shlex` (`shlex.dfy`) is `shlex.split`: the POSIX-mode lexer state machine (white space, single and double quotes, backslash escapes, and the error on an unclosed quote).
- `NandWriter` (`nandwriter.dfy`) covers:
  - the partition geometry (in 512-byte sectors);
  - the sector-count parser `get_nand_sectors` and `calc_root_partition_size`;
  - the `nand-part` command line and its split into arguments;
  - the output classifiers of every stage;
  - the confirmation gate;
  - `create_nand_partitions` with its drain loop, as a method.
- `NandWriterMain` (`main.dfy`) is the `__main__` block: the checks, the sector query, the prompt, then the stages in order. It is a method proved against `FirstFailure`, the specification "the run ends at the first step, in program order, that fails".

Points where the code's behaviour is easy to misread:

- **Missing `", total "`.** `find` returns -1 and `len(", total ")` is 8, so reading starts at index 7 of the raw text (`NandWriter.PrefixMissing`).
- **Missing `" sectors"`.** `s[:-1]` drops the last character (`NandWriter.SuffixMissing`). Because `getoutput` has already removed a final newline, output that ends `", total 123"` plus a newline is read as 12, not 123 (`NandWriter.NewlineEndedCount`).
- **The partition stage's marker search.** It searches for `rereading partition table... returned 0` in the text drained while `nand-part` ran, and separately in the text read after it exited (line 105), never in the two joined. For text a pipe actually delivers this makes no difference. Every drained line ends in a newline, except a last piece cut short by the end of the output, after which every read returns "". The marker holds no newline, so it cannot straddle the two pieces (`NandWriter.PartitionsCreatedOnPipe`). Only when the two pieces are arbitrary strings, as in this model's inputs, can a split marker be missed (`NandWriter.PartitionMarkerSplitIsMissed`). Such a split cannot come from a pipe.
- **The driver check.** It runs `ls /dev/nand` through `getoutput`, which merges in `ls`'s error output. When the device node is missing, `ls` prints `ls: cannot access '/dev/nand': No such file or directory`. That message names `/dev/nand`, so the check passes without the driver (`NandWriter.LsErrorPassesDriverCheck`).
- **No lower bound on the root size.** `calc_root_partition_size` has none, so a device smaller than 67584 sectors gets a negative root size. That size is still passed to `nand-part` (`NandWriter.SmallDeviceNegativeRoot`, `NandWriter.SplitPartitionCommand`).
- **`finishing()`.** Its result is not looked at (line 255).

## Model

| member | source | states |
|---|---|---|
| PyStr.Contains | nandwriter.py:21 | Python's `p in s`: some index of `s` starts an occurrence of `p` |
| PyStr.FindFrom | nandwriter.py:63-65 | `str.find` from a start index, a left-to-right scan; its meaning is stated by `PyStr.FindFromSpec` |
| PyStr.Find | nandwriter.py:63-65 | `str.find`; its meaning is stated by `PyStr.FindSpec` |
| PyStr.FindFromSpec | nandwriter.py:63-65 | `find` from a start index returns the lowest index at or after it where the marker occurs, or -1 exactly when no occurrence starts there or later |
| PyStr.FindSpec | nandwriter.py:63-65 | `s.find(p)` is the first occurrence of `p`, and it is -1 exactly when `p in s` is false |
| PyStr.SliceIndex | nandwriter.py:64-66 | a slice bound is clamped to `0..len(s)`; a negative bound counts from the end |
| PyStr.SliceFrom | nandwriter.py:64 | Python's `s[i:]`, with the bound clamped by `PyStr.SliceIndex`; its meaning is stated by `PyStr.SliceFromSpec` |
| PyStr.SliceTo | nandwriter.py:66 | Python's `s[:j]`, with the bound clamped by `PyStr.SliceIndex`; its meaning is stated by `PyStr.SliceToSpec` |
| PyStr.SliceFromSpec | nandwriter.py:64 | `s[i:]` is the suffix of `s` from `i`, and empty when `i` is past the end |
| PyStr.SliceToSpec | nandwriter.py:66 | `s[:j]` is a prefix of `s`; `s[:-1]` drops the last character |
| PyStr.LowerStr | nandwriter.py:196 | Python 2's `str.lower()`: only `A`-`Z` change; its effect on the answer is stated by `NandWriter.ConfirmationGateAnswers` |
| PyStr.StripLeftSpec | nandwriter.py:66 | the white space `int()` skips before the number is a prefix of space characters only, and all of it: what is left is empty or starts with a non-space |
| PyStr.StripRightSpec | nandwriter.py:66 | the white space `int()` skips after the number is a suffix of space characters only, and all of it: what is left is empty or ends with a non-space |
| PyStr.StripLeftPrefix | nandwriter.py:66 | stripping white space in front of text that starts with a non-space leaves exactly that text |
| PyStr.StripRightSuffix | nandwriter.py:66 | stripping white space behind text that ends with a non-space leaves exactly that text |
| PyStr.ParseInt | nandwriter.py:66 | Python 2's `int()` on a byte string; the text it accepts and the value it gives are stated by `PyStr.ParseIntIff` |
| PyStr.ParseIntIff | nandwriter.py:66 | `int(s)` returns `v` exactly when `s` is optional white space, an optional `+` or `-`, one or more decimal digits whose value (negated after `-`) is `v`, and optional white space; every other text, such as "1 2", "--1", "1-" or "+", is a ValueError |
| PyStr.ParseIntSound | nandwriter.py:66 | every value `int()` returns comes from text of that shape |
| PyStr.ParseIntComplete | nandwriter.py:66 | every text of that shape is read as its value |
| PyStr.ParseIntPadded | nandwriter.py:66 | a signed or unsigned numeral padded by white space on both sides is read as the numeral's value |
| PyStr.ParseIntStr | nandwriter.py:66 | round trip: `int(str(n)) == n` for every integer |
| PyStr.ParseIntDigits | nandwriter.py:66 | `int()` of a run of decimal digits is its decimal value |
| PyStr.ParseIntChars | nandwriter.py:66 | any text `int()` accepts holds only digits, white space and signs; anything else raises ValueError |
| PyStr.ParseIntEmpty | nandwriter.py:66 | `int("")` raises ValueError |
| PyStr.NatStr | nandwriter.py:94-95 | Python's `str()` of a non-negative integer; its meaning is stated by `PyStr.NatStrDigits` |
| PyStr.IntStr | nandwriter.py:94-95 | Python's `str()` of an integer; its meaning is stated by `PyStr.IntStrDigits` |
| PyStr.NatStrDigits | nandwriter.py:94-95 | `str(n)` of a non-negative integer is a non-empty digit string whose decimal value is `n`, with no leading zero unless it is "0" |
| PyStr.IntStrDigits | nandwriter.py:94-95 | `str(n)` is non-empty digits, with a leading `-` exactly when `n` is negative, and with no leading zero after the sign unless `n` is 0 |
| PyStr.NatStrCanonical | nandwriter.py:94-95 | every digit string without a leading zero (or "0") is `str()` of its value, so `str(n)` is the only such string for `n` and the bytes passed to `nand-part` are fixed |
| PyStr.DropLastDigit | nandwriter.py:66 | dropping the last digit of a digit string divides its value by ten |
| PyStr.ContainsInfix | nandwriter.py:21 | `p in a + p + b` always holds |
| Shlex.Lex | nandwriter.py:97 | the POSIX-mode `shlex` state machine (white space, quotes, backslash escapes), one character per step; what it does to the command is stated by the lemmas below |
| Shlex.Split | nandwriter.py:97 | `shlex.split`: the words the lexer produces, or failure on an unclosed quote; stated by the lemmas below and `NandWriter.SplitPartitionCommand` |
| Shlex.LexPlainRun | nandwriter.py:97 | inside a word, a run of ordinary characters is copied into the word unchanged |
| Shlex.LexQuotedRun | nandwriter.py:97 | inside single quotes, every character up to the closing quote is copied unchanged |
| Shlex.SplitPlainWord | nandwriter.py:97 | a non-empty unquoted word followed by a space becomes one argument |
| Shlex.SplitQuotedWord | nandwriter.py:97 | a single-quoted word followed by a space becomes one argument without its quotes, spaces included |
| Shlex.SplitQuotedLast | nandwriter.py:97 | a single-quoted word at the end of the text becomes the last argument |
| Shlex.UnclosedQuote | nandwriter.py:97 | an unterminated single quote makes `shlex.split` fail |
| NandWriter.RootPartitionOffsetValue | nandwriter.py:10-12 | the root offset is boot offset plus boot size: 2048 + 65536 = 67584 |
| NandWriter.RootPartitionSize | nandwriter.py:83 | boot offset + boot size + root size = total; the size is negative exactly when total < 67584 and zero exactly at 67584 |
| NandWriter.ReadUpToSuffix | nandwriter.py:65-66 | `int()` of the text before the first `" sectors"`; its cases are stated by `NandWriter.FindSuffixAfterDigits` and `NandWriter.SuffixMissing` |
| NandWriter.GetNandSectors | nandwriter.py:55-66 | `get_nand_sectors` on the text `commands.getoutput` returned for `fdisk -l`; what it reads is stated by `NandWriter.GetNandSectorsReadsTotal`, `NandWriter.GetNandSectorsRoundTrip`, `NandWriter.PrefixMissing`, `NandWriter.SuffixMissing` and `NandWriter.EmptyCount` |
| NandWriter.GetOutput | nandwriter.py:60 | what `commands.getoutput` returns for what a tool printed: the same text, minus one final newline exactly when the text ends in one |
| NandWriter.CountWithoutSuffix | nandwriter.py:60-66 | when the text after `", total "` holds no space, and so no `" sectors"`, the count is read from that text minus its last character |
| NandWriter.PrintedCountReadWhole | nandwriter.py:60-66 | a count followed by a newline and nothing else is read whole |
| NandWriter.ReceivedCountLosesDigit | nandwriter.py:60-66 | a count at the very end of the received text loses its last digit: the value read is the count divided by ten, and a one-digit count is a ValueError |
| NandWriter.NewlineEndedCount | nandwriter.py:60-66 | for `fdisk` output ending in the count and a newline, the printed text would give the whole count, but the text `getoutput` returns gives the count divided by ten (a ValueError for one digit) |
| NandWriter.CalcRootPartitionSize | nandwriter.py:78-83 | fails exactly when the sector query fails; otherwise the geometry adds up to the sectors read |
| NandWriter.FindPrefixAfter | nandwriter.py:63 | text with no earlier `", total "` finds the marker at the join, even where an earlier partial match overlaps it |
| NandWriter.FindSuffixAfterDigits | nandwriter.py:65 | after a digit string, the first `" sectors"` is right after the digits |
| NandWriter.GetNandSectorsReadsTotal | nandwriter.py:60-66 | for output `pre + ", total " + digits + " sectors" + post` with no `", total "` in `pre`, the parser returns the digits' value, whatever `pre` and `post` hold (including other " sectors") |
| NandWriter.GetNandSectorsRoundTrip | nandwriter.py:60-66 | the count `fdisk` prints as `str(n)` is the count read back |
| NandWriter.SmallDeviceNegativeRoot | nandwriter.py:78-83 | a device reporting fewer than 67584 sectors gets a negative root size; nothing rejects it |
| NandWriter.PrefixMissing | nandwriter.py:63-64 | without `", total "`, reading starts at index 7 of the raw text; text of 7 characters or fewer is a ValueError |
| NandWriter.SuffixMissing | nandwriter.py:65-66 | without `" sectors"`, the number is read from the rest of the text minus its last character |
| NandWriter.EmptyCount | nandwriter.py:60-66 | nothing between the two markers is a ValueError |
| NandWriter.PartitionCommand | nandwriter.py:94-95 | the `nand-part` command string; its shape is stated by `NandWriter.PartitionCommandWords` |
| NandWriter.PartitionArgv | nandwriter.py:97 | the seven arguments `nand-part` is started with; that they are the split command is stated by `NandWriter.SplitPartitionCommand` |
| NandWriter.IntStrPlain | nandwriter.py:94-95 | `str()` of an integer has no quote, space or backslash, so the lexer copies it unchanged |
| NandWriter.PartitionCommandWords | nandwriter.py:94-95 | the command string is the four fixed words, the offset, and the two quoted partition descriptions, separated by single spaces |
| NandWriter.SplitFixedWords | nandwriter.py:94-97 | the fixed prefix of the command splits into `nand-part`, `-f`, `a20`, `/dev/nand` |
| NandWriter.SplitSizeWords | nandwriter.py:94-97 | the offset and the two quoted descriptions split into exactly three arguments |
| NandWriter.SplitPartitionCommand | nandwriter.py:94-97 | for all three integers, negative ones included, the split command is exactly `[nand-part, -f, a20, /dev/nand, str(offset), "boot "+str(bootSize), "root "+str(rootSize)]` |
| NandWriter.NandDriverPresent | nandwriter.py:20-22 | the driver check: the `ls` output names `/dev/nand`; stated by `NandWriter.DriverCheckAcceptsMarker` and `NandWriter.LsErrorPassesDriverCheck` |
| NandWriter.CheckDependences | nandwriter.py:31-52 | succeeds exactly when both probes print their phrase; reports mkfs.msdos missing exactly when its phrase is absent |
| NandWriter.DependencesStopAtFirstMiss | nandwriter.py:36-43 | once `mkfs.fat` is missing, the fdisk probe's output makes no difference |
| NandWriter.BootloaderWritten | nandwriter.py:115-118 | `dd` succeeded when `copied` occurs in its output; stated by `NandWriter.StageClassifiersAcceptMarker` |
| NandWriter.BootPartitionFormatted | nandwriter.py:126-129 | `mkfs.msdos -F16` succeeded when `using default` occurs in its output; stated by `NandWriter.StageClassifiersAcceptMarker` |
| NandWriter.RootPartitionFormatted | nandwriter.py:137-140 | `mkfs.ext4` succeeded when `done` occurs in its output; stated by `NandWriter.StageClassifiersAcceptMarker` |
| NandWriter.PartitionsCreated | nandwriter.py:105-107 | `nand-part` succeeded when the marker occurs in the trailing text or in the drained text, each searched on its own; stated by `NandWriter.PartitionsCreatedAcceptsMarker`, `NandWriter.PartitionsCreatedInJoined` and `NandWriter.PartitionsCreatedOnPipe` |
| NandWriter.DriverCheckAcceptsMarker | nandwriter.py:20-22 | any `ls` output containing `/dev/nand` passes the driver check |
| NandWriter.LsErrorPassesDriverCheck | nandwriter.py:20-22 | `ls`'s own error for a missing `/dev/nand`, which `getoutput` merges into the output, passes the driver check |
| NandWriter.PartitionsCreatedAcceptsMarker | nandwriter.py:105-106 | the marker anywhere in either piece of `nand-part`'s output is a success |
| NandWriter.StageClassifiersAcceptMarker | nandwriter.py:110-140 | `dd`, `mkfs.msdos` and `mkfs.ext4` succeed on any output containing `copied`, `using default` and `done` respectively |
| NandWriter.PartitionsCreatedInJoined | nandwriter.py:105 | whenever the separate searches succeed, the joined output contains the marker |
| NandWriter.PartitionMarkerSplitIsMissed | nandwriter.py:105 | for arbitrary pieces the converse fails: a marker split across them is in the joined text but is not found; those pieces are not what a pipe delivers |
| NandWriter.PipeReads | nandwriter.py:102-104 | what `readline` and `read` can deliver from a pipe: every line ends in a newline except a last piece cut short by the end of the output, after which every line and the final `read` are empty |
| NandWriter.PartitionsCreatedOnPipe | nandwriter.py:101-105 | for lines and trailing text as a pipe delivers them, the separate searches succeed exactly when the joined output contains the marker |
| NandWriter.NoStraddle | nandwriter.py:105 | a text without a newline, found in a joined text whose first part ends in a newline, is found in one of the parts |
| NandWriter.OccurrenceSides | nandwriter.py:105 | each such occurrence lies wholly in the first part or wholly in the second |
| NandWriter.ConfirmationGate | nandwriter.py:193-210 | the check on the answer: one character, lowered, then `y` goes on and `n` cancels; its answers are stated by `NandWriter.ConfirmationGateAnswers` |
| NandWriter.ConfirmationGateAnswers | nandwriter.py:193-210 | only "y"/"Y" proceeds and only "n"/"N" cancels; the empty answer, "yes" and everything else is invalid |
| NandWriter.LineMarkerSeen | nandwriter.py:101-105 | a marker on any single drained line is in the drained text |
| NandWriter.Concat | nandwriter.py:101-103 | the drained lines joined in order; the loop's result is stated by `NandWriter.DrainOutput` |
| NandWriter.DrainOutput | nandwriter.py:101-103 | the loop leaves `dummy` equal to every drained line, in order, joined |
| NandWriter.CreateNandPartitions | nandwriter.py:86-107 | `nand-part` is started with the seven arguments above; it succeeds exactly when the marker is in the trailing text or in the drained text, and always when one drained line holds it; on pipe-shaped output it succeeds exactly when the whole output holds the marker |
| NandWriter.InitTransferOk | nandwriter.py:143-155 | `init_transfer` always reports success |
| NandWriter.CopyDistroToNandOk | nandwriter.py:158-167 | `copy_distro_to_nand` always reports success |
| NandWriter.FinishingOk | nandwriter.py:170-179 | `finishing` always reports success |
| NandWriterMain.Attempted | nandwriter.py:184-255 | the steps a run attempted are the fixed step order, cut off at the step it ended on, which is the last |
| NandWriterMain.FirstFailure | nandwriter.py:184-256 | the step a run ends at; its meaning is stated by `NandWriterMain.FirstFailureStops` and `NandWriterMain.FirstFailureUnique` |
| NandWriterMain.Succeeds | nandwriter.py:184-256 | the check the program makes for each step: the driver phrase, the two probe phrases in order, a readable sector count, the answer "y"/"Y", each stage's phrase; the last three stages always succeed |
| NandWriterMain.StopsAt | nandwriter.py:184-256 | a run ends at a step when every earlier step succeeded and that step failed or is `finishing` |
| NandWriterMain.StopsAtUnique | nandwriter.py:184-256 | a run can end at only one step: two steps that both satisfy "every earlier step succeeded and this one failed or is last" are equal |
| NandWriterMain.FirstStageFailure | nandwriter.py:212-255 | the stages after the prompt never end the run at `init_transfer` or `copy_distro_to_nand` |
| NandWriterMain.FirstFailureStops | nandwriter.py:184-256 | every step before the one the run ends at succeeded, and that step failed unless it is `finishing` |
| NandWriterMain.FirstFailureUnique | nandwriter.py:184-256 | every step that satisfies that description is the step the run ends at |
| NandWriterMain.CompletesIffAllChecksPass | nandwriter.py:184-256 | the run reaches `finishing` exactly when every step's check succeeds |
| NandWriterMain.NoWriteBeforeConsent | nandwriter.py:184-210 | a run that gets past the prompt had `/dev/nand` in the `ls` output, both probe phrases, a readable sector count and the answer "y" or "Y" |
| NandWriterMain.Preflight | nandwriter.py:184-210 | the checks and prompt go on exactly when the first failure lies after the prompt; otherwise they stop at that failure; on going on, the root size is the one computed from `fdisk`; the steps recorded are `Attempted` of the last one |
| NandWriterMain.Deploy | nandwriter.py:212-255 | the stages stop at the first stage that fails; `nand-part` is started with the fixed boot geometry and the given root size exactly when the bootloader was written; the steps recorded are `Attempted` of the last one |
| NandWriterMain.Run | nandwriter.py:182-256 | the run ends at `FirstFailure`; it completes exactly when it reaches `finishing`, and is canceled exactly on "n"/"N" at the prompt; `nand-part` is started, with the root size from `fdisk`, only after the bootloader was written; the steps recorded, in order, are `Attempted(last)` |
| NandWriterMain.BootloaderFailureSkipsPartitioning | nandwriter.py:212-217 | a `dd` that does not print `copied` ends the run before `nand-part` |
| NandWriterMain.RefusedAnswerTouchesNothing | nandwriter.py:193-210 | any answer other than "y"/"Y" ends the run at the prompt or earlier, and at the prompt it is a cancellation exactly for "n"/"N" |

## Left out

- Running the tools (`commands.getoutput`, `os.system`, `subprocess.Popen`): each tool is represented by the text the program received from it, a field of `ToolOutputs`. For `getoutput` that is standard output and standard error merged, minus one trailing newline (`NandWriter.GetOutput`); the interleaving of the two streams is not modelled.
- The 0.2-second sleep, the "Y" written to `nand-part`'s stdin, and the timing of `poll`/`readline`: the drained lines and the trailing text are inputs.
- `convert_to_mega_bytes` and the printed MB figures: floating point, only ever printed.
- The console messages and the `exit(0)` calls: a run's end is the step `Run` returns and its `Outcome`.
- The effects of `mkdir`, `mount`, `rm`, `tar`, `cp`, `sync` and `umount` on the file system: the stages are modelled by the values they return.
- `get_nand_sectors` is called twice, once directly and once inside `calc_root_partition_size`. Both calls read the same `fdisk -l` output here.
- NandWriterMain.Run: a `ValueError` from `int()` is an uncaught exception in the program. Here it is a run that ends at the sector query with outcome `Aborted`.
- PyStr.ParseInt: Python 2's `int()` also accepts white space between the sign and the digits ("- 1"), which the model rejects. `fdisk` prints no sign.
- Shlex.Split: covers only what `shlex.split` does with comments off and `whitespace_split` on. The lexer's other modes are not modelled.
- Byte strings: Python 2's `str` is a byte string. Each `char` of the model stands for one byte (a code point from 0 to 255). A non-ASCII character in a tool's output, such as the `é` of `", total 123é"` or `"ééé1234"`, arrives as several bytes and so is several `char`s of the model's input, one per byte; the model's strings are the bytes the program reads, not decoded text. The offset 7 and the `[:-1]` of `get_nand_sectors` count bytes.
- `convert_to_mega_bytes` overflow: `sector_size` is the float `512.0`, so converting a sector count of about 2^1024 or more raises `OverflowError` at line 189, after the sector query and before the prompt. The model lets such a run reach the prompt.
- `raw_input` at the end of its input raises `EOFError` at line 193. The model takes the answer as a string and has no end-of-input case.
- `isinstance(option, str)` always holds for what `raw_input` returns: the answer is a string.
